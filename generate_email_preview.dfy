/**
  The preview-stub generator of react-email's `generate-email-preview.ts`.

  `createEmailPreviews` wipes the preview package's emails directory,
  lists the `.jsx`/`.tsx` templates below the user's emails directory and,
  for each one, writes a two-line module at the mirrored location that
  imports the template through a relative path and re-exports it:

      import Mail from '<relative path to the template, no extension>';
      export default Mail;

  The filesystem is a table from path strings to file contents; the
  preview package's emails directory (a constant in the source) is the
  parameter `targetRoot`.
 */
module EmailPreview {
  import opened JsString
  import opened PosixPath

  // ---------------------------------------------------------------------
  // Discovery: the glob pattern `**` then `*.{jsx,tsx}` below emailDir

  /** A name glob's `*` does not match by default: one that starts with a dot. */
  predicate IsHidden(name: string)
  {
    |name| > 0 && name[0] == '.'
  }

  /** A name `*.{jsx,tsx}` matches. */
  predicate IsTemplateName(name: string)
  {
    |name| > 4 && !IsHidden(name) && '/' !in name &&
    (name[|name| - 4..] == ".jsx" || name[|name| - 4..] == ".tsx")
  }

  /**
    Whether glob's pattern (emailDir, then `**`, then `*.{jsx,tsx}`) matches the absolute path `path`:
    it lies below `emailDir` at any depth, no directory on the way is
    hidden, and its name is a template name.
   */
  predicate MatchesTemplatePattern(emailDir: string, path: string)
  {
    var d := Resolve(emailDir);
    var q := Resolve(path);
    |d| < |q| && q[..|d|] == d &&
    (forall i :: |d| <= i < |q| - 1 ==> !IsHidden(q[i])) &&
    IsTemplateName(q[|q| - 1])
  }

  /**
    `glob.sync` over the paths `walk` visits (absolute, in glob's order):
    the ones that match the template pattern, in the same order.
   */
  function Glob(emailDir: string, walk: seq<string>): (list: seq<string>)
    ensures forall p :: p in list <==> p in walk && MatchesTemplatePattern(emailDir, p)
    ensures |list| <= |walk|
  {
    if walk == [] then []
    else
      var rest := Glob(emailDir, walk[..|walk| - 1]);
      var p := walk[|walk| - 1];
      assert forall x :: x in walk <==> x in walk[..|walk| - 1] || x == p by {
        assert walk == walk[..|walk| - 1] + [p];
      }
      if MatchesTemplatePattern(emailDir, p) then rest + [p] else rest
  }

  // ---------------------------------------------------------------------
  // One stub

  /** `absoluteSrcFilePath.split('/').pop()` */
  function FileName(src: string): string
  {
    Last(Split(src, '/'))
  }

  /** `path.join(targetRoot, absoluteSrcFilePath.replace(emailDir, ''))` */
  function TargetFile(targetRoot: string, emailDir: string, src: string): string
  {
    Join(targetRoot, ReplaceFirst(src, emailDir, ""))
  }

  /** `path.relative(path.dirname(targetFile), path.dirname(absoluteSrcFilePath))` */
  function ImportPath(targetFile: string, src: string): string
  {
    Relative(Dirname(targetFile), Dirname(src))
  }

  /** The first value of `importFile`: `path.join(importPath, fileName)`. */
  function ImportWithExtension(targetFile: string, src: string): string
  {
    Join(ImportPath(targetFile, src), FileName(src))
  }

  /** `importFile.replace(path.extname(importFile), '')`: the first occurrence of the extension text goes. */
  function StripExtension(importFile: string): string
  {
    ReplaceFirst(importFile, Extname(importFile), "")
  }

  /** The final value of `importFile`. */
  function ImportFile(targetFile: string, src: string): string
  {
    StripExtension(ImportWithExtension(targetFile, src))
  }

  /** `` `import Mail from '${importFile}';export default Mail;`.replace(';', ';\n') `` */
  function SourceCode(importFile: string): string
  {
    ReplaceFirst("import Mail from '" + importFile + "';export default Mail;", ";", ";\n")
  }

  /** The stub text the generator writes for `src`. */
  function StubText(targetRoot: string, emailDir: string, src: string): string
  {
    SourceCode(ImportFile(TargetFile(targetRoot, emailDir, src), src))
  }

  /** The extension text `extname` finds in a template name. */
  function TemplateExtension(name: string): string
    requires IsTemplateName(name)
  {
    name[|name| - 4..]
  }

  // ---------------------------------------------------------------------
  // The whole run

  /** `path` is `root` or lies below it, so `rm -r root` deletes it. */
  predicate Under(root: string, path: string)
  {
    var r := Resolve(root);
    var q := Resolve(path);
    |r| <= |q| && q[..|r|] == r
  }

  /** The files left after `fs.promises.rm(root, { recursive: true })`. */
  function Wipe(files: map<string, string>, root: string): map<string, string>
  {
    map k | k in files && !Under(root, k) :: files[k]
  }

  /** Removing a directory under which nothing lies changes nothing. */
  lemma WipeAbsent(files: map<string, string>, root: string)
    requires !exists k :: k in files && Under(root, k)
    ensures Wipe(files, root) == files
  {
  }

  /** The writes of the loop, one per listed template, in order; a later write to the same path wins. */
  function Stubs(targetRoot: string, emailDir: string, list: seq<string>): (m: map<string, string>)
    ensures m.Keys == set src | src in list :: TargetFile(targetRoot, emailDir, src)
  {
    if list == [] then map[]
    else
      var init := list[..|list| - 1];
      var src := list[|list| - 1];
      assert list == init + [src];
      Stubs(targetRoot, emailDir, init)[TargetFile(targetRoot, emailDir, src) := StubText(targetRoot, emailDir, src)]
  }

  /** The filesystem after `createEmailPreviews`. */
  function AfterPreviews(files: map<string, string>, targetRoot: string, emailDir: string, walk: seq<string>)
    : map<string, string>
  {
    Wipe(files, targetRoot) + Stubs(targetRoot, emailDir, Glob(emailDir, walk))
  }

  /** One more template adds one more write. */
  lemma StubsStep(targetRoot: string, emailDir: string, list: seq<string>, i: nat)
    requires i < |list|
    ensures Stubs(targetRoot, emailDir, list[..i + 1])
      == Stubs(targetRoot, emailDir, list[..i])[TargetFile(targetRoot, emailDir, list[i]) := StubText(targetRoot, emailDir, list[i])]
  {
    assert list[..i + 1][..i] == list[..i];
  }

  /** Writing over a map overlay writes into its upper layer. */
  lemma OverlayUpdate(lower: map<string, string>, upper: map<string, string>, k: string, v: string)
    ensures (lower + upper)[k := v] == lower + upper[k := v]
  {
  }

  /** The filesystem: file contents by path. */
  class FileTable {
    var files: map<string, string>

    constructor (files: map<string, string>)
      ensures this.files == files
    {
      this.files := files;
    }
  }

  /**
    `createEmailPreviews(emailDir)`: remove the target directory if it
    exists, list the templates (`walk` stands for the directory walk glob
    performs), then write one stub per template.
   */
  method CreateEmailPreviews(fs: FileTable, targetRoot: string, emailDir: string, walk: seq<string>)
    modifies fs
    ensures fs.files == AfterPreviews(old(fs.files), targetRoot, emailDir, walk)
  {
    var hasEmailsDirectory := exists k :: k in fs.files && Under(targetRoot, k);
    if hasEmailsDirectory {
      fs.files := Wipe(fs.files, targetRoot);
    } else {
      WipeAbsent(fs.files, targetRoot);
    }
    ghost var wiped := fs.files;
    var list := Glob(emailDir, walk);
    for i := 0 to |list|
      invariant fs.files == wiped + Stubs(targetRoot, emailDir, list[..i])
    {
      var absoluteSrcFilePath := list[i];
      var fileName := FileName(absoluteSrcFilePath);
      var targetFile := Join(targetRoot, ReplaceFirst(absoluteSrcFilePath, emailDir, ""));
      var importPath := Relative(Dirname(targetFile), Dirname(absoluteSrcFilePath));
      var importFile := Join(importPath, fileName);
      importFile := ReplaceFirst(importFile, Extname(importFile), "");
      var sourceCode := SourceCode(importFile);
      assert sourceCode == StubText(targetRoot, emailDir, list[i]);
      StubsStep(targetRoot, emailDir, list, i);
      OverlayUpdate(wiped, Stubs(targetRoot, emailDir, list[..i]), targetFile, sourceCode);
      fs.files := fs.files[targetFile := sourceCode];
    }
    assert list[..|list|] == list;
  }

  // ---------------------------------------------------------------------
  // Properties of the whole run

  /**
    The run's paths are plain absolute paths: the target root, the emails
    directory and every path the walk yields (glob's `absolute` option
    gives such paths).
   */
  predicate CanonicalRun(targetRoot: string, emailDir: string, walk: seq<string>)
  {
    Canonical(targetRoot) && Canonical(emailDir) && forall p :: p in walk ==> Canonical(p)
  }

  /**
    Mirroring on plain absolute paths: the stub path is the target root
    followed by the template's segments below the emails directory.
   */
  lemma MirrorCanonical(targetRoot: string, emailDir: string, src: string)
    requires Canonical(targetRoot) && Canonical(emailDir) && Canonical(src)
    requires MatchesTemplatePattern(emailDir, src)
    ensures var rel := Resolve(src)[|Resolve(emailDir)|..];
      rel != [] && AllSegments(rel) &&
      TargetFile(targetRoot, emailDir, src) == Render(Resolve(targetRoot) + rel) &&
      Resolve(TargetFile(targetRoot, emailDir, src)) == Resolve(targetRoot) + rel
  {
    var r := Resolve(targetRoot);
    var d := Resolve(emailDir);
    var q := Resolve(src);
    var rel := q[|d|..];
    ResolveSegments(targetRoot);
    ResolveSegments(emailDir);
    ResolveSegments(src);
    SegmentsSlice(q, |d|, |q|);
    assert q == d + rel by {
      assert q[..|d|] + q[|d|..] == q;
    }
    TargetFileMirrors(r, d, rel);
    SegmentsConcat(r, rel);
    ResolveRender(r + rel);
  }

  /** Every stub lies strictly below the target root. */
  lemma TargetUnderRoot(targetRoot: string, emailDir: string, src: string)
    requires Canonical(targetRoot) && Canonical(emailDir) && Canonical(src)
    requires MatchesTemplatePattern(emailDir, src)
    ensures Under(targetRoot, TargetFile(targetRoot, emailDir, src))
    ensures Resolve(TargetFile(targetRoot, emailDir, src)) != Resolve(targetRoot)
  {
    var r := Resolve(targetRoot);
    var rel := Resolve(src)[|Resolve(emailDir)|..];
    MirrorCanonical(targetRoot, emailDir, src);
    assert (r + rel)[..|r|] == r;
  }

  /** Distinct templates get distinct stubs, so no stub overwrites another. */
  lemma TargetsDistinct(targetRoot: string, emailDir: string, src1: string, src2: string)
    requires Canonical(targetRoot) && Canonical(emailDir) && Canonical(src1) && Canonical(src2)
    requires MatchesTemplatePattern(emailDir, src1) && MatchesTemplatePattern(emailDir, src2)
    ensures TargetFile(targetRoot, emailDir, src1) == TargetFile(targetRoot, emailDir, src2) <==> src1 == src2
  {
    var r := Resolve(targetRoot);
    var d := Resolve(emailDir);
    var q1, q2 := Resolve(src1), Resolve(src2);
    var rel1, rel2 := q1[|d|..], q2[|d|..];
    MirrorCanonical(targetRoot, emailDir, src1);
    MirrorCanonical(targetRoot, emailDir, src2);
    if TargetFile(targetRoot, emailDir, src1) == TargetFile(targetRoot, emailDir, src2) {
      CancelPrefix(r, rel1, rel2);
      PrefixThenRest(q1, d);
      PrefixThenRest(q2, d);
      assert src1 == Render(q1) && src2 == Render(q2);
    }
  }

  lemma CancelPrefix(r: seq<string>, a: seq<string>, b: seq<string>)
    requires r + a == r + b
    ensures a == b
  {
    assert a == (r + a)[|r|..] && b == (r + b)[|r|..];
  }

  lemma PrefixThenRest(q: seq<string>, d: seq<string>)
    requires |d| <= |q| && q[..|d|] == d
    ensures q == d + q[|d|..]
  {
    assert q[..|d|] + q[|d|..] == q;
  }

  /** No two listed templates share a stub path. */
  predicate DistinctTargets(targetRoot: string, emailDir: string, list: seq<string>)
  {
    forall x, y :: x in list && y in list && TargetFile(targetRoot, emailDir, x) == TargetFile(targetRoot, emailDir, y) ==> x == y
  }

  /** When no two templates share a stub path, each stub holds its own template's text. */
  lemma {:induction false} StubsValue(targetRoot: string, emailDir: string, list: seq<string>, src: string)
    requires src in list && DistinctTargets(targetRoot, emailDir, list)
    ensures var m := Stubs(targetRoot, emailDir, list);
      TargetFile(targetRoot, emailDir, src) in m && m[TargetFile(targetRoot, emailDir, src)] == StubText(targetRoot, emailDir, src)
    decreases |list|
  {
    var init := list[..|list| - 1];
    var last := list[|list| - 1];
    if src == last {
      StubsLast(targetRoot, emailDir, list);
    } else {
      StubsEarlier(targetRoot, emailDir, list, src);
      StubsValue(targetRoot, emailDir, init, src);
      StubsKeep(targetRoot, emailDir, list, TargetFile(targetRoot, emailDir, src));
    }
  }

  /** The last template's write is the last one. */
  lemma StubsLast(targetRoot: string, emailDir: string, list: seq<string>)
    requires |list| > 0
    ensures var src := list[|list| - 1]; var m := Stubs(targetRoot, emailDir, list);
      TargetFile(targetRoot, emailDir, src) in m && m[TargetFile(targetRoot, emailDir, src)] == StubText(targetRoot, emailDir, src)
  {
  }

  /** A write to another path keeps what an earlier template wrote. */
  lemma StubsKeep(targetRoot: string, emailDir: string, list: seq<string>, k: string)
    requires |list| > 0 && k != TargetFile(targetRoot, emailDir, list[|list| - 1])
    requires k in Stubs(targetRoot, emailDir, list[..|list| - 1])
    ensures k in Stubs(targetRoot, emailDir, list)
    ensures Stubs(targetRoot, emailDir, list)[k] == Stubs(targetRoot, emailDir, list[..|list| - 1])[k]
  {
  }

  /** A template before the last one is in the shorter list, whose targets stay distinct, and its target is not the last one's. */
  lemma StubsEarlier(targetRoot: string, emailDir: string, list: seq<string>, src: string)
    requires src in list && src != list[|list| - 1] && DistinctTargets(targetRoot, emailDir, list)
    ensures src in list[..|list| - 1]
    ensures DistinctTargets(targetRoot, emailDir, list[..|list| - 1])
    ensures TargetFile(targetRoot, emailDir, src) != TargetFile(targetRoot, emailDir, list[|list| - 1])
  {
    assert list == list[..|list| - 1] + [list[|list| - 1]];
    DistinctTargetsPrefix(targetRoot, emailDir, list, |list| - 1);
  }

  lemma DistinctTargetsPrefix(targetRoot: string, emailDir: string, list: seq<string>, i: nat)
    requires i <= |list| && DistinctTargets(targetRoot, emailDir, list)
    ensures DistinctTargets(targetRoot, emailDir, list[..i])
  {
    var init := list[..i];
    forall x, y | x in init && y in init && TargetFile(targetRoot, emailDir, x) == TargetFile(targetRoot, emailDir, y)
      ensures x == y
    {
      assert x in list && y in list;
    }
  }

  /** The templates glob lists never share a stub path. */
  lemma GlobTargetsDistinct(targetRoot: string, emailDir: string, walk: seq<string>)
    requires CanonicalRun(targetRoot, emailDir, walk)
    ensures DistinctTargets(targetRoot, emailDir, Glob(emailDir, walk))
  {
    var list := Glob(emailDir, walk);
    forall x, y | x in list && y in list && TargetFile(targetRoot, emailDir, x) == TargetFile(targetRoot, emailDir, y)
      ensures x == y
    {
      TargetsDistinct(targetRoot, emailDir, x, y);
    }
  }

  /** Every stub written lies below the target root. */
  lemma StubsUnderRoot(targetRoot: string, emailDir: string, walk: seq<string>)
    requires CanonicalRun(targetRoot, emailDir, walk)
    ensures forall k :: k in Stubs(targetRoot, emailDir, Glob(emailDir, walk)) ==> Under(targetRoot, k)
  {
    var list := Glob(emailDir, walk);
    forall k | k in Stubs(targetRoot, emailDir, list) ensures Under(targetRoot, k) {
      var src :| src in list && k == TargetFile(targetRoot, emailDir, src);
      TargetUnderRoot(targetRoot, emailDir, src);
    }
  }

  /**
    Cleanup and completeness: after the run, the files below the target
    root are exactly the stubs of the templates the walk finds, with no
    stale entry left, and each holds its template's stub text.
   */
  lemma PreviewsExact(files: map<string, string>, targetRoot: string, emailDir: string, walk: seq<string>)
    requires CanonicalRun(targetRoot, emailDir, walk)
    ensures var after := AfterPreviews(files, targetRoot, emailDir, walk);
      forall k :: Under(targetRoot, k) ==>
        (k in after <==> exists src :: src in walk && MatchesTemplatePattern(emailDir, src) && k == TargetFile(targetRoot, emailDir, src))
    ensures var after := AfterPreviews(files, targetRoot, emailDir, walk);
      forall src :: src in walk && MatchesTemplatePattern(emailDir, src) ==>
        TargetFile(targetRoot, emailDir, src) in after &&
        after[TargetFile(targetRoot, emailDir, src)] == StubText(targetRoot, emailDir, src)
  {
    var list := Glob(emailDir, walk);
    var stubs := Stubs(targetRoot, emailDir, list);
    GlobTargetsDistinct(targetRoot, emailDir, walk);
    forall src | src in walk && MatchesTemplatePattern(emailDir, src)
      ensures TargetFile(targetRoot, emailDir, src) in stubs
      ensures stubs[TargetFile(targetRoot, emailDir, src)] == StubText(targetRoot, emailDir, src)
    {
      StubsValue(targetRoot, emailDir, list, src);
    }
  }

  /** Files outside the target root are neither added, removed nor changed. */
  lemma OutsideRootUntouched(files: map<string, string>, targetRoot: string, emailDir: string, walk: seq<string>)
    requires CanonicalRun(targetRoot, emailDir, walk)
    ensures var after := AfterPreviews(files, targetRoot, emailDir, walk);
      forall k :: !Under(targetRoot, k) ==> (k in after <==> k in files) && (k in files ==> after[k] == files[k])
  {
    StubsUnderRoot(targetRoot, emailDir, walk);
  }

  /**
    Running the generator a second time over the same templates changes
    nothing, for any paths: the second wipe may keep stubs that lie outside
    the root, but the second round of writes overwrites them with the same
    text.
   */
  lemma PreviewsIdempotent(files: map<string, string>, targetRoot: string, emailDir: string, walk: seq<string>)
    ensures AfterPreviews(AfterPreviews(files, targetRoot, emailDir, walk), targetRoot, emailDir, walk)
      == AfterPreviews(files, targetRoot, emailDir, walk)
  {
    WipeThenWrite(files, targetRoot, Stubs(targetRoot, emailDir, Glob(emailDir, walk)));
  }

  /** Wiping and writing the same files a second time gives the same table. */
  lemma WipeThenWrite(files: map<string, string>, root: string, writes: map<string, string>)
    ensures Wipe(Wipe(files, root) + writes, root) + writes == Wipe(files, root) + writes
  {
    var once := Wipe(files, root) + writes;
    var twice := Wipe(once, root) + writes;
    forall k | k in once ensures k in twice && twice[k] == once[k] {
      if k !in writes {
        assert k in Wipe(files, root);
      }
    }
  }

  // ---------------------------------------------------------------------
  // createStaticFiles: the copy's status check

  datatype Outcome = Pass | Fail(message: string)

  const CopyErrorPrefix: string := "Something went wrong while copying the file to "

  /** `result.code > 0` */
  predicate CopyFailed(code: int)
  {
    code > 0
  }

  /**
    The end of `createStaticFiles`: an error exactly when the copy's status
    code is positive, whose message is the fixed prefix, then
    `<emailDir>/static`, then `, ` and the copy's own output.
   */
  function StaticCopyOutcome(emailDir: string, code: int, diagnostic: string): (r: Outcome)
    ensures r.Fail? <==> code > 0
    ensures r.Fail? ==> OccursAt(r.message, CopyErrorPrefix, 0)
    ensures r.Fail? ==> OccursAt(r.message, Join(emailDir, "static"), |CopyErrorPrefix|)
    ensures r.Fail? ==> OccursAt(r.message, ", ", |CopyErrorPrefix| + |Join(emailDir, "static")|)
    ensures r.Fail? ==> |diagnostic| <= |r.message| && r.message[|r.message| - |diagnostic|..] == diagnostic
    ensures r.Fail? ==> |r.message| == |CopyErrorPrefix| + |Join(emailDir, "static")| + 2 + |diagnostic|
  {
    if CopyFailed(code) then
      var m := CopyErrorPrefix + Join(emailDir, "static") + ", " + diagnostic;
      MessageParts(CopyErrorPrefix, Join(emailDir, "static"), ", ", diagnostic);
      Fail(m)
    else Pass
  }

  /** Each piece of a four-piece message sits at the sum of the lengths before it. */
  lemma MessageParts(a: string, b: string, c: string, d: string)
    ensures var m := a + b + c + d;
      OccursAt(m, a, 0) && OccursAt(m, b, |a|) && OccursAt(m, c, |a| + |b|) &&
      m[|m| - |d|..] == d && |m| == |a| + |b| + |c| + |d|
  {
    var m := a + b + c + d;
    assert m[..|a|] == a;
    assert m[|a|..|a| + |b|] == b;
    assert m[|a| + |b|..|a| + |b| + |c|] == c;
    assert m[|m| - |d|..] == d;
  }

  // ---------------------------------------------------------------------
  // Properties of one stub

  /** The file name is the last segment of the template's path. */
  lemma FileNameIsLastSegment(p: seq<string>)
    requires AllSegments(p) && p != []
    ensures FileName(Render(p)) == Last(p)
  {
    SplitRender(p);
  }

  /** The parts of an absolute path followed by a rooted rest fold to both segment lists. */
  lemma FoldRooted(root: seq<string>, rel: seq<string>)
    requires AllSegments(root) && AllSegments(rel)
    ensures Fold(Norm(true, 0, []), Split(Render(root) + "/" + Render(rel), '/')) == Norm(true, 0, root + rel)
  {
    var n0 := Norm(true, 0, []);
    var n1 := Norm(true, 0, root);
    assert Render(root) + "/" + Render(rel) == Render(root) + ['/'] + Render(rel);
    SplitConcat(Render(root), Render(rel), '/');
    FoldAppend(n0, Split(Render(root), '/'), Split(Render(rel), '/'));
    FoldRender(n0, root);
    assert n0.(segs := n0.segs + root) == n1;
    FoldRender(n1, rel);
  }

  /** Joining an absolute path with a rooted rest appends the rest's segments. */
  lemma JoinRooted(root: seq<string>, rel: seq<string>)
    requires AllSegments(root) && AllSegments(rel) && rel != []
    ensures Join(Render(root), Render(rel)) == Render(root + rel)
  {
    var s := Render(root) + "/" + Render(rel);
    FoldRooted(root, rel);
    SegmentsConcat(root, rel);
    RenderLastChar(rel);
    assert s[|s| - 1] == Render(rel)[|Render(rel)| - 1];
    NormalizeAbsolute(s, root + rel);
  }

  /** Joining an absolute path with relative segments appends them. */
  lemma JoinDescend(root: seq<string>, rel: seq<string>)
    requires AllSegments(root) && AllSegments(rel) && rel != []
    ensures Join(Render(root), JoinWith(rel, '/')) == Render(root + rel)
  {
    assert Repeat("..", 0) + rel == rel;
    JoinClimbDescend(root, 0, rel);
    assert root[..|root| - 0] == root;
  }

  /** With `/` as the emails directory, removing it leaves the path without its leading `/`. */
  lemma RemoveRootDir(rel: seq<string>)
    ensures ReplaceFirst(Render(rel), Render([]), "") == JoinWith(rel, '/')
  {
    assert Render([]) == "/";
    ReplacePrefix("/", JoinWith(rel, '/'), "");
  }

  /** Removing any other emails directory from the front of a template path leaves the rooted rest. */
  lemma RemoveEmailDir(dir: seq<string>, rel: seq<string>)
    requires dir != [] && rel != []
    ensures ReplaceFirst(Render(dir + rel), Render(dir), "") == Render(rel)
  {
    var d := Render(dir);
    var r := Render(rel);
    RenderConcat(dir, rel);
    assert Render(dir + rel) == d + r;
    ReplacePrefix(d, r, "");
  }

  /**
    Mirroring: a template at `emailDir/rel` gets its stub at
    `targetRoot/rel`.
   */
  lemma TargetFileMirrors(root: seq<string>, dir: seq<string>, rel: seq<string>)
    requires AllSegments(root) && AllSegments(dir) && AllSegments(rel) && rel != []
    ensures TargetFile(Render(root), Render(dir), Render(dir + rel)) == Render(root + rel)
  {
    if dir == [] {
      assert dir + rel == rel;
      MirrorFromRootDir(root, rel);
    } else {
      MirrorFromDir(root, dir, rel);
    }
  }

  lemma MirrorFromRootDir(root: seq<string>, rel: seq<string>)
    requires AllSegments(root) && AllSegments(rel) && rel != []
    ensures TargetFile(Render(root), Render([]), Render(rel)) == Render(root + rel)
  {
    RemoveRootDir(rel);
    JoinDescend(root, rel);
  }

  lemma MirrorFromDir(root: seq<string>, dir: seq<string>, rel: seq<string>)
    requires AllSegments(root) && dir != [] && AllSegments(rel) && rel != []
    ensures TargetFile(Render(root), Render(dir), Render(dir + rel)) == Render(root + rel)
  {
    RemoveEmailDir(dir, rel);
    JoinRooted(root, rel);
  }

  /** Every template name carries the extension `.jsx` or `.tsx`, and `extname` finds it. */
  lemma TemplateExtensionFound(name: string)
    requires IsTemplateName(name)
    ensures ExtOfBase(name) == TemplateExtension(name)
  {
    var n := |name|;
    assert name[n - 4] == '.';
    assert name[n - 3] != '.' && name[n - 2] != '.' && name[n - 1] != '.' by {
      assert name[n - 4..][1] == name[n - 3];
      assert name[n - 4..][2] == name[n - 2];
      assert name[n - 4..][3] == name[n - 1];
    }
    var d := LastIndexOfChar(name, '.');
    assert d == n - 4;
  }

  /** The parts of relative path text that climbs `u` levels and descends into `down`, then `name`, fold to that place. */
  lemma FoldRelativeName(u: nat, down: seq<string>, name: string)
    requires AllSegments(down) && IsSegment(name)
    ensures Fold(Norm(false, 0, []), Repeat("..", u) + down + [name]) == Norm(false, u, down + [name])
  {
    var z := Norm(false, 0, []);
    SegmentsConcat(down, [name]);
    assert Repeat("..", u) + down + [name] == Repeat("..", u) + (down + [name]);
    FoldAppend(z, Repeat("..", u), down + [name]);
    FoldClimbs(u);
    FoldSegments(Norm(false, u, []), down + [name]);
  }

  /** `path.join(parts, name)` for relative parts that climb `u` levels and descend into `down`. */
  lemma JoinRelativeName(u: nat, down: seq<string>, name: string)
    requires AllSegments(down) && IsSegment(name)
    ensures Join(JoinWith(Repeat("..", u) + down, '/'), name) == JoinWith(Repeat("..", u) + down + [name], '/')
  {
    var parts := Repeat("..", u) + down;
    var all := parts + [name];
    FoldRelativeName(u, down, name);
    SegmentsConcat(down, [name]);
    if parts == [] {
      assert all == [name];
      SplitNoSeparator(name, '/');
      assert JoinWith(parts, '/') == "";
      NormalizeRelative(name, u, down + [name]);
      Regroup(Repeat("..", u), down, [name]);
    } else {
      var s := JoinWith(parts, '/') + "/" + name;
      ClimbDescendParts(u, down);
      assert |parts[0]| > 0 && parts[0][0] in parts[0];
      SplitRelativeName(parts, name);
      NormalizeRelative(s, u, down + [name]);
      Regroup(Repeat("..", u), down, [name]);
    }
  }

  /** `parts.join('/') + '/' + name` splits into the parts and the name, and neither end is a separator. */
  lemma SplitRelativeName(parts: seq<string>, name: string)
    requires parts != [] && |parts[0]| > 0 && parts[0][0] != '/'
    requires forall i :: 0 <= i < |parts| ==> '/' !in parts[i]
    requires IsSegment(name)
    ensures var s := JoinWith(parts, '/') + "/" + name;
      |s| > 0 && s[0] != '/' && s[|s| - 1] != '/' && Split(s, '/') == parts + [name]
  {
    var rel := JoinWith(parts, '/');
    var s := rel + "/" + name;
    JoinWithFirstChar(parts, '/');
    SplitConcat(rel, name, '/');
    assert s == rel + ['/'] + name;
    SplitJoin(parts, '/');
    SplitNoSeparator(name, '/');
    assert s[|s| - 1] == name[|name| - 1];
  }

  /** The stub of a template at `dir/mid/name` lands at `root/mid/name`, in directory `root/mid`. */
  lemma StubLocation(root: seq<string>, dir: seq<string>, mid: seq<string>, name: string)
    requires AllSegments(root) && AllSegments(dir) && AllSegments(mid) && IsSegment(name)
    ensures var target := TargetFile(Render(root), Render(dir), Render(dir + mid + [name]));
      target == Render(root + mid + [name]) && Dirname(target) == Render(root + mid)
  {
    SegmentsConcat(mid, [name]);
    SegmentsConcat(root, mid);
    assert dir + mid + [name] == dir + (mid + [name]);
    assert root + mid + [name] == root + (mid + [name]);
    TargetFileMirrors(root, dir, mid + [name]);
    SegmentsConcat(root + mid, [name]);
    DirnameRender(root + mid + [name]);
    assert (root + mid + [name])[..|root + mid|] == root + mid;
  }

  /**
    Where the stub's import path (before the extension is stripped) comes
    from: for a stub at `root/mid/name` of a template at `dir/mid/name`,
    it is the relative path between the two directories followed by
    `name`.
   */
  lemma ImportWithExtensionShape(root: seq<string>, dir: seq<string>, mid: seq<string>, name: string)
    requires AllSegments(root) && AllSegments(dir) && AllSegments(mid) && IsSegment(name)
    ensures ImportWithExtension(Render(root + mid + [name]), Render(dir + mid + [name]))
      == JoinWith(RelativeParts(root + mid, dir + mid) + [name], '/')
  {
    SegmentsConcat(root, mid);
    SegmentsConcat(dir, mid);
    ImportBetween(root + mid, dir + mid, name);
  }

  /** The import path, extension included, from a stub at `a/name` to a template at `b/name`. */
  lemma ImportBetween(a: seq<string>, b: seq<string>, name: string)
    requires AllSegments(a) && AllSegments(b) && IsSegment(name)
    ensures ImportWithExtension(Render(a + [name]), Render(b + [name])) == JoinWith(RelativeParts(a, b) + [name], '/')
  {
    ImportPathBetween(a, b, name);
    SegmentsConcat(b, [name]);
    FileNameIsLastSegment(b + [name]);
    var k := CommonPrefixLength(a, b);
    SegmentsSlice(b, k, |b|);
    JoinRelativeName(|a| - k, b[k..], name);
  }

  /** The relative path between the directories of a stub at `a/name` and a template at `b/name`. */
  lemma ImportPathBetween(a: seq<string>, b: seq<string>, name: string)
    requires AllSegments(a) && AllSegments(b) && IsSegment(name)
    ensures ImportPath(Render(a + [name]), Render(b + [name])) == JoinWith(RelativeParts(a, b), '/')
  {
    SegmentsConcat(a, [name]);
    SegmentsConcat(b, [name]);
    DirnameRender(a + [name]);
    DirnameRender(b + [name]);
    assert (a + [name])[..|a|] == a && (b + [name])[..|b|] == b;
    RelativeRender(a, b);
  }

  /** The extension `extname` finds in an import path occurs in it only as its suffix. */
  predicate ExtensionOnlyAtEnd(importFile: string)
  {
    OccursOnlyAsSuffix(importFile, Extname(importFile))
  }

  /**
    Import correctness: resolving the stub's import path against the
    stub's own directory gives the template's path without its extension,
    provided the extension text does not occur earlier in the import path
    (`replace` strips only its first occurrence).
   */
  lemma ImportResolvesToTemplate(root: seq<string>, dir: seq<string>, mid: seq<string>, name: string)
    requires AllSegments(root) && AllSegments(dir) && AllSegments(mid) && IsTemplateName(name)
    requires var src := Render(dir + mid + [name]);
      ExtensionOnlyAtEnd(ImportWithExtension(TargetFile(Render(root), Render(dir), src), src))
    ensures var src := Render(dir + mid + [name]);
      var target := TargetFile(Render(root), Render(dir), src);
      var f := ImportWithExtension(target, src);
      |f| >= 4 && ImportFile(target, src) == f[..|f| - 4] &&
      Join(Dirname(target), ImportFile(target, src)) == src[..|src| - 4]
  {
    var a := root + mid;
    var b := dir + mid;
    var stem := name[..|name| - 4];
    ImportFileShape(root, dir, mid, name);
    SegmentsConcat(root, mid);
    SegmentsConcat(dir, mid);
    StemSegment(name);
    JoinRelativeStem(a, b, stem);
    assert dir + mid + [name] == b + [name];
    RenderTrim(b, name, 4);
  }

  /**
    The stub's final import path: the relative path between the stub's
    directory and the template's, then the template's name without its
    extension.
   */
  lemma ImportFileShape(root: seq<string>, dir: seq<string>, mid: seq<string>, name: string)
    requires AllSegments(root) && AllSegments(dir) && AllSegments(mid) && IsTemplateName(name)
    requires var src := Render(dir + mid + [name]);
      ExtensionOnlyAtEnd(ImportWithExtension(TargetFile(Render(root), Render(dir), src), src))
    ensures var src := Render(dir + mid + [name]);
      var target := TargetFile(Render(root), Render(dir), src);
      var f := ImportWithExtension(target, src);
      |f| >= 4 && ImportFile(target, src) == f[..|f| - 4] &&
      ImportFile(target, src) == JoinWith(RelativeParts(root + mid, dir + mid) + [name[..|name| - 4]], '/') &&
      Dirname(target) == Render(root + mid)
  {
    SegmentsConcat(root, mid);
    SegmentsConcat(dir, mid);
    StubLocation(root, dir, mid, name);
    ImportFileBetween(root + mid, dir + mid, name);
  }

  /** The final import path from a stub at `a/name` to a template at `b/name`. */
  lemma ImportFileBetween(a: seq<string>, b: seq<string>, name: string)
    requires AllSegments(a) && AllSegments(b) && IsTemplateName(name)
    requires ExtensionOnlyAtEnd(ImportWithExtension(Render(a + [name]), Render(b + [name])))
    ensures var f := ImportWithExtension(Render(a + [name]), Render(b + [name]));
      var g := ImportFile(Render(a + [name]), Render(b + [name]));
      |f| >= 4 && g == f[..|f| - 4] && g == JoinWith(RelativeParts(a, b) + [name[..|name| - 4]], '/')
  {
    ImportBetween(a, b, name);
    RelativePartsHaveNoSlash(a, b);
    StripTemplateExtension(RelativeParts(a, b), name);
  }

  lemma RelativePartsHaveNoSlash(a: seq<string>, b: seq<string>)
    requires AllSegments(b)
    ensures var parts := RelativeParts(a, b); forall i :: 0 <= i < |parts| ==> '/' !in parts[i]
  {
    var k := CommonPrefixLength(a, b);
    SegmentsSlice(b, k, |b|);
    ClimbDescendParts(|a| - k, b[k..]);
  }

  /** Joining a directory with the relative path to another directory, then a name, lands on that name there. */
  lemma JoinRelativeStem(a: seq<string>, b: seq<string>, stem: string)
    requires AllSegments(a) && AllSegments(b) && IsSegment(stem)
    ensures Join(Render(a), JoinWith(RelativeParts(a, b) + [stem], '/')) == Render(b + [stem])
  {
    var k := CommonPrefixLength(a, b);
    var u := |a| - k;
    var down := b[k..];
    assert RelativeParts(a, b) == Repeat("..", u) + down;
    SegmentsSlice(b, k, |b|);
    SegmentsConcat(down, [stem]);
    Regroup(Repeat("..", u), down, [stem]);
    JoinClimbDescend(a, u, down + [stem]);
    assert |a| - u == k;
    CommonPrefixThenRest(a, b, k, stem);
  }

  lemma Regroup(x: seq<string>, y: seq<string>, z: seq<string>)
    ensures x + (y + z) == x + y + z
  {
  }

  /** Swapping in the other list's equal prefix and then its rest gives that list. */
  lemma CommonPrefixThenRest(a: seq<string>, b: seq<string>, k: nat, last: string)
    requires k <= |a| && k <= |b| && a[..k] == b[..k]
    ensures a[..k] + (b[k..] + [last]) == b + [last]
  {
    assert b[..k] + b[k..] == b;
  }

  /** The stem of a template name is itself a plain segment. */
  lemma StemSegment(name: string)
    requires IsTemplateName(name)
    ensures IsSegment(name[..|name| - 4])
  {
    var stem := name[..|name| - 4];
    assert stem[0] == name[0];
    forall i | 0 <= i < |stem| ensures stem[i] != '/' {
      assert stem[i] == name[i];
    }
  }

  /**
    Stripping the extension from a relative path ending in a template name
    removes the name's last four characters, when the extension text
    occurs nowhere earlier.
   */
  lemma StripTemplateExtension(parts: seq<string>, name: string)
    requires forall i :: 0 <= i < |parts| ==> '/' !in parts[i]
    requires IsTemplateName(name)
    requires ExtensionOnlyAtEnd(JoinWith(parts + [name], '/'))
    ensures var f := JoinWith(parts + [name], '/');
      |f| >= 4 && StripExtension(f) == f[..|f| - 4] &&
      StripExtension(f) == JoinWith(parts + [name[..|name| - 4]], '/')
  {
    var f := JoinWith(parts + [name], '/');
    ExtnameOfJoin(parts, name);
    TemplateExtensionFound(name);
    RemoveSuffix(f, Extname(f));
    JoinWithTrim(parts, name, '/', 4);
  }

  /**
    The stub text: when the import path holds no `;`, the single `replace`
    puts the line break right after the import statement.
   */
  lemma SourceCodeShape(importFile: string)
    requires ';' !in importFile
    ensures SourceCode(importFile) == "import Mail from '" + importFile + "';\nexport default Mail;"
  {
    var a := "import Mail from '" + importFile + "'";
    var b := ";export default Mail;";
    TemplateRegroup(importFile);
    ImportStatementHasNoSemicolon(importFile);
    ReplaceFirstCharAfter(a, b, ';', ";\n");
    assert b[1..] == "export default Mail;";
    StubRegroup(importFile);
  }

  lemma TemplateRegroup(x: string)
    ensures "import Mail from '" + x + "';export default Mail;"
      == ("import Mail from '" + x + "'") + ";export default Mail;"
  {
  }

  lemma StubRegroup(x: string)
    ensures ("import Mail from '" + x + "'") + ";\n" + "export default Mail;"
      == "import Mail from '" + x + "';\nexport default Mail;"
  {
  }

  lemma ImportStatementHasNoSemicolon(importFile: string)
    requires ';' !in importFile
    ensures ';' !in "import Mail from '" + importFile + "'"
  {
    var opening := "import Mail from '" + importFile;
    OpeningHasNoSemicolon(importFile);
    assert opening + "'" == "import Mail from '" + importFile + "'";
    assert forall i :: 0 <= i < |opening| ==> (opening + "'")[i] == opening[i];
  }

  /**
    When the import path itself holds a `;`, the line break goes after
    that one instead, splitting the path inside the string literal.
   */
  lemma SourceCodeSemicolonInPath(a: string, b: string)
    requires ';' !in a
    ensures SourceCode(a + ";" + b) == "import Mail from '" + a + ";\n" + b + "';export default Mail;"
  {
    assert ';' !in "import Mail from '";
    ReplaceCharBetween("import Mail from '", a, b, "';export default Mail;", ';', ";\n");
  }

  lemma OpeningHasNoSemicolon(a: string)
    requires ';' !in a
    ensures ';' !in "import Mail from '" + a
  {
    var pre := "import Mail from '";
    var s := pre + a;
    assert ';' !in pre;
    forall i | 0 <= i < |s| ensures s[i] != ';' {
      if i < |pre| {
        assert s[i] == pre[i];
      } else {
        assert s[i] == a[i - |pre|];
      }
    }
  }

  /**
    When the extension text also occurs earlier in the import path,
    `replace` removes that earlier occurrence instead. For a template
    `/e/<y><ext><z>/<name>` whose directory name holds the template's own
    extension `<ext>` followed by a non-empty dot-free `<z>`, and a target
    root `/t` (for instance `/e/a.tsxd/b.tsx` and `/t`, where the stub
    imports `../../e/ad/b.tsx`), the stub imports `../../e/<y><z>/<name>`, a path
    that names `/e/<y><z>/<name>` rather than the template. The directory
    name does not end in `.jsx` or `.tsx`, so glob does not list the
    directory itself and nothing stops the run before this stub is written.
   */
  lemma ExtensionStrippedTooEarly(t: string, e: string, y: string, z: string, name: string)
    requires IsSegment(t) && IsSegment(e) && t != e && '.' !in e
    requires IsSegment(y) && '.' !in y && IsTemplateName(name)
    requires z != "" && '.' !in z && '/' !in z
    ensures var x := y + TemplateExtension(name) + z;
      var src := Render([e, x, name]);
      var target := TargetFile(Render([t]), Render([e]), src);
      !IsTemplateName(x) &&
      ImportFile(target, src) == JoinWith(["..", "..", e, y + z, name], '/') &&
      Join(Dirname(target), ImportFile(target, src)) == Render([e, y + z, name]) &&
      Render([e, y + z, name]) != src[..|src| - 4]
  {
    var ext := TemplateExtension(name);
    var x := y + ext + z;
    var src := Render([e, x, name]);
    DirectoryNotListed(y, z, name);
    GluedSegment(y, z);
    StrippedTooEarly(t, e, y, z, name);
    ExtendedSegment(y, z, name);
    ClimbTwoDescendThree(t, x, e, y + z, name);
    RenderThree(e, y + z, name);
    RenderThree(e, x, name);
    var k := 2 + |e| + |y|;
    assert Render([e, y + z, name])[k] == z[0];
    assert src[..|src| - 4][k] == ext[0];
  }

  /** A dot-free segment followed by dot-free, separator-free text is a segment. */
  lemma GluedSegment(y: string, z: string)
    requires IsSegment(y) && '.' !in y && '.' !in z && '/' !in z
    ensures IsSegment(y + z)
  {
    assert (y + z)[0] == y[0];
  }

  /** A directory name with text after the extension is not a template name. */
  lemma DirectoryNotListed(y: string, z: string, name: string)
    requires '.' !in y && IsTemplateName(name) && z != "" && '.' !in z
    ensures !IsTemplateName(y + TemplateExtension(name) + z)
  {
    var ext := TemplateExtension(name);
    var x := y + ext + z;
    var k := |x| - 4;
    if k < |y| + 4 {
      assert x[k] == ext[k - |y|];
    } else {
      assert x[k] == z[k - |y| - 4];
    }
    assert x[k..][0] == x[k];
  }

  /** The import path computed for such a template, and the stub's directory. */
  lemma StrippedTooEarly(t: string, e: string, y: string, z: string, name: string)
    requires IsSegment(t) && IsSegment(e) && t != e && '.' !in e
    requires IsSegment(y) && '.' !in y && IsTemplateName(name)
    requires '.' !in z && '/' !in z
    ensures var x := y + TemplateExtension(name) + z;
      var src := Render([e, x, name]);
      var target := TargetFile(Render([t]), Render([e]), src);
      ImportFile(target, src) == JoinWith(["..", "..", e, y + z, name], '/') &&
      Dirname(target) == Render([t, x])
  {
    var x := y + TemplateExtension(name) + z;
    ExtendedSegment(y, z, name);
    SiblingImport(t, e, x, name);
    StripEarlyExtension(e, y, z, name);
  }

  /** A segment, a template extension and separator-free text make a segment. */
  lemma ExtendedSegment(y: string, z: string, name: string)
    requires IsSegment(y) && IsTemplateName(name) && '/' !in z
    ensures IsSegment(y + TemplateExtension(name) + z)
  {
    var ext := TemplateExtension(name);
    var x := y + ext + z;
    assert x[0] == y[0];
    forall i | 0 <= i < |x| ensures x[i] != '/' {
      if |y| <= i < |y| + 4 {
        assert x[i] == name[|name| - 4 + i - |y|];
      } else if i >= |y| + 4 {
        assert x[i] == z[i - |y| - 4];
      }
    }
  }

  /** Stripping the extension from `../../e/<y><ext><z>/name` removes the `<ext>` after `y`. */
  lemma StripEarlyExtension(e: string, y: string, z: string, name: string)
    requires IsSegment(e) && '.' !in e && IsSegment(y) && '.' !in y && IsTemplateName(name)
    requires '/' !in z
    ensures var x := y + TemplateExtension(name) + z;
      StripExtension(JoinWith(["..", "..", e, x, name], '/')) == JoinWith(["..", "..", e, y + z, name], '/')
  {
    var ext := TemplateExtension(name);
    var pre := "../../" + e + "/" + y;
    var post := z + ("/" + name);
    ClimbPathText(e, y, z, name);
    DotsOnlyInClimb(e, y, ext);
    ReplaceAfterPrefix(pre, ext, post);
    ClimbText(e, y + z, name);
    Regroup3("../../" + e + "/", y, ext, z, "/" + name);
  }

  /** Regrouping the text around a directory name `y + ext + z`. */
  lemma Regroup3(front: string, y: string, ext: string, z: string, rest: string)
    ensures front + (y + ext + z) + rest == front + y + ext + (z + rest)
    ensures front + y + (z + rest) == front + (y + z) + rest
  {
  }

  /** The text of `../../e/y/name`. */
  lemma ClimbText(e: string, y: string, name: string)
    ensures JoinWith(["..", "..", e, y, name], '/') == "../../" + e + "/" + y + ("/" + name)
  {
    JoinFive("..", "..", e, y, name);
    assert ".." + "/" + ".." + "/" == "../../";
  }

  /** The text of `../../e/<y><ext><z>/name` and the extension `extname` finds in it. */
  lemma ClimbPathText(e: string, y: string, z: string, name: string)
    requires IsSegment(e) && IsSegment(y) && IsTemplateName(name) && '/' !in z
    ensures var ext := TemplateExtension(name);
      var f := JoinWith(["..", "..", e, y + ext + z, name], '/');
      Extname(f) == ext && f == "../../" + e + "/" + y + ext + (z + ("/" + name))
  {
    var ext := TemplateExtension(name);
    var x := y + ext + z;
    ExtendedSegment(y, z, name);
    var parts := ["..", "..", e, x];
    assert parts + [name] == ["..", "..", e, x, name];
    ExtnameOfJoin(parts, name);
    TemplateExtensionFound(name);
    ClimbText(e, x, name);
    Regroup3("../../" + e + "/", y, ext, z, "/" + name);
  }

  /**
    The import path, extension included, for the template `/e/x/name`
    and the target root `/t` with `t` and `e` distinct.
   */
  lemma SiblingImport(t: string, e: string, x: string, name: string)
    requires IsSegment(t) && IsSegment(e) && t != e && IsSegment(x) && IsSegment(name)
    ensures var src := Render([e, x, name]);
      var target := TargetFile(Render([t]), Render([e]), src);
      ImportWithExtension(target, src) == JoinWith(["..", "..", e, x, name], '/') &&
      Dirname(target) == Render([t, x])
  {
    var a, b := [t, x], [e, x];
    SiblingStub(t, e, x, name);
    assert a + [name] == [t, x, name] && b + [name] == [e, x, name];
    ImportBetween(a, b, name);
    SiblingParts(t, e, x, name);
  }

  lemma SiblingParts(t: string, e: string, x: string, name: string)
    requires t != e
    ensures RelativeParts([t, x], [e, x]) + [name] == ["..", "..", e, x, name]
  {
    var a, b := [t, x], [e, x];
    assert CommonPrefixLength(a, b) == 0;
    assert Repeat("..", 2) == ["..", ".."];
    assert b[0..] == b;
  }

  /** The stub of the template `/e/x/name` for the target root `/t`. */
  lemma SiblingStub(t: string, e: string, x: string, name: string)
    requires IsSegment(t) && IsSegment(e) && IsSegment(x) && IsSegment(name)
    ensures var target := TargetFile(Render([t]), Render([e]), Render([e, x, name]));
      target == Render([t, x, name]) && Dirname(target) == Render([t, x])
  {
    var root, dir, mid := [t], [e], [x];
    assert dir + mid + [name] == [e, x, name];
    assert root + mid + [name] == [t, x, name];
    assert root + mid == [t, x];
    StubLocation(root, dir, mid, name);
  }

  /** Climbing two levels from `/t/x` and descending into `e/y/name` lands at `/e/y/name`. */
  lemma ClimbTwoDescendThree(t: string, x: string, e: string, y: string, name: string)
    requires IsSegment(t) && IsSegment(x) && IsSegment(e) && IsSegment(y) && IsSegment(name)
    ensures Join(Render([t, x]), JoinWith(["..", "..", e, y, name], '/')) == Render([e, y, name])
  {
    var a := [t, x];
    var down := [e, y, name];
    assert Repeat("..", 2) + down == ["..", "..", e, y, name];
    JoinClimbDescend(a, 2, down);
    assert a[..|a| - 2] + down == down;
  }

  /** Rendering three segments. */
  lemma RenderThree(x: string, y: string, z: string)
    ensures Render([x, y, z]) == "/" + x + "/" + y + "/" + z
  {
    var p := [x, y, z];
    assert p[..2] == [x, y] && p[..2][..1] == [x];
    assert JoinWith([x, y], '/') == x + "/" + y;
  }

  /** Joining five parts. */
  lemma JoinFive(a: string, b: string, c: string, d: string, e: string)
    ensures JoinWith([a, b, c, d, e], '/') == a + "/" + b + "/" + c + "/" + d + "/" + e
  {
    var p := [a, b, c, d, e];
    assert p[..4] == [a, b, c, d] && p[..4][..3] == [a, b, c];
    assert p[..4][..3][..2] == [a, b] && p[..4][..3][..2][..1] == [a];
    assert JoinWith([a, b], '/') == a + "/" + b;
    assert JoinWith([a, b, c], '/') == a + "/" + b + "/" + c;
    assert JoinWith([a, b, c, d], '/') == a + "/" + b + "/" + c + "/" + d;
  }

  /** In `../../<e>/<y>`, with no dot in `e` or `y`, no dot is followed by the extension's second character. */
  lemma DotsOnlyInClimb(e: string, y: string, ext: string)
    requires '.' !in e && '.' !in y && '/' !in e
    requires ext == ".jsx" || ext == ".tsx"
    ensures var pre := "../../" + e + "/" + y;
      forall j :: 0 <= j < |pre| && pre[j] == '.' ==> j + 1 < |pre| && pre[j + 1] != ext[1]
  {
    var pre := "../../" + e + "/" + y;
    forall j | 6 <= j < |pre| ensures pre[j] != '.' {
      if j < 6 + |e| {
        assert pre[j] == e[j - 6];
      } else if j > 6 + |e| {
        assert pre[j] == y[j - 7 - |e|];
      }
    }
  }

  /**
    A pattern starting with a dot whose second character follows no dot
    of `pre` is first found right after `pre`.
   */
  lemma ReplaceAfterPrefix(pre: string, ext: string, post: string)
    requires |ext| >= 2 && ext[0] == '.'
    requires forall j :: 0 <= j < |pre| && pre[j] == '.' ==> j + 1 < |pre| && pre[j + 1] != ext[1]
    ensures ReplaceFirst(pre + ext + post, ext, "") == pre + post
  {
    var s := pre + ext + post;
    assert OccursAt(s, ext, |pre|) by {
      assert s[|pre|..|pre| + |ext|] == ext;
    }
    forall j | 0 <= j < |pre| ensures !OccursAt(s, ext, j) {
      if j + |ext| <= |s| && s[j] == '.' {
        assert s[j..j + |ext|][1] == s[j + 1];
      } else if j + |ext| <= |s| {
        assert s[j..j + |ext|][0] == s[j];
      }
    }
    ReplaceFirstAt(s, ext, "", |pre|);
    assert s[..|pre|] == pre && s[|pre| + |ext|..] == post;
  }
}

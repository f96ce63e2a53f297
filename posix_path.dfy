/**
  The part of Node's `path.posix` that the preview generator calls:
  `normalize` (through `join`), `join` of two arguments, `dirname`,
  `relative` and `extname`. Paths are strings, as in Node; a path is
  parsed into a `Norm` (leading `..` count and plain segments) to be
  normalised, and an absolute normalised path is `Render(segments)`.
 */
module PosixPath {
  import opened JsString

  /** A plain path segment: non-empty, no `/`, and neither `.` nor `..`. */
  predicate IsSegment(s: string)
  {
    s != "" && s != "." && s != ".." && '/' !in s
  }

  predicate AllSegments(p: seq<string>)
  {
    forall i :: 0 <= i < |p| ==> IsSegment(p[i])
  }

  lemma SegmentsConcat(p: seq<string>, q: seq<string>)
    requires AllSegments(p) && AllSegments(q)
    ensures AllSegments(p + q)
  {
    forall i | 0 <= i < |p + q| ensures IsSegment((p + q)[i]) {
      if i >= |p| { assert (p + q)[i] == q[i - |p|]; }
    }
  }

  lemma SegmentsSlice(p: seq<string>, i: nat, j: nat)
    requires AllSegments(p) && i <= j <= |p|
    ensures AllSegments(p[i..j])
  {
    forall k | 0 <= k < j - i ensures IsSegment(p[i..j][k]) {
      assert p[i..j][k] == p[i + k];
    }
  }

  /** A path being normalised: `ups` leading `..` (relative paths only), then `segs`. */
  datatype Norm = Norm(absolute: bool, ups: nat, segs: seq<string>)

  /** One step of Node's `normalizeString`: consume one `/`-separated part. */
  function Step(n: Norm, part: string): Norm
  {
    if part == "" || part == "." then n
    else if part == ".." then
      if |n.segs| > 0 then n.(segs := n.segs[..|n.segs| - 1])
      else if n.absolute then n
      else n.(ups := n.ups + 1)
    else n.(segs := n.segs + [part])
  }

  /** Consume the parts left to right. */
  function Fold(n: Norm, parts: seq<string>): Norm
    decreases |parts|
  {
    if parts == [] then n
    else Step(Fold(n, parts[..|parts| - 1]), parts[|parts| - 1])
  }

  function Repeat(x: string, k: nat): (r: seq<string>)
    ensures |r| == k && forall i :: 0 <= i < k ==> r[i] == x
  {
    if k == 0 then [] else Repeat(x, k - 1) + [x]
  }

  /** The text of a normalised path without its leading `/`. */
  function Body(n: Norm): string
  {
    JoinWith(Repeat("..", n.ups) + n.segs, '/')
  }

  /** `path.posix.normalize(s)`, keeping a trailing `/` as Node does. */
  function Normalize(s: string): string
  {
    if s == "" then "."
    else
      var absolute := s[0] == '/';
      var trailing := s[|s| - 1] == '/';
      var body := Body(Fold(Norm(absolute, 0, []), Split(s, '/')));
      if body == "" then (if absolute then "/" else if trailing then "./" else ".")
      else (if absolute then "/" else "") + body + (if trailing then "/" else "")
  }

  /** `path.posix.join(a, b)`: empty arguments are skipped, the rest joined by `/` and normalised. */
  function Join(a: string, b: string): string
  {
    if a == "" && b == "" then "."
    else if a == "" then Normalize(b)
    else if b == "" then Normalize(a)
    else Normalize(a + "/" + b)
  }

  /**
    The segments of `path.posix.resolve(s)`. Every path the generator
    resolves is absolute; a relative one is resolved here as if the
    working directory were `/`.
   */
  function Resolve(s: string): seq<string>
  {
    Fold(Norm(true, 0, []), Split(s, '/')).segs
  }

  /** The normalised absolute path with the given segments. */
  function Render(p: seq<string>): string
  {
    "/" + JoinWith(p, '/')
  }

  /** A normalised absolute path: the text `Render` gives for its own segments. */
  predicate Canonical(s: string)
  {
    s == Render(Resolve(s))
  }

  /** The right-to-left scan of `path.posix.dirname`: index of the separator before the last name, or -1. */
  function DirEnd(s: string, i: int, matchedSlash: bool): (r: int)
    requires i < |s|
    ensures r == -1 || 1 <= r <= i
    decreases i
  {
    if i < 1 then -1
    else if s[i] == '/' then (if matchedSlash then DirEnd(s, i - 1, true) else i)
    else DirEnd(s, i - 1, false)
  }

  /** `path.posix.dirname(s)` */
  function Dirname(s: string): string
  {
    if s == "" then "."
    else
      var end := DirEnd(s, |s| - 1, true);
      if end == -1 then (if s[0] == '/' then "/" else ".")
      else if s[0] == '/' && end == 1 then "//"
      else s[..end]
  }

  /** The length of the longest common prefix of two segment lists. */
  function CommonPrefixLength(a: seq<string>, b: seq<string>): (k: nat)
    ensures k <= |a| && k <= |b| && a[..k] == b[..k]
    ensures k < |a| && k < |b| ==> a[k] != b[k]
  {
    if a == [] || b == [] || a[0] != b[0] then 0
    else
      var k := CommonPrefixLength(a[1..], b[1..]);
      assert a[..k + 1] == [a[0]] + a[1..][..k];
      assert b[..k + 1] == [b[0]] + b[1..][..k];
      k + 1
  }

  /** The parts of the relative path from `a` to `b`: one `..` per segment of `a` past the common prefix, then the rest of `b`. */
  function RelativeParts(a: seq<string>, b: seq<string>): seq<string>
  {
    var k := CommonPrefixLength(a, b);
    Repeat("..", |a| - k) + b[k..]
  }

  /** `path.posix.relative(from, to)`; `""` when both name the same place. */
  function Relative(from: string, to: string): string
  {
    if from == to then ""
    else
      var f := Resolve(from);
      var t := Resolve(to);
      if f == t then "" else JoinWith(RelativeParts(f, t), '/')
  }

  /** `s` without its trailing `/` characters. */
  function TrimTrailingSlashes(s: string): string
  {
    if s != "" && s[|s| - 1] == '/' then TrimTrailingSlashes(s[..|s| - 1]) else s
  }

  /** The index of the last `c` in `s`, or -1. */
  function LastIndexOfChar(s: string, c: char): (r: int)
    ensures -1 <= r < |s|
    ensures r >= 0 ==> s[r] == c
    ensures forall j :: r < j < |s| ==> s[j] != c
  {
    if s == "" then -1
    else if s[|s| - 1] == c then |s| - 1
    else LastIndexOfChar(s[..|s| - 1], c)
  }

  /**
    The extension of a base name as `path.posix.extname` finds it: from the
    last `.` to the end, except that a name whose only dot is its first
    character, and the name `..`, have none.
   */
  function ExtOfBase(b: string): string
  {
    var d := LastIndexOfChar(b, '.');
    if d <= 0 || b == ".." then "" else b[d..]
  }

  /** `path.posix.extname(s)` */
  function Extname(s: string): string
  {
    ExtOfBase(Last(Split(TrimTrailingSlashes(s), '/')))
  }

  // ---------------------------------------------------------------------
  // Normalisation

  lemma {:induction false} FoldAppend(n: Norm, a: seq<string>, b: seq<string>)
    ensures Fold(n, a + b) == Fold(Fold(n, a), b)
    decreases |b|
  {
    if b == [] {
      assert a + b == a;
    } else {
      var ab := a + b;
      assert ab[..|ab| - 1] == a + b[..|b| - 1];
      FoldAppend(n, a, b[..|b| - 1]);
    }
  }

  lemma FoldBlank(n: Norm)
    ensures Fold(n, [""]) == n
  {
    assert [""][..0] == [];
  }

  /** Plain segments are appended as they come. */
  lemma {:induction false} FoldSegments(n: Norm, p: seq<string>)
    requires AllSegments(p)
    ensures Fold(n, p) == n.(segs := n.segs + p)
    decreases |p|
  {
    if p != [] {
      var init := p[..|p| - 1];
      FoldSegments(n, init);
      assert init + [p[|p| - 1]] == p;
    }
  }

  /** Each `..` removes one segment while there are segments to remove. */
  lemma {:induction false} FoldPops(n: Norm, u: nat)
    requires u <= |n.segs|
    ensures Fold(n, Repeat("..", u)) == n.(segs := n.segs[..|n.segs| - u])
    decreases u
  {
    if u > 0 {
      FoldPops(n, u - 1);
      FoldPopOnce(n, u);
    }
  }

  /** The last `..` of `u` removes one more segment. */
  lemma FoldPopOnce(n: Norm, u: nat)
    requires 0 < u <= |n.segs|
    requires Fold(n, Repeat("..", u - 1)) == n.(segs := n.segs[..|n.segs| - (u - 1)])
    ensures Fold(n, Repeat("..", u)) == n.(segs := n.segs[..|n.segs| - u])
  {
    var r := Repeat("..", u);
    assert r[..u - 1] == Repeat("..", u - 1);
    var m := Fold(n, r[..u - 1]);
    assert m.segs[..|m.segs| - 1] == n.segs[..|n.segs| - u];
  }

  /** In a relative path with no segments, each `..` is kept. */
  lemma {:induction false} FoldClimbs(u: nat)
    ensures Fold(Norm(false, 0, []), Repeat("..", u)) == Norm(false, u, [])
    decreases u
  {
    if u > 0 {
      var r := Repeat("..", u);
      assert r[..u - 1] == Repeat("..", u - 1);
      FoldClimbs(u - 1);
    }
  }

  /** Normalising never produces a segment that is empty, `.`, `..` or holds `/`. */
  lemma {:induction false} FoldKeepsSegments(n: Norm, parts: seq<string>)
    requires AllSegments(n.segs)
    requires forall i :: 0 <= i < |parts| ==> '/' !in parts[i]
    ensures AllSegments(Fold(n, parts).segs)
    decreases |parts|
  {
    if parts != [] {
      FoldKeepsSegments(n, parts[..|parts| - 1]);
    }
  }

  /** Resolving always yields plain segments. */
  lemma ResolveSegments(s: string)
    ensures AllSegments(Resolve(s))
  {
    FoldKeepsSegments(Norm(true, 0, []), Split(s, '/'));
  }

  /** How a rendered path splits: an empty part for the root, then its segments. */
  lemma SplitRender(p: seq<string>)
    requires AllSegments(p)
    ensures Split(Render(p), '/') == [""] + (if p == [] then [""] else p)
  {
    assert Render(p) == "" + ['/'] + JoinWith(p, '/');
    SplitConcat("", JoinWith(p, '/'), '/');
    if p != [] {
      SplitJoin(p, '/');
    }
  }

  /** The parts of a rendered path fold to its segments. */
  lemma FoldRender(n: Norm, p: seq<string>)
    requires AllSegments(p)
    ensures Fold(n, Split(Render(p), '/')) == n.(segs := n.segs + p)
  {
    SplitRender(p);
    if p == [] {
      FoldAppend(n, [""], [""]);
      FoldBlank(n);
      assert n.segs + p == n.segs;
    } else {
      FoldAppend(n, [""], p);
      FoldBlank(n);
      FoldSegments(n, p);
    }
  }

  /** Rendering then resolving gives the segments back. */
  lemma ResolveRender(p: seq<string>)
    requires AllSegments(p)
    ensures Resolve(Render(p)) == p
  {
    FoldRender(Norm(true, 0, []), p);
  }

  /** A rendered path other than `/` does not end with `/`. */
  lemma RenderLastChar(p: seq<string>)
    requires AllSegments(p) && p != []
    ensures var s := Render(p); s[|s| - 1] != '/'
  {
    JoinWithLastChar(p, '/');
    assert '/' !in Last(p);
  }

  /** Cutting `k` characters off a rendered path cuts them off its last segment. */
  lemma RenderTrim(p: seq<string>, name: string, k: nat)
    requires k <= |name|
    ensures var s := Render(p + [name]);
      |s| >= k && s[..|s| - k] == Render(p + [name[..|name| - k]])
  {
    JoinWithTrim(p, name, '/', k);
    var j := JoinWith(p + [name], '/');
    assert ("/" + j)[..|"/" + j| - k] == "/" + j[..|j| - k];
  }

  /** Rendering a concatenation. */
  lemma RenderConcat(p: seq<string>, q: seq<string>)
    requires q != []
    ensures Render(p + q) == (if p == [] then "/" else Render(p) + "/") + JoinWith(q, '/')
  {
    if p == [] {
      assert p + q == q;
    } else {
      JoinWithConcat(p, q, '/');
    }
  }

  /** Normalising an absolute path whose parts fold to `p`. */
  lemma NormalizeAbsolute(s: string, p: seq<string>)
    requires |s| > 0 && s[0] == '/'
    requires p != [] ==> s[|s| - 1] != '/'
    requires AllSegments(p)
    requires Fold(Norm(true, 0, []), Split(s, '/')) == Norm(true, 0, p)
    ensures Normalize(s) == Render(p)
  {
    assert Repeat("..", 0) + p == p;
    if p != [] {
      JoinWithLastChar(p, '/');
    }
  }

  /** Normalising a relative path whose parts fold to `u` climbs and then `segs`. */
  lemma NormalizeRelative(s: string, u: nat, segs: seq<string>)
    requires |s| > 0 && s[0] != '/' && s[|s| - 1] != '/'
    requires segs != [] && AllSegments(segs)
    requires Fold(Norm(false, 0, []), Split(s, '/')) == Norm(false, u, segs)
    ensures Normalize(s) == JoinWith(Repeat("..", u) + segs, '/')
  {
    var all := Repeat("..", u) + segs;
    assert Last(all) == Last(segs);
    JoinWithLastChar(all, '/');
  }

  /** A rendered path is already normal. */
  lemma NormalizeRender(p: seq<string>)
    requires AllSegments(p)
    ensures Normalize(Render(p)) == Render(p)
  {
    FoldRender(Norm(true, 0, []), p);
    if p != [] {
      RenderLastChar(p);
    }
    NormalizeAbsolute(Render(p), p);
  }

  /** Relative parts that climb `u` levels and then descend into `q` hold no `/`. */
  lemma ClimbDescendParts(u: nat, q: seq<string>)
    requires AllSegments(q)
    ensures var parts := Repeat("..", u) + q;
      forall i :: 0 <= i < |parts| ==> '/' !in parts[i]
  {
    var parts := Repeat("..", u) + q;
    forall i | 0 <= i < |parts| ensures '/' !in parts[i] {
      if i >= u { assert parts[i] == q[i - u]; }
    }
  }

  /** The parts of an absolute path followed by climbing and descending parts fold to the place reached. */
  lemma FoldClimbDescend(p: seq<string>, u: nat, q: seq<string>)
    requires AllSegments(p) && AllSegments(q)
    requires u <= |p| && u + |q| > 0
    ensures var parts := Repeat("..", u) + q;
      Fold(Norm(true, 0, []), Split(Render(p) + "/" + JoinWith(parts, '/'), '/'))
        == Norm(true, 0, p[..|p| - u] + q)
  {
    var parts := Repeat("..", u) + q;
    ClimbDescendParts(u, q);
    SplitAfterRender(p, parts);
    FoldClimbDescendParts(p, u, q);
  }

  /** Splitting an absolute path followed by `/` and separator-free parts. */
  lemma SplitAfterRender(p: seq<string>, parts: seq<string>)
    requires |parts| > 0 && forall i :: 0 <= i < |parts| ==> '/' !in parts[i]
    ensures Split(Render(p) + "/" + JoinWith(parts, '/'), '/') == Split(Render(p), '/') + parts
  {
    var rel := JoinWith(parts, '/');
    SplitConcat(Render(p), rel, '/');
    assert Render(p) + "/" + rel == Render(p) + ['/'] + rel;
    SplitJoin(parts, '/');
  }

  /** Folding an absolute path's parts, then `u` times `..`, then segments. */
  lemma FoldClimbDescendParts(p: seq<string>, u: nat, q: seq<string>)
    requires AllSegments(p) && AllSegments(q) && u <= |p|
    ensures var parts := Repeat("..", u) + q;
      Fold(Norm(true, 0, []), Split(Render(p), '/') + parts) == Norm(true, 0, p[..|p| - u] + q)
  {
    var parts := Repeat("..", u) + q;
    var head := Split(Render(p), '/');
    var n0 := Norm(true, 0, []);
    FoldAppend(n0, head, parts);
    FoldRender(n0, p);
    var n1 := Norm(true, 0, p);
    assert Fold(n0, head) == n1;
    FoldAppend(n1, Repeat("..", u), q);
    FoldPops(n1, u);
    var n2 := Norm(true, 0, p[..|p| - u]);
    assert Fold(n1, Repeat("..", u)) == n2;
    FoldSegments(n2, q);
  }


  /** The path reached by climbing `u` levels from `p` and descending into `q` is made of plain segments. */
  lemma ClimbDescendSegments(p: seq<string>, u: nat, q: seq<string>)
    requires AllSegments(p) && AllSegments(q) && u <= |p|
    ensures AllSegments(p[..|p| - u] + q)
  {
    var result := p[..|p| - u] + q;
    forall i | 0 <= i < |result| ensures IsSegment(result[i]) {
      if i >= |p| - u { assert result[i] == q[i - (|p| - u)]; }
    }
  }

  /** Joining an absolute path with relative parts that climb `u` levels and descend into `q`. */
  lemma JoinClimbDescend(p: seq<string>, u: nat, q: seq<string>)
    requires AllSegments(p) && AllSegments(q)
    requires u <= |p| && u + |q| > 0
    ensures Join(Render(p), JoinWith(Repeat("..", u) + q, '/')) == Render(p[..|p| - u] + q)
  {
    var rel := JoinWith(Repeat("..", u) + q, '/');
    var s := Render(p) + "/" + rel;
    var result := p[..|p| - u] + q;
    ClimbDescendLastChar(u, q);
    assert s[|s| - 1] == rel[|rel| - 1];
    FoldClimbDescend(p, u, q);
    ClimbDescendSegments(p, u, q);
    NormalizeAbsolute(s, result);
  }

  /** Relative parts that climb `u` levels and descend into `q` do not end in a separator. */
  lemma ClimbDescendLastChar(u: nat, q: seq<string>)
    requires AllSegments(q) && u + |q| > 0
    ensures var rel := JoinWith(Repeat("..", u) + q, '/'); |rel| > 0 && rel[|rel| - 1] != '/'
  {
    var parts := Repeat("..", u) + q;
    assert Last(parts) == if q != [] then Last(q) else "..";
    JoinWithLastChar(parts, '/');
  }

  // ---------------------------------------------------------------------
  // relative, dirname, extname

  /** `relative` between two normalised absolute paths, as parts. */
  lemma RelativeRender(a: seq<string>, b: seq<string>)
    requires AllSegments(a) && AllSegments(b)
    ensures Relative(Render(a), Render(b)) == JoinWith(RelativeParts(a, b), '/')
  {
    ResolveRender(a);
    ResolveRender(b);
    if a == b {
      var k := CommonPrefixLength(a, b);
      assert k == |a|;
      assert RelativeParts(a, b) == [];
    }
  }

  /**
    Round trip of `relative`: joining the relative path from `a` to `b`
    onto `a` gives `b` back.
   */
  lemma RelativeRoundTrip(a: seq<string>, b: seq<string>)
    requires AllSegments(a) && AllSegments(b)
    ensures Join(Render(a), Relative(Render(a), Render(b))) == Render(b)
  {
    RelativeRender(a, b);
    var k := CommonPrefixLength(a, b);
    var u := |a| - k;
    var down := b[k..];
    assert RelativeParts(a, b) == Repeat("..", u) + down;
    if u + |down| == 0 {
      assert a == a[..k] && b == b[..k];
      JoinNothing(a);
    } else {
      ClimbBackDown(a, b);
    }
  }

  /** Joining `a` with the parts of the relative path to a different `b` gives `b`. */
  lemma ClimbBackDown(a: seq<string>, b: seq<string>)
    requires AllSegments(a) && AllSegments(b)
    requires RelativeParts(a, b) != []
    ensures Join(Render(a), JoinWith(RelativeParts(a, b), '/')) == Render(b)
  {
    var k := CommonPrefixLength(a, b);
    var u := |a| - k;
    var down := b[k..];
    assert RelativeParts(a, b) == Repeat("..", u) + down;
    SegmentsSlice(b, k, |b|);
    JoinClimbDescend(a, u, down);
    assert a[..|a| - u] + down == b by {
      assert a[..k] == b[..k];
      assert b[..k] + b[k..] == b;
    }
  }

  /** Joining an empty path onto a normalised one leaves it as it is. */
  lemma JoinNothing(a: seq<string>)
    requires AllSegments(a)
    ensures Join(Render(a), "") == Render(a)
  {
    NormalizeRender(a);
  }

  /** No separator at or below `i` (past index 0): the scan finds none. */
  lemma {:induction false} DirEndNone(s: string, i: int, m: bool)
    requires i < |s|
    requires forall j :: 1 <= j <= i ==> s[j] != '/'
    ensures DirEnd(s, i, m) == -1
    decreases i
  {
    if i >= 1 {
      DirEndNone(s, i - 1, false);
    }
  }

  /** The scan stops at the separator `q` that precedes a run of non-separators. */
  lemma {:induction false} DirEndAt(s: string, q: int, i: int, m: bool)
    requires 1 <= q < i < |s| && s[q] == '/'
    requires forall j :: q < j <= i ==> s[j] != '/'
    ensures DirEnd(s, i, m) == q
    decreases i
  {
    if i - 1 > q {
      DirEndAt(s, q, i - 1, false);
    }
  }

  /** `dirname` of a normalised absolute path drops its last segment. */
  lemma DirnameRender(p: seq<string>)
    requires AllSegments(p) && p != []
    ensures Dirname(Render(p)) == Render(p[..|p| - 1])
  {
    var s := Render(p);
    var init := p[..|p| - 1];
    var last := Last(p);
    assert '/' !in last && last != "";
    if init == [] {
      assert p == [last];
      assert s == "/" + last;
      DirEndNone(s, |s| - 1, true);
    } else {
      assert p == init + [last];
      RenderConcat(init, [last]);
      assert s == Render(init) + "/" + last;
      var q := |Render(init)|;
      JoinWithFirstChar(init, '/');
      assert q >= 2;
      assert s[q] == '/';
      assert forall j :: q < j < |s| ==> s[j] == last[j - q - 1];
      DirEndAt(s, q, |s| - 1, true);
      assert s[..q] == Render(init);
    }
  }

  /** `extname` of a relative path made of parts ending in `name` is the extension of `name`. */
  lemma ExtnameOfJoin(parts: seq<string>, name: string)
    requires forall i :: 0 <= i < |parts| ==> '/' !in parts[i]
    requires name != "" && '/' !in name
    ensures Extname(JoinWith(parts + [name], '/')) == ExtOfBase(name)
  {
    var all := parts + [name];
    var f := JoinWith(all, '/');
    JoinWithLastChar(all, '/');
    assert f[|f| - 1] != '/';
    assert TrimTrailingSlashes(f) == f;
    SplitJoin(all, '/');
    assert Last(Split(f, '/')) == name;
  }
}

/**
  The JavaScript string operations the preview generator calls:
  `String.prototype.replace` with a string pattern (first occurrence only),
  `String.prototype.split` on one separator character and `Array.prototype.pop`.
  `String.prototype.indexOf` is how `replace` finds its match, and
  `Array.prototype.join` is how the path model builds text from segments.
 */
module JsString {

  /** True when `pat` occurs in `s` starting at index `j`. */
  predicate OccursAt(s: string, pat: string, j: int)
  {
    0 <= j && j + |pat| <= |s| && s[j..j + |pat|] == pat
  }

  /** True when `pat` occurs in `s` only as its suffix, never earlier. */
  predicate OccursOnlyAsSuffix(s: string, pat: string)
  {
    |pat| <= |s| && OccursAt(s, pat, |s| - |pat|) &&
    forall j :: 0 <= j < |s| - |pat| ==> !OccursAt(s, pat, j)
  }

  /**
    `s.indexOf(pat, from)`: the first index at or after `from` where `pat`
    occurs, or -1. JavaScript clamps a `from` beyond the end to `|s|`; the
    generator only searches from 0, so the model asks for `from <= |s|`.
   */
  function IndexOfFrom(s: string, pat: string, from: nat): (r: int)
    requires from <= |s|
    decreases |s| - from
    ensures r == -1 || (from <= r && OccursAt(s, pat, r))
    ensures forall j :: from <= j && (r == -1 || j < r) ==> !OccursAt(s, pat, j)
  {
    if from + |pat| > |s| then -1
    else if OccursAt(s, pat, from) then from
    else IndexOfFrom(s, pat, from + 1)
  }

  /** `s.indexOf(pat)` */
  function IndexOf(s: string, pat: string): int
  {
    IndexOfFrom(s, pat, 0)
  }

  /**
    `s.replace(pat, rep)` with a string pattern: only the first occurrence
    is replaced. The replacement texts used by the generator hold no `$`,
    so JavaScript's replacement patterns play no part.
   */
  function ReplaceFirst(s: string, pat: string, rep: string): string
  {
    var i := IndexOf(s, pat);
    if i < 0 then s else s[..i] + rep + s[i + |pat|..]
  }

  /** The first occurrence of `pat` is the one that `replace` rewrites. */
  lemma ReplaceFirstAt(s: string, pat: string, rep: string, k: int)
    requires OccursAt(s, pat, k)
    requires forall j :: 0 <= j < k ==> !OccursAt(s, pat, j)
    ensures ReplaceFirst(s, pat, rep) == s[..k] + rep + s[k + |pat|..]
  {
    var i := IndexOf(s, pat);
    assert i != -1 && i <= k;
  }

  /** Replacing a one-character pattern rewrites its first occurrence. */
  lemma ReplaceFirstChar(s: string, c: char, rep: string, k: int)
    requires 0 <= k < |s| && s[k] == c
    requires forall j :: 0 <= j < k ==> s[j] != c
    ensures ReplaceFirst(s, [c], rep) == s[..k] + rep + s[k + 1..]
  {
    forall j | 0 <= j < k ensures !OccursAt(s, [c], j) {
      assert s[j..j + 1] == [s[j]];
    }
    assert s[k..k + 1] == [c];
    ReplaceFirstAt(s, [c], rep, k);
  }

  /** A character missing from `a` is first found at the start of `b`. */
  lemma ReplaceFirstCharAfter(a: string, b: string, c: char, rep: string)
    requires c !in a && |b| > 0 && b[0] == c
    ensures ReplaceFirst(a + b, [c], rep) == a + rep + b[1..]
  {
    var s := a + b;
    forall j | 0 <= j < |a| ensures s[j] != c {
      assert s[j] == a[j];
    }
    ReplaceFirstChar(s, c, rep, |a|);
    assert s[..|a|] == a && s[|a| + 1..] == b[1..];
  }

  /** In `pre + a + c + b + post`, a `c` missing from `pre` and `a` is first found right after `a`. */
  lemma ReplaceCharBetween(pre: string, a: string, b: string, post: string, c: char, rep: string)
    requires c !in pre && c !in a
    ensures ReplaceFirst(pre + (a + [c] + b) + post, [c], rep) == pre + a + rep + b + post
  {
    var front := pre + a;
    var back := [c] + b + post;
    assert pre + (a + [c] + b) + post == front + back;
    forall i | 0 <= i < |front| ensures front[i] != c {
      if i < |pre| {
        assert front[i] == pre[i];
      } else {
        assert front[i] == a[i - |pre|];
      }
    }
    ReplaceFirstCharAfter(front, back, c, rep);
    assert back[1..] == b + post;
  }

  /** A pattern that is a prefix of `s` is replaced at the front. */
  lemma ReplacePrefix(pat: string, rest: string, rep: string)
    ensures ReplaceFirst(pat + rest, pat, rep) == rep + rest
  {
    var s := pat + rest;
    assert s[..|pat|] == pat;
    ReplaceFirstAt(s, pat, rep, 0);
    assert s[|pat|..] == rest;
  }

  /** Removing a pattern that occurs only as the suffix strips that suffix. */
  lemma RemoveSuffix(s: string, pat: string)
    requires OccursOnlyAsSuffix(s, pat)
    ensures ReplaceFirst(s, pat, "") == s[..|s| - |pat|]
  {
    ReplaceFirstAt(s, pat, "", |s| - |pat|);
    assert s[|s|..] == [];
  }

  /** `s.split(sep)`: the pieces between separators; never empty. */
  function Split(s: string, sep: char): (parts: seq<string>)
    ensures |parts| >= 1
    ensures forall i :: 0 <= i < |parts| ==> sep !in parts[i]
  {
    if s == [] then [""]
    else
      var rest := Split(s[1..], sep);
      if s[0] == sep then [""] + rest
      else [[s[0]] + rest[0]] + rest[1..]
  }

  /** `parts.join(sep)` */
  function JoinWith(parts: seq<string>, sep: char): string
  {
    if |parts| == 0 then ""
    else if |parts| == 1 then parts[0]
    else JoinWith(parts[..|parts| - 1], sep) + [sep] + parts[|parts| - 1]
  }

  /** `arr.pop()` on a non-empty array, as a value: its last element. */
  function Last(parts: seq<string>): string
    requires |parts| > 0
  {
    parts[|parts| - 1]
  }

  /** Splitting at a separator splits the two sides independently. */
  lemma {:induction false} SplitConcat(a: string, b: string, sep: char)
    ensures Split(a + [sep] + b, sep) == Split(a, sep) + Split(b, sep)
    decreases |a|
  {
    var s := a + [sep] + b;
    if a == [] {
      assert s == [sep] + b;
      assert s[1..] == b;
    } else {
      assert s[0] == a[0];
      assert s[1..] == a[1..] + [sep] + b;
      SplitConcat(a[1..], b, sep);
    }
  }

  /** A string without the separator splits into itself. */
  lemma {:induction false} SplitNoSeparator(s: string, sep: char)
    requires sep !in s
    ensures Split(s, sep) == [s]
    decreases |s|
  {
    if s != [] {
      assert sep !in s[1..];
      SplitNoSeparator(s[1..], sep);
      assert [s[0]] + s[1..] == s;
    }
  }

  /** Joining with a separator and splitting again gives the parts back. */
  lemma {:induction false} SplitJoin(parts: seq<string>, sep: char)
    requires |parts| > 0
    requires forall i :: 0 <= i < |parts| ==> sep !in parts[i]
    ensures Split(JoinWith(parts, sep), sep) == parts
    decreases |parts|
  {
    if |parts| == 1 {
      SplitNoSeparator(parts[0], sep);
    } else {
      var init := parts[..|parts| - 1];
      SplitJoin(init, sep);
      SplitConcat(JoinWith(init, sep), parts[|parts| - 1], sep);
      SplitNoSeparator(parts[|parts| - 1], sep);
      assert init + [parts[|parts| - 1]] == parts;
    }
  }

  /** `join` seen from the front. */
  lemma {:induction false} JoinWithCons(x: string, rest: seq<string>, sep: char)
    requires |rest| > 0
    ensures JoinWith([x] + rest, sep) == x + [sep] + JoinWith(rest, sep)
    decreases |rest|
  {
    var parts := [x] + rest;
    if |rest| > 1 {
      var init := rest[..|rest| - 1];
      assert parts[..|parts| - 1] == [x] + init;
      JoinWithCons(x, init, sep);
    } else {
      assert parts[..|parts| - 1] == [x];
    }
  }

  /** Splitting and joining again gives the string back. */
  lemma {:induction false} JoinSplit(s: string, sep: char)
    ensures JoinWith(Split(s, sep), sep) == s
    decreases |s|
  {
    if s != [] {
      var rest := Split(s[1..], sep);
      JoinSplit(s[1..], sep);
      assert JoinWith(rest, sep) == s[1..];
      if s[0] == sep {
        assert Split(s, sep) == [""] + rest;
        JoinWithCons("", rest, sep);
        assert [sep] + s[1..] == s;
      } else if |rest| == 1 {
        assert Split(s, sep) == [[s[0]] + rest[0]];
        assert [s[0]] + s[1..] == s;
      } else {
        assert Split(s, sep) == [[s[0]] + rest[0]] + rest[1..];
        JoinGlued(s[0], rest, sep);
        assert [s[0]] + s[1..] == s;
      }
    }
  }

  /** Gluing a character onto the first of several parts glues it onto their join. */
  lemma JoinGlued(c: char, rest: seq<string>, sep: char)
    requires |rest| > 1
    ensures JoinWith([[c] + rest[0]] + rest[1..], sep) == [c] + JoinWith(rest, sep)
  {
    var tail := rest[1..];
    assert rest == [rest[0]] + tail;
    JoinWithCons([c] + rest[0], tail, sep);
    JoinWithCons(rest[0], tail, sep);
  }

  /** Joining two non-empty lists puts one separator between their joins. */
  lemma {:induction false} JoinWithConcat(a: seq<string>, b: seq<string>, sep: char)
    requires |a| > 0 && |b| > 0
    ensures JoinWith(a + b, sep) == JoinWith(a, sep) + [sep] + JoinWith(b, sep)
    decreases |b|
  {
    var ab := a + b;
    if |b| == 1 {
      assert ab[..|ab| - 1] == a;
    } else {
      var init := b[..|b| - 1];
      assert ab[..|ab| - 1] == a + init;
      JoinWithConcat(a, init, sep);
    }
  }

  /** Cutting `k` characters off a join cuts them off its last part. */
  lemma JoinWithTrim(parts: seq<string>, name: string, sep: char, k: nat)
    requires k <= |name|
    ensures var j := JoinWith(parts + [name], sep);
      |j| >= k && j[..|j| - k] == JoinWith(parts + [name[..|name| - k]], sep)
  {
    var all := parts + [name];
    var cut := parts + [name[..|name| - k]];
    assert all[..|all| - 1] == parts && cut[..|cut| - 1] == parts;
    if parts != [] {
      var j := JoinWith(parts, sep) + [sep] + name;
      assert j[..|j| - k] == JoinWith(parts, sep) + [sep] + name[..|name| - k];
    }
  }

  /** The last character of a join is the last character of its last part. */
  lemma JoinWithLastChar(parts: seq<string>, sep: char)
    requires |parts| > 0 && |Last(parts)| > 0
    ensures var j := JoinWith(parts, sep);
      |j| >= |Last(parts)| && j[|j| - 1] == Last(parts)[|Last(parts)| - 1]
  {
  }

  /** The first character of a join is the first character of its first part. */
  lemma {:induction false} JoinWithFirstChar(parts: seq<string>, sep: char)
    requires |parts| > 0 && |parts[0]| > 0
    ensures var j := JoinWith(parts, sep); |j| > 0 && j[0] == parts[0][0]
    decreases |parts|
  {
    if |parts| > 1 {
      JoinWithFirstChar(parts[..|parts| - 1], sep);
    }
  }
}

/** The JavaScript string operations the plugin relies on (`split`, `join`,
    `endsWith`, `repeat`, and the slash-trimming regular expression),
    written out over `string == seq<char>`. */
module Text {
  import opened Wrappers

  predicate StartsWith(s: string, p: string) { |p| <= |s| && s[..|p|] == p }

  predicate EndsWith(s: string, p: string) { |p| <= |s| && s[|s| - |p|..] == p }

  /** Every character of `s` is `c` (vacuously true of the empty string). */
  predicate AllChar(s: string, c: char) { forall k :: 0 <= k < |s| ==> s[k] == c }

  /** `"c".repeat(n)`. */
  function Repeat(c: char, n: nat): (r: string)
    ensures |r| == n && AllChar(r, c)
  {
    if n == 0 then "" else Repeat(c, n - 1) + [c]
  }

  // ---------------------------------------------------------------------
  // join and split

  /** `parts.join(sep)`: the empty array joins to "", one part to itself. */
  function Join(parts: seq<string>, sep: string): string
  {
    if |parts| == 0 then ""
    else if |parts| == 1 then parts[0]
    else Join(parts[..|parts| - 1], sep) + sep + parts[|parts| - 1]
  }

  /** A join starts with its first part and ends with its last. */
  lemma {:induction false} JoinEnds(parts: seq<string>, sep: string)
    requires |parts| >= 1
    ensures StartsWith(Join(parts, sep), parts[0])
    ensures EndsWith(Join(parts, sep), parts[|parts| - 1])
    decreases |parts|
  {
    if |parts| > 1 {
      var front, last := parts[..|parts| - 1], parts[|parts| - 1];
      JoinEnds(front, sep);
      var j := Join(front, sep);
      assert Join(parts, sep) == j + (sep + last);
      assert (j + (sep + last))[..|parts[0]|] == j[..|parts[0]|];
      assert (j + sep + last)[|j + sep + last| - |last|..] == last;
    }
  }

  /** `s.split(sep)` for a one-character separator: never empty, and no
      piece contains the separator. */
  function Split(s: string, sep: char): (r: seq<string>)
    ensures |r| >= 1
  {
    if s == "" then [""]
    else
      var init := Split(s[..|s| - 1], sep);
      if s[|s| - 1] == sep then init + [""]
      else init[..|init| - 1] + [init[|init| - 1] + [s[|s| - 1]]]
  }

  /** No piece of a split holds the separator. */
  lemma {:induction false} SplitPieces(s: string, sep: char)
    ensures forall i :: 0 <= i < |Split(s, sep)| ==> sep !in Split(s, sep)[i]
    decreases |s|
  {
    if s != "" {
      var t := s[..|s| - 1];
      SplitPieces(t, sep);
      var init := Split(t, sep);
      if s[|s| - 1] != sep {
        var last := init[|init| - 1] + [s[|s| - 1]];
        assert sep !in init[|init| - 1];
        assert sep !in last;
      }
    }
  }

  lemma JoinAppendOne(parts: seq<string>, x: string, sep: string)
    requires |parts| >= 1
    ensures Join(parts + [x], sep) == Join(parts, sep) + sep + x
  {
    assert (parts + [x])[..|parts|] == parts;
  }

  /** A join of pieces the last of which is non-empty is non-empty. */
  lemma JoinNonEmpty(parts: seq<string>, sep: string)
    requires |parts| >= 1 && parts[|parts| - 1] != ""
    ensures Join(parts, sep) != ""
  {
  }

  /** Joining the pieces of a split gives back the string. */
  lemma {:induction false} JoinSplit(s: string, sep: char)
    ensures Join(Split(s, sep), [sep]) == s
    decreases |s|
  {
    if s != "" {
      var t := s[..|s| - 1];
      var c := s[|s| - 1];
      var init := Split(t, sep);
      assert Join(init, [sep]) == t by { JoinSplit(t, sep); }
      assert s == t + [c];
      if c == sep {
        assert Join(Split(s, sep), [sep]) == t + [sep] + "" by { JoinAppendOne(init, "", [sep]); }
      } else if |init| == 1 {
        assert Split(s, sep) == [init[0] + [c]];
      } else {
        var front, last := init[..|init| - 1], init[|init| - 1];
        var j := Join(front, [sep]);
        assert Split(s, sep) == front + [last + [c]];
        assert Join(Split(s, sep), [sep]) == j + [sep] + (last + [c]) by {
          JoinAppendOne(front, last + [c], [sep]);
        }
        assert t == j + [sep] + last by {
          assert init == front + [last];
          JoinAppendOne(front, last, [sep]);
        }
        assert j + [sep] + (last + [c]) == (j + [sep] + last) + [c];
      }
    }
  }

  /** A string without the separator splits into itself. */
  lemma {:induction false} SplitNoSeparator(y: string, sep: char)
    requires sep !in y
    ensures Split(y, sep) == [y]
    decreases |y|
  {
    if y != "" {
      var t := y[..|y| - 1];
      assert forall k :: 0 <= k < |t| ==> t[k] == y[k];
      SplitNoSeparator(t, sep);
      assert y == t + [y[|y| - 1]];
    }
  }

  /** Splitting `x + sep + y`, where `y` has no separator, splits `x` and
      adds one last piece `y`. */
  lemma {:induction false} SplitAfterSeparator(x: string, y: string, sep: char)
    requires sep !in y
    ensures Split(x + [sep] + y, sep) == Split(x, sep) + [y]
    decreases |y|
  {
    var s := x + [sep] + y;
    if y == "" {
      assert s[..|s| - 1] == x;
    } else {
      var t := y[..|y| - 1];
      assert forall k :: 0 <= k < |t| ==> t[k] == y[k];
      SplitAfterSeparator(x, t, sep);
      assert s[..|s| - 1] == x + [sep] + t;
      assert y == t + [y[|y| - 1]];
    }
  }

  /** Splitting a join of separator-free pieces gives back the pieces. */
  lemma {:induction false} SplitJoin(parts: seq<string>, sep: char)
    requires |parts| >= 1
    requires forall i :: 0 <= i < |parts| ==> sep !in parts[i]
    ensures Split(Join(parts, [sep]), sep) == parts
    decreases |parts|
  {
    if |parts| == 1 {
      SplitNoSeparator(parts[0], sep);
    } else {
      var front := parts[..|parts| - 1];
      var last := parts[|parts| - 1];
      SplitJoin(front, sep);
      SplitAfterSeparator(Join(front, [sep]), last, sep);
      assert parts == front + [last];
    }
  }

  // ---------------------------------------------------------------------
  // the slash-trimming regular expression /^\/+|\/+$/g

  /** `s.replace(/^\/+|\/+$/g, "")`: drops every leading and every
      trailing slash, so the result neither starts nor ends with one. */
  function TrimSlashes(s: string): (r: string)
    ensures r == "" || (r[0] != '/' && r[|r| - 1] != '/')
  {
    if s != "" && s[0] == '/' then TrimSlashes(s[1..])
    else if s != "" && s[|s| - 1] == '/' then TrimSlashes(s[..|s| - 1])
    else s
  }

  lemma AllCharConcat(a: string, b: string, c: char)
    requires AllChar(a, c) && AllChar(b, c)
    ensures AllChar(a + b, c)
  {
    forall k | 0 <= k < |a + b| ensures (a + b)[k] == c {
      if k < |a| { assert (a + b)[k] == a[k]; } else { assert (a + b)[k] == b[k - |a|]; }
    }
  }

  /** Trimming leaves nothing exactly when the string is only slashes. */
  lemma {:induction false} TrimSlashesEmpty(s: string)
    ensures TrimSlashes(s) == "" <==> AllChar(s, '/')
    decreases |s|
  {
    if s != "" && s[0] == '/' {
      var t := s[1..];
      TrimSlashesEmpty(t);
      assert s == [s[0]] + t;
      if AllChar(t, '/') { AllCharConcat([s[0]], t, '/'); }
      if AllChar(s, '/') { assert forall k :: 0 <= k < |t| ==> t[k] == s[k + 1]; }
    } else if s != "" && s[|s| - 1] == '/' {
      var t := s[..|s| - 1];
      TrimSlashesEmpty(t);
      assert s == t + [s[|s| - 1]];
    }
  }

  /** Trimming `lead + p + trail`, where `lead` and `trail` are runs of
      slashes and `p` has none at either end, gives `p`. */
  lemma {:induction false} TrimSlashesOf(lead: string, p: string, trail: string)
    requires AllChar(lead, '/') && AllChar(trail, '/')
    requires p == "" || (p[0] != '/' && p[|p| - 1] != '/')
    ensures TrimSlashes(lead + p + trail) == p
    decreases |lead| + |trail|
  {
    var s := lead + p + trail;
    if p == "" {
      AllCharConcat(lead, trail, '/');
      assert s == lead + trail;
      TrimSlashesEmpty(s);
    } else if lead != "" {
      assert s[0] == lead[0];
      assert s[1..] == lead[1..] + p + trail;
      TrimSlashesOf(lead[1..], p, trail);
    } else if trail != "" {
      assert s[0] == p[0];
      assert s[|s| - 1] == trail[|trail| - 1];
      assert s[..|s| - 1] == lead + p + trail[..|trail| - 1];
      TrimSlashesOf(lead, p, trail[..|trail| - 1]);
    } else {
      assert s == p;
    }
  }

  // ---------------------------------------------------------------------
  // s.split(pat)[1]

  /** `pat` occurs in `s` starting at index `k`. */
  predicate MatchAt(s: string, pat: string, k: int)
  {
    0 <= k && k + |pat| <= |s| && s[k..k + |pat|] == pat
  }

  /** The first index at or after `from` where `pat` occurs. */
  function IndexOf(s: string, pat: string, from: nat): (r: Option<nat>)
    requires from <= |s|
    ensures r.Some? ==> from <= r.value && MatchAt(s, pat, r.value)
    ensures r.Some? ==> forall k :: from <= k < r.value ==> !MatchAt(s, pat, k)
    ensures r.None? ==> forall k :: from <= k ==> !MatchAt(s, pat, k)
    decreases |s| - from
  {
    if MatchAt(s, pat, from) then Some(from)
    else if from == |s| then None
    else IndexOf(s, pat, from + 1)
  }

  /** `s.split(pat)[1]` for a non-empty `pat`: the text between the first
      occurrence of `pat` and the next one (or the end), or `None` — the
      JavaScript `undefined` — when `pat` does not occur. */
  function SecondPiece(s: string, pat: string): (r: Option<string>)
    requires |pat| > 0
    ensures r.None? <==> forall k :: !MatchAt(s, pat, k)
  {
    match IndexOf(s, pat, 0)
    case None => None
    case Some(i) =>
      var start := i + |pat|;
      match IndexOf(s, pat, start)
      case None => Some(s[start..])
      case Some(j) =>
        assert MatchAt(s, pat, i);
        Some(s[start..j])
  }

  /** When `pat` occurs in `s` only at `prefix`'s end, the second piece is
      everything after that occurrence. */
  lemma SecondPieceOfSingle(prefix: string, pat: string, rest: string)
    requires |pat| > 0
    requires forall k :: k != |prefix| ==> !MatchAt(prefix + pat + rest, pat, k)
    ensures SecondPiece(prefix + pat + rest, pat) == Some(rest)
  {
    var s := prefix + pat + rest;
    assert s[|prefix|..|prefix| + |pat|] == pat;
    assert MatchAt(s, pat, |prefix|);
    assert s[|prefix| + |pat|..] == rest;
  }
}

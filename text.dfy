/**
 * The Python string operations the downloader relies on: `str.split(sep)`,
 * `" ".join(parts)`, `str.replace(pat, rep)`, `str.endswith` and ASCII
 * `str.lower()`. Splitting and replacing both scan left to right and match
 * non-overlapping occurrences, as CPython does.
 */
module Text {

  predicate StartsWith(s: string, p: string) { |p| <= |s| && s[..|p|] == p }

  predicate EndsWith(s: string, p: string) { |p| <= |s| && s[|s| - |p|..] == p }

  /** `p in s` for strings: `p` occurs somewhere in `s`. */
  predicate Contains(s: string, p: string)
  {
    StartsWith(s, p) || (s != [] && Contains(s[1..], p))
  }

  /** `s.split(sep)` for a non-empty separator. */
  function Split(s: string, sep: string): (r: seq<string>)
    requires |sep| > 0
    ensures |r| >= 1 && r[0] <= s
    decreases |s|
  {
    if |s| < |sep| then [s]
    else if s[..|sep|] == sep then [""] + Split(s[|sep|..], sep)
    else
      var t := Split(s[1..], sep);
      [[s[0]] + t[0]] + t[1..]
  }

  /** `sep.join(parts)`. */
  function Join(parts: seq<string>, sep: string): string
  {
    if |parts| == 0 then ""
    else if |parts| == 1 then parts[0]
    else parts[0] + sep + Join(parts[1..], sep)
  }

  /**
   * `s.replace(pat, rep)`: every non-overlapping occurrence of `old`, found
   * left to right, becomes `new`; an empty `old` matches before every
   * character and at the end.
   */
  function Replace(s: string, pat: string, rep: string): string
    decreases |s|
  {
    if |pat| == 0 then (if s == [] then rep else rep + [s[0]] + Replace(s[1..], pat, rep))
    else if |s| < |pat| then s
    else if s[..|pat|] == pat then rep + Replace(s[|pat|..], pat, rep)
    else [s[0]] + Replace(s[1..], pat, rep)
  }

  /** `a` can be obtained from `b` by deleting elements. */
  predicate IsSubsequence<T(==)>(a: seq<T>, b: seq<T>)
    decreases |b|
  {
    if a == [] then true
    else if b == [] then false
    else if a[0] == b[0] then IsSubsequence(a[1..], b[1..])
    else IsSubsequence(a, b[1..])
  }

  /** Dropping the first element of a subsequence leaves a subsequence. */
  lemma {:induction false} SubsequenceDropFirst<T>(a: seq<T>, b: seq<T>)
    requires a != [] && IsSubsequence(a, b)
    ensures IsSubsequence(a[1..], b)
    decreases |b|
  {
    var d := a[1..];
    if a[0] != b[0] {
      SubsequenceDropFirst(a, b[1..]);
    }
    assert IsSubsequence(d, b[1..]);
    if d != [] && d[0] == b[0] {
      SubsequenceDropFirst(d, b[1..]);
    }
  }

  /** A subsequence of the tail is a subsequence of the whole. */
  lemma SubsequenceOfTail<T>(a: seq<T>, b: seq<T>)
    requires b != [] && IsSubsequence(a, b[1..])
    ensures IsSubsequence(a, b)
  {
    if a != [] && a[0] == b[0] {
      SubsequenceDropFirst(a, b[1..]);
    }
  }

  function LowerChar(c: char): char
  {
    if 'A' <= c <= 'Z' then (c as int + 32) as char else c
  }

  /** `s.lower()` on ASCII letters. */
  function Lower(s: string): string
  {
    seq(|s|, i requires 0 <= i < |s| => LowerChar(s[i]))
  }

  lemma JoinCons(c: char, t: string, rest: seq<string>, sep: string)
    ensures Join([[c] + t] + rest, sep) == [c] + Join([t] + rest, sep)
  {
    if |rest| > 0 {
      assert ([[c] + t] + rest)[1..] == rest == ([t] + rest)[1..];
    }
  }

  lemma JoinEmptyHead(rest: seq<string>, sep: string)
    requires |rest| >= 1
    ensures Join([""] + rest, sep) == sep + Join(rest, sep)
  {
    assert ([""] + rest)[1..] == rest;
  }

  /** Joining the pieces of a split with the separator gives back the string. */
  lemma {:induction false} JoinSplit(s: string, sep: string)
    requires |sep| > 0
    ensures Join(Split(s, sep), sep) == s
    decreases |s|
  {
    if |s| < |sep| {
    } else if s[..|sep|] == sep {
      assert Split(s, sep) == [""] + Split(s[|sep|..], sep);
      JoinSplit(s[|sep|..], sep);
      JoinEmptyHead(Split(s[|sep|..], sep), sep);
      assert s == sep + s[|sep|..];
    } else {
      var t := Split(s[1..], sep);
      assert Split(s, sep) == [[s[0]] + t[0]] + t[1..];
      JoinSplit(s[1..], sep);
      JoinCons(s[0], t[0], t[1..], sep);
      assert [t[0]] + t[1..] == t;
      assert s == [s[0]] + s[1..];
    }
  }

  /** `replace` cuts the string at the occurrences `split` finds and glues the pieces with the new text. */
  lemma {:induction false} ReplaceIsJoinOfSplit(s: string, pat: string, rep: string)
    requires |pat| > 0
    ensures Replace(s, pat, rep) == Join(Split(s, pat), rep)
    decreases |s|
  {
    if |s| < |pat| {
    } else if s[..|pat|] == pat {
      ReplaceIsJoinOfSplit(s[|pat|..], pat, rep);
      JoinEmptyHead(Split(s[|pat|..], pat), rep);
    } else {
      var t := Split(s[1..], pat);
      ReplaceIsJoinOfSplit(s[1..], pat, rep);
      JoinCons(s[0], t[0], t[1..], rep);
      assert [t[0]] + t[1..] == t;
    }
  }

  lemma {:induction false} ShortDoesNotContain(s: string, p: string)
    requires |s| < |p|
    ensures !Contains(s, p)
    decreases |s|
  {
    if s != [] {
      ShortDoesNotContain(s[1..], p);
    }
  }

  lemma {:induction false} PrefixContains(a: string, s: string, p: string)
    requires a <= s && Contains(a, p)
    ensures Contains(s, p)
    decreases |a|
  {
    if StartsWith(a, p) {
      assert s[..|p|] == a[..|p|];
    } else {
      PrefixContains(a[1..], s[1..], p);
    }
  }

  /** No piece of `s.split(sep)` contains the separator. */
  lemma {:induction false} SplitPiecesFree(s: string, sep: string)
    requires |sep| > 0
    ensures forall i :: 0 <= i < |Split(s, sep)| ==> !Contains(Split(s, sep)[i], sep)
    decreases |s|
  {
    if |s| < |sep| {
      ShortDoesNotContain(s, sep);
    } else if s[..|sep|] == sep {
      SplitPiecesFree(s[|sep|..], sep);
      ShortDoesNotContain("", sep);
    } else {
      var t := Split(s[1..], sep);
      SplitPiecesFree(s[1..], sep);
      var head := [s[0]] + t[0];
      var r := Split(s, sep);
      assert r == [head] + t[1..];
      assert head <= s;
      assert !StartsWith(head, sep) by {
        if |sep| <= |head| { assert head[..|sep|] == s[..|sep|]; }
      }
      assert head[1..] == t[0];
      assert !Contains(head, sep);
      forall i | 0 <= i < |r| ensures !Contains(r[i], sep) {
        if i > 0 { assert r[i] == t[i]; }
      }
    }
  }

  /** A string in which the old text does not occur is left unchanged by `replace`. */
  lemma {:induction false} ReplaceAbsent(s: string, pat: string, rep: string)
    requires |pat| > 0 && !Contains(s, pat)
    ensures Replace(s, pat, rep) == s
    decreases |s|
  {
    if |s| >= |pat| {
      assert !StartsWith(s, pat);
      ReplaceAbsent(s[1..], pat, rep);
      assert s == [s[0]] + s[1..];
    }
  }

  /** A text without the separator splits into itself alone. */
  lemma {:induction false} SplitWithoutSeparator(s: string, c: char)
    requires c !in s
    ensures Split(s, [c]) == [s]
    decreases |s|
  {
    if |s| >= 1 {
      assert s[..1] != [c] by { assert s[0] in s; }
      SplitWithoutSeparator(s[1..], c);
      assert [s[0]] + s[1..] == s;
    }
  }

  /** Splitting at a one-character separator: the text after the last separator is the last piece. */
  lemma {:induction false} SplitAtLast(a: string, c: char, b: string)
    requires c !in b
    ensures Split(a + [c] + b, [c]) == Split(a, [c]) + [b]
    decreases |a|
  {
    var s := a + [c] + b;
    if a == [] {
      assert s[..1] == [c] && s[1..] == b;
      SplitWithoutSeparator(b, c);
    } else if a[0] == c {
      assert s[..1] == [c];
      assert s[1..] == a[1..] + [c] + b;
      SplitAtLast(a[1..], c, b);
    } else {
      assert s[0] == a[0];
      assert s[..1] != [c];
      assert s[1..] == a[1..] + [c] + b;
      SplitAtLast(a[1..], c, b);
      var t := Split(a[1..], [c]);
      assert Split(s[1..], [c]) == t + [b];
      assert (t + [b])[0] == t[0];
      assert (t + [b])[1..] == t[1..] + [b];
    }
  }

  lemma LowerAppend(a: string, b: string)
    ensures Lower(a + b) == Lower(a) + Lower(b)
  {
  }

  lemma LowerKeepsOut(s: string, c: char)
    requires c !in s && !('a' <= c <= 'z')
    ensures c !in Lower(s)
  {
    forall i | 0 <= i < |s| ensures Lower(s)[i] != c {
      assert s[i] in s;
    }
  }
}

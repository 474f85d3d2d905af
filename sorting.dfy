/**
 * Python 2's ordering of the values `sorted()` is applied to here: every int
 * sorts before every string, ints compare numerically and strings compare
 * character by character (a proper prefix first). `Sort` is `sorted()` of a
 * list; `SortedKeys` is `sorted(d.iterkeys())` of a dictionary.
 */
module Sorting {
  import opened Atoms

  predicate StrLt(a: string, b: string)
  {
    if a == [] then b != []
    else if b == [] then false
    else if a[0] == b[0] then StrLt(a[1..], b[1..])
    else a[0] < b[0]
  }

  predicate AtomLt(x: Atom, y: Atom)
  {
    match (x, y)
    case (AInt(a), AInt(b)) => a < b
    case (AInt(_), AStr(_)) => true
    case (AStr(_), AInt(_)) => false
    case (AStr(a), AStr(b)) => StrLt(a, b)
  }

  predicate AtomLe(x: Atom, y: Atom) { x == y || AtomLt(x, y) }

  ghost predicate Sorted(s: seq<Atom>)
  {
    forall i, j :: 0 <= i < j < |s| ==> AtomLe(s[i], s[j])
  }

  ghost predicate StrictlySorted(s: seq<Atom>)
  {
    forall i, j :: 0 <= i < j < |s| ==> AtomLt(s[i], s[j])
  }

  lemma {:induction false} StrLtIrreflexive(a: string)
    ensures !StrLt(a, a)
    decreases |a|
  {
    if a != [] { StrLtIrreflexive(a[1..]); }
  }

  lemma {:induction false} StrLtTransitive(a: string, b: string, c: string)
    requires StrLt(a, b) && StrLt(b, c)
    ensures StrLt(a, c)
    decreases |a|
  {
    if a != [] && a[0] == b[0] && b[0] == c[0] {
      StrLtTransitive(a[1..], b[1..], c[1..]);
    }
  }

  lemma {:induction false} StrLtTotal(a: string, b: string)
    requires a != b
    ensures StrLt(a, b) || StrLt(b, a)
    decreases |a|
  {
    if a != [] && b != [] && a[0] == b[0] {
      assert a == [a[0]] + a[1..] && b == [b[0]] + b[1..];
      StrLtTotal(a[1..], b[1..]);
    }
  }

  lemma AtomLtIrreflexive(x: Atom)
    ensures !AtomLt(x, x)
  {
    if x.AStr? { StrLtIrreflexive(x.s); }
  }

  lemma AtomLtTransitive(x: Atom, y: Atom, z: Atom)
    requires AtomLt(x, y) && AtomLt(y, z)
    ensures AtomLt(x, z)
  {
    if x.AStr? && y.AStr? && z.AStr? { StrLtTransitive(x.s, y.s, z.s); }
  }

  lemma AtomLtAsymmetric(x: Atom, y: Atom)
    requires AtomLt(x, y)
    ensures !AtomLt(y, x)
  {
    if AtomLt(y, x) {
      AtomLtTransitive(x, y, x);
      AtomLtIrreflexive(x);
    }
  }

  lemma AtomLtTotal(x: Atom, y: Atom)
    requires x != y
    ensures AtomLt(x, y) || AtomLt(y, x)
  {
    if x.AStr? && y.AStr? { StrLtTotal(x.s, y.s); }
  }

  lemma AtomLeTransitive(x: Atom, y: Atom, z: Atom)
    requires AtomLe(x, y) && AtomLe(y, z)
    ensures AtomLe(x, z)
  {
    if x != y && y != z { AtomLtTransitive(x, y, z); }
  }

  /** Inserts `x` before the first element it does not exceed. */
  function Insert(x: Atom, s: seq<Atom>): (r: seq<Atom>)
    ensures multiset(r) == multiset(s) + multiset{x}
  {
    if s == [] then [x]
    else if AtomLe(x, s[0]) then [x] + s
    else
      assert s == [s[0]] + s[1..];
      [s[0]] + Insert(x, s[1..])
  }

  lemma InsertElements(x: Atom, s: seq<Atom>)
    ensures forall y :: y in Insert(x, s) <==> y == x || y in s
  {
    assert forall y :: y in Insert(x, s) <==> y in multiset(Insert(x, s));
  }

  lemma SortedCons(h: Atom, t: seq<Atom>)
    requires Sorted(t) && forall y :: y in t ==> AtomLe(h, y)
    ensures Sorted([h] + t)
  {
    var r := [h] + t;
    forall i, j | 0 <= i < j < |r| ensures AtomLe(r[i], r[j]) {
      assert r[j] == t[j - 1];
      if i > 0 { assert r[i] == t[i - 1]; }
    }
  }

  lemma StrictlySortedCons(h: Atom, t: seq<Atom>)
    requires StrictlySorted(t) && forall y :: y in t ==> AtomLt(h, y)
    ensures StrictlySorted([h] + t)
  {
    var r := [h] + t;
    forall i, j | 0 <= i < j < |r| ensures AtomLt(r[i], r[j]) {
      assert r[j] == t[j - 1];
      if i > 0 { assert r[i] == t[i - 1]; }
    }
  }

  lemma {:induction false} InsertSorted(x: Atom, s: seq<Atom>)
    requires Sorted(s)
    ensures Sorted(Insert(x, s))
  {
    if s == [] {
    } else if AtomLe(x, s[0]) {
      forall y | y in s ensures AtomLe(x, y) {
        var m :| 0 <= m < |s| && s[m] == y;
        AtomLeTransitive(x, s[0], y);
      }
      SortedCons(x, s);
    } else {
      var t := s[1..];
      assert Sorted(t);
      InsertSorted(x, t);
      AtomLtTotal(x, s[0]);
      InsertElements(x, t);
      forall y | y in Insert(x, t) ensures AtomLe(s[0], y) {
        if y != x {
          var m :| 0 <= m < |t| && t[m] == y;
          assert s[m + 1] == y;
        }
      }
      SortedCons(s[0], Insert(x, t));
    }
  }

  lemma {:induction false} InsertStrictlySorted(x: Atom, s: seq<Atom>)
    requires StrictlySorted(s) && x !in s
    ensures StrictlySorted(Insert(x, s))
  {
    if s == [] {
    } else if AtomLe(x, s[0]) {
      forall y | y in s ensures AtomLt(x, y) {
        var m :| 0 <= m < |s| && s[m] == y;
        if m > 0 { AtomLtTransitive(x, s[0], y); }
      }
      StrictlySortedCons(x, s);
    } else {
      var t := s[1..];
      assert StrictlySorted(t);
      InsertStrictlySorted(x, t);
      AtomLtTotal(x, s[0]);
      InsertElements(x, t);
      forall y | y in Insert(x, t) ensures AtomLt(s[0], y) {
        if y != x {
          var m :| 0 <= m < |t| && t[m] == y;
          assert s[m + 1] == y;
        }
      }
      StrictlySortedCons(s[0], Insert(x, t));
    }
  }

  /** Python's `sorted(xs)`: the same elements, in ascending order. */
  function Sort(xs: seq<Atom>): (r: seq<Atom>)
    ensures multiset(r) == multiset(xs)
    ensures Sorted(r)
  {
    if xs == [] then []
    else
      var t := Sort(xs[1..]);
      InsertSorted(xs[0], t);
      assert xs == [xs[0]] + xs[1..];
      Insert(xs[0], t)
  }

  /** `sorted(d.iterkeys())`: the keys of a dictionary, each once, ascending. */
  method SortedKeys(keys: set<Atom>) returns (r: seq<Atom>)
    ensures StrictlySorted(r)
    ensures forall k :: k in r <==> k in keys
  {
    r := [];
    var rest := keys;
    while rest != {}
      invariant rest <= keys
      invariant StrictlySorted(r)
      invariant forall k :: k in r <==> k in keys && k !in rest
      decreases |rest|
    {
      var k :| k in rest;
      InsertStrictlySorted(k, r);
      InsertElements(k, r);
      r := Insert(k, r);
      rest := rest - {k};
    }
  }

  lemma FirstIsElement(a: seq<Atom>)
    requires a != []
    ensures a[0] in a
  {
  }

  /** Two strictly sorted sequences with the same elements start alike. */
  lemma SameElementsSameHead(a: seq<Atom>, b: seq<Atom>)
    requires StrictlySorted(a) && StrictlySorted(b)
    requires forall k :: k in a <==> k in b
    requires a != [] && b != []
    ensures a[0] == b[0]
  {
    assert a[0] in b && b[0] in a;
    var j :| 0 <= j < |b| && b[j] == a[0];
    var i :| 0 <= i < |a| && a[i] == b[0];
    if a[0] != b[0] {
      assert j > 0 && i > 0;
      AtomLtAsymmetric(b[0], b[j]);
      assert false;
    }
  }

  /** Past a common head, whatever the first one holds the second holds too. */
  lemma SameHeadTails(a: seq<Atom>, b: seq<Atom>)
    requires StrictlySorted(a)
    requires forall k :: k in a ==> k in b
    requires a != [] && b != [] && a[0] == b[0]
    ensures forall k :: k in a[1..] ==> k in b[1..]
  {
    var a', b' := a[1..], b[1..];
    forall k | k in a' ensures k in b' {
      var m :| 0 <= m < |a'| && a'[m] == k;
      assert AtomLt(a[0], a[m + 1]);
      AtomLtIrreflexive(k);
      assert k in b;
      var n :| 0 <= n < |b| && b[n] == k;
      assert n > 0 && b'[n - 1] == k;
    }
  }

  /** An ascending list without repeats is determined by its elements. */
  lemma {:induction false} StrictlySortedUnique(a: seq<Atom>, b: seq<Atom>)
    requires StrictlySorted(a) && StrictlySorted(b)
    requires forall k :: k in a <==> k in b
    ensures a == b
    decreases |a|
  {
    if a != [] && b != [] {
      SameElementsSameHead(a, b);
      SameHeadTails(a, b);
      SameHeadTails(b, a);
      StrictlySortedUnique(a[1..], b[1..]);
      assert a == [a[0]] + a[1..] && b == [b[0]] + b[1..];
    } else if a != [] {
      FirstIsElement(a);
      assert false;
    } else if b != [] {
      FirstIsElement(b);
      assert false;
    }
  }

}

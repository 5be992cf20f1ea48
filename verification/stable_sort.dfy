/**
 The one sorting primitive of the flight log. Both the airport ranking
 (`results.sort((a, b) => b.score - a.score)`) and the table sort
 (`[...flights].sort(comparator)`) are Array.prototype.sort calls with a
 comparator derived from a per-element key, and Array.prototype.sort is
 stable. Here they sort sequences of indices (into the directory or into the
 flight store), so "equal keys keep their input order" can be stated as
 "equal keys keep their indices increasing".
 */
module StableSort {
  import opened Text
  import opened Indices

  /** The comparable projection of an element: a number (score, duration), a
      string (date, route, lower-cased text), or nothing (an unknown column,
      for which the comparator answers 0 for every pair). */
  datatype Key = NoKey | Num(x: real) | Str(s: string)

  function Rank(k: Key): nat
  {
    match k
    case NoKey => 0
    case Num(_) => 1
    case Str(_) => 2
  }

  /** JavaScript `<` on two keys of the same kind; keys of different kinds never
      meet in one sort and are ordered by kind only to make the order total. */
  predicate KeyLt(a: Key, b: Key)
  {
    match (a, b)
    case (Num(x), Num(y)) => x < y
    case (Str(u), Str(v)) => StrLt(u, v)
    case _ => Rank(a) < Rank(b)
  }

  lemma KeyLtIrreflexive(a: Key)
    ensures !KeyLt(a, a)
  {
    if a.Str? {
      StrLtIrreflexive(a.s);
    }
  }

  lemma KeyLtTransitive(a: Key, b: Key, c: Key)
    requires KeyLt(a, b) && KeyLt(b, c)
    ensures KeyLt(a, c)
  {
    if a.Str? && b.Str? && c.Str? {
      StrLtTransitive(a.s, b.s, c.s);
    }
  }

  lemma KeyLtTotal(a: Key, b: Key)
    requires a != b
    ensures KeyLt(a, b) || KeyLt(b, a)
  {
    if a.Str? && b.Str? {
      StrLtTotal(a.s, b.s);
    }
  }

  datatype Direction = Asc | Desc

  /** The comparator is negative: an element with key ka goes before one with
      key kb. Descending order reverses the polarity. */
  predicate Before(ka: Key, kb: Key, dir: Direction)
  {
    if dir == Asc then KeyLt(ka, kb) else KeyLt(kb, ka)
  }

  lemma BeforeIrreflexive(k: Key, dir: Direction)
    ensures !Before(k, k, dir)
  {
    KeyLtIrreflexive(k);
  }

  lemma BeforeAsymmetric(a: Key, b: Key, dir: Direction)
    requires Before(a, b, dir)
    ensures !Before(b, a, dir)
  {
    if Before(b, a, dir) {
      if dir == Asc {
        KeyLtTransitive(a, b, a);
      } else {
        KeyLtTransitive(b, a, b);
      }
      KeyLtIrreflexive(a);
      KeyLtIrreflexive(b);
    }
  }

  /** "Not after" is transitive: a <= b and b <= c give a <= c. */
  lemma NotBeforeTransitive(a: Key, b: Key, c: Key, dir: Direction)
    requires !Before(b, a, dir) && !Before(c, b, dir)
    ensures !Before(c, a, dir)
  {
    if a != b && b != c {
      KeyLtTotal(a, b);
      KeyLtTotal(b, c);
      if dir == Asc {
        KeyLtTransitive(a, b, c);
      } else {
        KeyLtTransitive(c, b, a);
      }
      BeforeAsymmetric(a, c, dir);
    }
  }

  /** No element is followed by one that the comparator puts strictly before it. */
  predicate Sorted(r: seq<nat>, key: nat -> Key, dir: Direction)
  {
    forall i, j :: 0 <= i < j < |r| ==> !Before(key(r[j]), key(r[i]), dir)
  }

  /** Elements with equal keys appear in increasing index order. */
  predicate Stable(r: seq<nat>, key: nat -> Key)
  {
    forall i, j :: 0 <= i < j < |r| && key(r[i]) == key(r[j]) ==> r[i] < r[j]
  }

  /** Place x in front of the first element it does not come after. */
  function Insert(x: nat, t: seq<nat>, key: nat -> Key, dir: Direction): (r: seq<nat>)
    ensures multiset(r) == multiset(t) + multiset{x}
  {
    if |t| == 0 then [x]
    else if Before(key(t[0]), key(x), dir) then
      assert t == [t[0]] + t[1..];
      [t[0]] + Insert(x, t[1..], key, dir)
    else [x] + t
  }

  /** The sort: a new sequence holding the same elements, reordered. */
  function SortBy(s: seq<nat>, key: nat -> Key, dir: Direction): (r: seq<nat>)
    ensures multiset(r) == multiset(s)
  {
    if |s| == 0 then []
    else
      assert s == [s[0]] + s[1..];
      Insert(s[0], SortBy(s[1..], key, dir), key, dir)
  }

  lemma {:induction false} InsertSorted(x: nat, t: seq<nat>, key: nat -> Key, dir: Direction)
    requires Sorted(t, key, dir)
    ensures Sorted(Insert(x, t, key, dir), key, dir)
  {
    if |t| > 0 {
      var r := Insert(x, t, key, dir);
      if Before(key(t[0]), key(x), dir) {
        var rest := Insert(x, t[1..], key, dir);
        InsertSorted(x, t[1..], key, dir);
        assert r == [t[0]] + rest;
        forall j | 1 <= j < |r|
          ensures !Before(key(r[j]), key(t[0]), dir)
        {
          assert r[j] in multiset(rest);
          if r[j] == x {
            BeforeAsymmetric(key(t[0]), key(x), dir);
          } else {
            assert r[j] in t[1..];
            var k :| 0 <= k < |t[1..]| && t[1..][k] == r[j];
            assert t[k + 1] == r[j];
          }
        }
      } else {
        assert r == [x] + t;
        forall i, j | 0 <= i < j < |r|
          ensures !Before(key(r[j]), key(r[i]), dir)
        {
          if i == 0 {
            if j > 1 {
              assert !Before(key(t[j - 1]), key(t[0]), dir);
            } else {
              BeforeIrreflexive(key(t[0]), dir);
            }
            NotBeforeTransitive(key(x), key(t[0]), key(t[j - 1]), dir);
          }
        }
      }
    }
  }

  /** The result is ordered by the key in the requested direction. */
  lemma {:induction false} SortBySorted(s: seq<nat>, key: nat -> Key, dir: Direction)
    ensures Sorted(SortBy(s, key, dir), key, dir)
  {
    if |s| > 0 {
      SortBySorted(s[1..], key, dir);
      InsertSorted(s[0], SortBy(s[1..], key, dir), key, dir);
    }
  }

  lemma {:induction false} InsertStable(x: nat, t: seq<nat>, key: nat -> Key, dir: Direction)
    requires Stable(t, key)
    requires forall e :: e in t ==> x < e
    ensures Stable(Insert(x, t, key, dir), key)
  {
    if |t| > 0 {
      var r := Insert(x, t, key, dir);
      if Before(key(t[0]), key(x), dir) {
        var rest := Insert(x, t[1..], key, dir);
        forall e | e in t[1..]
          ensures x < e
        {
          var k :| 0 <= k < |t[1..]| && t[1..][k] == e;
          assert t[k + 1] in t;
        }
        InsertStable(x, t[1..], key, dir);
        assert r == [t[0]] + rest;
        forall j | 1 <= j < |r| && key(t[0]) == key(r[j])
          ensures t[0] < r[j]
        {
          assert r[j] in multiset(rest);
          if r[j] == x {
            BeforeIrreflexive(key(x), dir);
          } else {
            assert r[j] in t[1..];
            var k :| 0 <= k < |t[1..]| && t[1..][k] == r[j];
            assert t[k + 1] == r[j];
          }
        }
      } else {
        assert r == [x] + t;
        forall j | 1 <= j < |r|
          ensures x < r[j]
        {
          assert r[j] == t[j - 1] && t[j - 1] in t;
        }
      }
    }
  }

  /** Equal keys keep their input order: sorting increasing indices leaves the
      indices of equal-keyed elements increasing. */
  lemma {:induction false} SortByStable(s: seq<nat>, key: nat -> Key, dir: Direction)
    requires StrictlyIncreasing(s)
    ensures Stable(SortBy(s, key, dir), key)
  {
    if |s| > 0 {
      var t := SortBy(s[1..], key, dir);
      SortByStable(s[1..], key, dir);
      forall e | e in t
        ensures s[0] < e
      {
        assert e in multiset(s[1..]);
      }
      InsertStable(s[0], t, key, dir);
    }
  }

  /** When the comparator never answers "before" (an unknown column), the sort
      returns its input unchanged. */
  lemma {:induction false} SortByUnordered(s: seq<nat>, key: nat -> Key, dir: Direction)
    requires forall i, j :: 0 <= i < |s| && 0 <= j < |s| ==> !Before(key(s[i]), key(s[j]), dir)
    ensures SortBy(s, key, dir) == s
  {
    if |s| > 0 {
      SortByUnordered(s[1..], key, dir);
      assert s == [s[0]] + s[1..];
    }
  }
}

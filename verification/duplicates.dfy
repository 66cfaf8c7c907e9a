/**
  The two counting primitives the constraints share: pandas'
  `duplicated(keep="first")` (flag a position iff an earlier position holds
  an equal key) and `nunique` (the number of distinct values in a row).
 */
module Duplicates {

  /** Some earlier selected position holds a key equal to the one at `i`. */
  predicate HasEarlierTwin<K(==)>(keys: seq<K>, mask: seq<bool>, i: int)
    requires |mask| == |keys| && 0 <= i < |keys|
  {
    exists j | 0 <= j < i :: mask[j] && keys[j] == keys[i]
  }

  /** The keys seen among the selected positions before `i`. */
  function SeenBefore<K(==)>(keys: seq<K>, mask: seq<bool>, i: nat): set<K>
    requires |mask| == |keys| && i <= |keys|
  {
    set j | 0 <= j < i && mask[j] :: keys[j]
  }

  /** One pass over the keys from position `i`, remembering the keys seen so
      far in a set, as a hash-based duplicate scan does. */
  function MarkFrom<K(==)>(keys: seq<K>, mask: seq<bool>, i: nat, seen: set<K>): (r: seq<bool>)
    requires |mask| == |keys| && i <= |keys|
    requires seen == SeenBefore(keys, mask, i)
    ensures |r| == |keys| - i
    ensures forall m | 0 <= m < |r| :: r[m] <==> mask[i + m] && HasEarlierTwin(keys, mask, i + m)
    decreases |keys| - i
  {
    if i == |keys| then []
    else
      var seen' := if mask[i] then seen + {keys[i]} else seen;
      assert seen' == SeenBefore(keys, mask, i + 1) by {
        assert forall j | 0 <= j < i + 1 && mask[j] :: j < i || j == i;
      }
      assert mask[i] && keys[i] in seen <==> mask[i] && HasEarlierTwin(keys, mask, i);
      [mask[i] && keys[i] in seen] + MarkFrom(keys, mask, i + 1, seen')
  }

  /** `df.loc[mask].duplicated(keep="first")`, aligned with the full
      sequence: masked-out positions are never flagged and never count as an
      earlier occurrence. */
  function DuplicatedAmong<K(==)>(keys: seq<K>, mask: seq<bool>): (r: seq<bool>)
    requires |mask| == |keys|
    ensures |r| == |keys|
    ensures forall i | 0 <= i < |keys| ::
      r[i] <==> mask[i] && exists j | 0 <= j < i :: mask[j] && keys[j] == keys[i]
  {
    MarkFrom(keys, mask, 0, {})
  }

  function AllTrue(n: nat): (r: seq<bool>)
    ensures |r| == n && forall i | 0 <= i < n :: r[i]
  {
    seq(n, _ => true)
  }

  /** `df.duplicated(keep="first")`. */
  function Duplicated<K(==)>(keys: seq<K>): (r: seq<bool>)
    ensures |r| == |keys|
    ensures forall i | 0 <= i < |keys| :: r[i] <==> exists j | 0 <= j < i :: keys[j] == keys[i]
  {
    DuplicatedAmong(keys, AllTrue(|keys|))
  }

  /** Every key of a selected position survives at an unflagged selected
      position at or before it: dropping the flagged positions loses no key. */
  lemma {:induction false} KeptRepresentative<K>(keys: seq<K>, mask: seq<bool>, i: int)
    requires |mask| == |keys| && 0 <= i < |keys| && mask[i]
    ensures exists j | 0 <= j <= i ::
      mask[j] && keys[j] == keys[i] && !DuplicatedAmong(keys, mask)[j]
    decreases i
  {
    var r := DuplicatedAmong(keys, mask);
    if r[i] {
      var j :| 0 <= j < i && mask[j] && keys[j] == keys[i];
      KeptRepresentative(keys, mask, j);
      var m :| 0 <= m <= j && mask[m] && keys[m] == keys[j] && !r[m];
      assert 0 <= m <= i && mask[m] && keys[m] == keys[i] && !r[m];
    }
  }

  predicate NoDup<T(==)>(s: seq<T>) {
    forall i, j | 0 <= i < j < |s| :: s[i] != s[j]
  }

  function Elements<T(==)>(s: seq<T>): set<T> {
    set x | x in s
  }

  /** `nunique`: the number of distinct values in `s`. */
  function DistinctCount<T(==)>(s: seq<T>): nat {
    |Elements(s)|
  }

  lemma {:induction false} ElementsSnoc<T>(p: seq<T>, x: T)
    ensures Elements(p + [x]) == Elements(p) + {x}
  {
    assert forall y :: y in p + [x] <==> y in p || y == x;
  }

  lemma {:induction false} DistinctCountBound<T>(s: seq<T>)
    ensures DistinctCount(s) <= |s|
    decreases |s|
  {
    if |s| > 0 {
      var p := s[..|s| - 1];
      assert s == p + [s[|s| - 1]];
      ElementsSnoc(p, s[|s| - 1]);
      DistinctCountBound(p);
    }
  }

  /** Appending a value keeps a sequence free of repeats exactly when the
      value is new. */
  lemma NoDupSnoc<T>(p: seq<T>, x: T)
    ensures NoDup(p + [x]) <==> NoDup(p) && x !in p
  {
    var s := p + [x];
    if x in p {
      var i :| 0 <= i < |p| && p[i] == x;
      assert s[i] == s[|p|];
    } else if !NoDup(p) {
      var i, j :| 0 <= i < j < |p| && p[i] == p[j];
      assert s[i] == s[j];
    } else {
      forall i, j | 0 <= i < j < |s| ensures s[i] != s[j] {
        if j == |p| {
          assert s[i] == p[i];
        } else {
          assert s[i] == p[i] && s[j] == p[j];
        }
      }
    }
  }

  /** Appending a value adds one to the distinct count exactly when the value is new. */
  lemma DistinctCountSnoc<T>(p: seq<T>, x: T)
    ensures DistinctCount(p + [x]) == if x in p then DistinctCount(p) else DistinctCount(p) + 1
  {
    ElementsSnoc(p, x);
    if x in p {
      assert x in Elements(p);
      assert Elements(p) + {x} == Elements(p);
    } else {
      assert x !in Elements(p);
    }
  }

  /** The distinct count equals the length exactly when no value repeats. */
  lemma {:induction false} DistinctCountFull<T>(s: seq<T>)
    ensures DistinctCount(s) == |s| <==> NoDup(s)
    decreases |s|
  {
    if |s| == 0 {
      assert Elements(s) == {};
    } else {
      var p, x := s[..|s| - 1], s[|s| - 1];
      assert s == p + [x];
      NoDupSnoc(p, x);
      DistinctCountSnoc(p, x);
      DistinctCountFull(p);
      DistinctCountBound(p);
    }
  }

  /** The distinct count is one exactly when the sequence is non-empty and
      every value equals the first. */
  lemma {:induction false} DistinctCountOne<T>(s: seq<T>)
    ensures DistinctCount(s) == 1 <==> |s| > 0 && forall i | 0 <= i < |s| :: s[i] == s[0]
  {
    if |s| > 0 && forall i | 0 <= i < |s| :: s[i] == s[0] {
      assert Elements(s) == {s[0]};
    } else if |s| == 0 {
      assert Elements(s) == {};
    } else {
      var i :| 0 <= i < |s| && s[i] != s[0];
      assert {s[0], s[i]} <= Elements(s);
      assert |{s[0], s[i]}| == 2;
      SubsetCardinality({s[0], s[i]}, Elements(s));
    }
  }

  lemma {:induction false} SubsetCardinality<T>(a: set<T>, b: set<T>)
    requires a <= b
    ensures |a| <= |b|
  {
    assert b == a + (b - a);
  }

  /** In a sequence without repeats each member occurs exactly once. */
  lemma {:induction false} NoDupMultiplicity<T>(s: seq<T>)
    requires NoDup(s)
    ensures forall x :: multiset(s)[x] == if x in s then 1 else 0
    decreases |s|
  {
    if |s| > 0 {
      var p, y := s[..|s| - 1], s[|s| - 1];
      assert s == p + [y];
      assert NoDup(p);
      NoDupMultiplicity(p);
      assert y !in p;
      assert multiset(s) == multiset(p) + multiset{y};
      forall x ensures multiset(s)[x] == if x in s then 1 else 0 {
        assert x in s <==> x in p || x == y;
      }
    }
  }

  /** For sequences without repeats, having the same set of values and being
      permutations of each other coincide: the frozenset signature of a
      duplicate-free row is its multiset signature. */
  lemma {:induction false} SetsMatchIffMultisetsMatch<T>(a: seq<T>, b: seq<T>)
    requires NoDup(a) && NoDup(b)
    ensures Elements(a) == Elements(b) <==> multiset(a) == multiset(b)
  {
    NoDupMultiplicity(a);
    NoDupMultiplicity(b);
    if Elements(a) == Elements(b) {
      forall x ensures multiset(a)[x] == multiset(b)[x] {
        assert x in a <==> x in Elements(a);
        assert x in b <==> x in Elements(b);
      }
      assert multiset(a) == multiset(b);
    }
    if multiset(a) == multiset(b) {
      forall x ensures x in Elements(a) <==> x in Elements(b) {
        assert x in a <==> x in multiset(a);
        assert x in b <==> x in multiset(b);
      }
    }
  }
}

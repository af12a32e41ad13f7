/**
 * A list used as a set of ids, updated the way the React state setters do it:
 * `includes` for membership, `filter(v => v !== x)` for removal and a spread
 * `[...prev, x]` for insertion at the end.
 */
module ListSet {

  /** `prev.includes(x) ? prev : [...prev, x]` */
  function Added<T(==)>(s: seq<T>, x: T): (r: seq<T>)
    ensures x in r && s <= r
  {
    if x in s then s else s + [x]
  }

  /** `prev.filter(v => v !== x)`: every element other than x, in order; x is gone and nothing is added. */
  function Removed<T(==)>(s: seq<T>, x: T): (r: seq<T>)
    ensures |r| <= |s|
    ensures x !in r
  {
    if s == [] then [] else (if s[0] == x then [] else [s[0]]) + Removed(s[1..], x)
  }

  /** `prev.includes(x) ? prev.filter(v => v !== x) : [...prev, x]`: x is present afterwards exactly when it was absent before. */
  function Toggled<T(==)>(s: seq<T>, x: T): (r: seq<T>)
    ensures x in r <==> x !in s
  {
    if x in s then Removed(s, x) else s + [x]
  }

  predicate NoDuplicates<T(==)>(s: seq<T>) {
    forall i, j :: 0 <= i < j < |s| ==> s[i] != s[j]
  }

  /** Removal drops x and keeps every other element. */
  lemma {:induction false} RemovedMembership<T>(s: seq<T>, x: T, y: T)
    ensures y in Removed(s, x) <==> y in s && y != x
  {
    if s != [] {
      RemovedMembership(s[1..], x, y);
      assert s == [s[0]] + s[1..];
    }
  }

  /** Removal works element by element: it distributes over concatenation, so the kept elements stay in order. */
  lemma {:induction false} RemovedDistributes<T>(a: seq<T>, b: seq<T>, x: T)
    ensures Removed(a + b, x) == Removed(a, x) + Removed(b, x)
  {
    if a != [] {
      assert (a + b)[1..] == a[1..] + b;
      RemovedDistributes(a[1..], b, x);
    } else {
      assert a + b == b;
    }
  }

  /** Removing an absent element changes nothing. */
  lemma {:induction false} RemovedAbsent<T>(s: seq<T>, x: T)
    requires x !in s
    ensures Removed(s, x) == s
  {
    if s != [] {
      RemovedAbsent(s[1..], x);
      assert s == [s[0]] + s[1..];
    }
  }

  /** A list without duplicates keeps that property under removal. */
  lemma {:induction false} RemovedNoDuplicates<T>(s: seq<T>, x: T)
    requires NoDuplicates(s)
    ensures NoDuplicates(Removed(s, x))
  {
    if s != [] {
      RemovedNoDuplicates(s[1..], x);
      RemovedMembership(s[1..], x, s[0]);
      assert s[0] !in s[1..] by {
        forall k | 0 <= k < |s[1..]| ensures s[1..][k] != s[0] { assert s[1..][k] == s[k + 1]; }
      }
    }
  }

  /** In a list without duplicates, removing a present element shortens the list by exactly one. */
  lemma {:induction false} RemovedCount<T>(s: seq<T>, x: T)
    requires NoDuplicates(s) && x in s
    ensures |Removed(s, x)| == |s| - 1
  {
    if s[0] == x {
      assert x !in s[1..] by {
        forall k | 0 <= k < |s[1..]| ensures s[1..][k] != x { assert s[1..][k] == s[k + 1]; }
      }
      RemovedAbsent(s[1..], x);
    } else {
      assert x in s[1..] by {
        var k :| 0 <= k < |s| && s[k] == x;
        assert s[1..][k - 1] == x;
      }
      RemovedCount(s[1..], x);
    }
  }

  /** Adding puts x in and keeps everything else as it was. */
  lemma AddedMembership<T>(s: seq<T>, x: T, y: T)
    ensures y in Added(s, x) <==> y in s || y == x
  {
  }

  /** Adding twice is adding once. */
  lemma AddedIdempotent<T>(s: seq<T>, x: T)
    ensures Added(Added(s, x), x) == Added(s, x)
    ensures x in s ==> Added(s, x) == s
  {
  }

  lemma AddedNoDuplicates<T>(s: seq<T>, x: T)
    requires NoDuplicates(s)
    ensures NoDuplicates(Added(s, x))
  {
  }

  /** Toggling flips the membership of x and leaves every other value's membership alone. */
  lemma ToggledMembership<T>(s: seq<T>, x: T, y: T)
    ensures x in Toggled(s, x) <==> x !in s
    ensures y != x ==> (y in Toggled(s, x) <==> y in s)
  {
    RemovedMembership(s, x, x);
    RemovedMembership(s, x, y);
  }

  /** Toggling an absent value twice gives back the original list. */
  lemma ToggledTwice<T>(s: seq<T>, x: T)
    requires x !in s
    ensures Toggled(Toggled(s, x), x) == s
  {
    RemovedDistributes(s, [x], x);
    RemovedAbsent(s, x);
    assert Removed([x], x) == [];
  }

  lemma ToggledNoDuplicates<T>(s: seq<T>, x: T)
    requires NoDuplicates(s)
    ensures NoDuplicates(Toggled(s, x))
  {
    if x in s { RemovedNoDuplicates(s, x); }
  }
}

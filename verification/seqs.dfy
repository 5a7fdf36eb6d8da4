/** Sequence helpers mirroring the array methods the tree code relies on
    (`filter`, `findIndex`, `find`, splice-style insertion and removal). */
module Seqs {
  import opened Wrappers

  /** `Array.prototype.filter`: the elements of `xs` that satisfy `keep`, in order. */
  function Filter<E>(xs: seq<E>, keep: E -> bool): (r: seq<E>)
    ensures |r| <= |xs|
    ensures forall i | 0 <= i < |r| :: r[i] in xs && keep(r[i])
    ensures forall i | 0 <= i < |xs| && keep(xs[i]) :: xs[i] in r
  {
    if xs == [] then []
    else (if keep(xs[0]) then [xs[0]] else []) + Filter(xs[1..], keep)
  }

  /** Membership in a filtered sequence: present in the source and accepted by `keep`. */
  lemma FilterMembers<E>(xs: seq<E>, keep: E -> bool)
    ensures forall e :: e in Filter(xs, keep) <==> e in xs && keep(e)
  {
    var r := Filter(xs, keep);
    forall e | e in r ensures e in xs && keep(e) {
      var i :| 0 <= i < |r| && r[i] == e;
    }
    forall e | e in xs && keep(e) ensures e in r {
      var i :| 0 <= i < |xs| && xs[i] == e;
    }
  }

  /** Filtering distributes over concatenation: filtering a log that grew by `b`
      yields the old filtered log followed by the filtered new entries. */
  lemma {:induction false} FilterConcat<E>(a: seq<E>, b: seq<E>, keep: E -> bool)
    ensures Filter(a + b, keep) == Filter(a, keep) + Filter(b, keep)
  {
    if a == [] {
      assert a + b == b;
    } else {
      assert (a + b)[1..] == a[1..] + b;
      FilterConcat(a[1..], b, keep);
    }
  }

  /** When nothing before `e` passes and `e` does, `e` is the first element kept. */
  lemma FilterFirstHit<E>(all: seq<E>, before: seq<E>, e: E, after: seq<E>, keep: E -> bool)
    requires all == before + ([e] + after)
    requires Filter(before, keep) == [] && keep(e)
    ensures Filter(all, keep) != [] && Filter(all, keep)[0] == e
  {
    FilterConcat(before, [e] + after, keep);
    FilterConcat([e], after, keep);
    assert Filter([e], keep) == [e] + Filter([], keep);
  }

  /** Filtering keeps every element exactly when every element passes. */
  lemma {:induction false} FilterAll<E>(xs: seq<E>, keep: E -> bool)
    requires forall i | 0 <= i < |xs| :: keep(xs[i])
    ensures Filter(xs, keep) == xs
  {
    if xs != [] {
      FilterAll(xs[1..], keep);
    }
  }

  /** Filtering drops everything when nothing passes. */
  lemma {:induction false} FilterNone<E>(xs: seq<E>, keep: E -> bool)
    requires forall i | 0 <= i < |xs| :: !keep(xs[i])
    ensures Filter(xs, keep) == []
  {
    if xs != [] {
      FilterNone(xs[1..], keep);
    }
  }

  /** Position of the first element satisfying `keep`, or -1 when there is none. */
  function FirstIndex<E>(xs: seq<E>, keep: E -> bool): (k: int)
    ensures -1 <= k < |xs|
    ensures k == -1 <==> forall i | 0 <= i < |xs| :: !keep(xs[i])
    ensures 0 <= k ==> keep(xs[k]) && forall j | 0 <= j < k :: !keep(xs[j])
  {
    if xs == [] then -1
    else if keep(xs[0]) then 0
    else
      var k := FirstIndex(xs[1..], keep);
      if k == -1 then -1 else k + 1
  }

  /** `Array.prototype.find`: the first element satisfying `keep`, if any. */
  function First<E>(xs: seq<E>, keep: E -> bool): (r: Option<E>)
    ensures r.None? <==> forall i | 0 <= i < |xs| :: !keep(xs[i])
    ensures r.Some? ==> keep(r.value) && r.value in xs
  {
    var k := FirstIndex(xs, keep);
    if k == -1 then None else Some(xs[k])
  }

  /** `find` agrees with `filter`: the first element found is the head of the filtered sequence. */
  lemma {:induction false} FirstIsFilterHead<E>(xs: seq<E>, keep: E -> bool)
    ensures First(xs, keep).None? <==> Filter(xs, keep) == []
    ensures First(xs, keep).Some? ==> First(xs, keep).value == Filter(xs, keep)[0]
  {
    if xs == [] {
    } else if keep(xs[0]) {
      assert FirstIndex(xs, keep) == 0;
      assert Filter(xs, keep) == [xs[0]] + Filter(xs[1..], keep);
    } else {
      FirstIsFilterHead(xs[1..], keep);
      var k := FirstIndex(xs[1..], keep);
      assert FirstIndex(xs, keep) == if k == -1 then -1 else k + 1;
      assert Filter(xs, keep) == Filter(xs[1..], keep);
      assert k != -1 ==> xs[k + 1] == xs[1..][k];
    }
  }

  /** `Array.prototype.findIndex` with identity comparison: the first position of `x`, or -1. */
  function IndexOf<E(==)>(xs: seq<E>, x: E): (i: int)
    ensures -1 <= i < |xs|
    ensures i == -1 <==> x !in xs
    ensures 0 <= i ==> xs[i] == x && x !in xs[..i]
  {
    if xs == [] then -1
    else if xs[0] == x then 0
    else
      var j := IndexOf(xs[1..], x);
      if j == -1 then -1 else (assert xs[..j + 1] == [xs[0]] + xs[1..][..j]; j + 1)
  }

  /** The sequence with `y` inserted so that it ends up at position `i`. */
  function InsertAt<E>(xs: seq<E>, i: nat, y: E): (r: seq<E>)
    requires i <= |xs|
    ensures |r| == |xs| + 1
    ensures r[i] == y
    ensures forall j | 0 <= j < i :: r[j] == xs[j]
    ensures forall j | i <= j < |xs| :: r[j + 1] == xs[j]
  {
    xs[..i] + [y] + xs[i..]
  }

  /** The sequence with the element at position `i` dropped. */
  function RemoveAt<E>(xs: seq<E>, i: nat): (r: seq<E>)
    requires i < |xs|
    ensures |r| == |xs| - 1
    ensures forall j | 0 <= j < i :: r[j] == xs[j]
    ensures forall j | i <= j < |r| :: r[j] == xs[j + 1]
  {
    xs[..i] + xs[i + 1..]
  }

  /** No element occurs twice. */
  ghost predicate NoDup<E>(xs: seq<E>) {
    forall i, j | 0 <= i < j < |xs| :: xs[i] != xs[j]
  }

  /** Number of occurrences of `x` in `xs`. */
  function Count<E(==)>(xs: seq<E>, x: E): (n: nat)
    ensures n <= |xs|
    ensures n == 0 <==> x !in xs
  {
    if xs == [] then 0 else (if xs[0] == x then 1 else 0) + Count(xs[1..], x)
  }

  /** In a duplicate-free sequence an element occurs once or not at all. */
  lemma {:induction false} CountNoDup<E>(xs: seq<E>, x: E)
    requires NoDup(xs)
    ensures Count(xs, x) == if x in xs then 1 else 0
  {
    if xs != [] {
      CountNoDup(xs[1..], x);
      if xs[0] == x {
        assert x !in xs[1..] by {
          forall k | 0 <= k < |xs[1..]| ensures xs[1..][k] != x {
            assert xs[0] != xs[k + 1];
          }
        }
      }
    }
  }

  /** Inserting an element that is not yet present keeps the sequence duplicate-free. */
  lemma InsertAtNoDup<E>(xs: seq<E>, i: nat, y: E)
    requires i <= |xs| && NoDup(xs) && y !in xs
    ensures NoDup(InsertAt(xs, i, y))
    ensures forall e :: e in InsertAt(xs, i, y) <==> e in xs || e == y
  {
    var r := InsertAt(xs, i, y);
    assert r == xs[..i] + [y] + xs[i..];
    forall e ensures e in r <==> e in xs || e == y {
      if e in xs {
        var k :| 0 <= k < |xs| && xs[k] == e;
        if k < i { assert r[k] == e; } else { assert r[k + 1] == e; }
      }
    }
    forall a, b | 0 <= a < b < |r| ensures r[a] != r[b] {
      if a < i && b < i { assert r[a] == xs[a] && r[b] == xs[b]; }
      else if a < i && b == i { assert r[a] == xs[a]; }
      else if a < i { assert r[a] == xs[a] && r[b] == xs[b - 1]; }
      else if a == i { assert r[b] == xs[b - 1]; }
      else { assert r[a] == xs[a - 1] && r[b] == xs[b - 1]; }
    }
  }

  /** Removing position `i` from a duplicate-free sequence removes exactly the element there. */
  lemma RemoveAtNoDup<E>(xs: seq<E>, i: nat)
    requires i < |xs| && NoDup(xs)
    ensures NoDup(RemoveAt(xs, i))
    ensures forall e :: e in RemoveAt(xs, i) <==> e in xs && e != xs[i]
  {
    var r := RemoveAt(xs, i);
    forall e ensures e in r <==> e in xs && e != xs[i] {
      if e in r {
        var k :| 0 <= k < |r| && r[k] == e;
        if k < i { assert xs[k] == e && k != i; } else { assert xs[k + 1] == e && k + 1 != i; }
      }
      if e in xs && e != xs[i] {
        var k :| 0 <= k < |xs| && xs[k] == e;
        if k < i { assert r[k] == e; } else { assert k != i; assert r[k - 1] == e; }
      }
    }
    forall a, b | 0 <= a < b < |r| ensures r[a] != r[b] {
      if b < i { } else if a < i { assert r[b] == xs[b + 1]; } else { assert r[a] == xs[a + 1] && r[b] == xs[b + 1]; }
    }
  }

  /** In a duplicate-free sequence `findIndex` finds every element at its own position. */
  lemma IndexOfNoDup<E>(xs: seq<E>, k: nat)
    requires NoDup(xs) && k < |xs|
    ensures IndexOf(xs, xs[k]) == k
  {
  }

  /** After inserting a new element at `i`, it is found at `i` and every old element at its old
      position, shifted by one from `i` on. */
  lemma InsertAtIndexOf<E>(xs: seq<E>, i: nat, y: E, j: nat)
    requires i <= |xs| && NoDup(xs) && y !in xs && j < |xs|
    ensures IndexOf(InsertAt(xs, i, y), y) == i
    ensures IndexOf(InsertAt(xs, i, y), xs[j]) == if j < i then j else j + 1
  {
    InsertAtNoDup(xs, i, y);
    IndexOfNoDup(InsertAt(xs, i, y), i);
    if j < i {
      IndexOfNoDup(InsertAt(xs, i, y), j);
    } else {
      IndexOfNoDup(InsertAt(xs, i, y), j + 1);
    }
  }

  /** Removing position 0 of a suffix leaves the next suffix. */
  lemma RemoveFirstOfSuffix<E>(xs: seq<E>, j: nat)
    requires j < |xs|
    ensures RemoveAt(xs[j..], 0) == xs[j + 1..]
    ensures xs[j..][0] == xs[j] && xs[j..][1..] == xs[j + 1..]
  {
    assert RemoveAt(xs[j..], 0) == xs[j..][1..];
  }

  /** Joining two duplicate-free sequences with no element in common gives a duplicate-free
      sequence. */
  lemma NoDupConcat<E>(a: seq<E>, b: seq<E>)
    requires NoDup(a) && NoDup(b) && forall x | x in a :: x !in b
    ensures NoDup(a + b)
  {
    forall i, j | 0 <= i < j < |a + b| ensures (a + b)[i] != (a + b)[j] {
      if i < |a| && |a| <= j {
        assert (a + b)[i] in a && (a + b)[j] == b[j - |a|];
      }
    }
  }

  /** Filtering a duplicate-free sequence keeps it duplicate-free. */
  lemma {:induction false} FilterNoDup<E>(xs: seq<E>, keep: E -> bool)
    ensures NoDup(xs) ==> NoDup(Filter(xs, keep))
  {
    if xs != [] && NoDup(xs) {
      FilterNoDup(xs[1..], keep);
      FilterMembers(xs[1..], keep);
      assert xs[0] !in xs[1..] by {
        forall k | 0 <= k < |xs[1..]| ensures xs[1..][k] != xs[0] {
          assert xs[0] != xs[k + 1];
        }
      }
      NoDupConcat(if keep(xs[0]) then [xs[0]] else [], Filter(xs[1..], keep));
    }
  }
}

/**
 * The order of the guides in the document (index.js:217-223, index.js:294-301):
 * by resolved order, a guide without one counting as `Number.POSITIVE_INFINITY`,
 * and by the locale collator on paths when the orders are the same.
 *
 * `Array.prototype.sort` is stable, so with a consistent comparator its result
 * is the one stable sorted permutation of its input; `StableSort` is that
 * permutation written as an insertion sort, and `SortedStableIsUnique` shows
 * that no other permutation qualifies.
 */
module RecordOrder {
  import opened Wrappers

  /** One downloaded guide: its path, its full text, its body and its resolved order. */
  datatype FileRecord = FileRecord(path: string, content: string, body: string, orderValue: Option<real>)

  /** A sort position: a finite number, or `Number.POSITIVE_INFINITY` for a guide without one. */
  datatype Rank = Finite(value: real) | Infinity

  /** What `buildSortKey` returns. */
  datatype SortKey = SortKey(order: Rank, path: string)

  /**
   * `collator.compare` of `new Intl.Collator('en', { numeric: true, sensitivity: 'base' })`:
   * negative, zero or positive as the first path sorts before, level with or after the second.
   */
  type Collator = (string, string) -> int

  /** `buildSortKey`: a missing order becomes infinity. */
  function BuildSortKey(f: FileRecord): SortKey {
    SortKey(if f.orderValue.Some? then Finite(f.orderValue.value) else Infinity, f.path)
  }

  /** The sign of `x - y` for two ranks, which is all that `sort` reads of `aKey.order - bKey.order`. */
  function RankSign(x: Rank, y: Rank): int {
    match (x, y)
    case (Finite(u), Finite(v)) => if u < v then -1 else if u > v then 1 else 0
    case (Finite(_), Infinity) => -1
    case (Infinity, Finite(_)) => 1
    case (Infinity, Infinity) => 0
  }

  /**
   * The comparator passed to `files.sort`: orders first, the collator on paths
   * when the orders are equal (two missing orders are equal infinities).
   */
  function Compare(a: FileRecord, b: FileRecord, collator: Collator): (r: int)
    ensures a.orderValue.Some? && b.orderValue.None? ==> r < 0
    ensures a.orderValue.None? && b.orderValue.Some? ==> r > 0
    ensures a.orderValue.Some? && b.orderValue.Some? && a.orderValue != b.orderValue ==>
      r != 0 && (r < 0 <==> a.orderValue.value < b.orderValue.value)
    ensures a.orderValue == b.orderValue ==> r == collator(a.path, b.path)
  {
    var aKey := BuildSortKey(a);
    var bKey := BuildSortKey(b);
    if aKey.order != bKey.order then RankSign(aKey.order, bKey.order) else collator(aKey.path, bKey.path)
  }

  /**
   * What a collator guarantees: swapping its arguments flips the sign, and
   * "not after" is transitive.
   */
  ghost predicate ConsistentCollator(collator: Collator) {
    && (forall x, y :: collator(x, y) < 0 <==> collator(y, x) > 0)
    && (forall x, y, z :: collator(x, y) <= 0 && collator(y, z) <= 0 ==> collator(x, z) <= 0)
  }

  /** Swapping two records flips the comparator's sign. */
  lemma CompareFlip(a: FileRecord, b: FileRecord, collator: Collator)
    requires ConsistentCollator(collator)
    ensures Compare(a, b, collator) < 0 <==> Compare(b, a, collator) > 0
    ensures Compare(a, b, collator) == 0 <==> Compare(b, a, collator) == 0
  {
  }

  /** "Not after" is transitive on records. */
  lemma CompareTransitive(a: FileRecord, b: FileRecord, d: FileRecord, collator: Collator)
    requires ConsistentCollator(collator)
    requires Compare(a, b, collator) <= 0 && Compare(b, d, collator) <= 0
    ensures Compare(a, d, collator) <= 0
  {
  }

  /** Two records level with a third are level with each other. */
  lemma LevelTransitive(a: FileRecord, b: FileRecord, e: FileRecord, collator: Collator)
    requires ConsistentCollator(collator)
    requires Compare(a, e, collator) == 0 && Compare(b, e, collator) == 0
    ensures Compare(a, b, collator) == 0
  {
    CompareFlip(b, e, collator);
    CompareTransitive(a, e, b, collator);
    CompareFlip(a, e, collator);
    CompareTransitive(b, e, a, collator);
    CompareFlip(a, b, collator);
  }

  /** Every record comes no later than every record after it. */
  predicate Sorted(s: seq<FileRecord>, collator: Collator) {
    forall i, j :: 0 <= i < j < |s| ==> Compare(s[i], s[j], collator) <= 0
  }

  /** `x` put before the first record of the sorted `ys` that it does not come after. */
  function Insert(x: FileRecord, ys: seq<FileRecord>, collator: Collator): (r: seq<FileRecord>)
    ensures |r| == |ys| + 1
  {
    if ys == [] || Compare(x, ys[0], collator) <= 0 then [x] + ys
    else [ys[0]] + Insert(x, ys[1..], collator)
  }

  /** The stable sort of `s` by the comparator. */
  function StableSort(s: seq<FileRecord>, collator: Collator): (r: seq<FileRecord>)
    ensures |r| == |s|
  {
    if s == [] then [] else Insert(s[0], StableSort(s[1..], collator), collator)
  }

  /** The records of `s` that are level with `e`, in their order in `s`. */
  function Level(s: seq<FileRecord>, e: FileRecord, collator: Collator): (r: seq<FileRecord>)
    ensures |r| <= |s|
  {
    if s == [] then []
    else (if Compare(s[0], e, collator) == 0 then [s[0]] else []) + Level(s[1..], e, collator)
  }

  // ---------------------------------------------------------------------------
  // Permutation.

  lemma {:induction false} InsertPermutes(x: FileRecord, ys: seq<FileRecord>, collator: Collator)
    ensures multiset(Insert(x, ys, collator)) == multiset(ys) + multiset{x}
  {
    if ys != [] && Compare(x, ys[0], collator) > 0 {
      InsertPermutes(x, ys[1..], collator);
      assert ys == [ys[0]] + ys[1..];
    }
  }

  /** Sorting neither loses nor adds a record. */
  lemma {:induction false} SortPermutes(s: seq<FileRecord>, collator: Collator)
    ensures multiset(StableSort(s, collator)) == multiset(s)
  {
    if s != [] {
      SortPermutes(s[1..], collator);
      InsertPermutes(s[0], StableSort(s[1..], collator), collator);
      assert s == [s[0]] + s[1..];
    }
  }

  // ---------------------------------------------------------------------------
  // Sortedness.

  lemma SortedTail(ys: seq<FileRecord>, collator: Collator)
    requires ys != [] && Sorted(ys, collator)
    ensures Sorted(ys[1..], collator)
  {
    forall i, j | 0 <= i < j < |ys[1..]|
      ensures Compare(ys[1..][i], ys[1..][j], collator) <= 0
    {
      assert ys[1..][i] == ys[i + 1] && ys[1..][j] == ys[j + 1];
    }
  }

  /** A record before every record of `ys` also comes before `x` and before every record of the insertion. */
  lemma HeadBeforeInsert(y: FileRecord, x: FileRecord, ys: seq<FileRecord>, collator: Collator)
    requires Compare(y, x, collator) <= 0
    requires forall k :: 0 <= k < |ys| ==> Compare(y, ys[k], collator) <= 0
    ensures forall k :: 0 <= k < |ys| + 1 ==> Compare(y, Insert(x, ys, collator)[k], collator) <= 0
  {
    var r := Insert(x, ys, collator);
    InsertPermutes(x, ys, collator);
    forall k | 0 <= k < |r| ensures Compare(y, r[k], collator) <= 0 {
      assert r[k] in multiset(r);
      if r[k] != x {
        assert r[k] in multiset(ys);
        var m :| 0 <= m < |ys| && ys[m] == r[k];
      }
    }
  }

  lemma {:induction false} InsertSorted(x: FileRecord, ys: seq<FileRecord>, collator: Collator)
    requires ConsistentCollator(collator) && Sorted(ys, collator)
    ensures Sorted(Insert(x, ys, collator), collator)
  {
    if ys != [] {
      if Compare(x, ys[0], collator) <= 0 {
        var r := [x] + ys;
        forall i, j | 0 <= i < j < |r| ensures Compare(r[i], r[j], collator) <= 0 {
          if i == 0 && j > 1 {
            CompareTransitive(x, ys[0], ys[j - 1], collator);
          }
        }
      } else {
        CompareFlip(x, ys[0], collator);
        SortedTail(ys, collator);
        InsertSorted(x, ys[1..], collator);
        var rest := Insert(x, ys[1..], collator);
        forall k | 0 <= k < |ys[1..]| ensures Compare(ys[0], ys[1..][k], collator) <= 0 {
          assert ys[1..][k] == ys[k + 1];
        }
        HeadBeforeInsert(ys[0], x, ys[1..], collator);
        var r := [ys[0]] + rest;
        forall i, j | 0 <= i < j < |r| ensures Compare(r[i], r[j], collator) <= 0 {
          if i > 0 {
            assert r[i] == rest[i - 1] && r[j] == rest[j - 1];
          } else {
            assert r[j] == rest[j - 1];
          }
        }
      }
    }
  }

  /** With a consistent collator the sort puts every record no later than those after it. */
  lemma {:induction false} SortSorted(s: seq<FileRecord>, collator: Collator)
    requires ConsistentCollator(collator)
    ensures Sorted(StableSort(s, collator), collator)
  {
    if s != [] {
      SortSorted(s[1..], collator);
      InsertSorted(s[0], StableSort(s[1..], collator), collator);
    }
  }

  /**
   * The document order: every guide with a numeric order comes before every
   * guide without one, the numeric orders never decrease, and guides with the
   * same order (two missing orders included) follow the collator on their paths.
   */
  lemma SortOrdering(s: seq<FileRecord>, collator: Collator)
    requires ConsistentCollator(collator)
    ensures var r := StableSort(s, collator);
      forall i, j :: 0 <= i < j < |r| ==>
        && (r[i].orderValue.None? ==> r[j].orderValue.None?)
        && (r[i].orderValue.Some? && r[j].orderValue.Some? ==> r[i].orderValue.value <= r[j].orderValue.value)
        && (r[i].orderValue == r[j].orderValue ==> collator(r[i].path, r[j].path) <= 0)
  {
    SortSorted(s, collator);
  }

  // ---------------------------------------------------------------------------
  // Stability.

  lemma {:induction false} InsertLevel(x: FileRecord, ys: seq<FileRecord>, e: FileRecord, collator: Collator)
    requires ConsistentCollator(collator)
    ensures Level(Insert(x, ys, collator), e, collator) ==
      (if Compare(x, e, collator) == 0 then [x] else []) + Level(ys, e, collator)
  {
    var r := Insert(x, ys, collator);
    if ys == [] || Compare(x, ys[0], collator) <= 0 {
      assert r[0] == x && r[1..] == ys;
    } else {
      InsertLevel(x, ys[1..], e, collator);
      assert r[0] == ys[0] && r[1..] == Insert(x, ys[1..], collator);
      if Compare(x, e, collator) == 0 && Compare(ys[0], e, collator) == 0 {
        LevelTransitive(x, ys[0], e, collator);
      }
    }
  }

  /** Records the comparator cannot tell apart keep their input order. */
  lemma {:induction false} SortStable(s: seq<FileRecord>, e: FileRecord, collator: Collator)
    requires ConsistentCollator(collator)
    ensures Level(StableSort(s, collator), e, collator) == Level(s, e, collator)
  {
    if s != [] {
      SortStable(s[1..], e, collator);
      InsertLevel(s[0], StableSort(s[1..], collator), e, collator);
    }
  }

  // ---------------------------------------------------------------------------
  // Uniqueness: a stable sorted permutation is the sort.

  /** The first record of a sorted sequence comes no later than any of its records. */
  lemma FirstIsLeast(u: seq<FileRecord>, x: FileRecord, collator: Collator)
    requires ConsistentCollator(collator) && Sorted(u, collator) && x in multiset(u)
    ensures Compare(u[0], x, collator) <= 0
  {
    var k :| 0 <= k < |u| && u[k] == x;
    if k == 0 {
      CompareFlip(x, x, collator);
    }
  }

  lemma DropCommonHead(head: seq<FileRecord>, x: seq<FileRecord>, y: seq<FileRecord>)
    requires head + x == head + y
    ensures x == y
  {
    assert x == (head + x)[|head|..];
    assert y == (head + y)[|head|..];
  }

  /** Two sorted arrangements of the same records with the same levels start alike. */
  lemma SameHead(t: seq<FileRecord>, u: seq<FileRecord>, collator: Collator)
    requires ConsistentCollator(collator) && Sorted(t, collator) && Sorted(u, collator)
    requires t != [] && multiset(t) == multiset(u)
    requires Level(t, t[0], collator) == Level(u, t[0], collator)
    ensures u != [] && t[0] == u[0]
  {
    assert |u| == |multiset(u)|;
    var e := t[0];
    assert Compare(u[0], e, collator) == 0 by {
      assert e in multiset(u) && u[0] in multiset(t);
      FirstIsLeast(u, e, collator);
      FirstIsLeast(t, u[0], collator);
      CompareFlip(e, u[0], collator);
    }
    assert Compare(e, e, collator) == 0 by {
      CompareFlip(e, e, collator);
    }
    assert Level(t, e, collator)[0] == e;
    assert Level(u, e, collator)[0] == u[0];
  }

  /** Dropping the same first record keeps the levels equal. */
  lemma SameLevelsAfterHead(t: seq<FileRecord>, u: seq<FileRecord>, e: FileRecord, collator: Collator)
    requires t != [] && u != [] && t[0] == u[0]
    requires Level(t, e, collator) == Level(u, e, collator)
    ensures Level(t[1..], e, collator) == Level(u[1..], e, collator)
  {
    var head := if Compare(t[0], e, collator) == 0 then [t[0]] else [];
    DropCommonHead(head, Level(t[1..], e, collator), Level(u[1..], e, collator));
  }

  lemma {:induction false} SortedStableIsUniqueFrom(t: seq<FileRecord>, u: seq<FileRecord>, collator: Collator)
    requires ConsistentCollator(collator) && Sorted(t, collator) && Sorted(u, collator)
    requires multiset(t) == multiset(u)
    requires forall e :: Level(t, e, collator) == Level(u, e, collator)
    ensures t == u
    decreases |t|
  {
    if t == [] {
      assert |u| == |multiset(u)|;
    } else {
      SameHead(t, u, collator);
      forall e ensures Level(t[1..], e, collator) == Level(u[1..], e, collator) {
        SameLevelsAfterHead(t, u, e, collator);
      }
      assert t == [t[0]] + t[1..] && u == [u[0]] + u[1..];
      assert multiset(t[1..]) == multiset(u[1..]) by {
        assert multiset(t[1..]) == multiset(t) - multiset{t[0]};
        assert multiset(u[1..]) == multiset(u) - multiset{u[0]};
      }
      SortedTail(t, collator);
      SortedTail(u, collator);
      SortedStableIsUniqueFrom(t[1..], u[1..], collator);
    }
  }

  /**
   * Whatever algorithm a JavaScript engine uses, a stable sort with a
   * consistent comparator can only produce `StableSort`: any sorted
   * permutation that keeps level records in input order is it.
   */
  lemma SortedStableIsUnique(s: seq<FileRecord>, t: seq<FileRecord>, collator: Collator)
    requires ConsistentCollator(collator)
    requires multiset(t) == multiset(s) && Sorted(t, collator)
    requires forall e :: Level(t, e, collator) == Level(s, e, collator)
    ensures t == StableSort(s, collator)
  {
    SortPermutes(s, collator);
    SortSorted(s, collator);
    forall e ensures Level(t, e, collator) == Level(StableSort(s, collator), e, collator) {
      SortStable(s, e, collator);
    }
    SortedStableIsUniqueFrom(t, StableSort(s, collator), collator);
  }

  // ---------------------------------------------------------------------------
  // `files.sort(...)` on the array, in place.

  /** `x` lands after exactly the leading records it comes after. */
  lemma {:induction false} InsertPlace(x: FileRecord, ys: seq<FileRecord>, m: nat, collator: Collator)
    requires m <= |ys|
    requires forall k :: 0 <= k < m ==> Compare(x, ys[k], collator) > 0
    requires m == |ys| || Compare(x, ys[m], collator) <= 0
    ensures Insert(x, ys, collator) == ys[..m] + [x] + ys[m..]
    decreases m
  {
    if m > 0 {
      var tail := ys[1..];
      forall k | 0 <= k < m - 1 ensures Compare(x, tail[k], collator) > 0 {
        assert tail[k] == ys[k + 1];
      }
      assert m - 1 == |tail| || tail[m - 1] == ys[m];
      InsertPlace(x, tail, m - 1, collator);
      assert ys[..m] == [ys[0]] + tail[..m - 1];
      assert ys[m..] == tail[m - 1..];
    }
  }

  /**
   * Moves the records after `a[i]` that it comes after one place left and
   * returns the place left free for it.
   */
  method ShiftPast(a: array<FileRecord>, i: nat, collator: Collator) returns (j: nat)
    requires i < a.Length
    modifies a
    ensures i <= j < a.Length
    ensures forall k :: 0 <= k < i ==> a[k] == old(a[k])
    ensures forall k :: i <= k < j ==> a[k] == old(a[k + 1])
    ensures forall k :: j < k < a.Length ==> a[k] == old(a[k])
    ensures forall k :: i < k <= j ==> Compare(old(a[i]), old(a[k]), collator) > 0
    ensures j + 1 == a.Length || Compare(old(a[i]), old(a[j + 1]), collator) <= 0
  {
    var x := a[i];
    j := i;
    while j + 1 < a.Length && Compare(x, a[j + 1], collator) > 0
      invariant i <= j < a.Length
      invariant forall k :: 0 <= k < i ==> a[k] == old(a[k])
      invariant forall k :: i <= k < j ==> a[k] == old(a[k + 1])
      invariant forall k :: j < k < a.Length ==> a[k] == old(a[k])
      invariant forall k :: i < k <= j ==> Compare(x, old(a[k]), collator) > 0
    {
      a[j] := a[j + 1];
      j := j + 1;
    }
  }

  lemma SpliceAt(ys: seq<FileRecord>, x: FileRecord, m: nat)
    requires m <= |ys|
    ensures var r := ys[..m] + [x] + ys[m..];
      forall p :: 0 <= p < |r| ==> r[p] == if p < m then ys[p] else if p == m then x else ys[p - 1]
  {
  }

  /** Puts `a[i]` into its place in the sorted `a[i + 1..]`. */
  method InsertAt(a: array<FileRecord>, i: nat, collator: Collator)
    requires i < a.Length
    modifies a
    ensures a[..i] == old(a[..i])
    ensures a[i..] == Insert(old(a[i]), old(a[i + 1..]), collator)
  {
    var x := a[i];
    ghost var ys := a[i + 1..];
    var j := ShiftPast(a, i, collator);
    a[j] := x;
    ghost var m := j - i;
    InsertPlace(x, ys, m, collator);
    ghost var r := ys[..m] + [x] + ys[m..];
    assert a[i..] == r by {
      SpliceAt(ys, x, m);
      forall k | i <= k < a.Length ensures a[k] == r[k - i] {
        if k < j {
          assert a[k] == ys[k - i];
        } else if j < k {
          assert a[k] == ys[k - i - 1];
        }
      }
    }
  }

  /**
   * `files.sort(comparator)`: the array ends up holding the stable sort of
   * what it held. Insertion sort from the back, each record shifted in.
   */
  method SortFiles(a: array<FileRecord>, collator: Collator)
    modifies a
    ensures a[..] == StableSort(old(a[..]), collator)
  {
    ghost var s := a[..];
    var i := a.Length;
    while i > 0
      invariant 0 <= i <= a.Length
      invariant a[..i] == s[..i]
      invariant a[i..] == StableSort(s[i..], collator)
    {
      i := i - 1;
      assert s[i..][0] == s[i] && s[i..][1..] == s[i + 1..];
      assert a[i] == s[i] && a[i + 1..] == StableSort(s[i + 1..], collator);
      InsertAt(a, i, collator);
    }
    assert a[..] == a[0..];
    assert s == s[0..];
  }
}

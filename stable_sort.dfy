/**
 * A stable sort by a three-way comparator, as `Array.prototype.sort(cmp)`
 * behaves (stable since the 2019 edition of ECMA-262): insertion sort, where
 * each element, taken left to right, moves left past exactly the elements
 * that compare greater than it (comparator result > 0).
 */
module StableSort {

  /**
   * Where `x` goes in `t`: just after the last element that does not compare
   * greater than `x`, or at the front when every element does.
   */
  function InsertPos<T>(t: seq<T>, x: T, cmp: (T, T) -> int): (m: nat)
    ensures m <= |t|
    ensures forall k | m <= k < |t| :: cmp(t[k], x) > 0
    ensures 0 < m ==> cmp(t[m - 1], x) <= 0
    decreases |t|
  {
    if |t| == 0 || cmp(t[|t| - 1], x) <= 0 then |t|
    else InsertPos(t[..|t| - 1], x, cmp)
  }

  function Insert<T>(t: seq<T>, x: T, cmp: (T, T) -> int): (r: seq<T>)
    ensures |r| == |t| + 1
    ensures multiset(r) == multiset(t) + multiset{x}
  {
    var m := InsertPos(t, x, cmp);
    assert t == t[..m] + t[m..];
    t[..m] + [x] + t[m..]
  }

  lemma InsertAt<T>(t: seq<T>, x: T, cmp: (T, T) -> int, i: nat)
    requires i <= |t|
    ensures var m := InsertPos(t, x, cmp);
      Insert(t, x, cmp)[i] == if i < m then t[i] else if i == m then x else t[i - 1]
  {
  }

  /** `s` sorted by `cmp`. */
  function Sort<T>(s: seq<T>, cmp: (T, T) -> int): (r: seq<T>)
    ensures |r| == |s|
    ensures multiset(r) == multiset(s)
    decreases |s|
  {
    if |s| == 0 then []
    else
      assert s == s[..|s| - 1] + [s[|s| - 1]];
      Insert(Sort(s[..|s| - 1], cmp), s[|s| - 1], cmp)
  }

  /** Every earlier element compares not greater than every later one. */
  predicate SortedBy<T>(s: seq<T>, cmp: (T, T) -> int) {
    forall i, j | 0 <= i < j < |s| :: cmp(s[i], s[j]) <= 0
  }

  /** "cmp(a, b) <= 0" is total and transitive on the elements that satisfy `ok`. */
  ghost predicate TotalPreorderOn<T(!new)>(cmp: (T, T) -> int, ok: T -> bool) {
    TotalOn(cmp, ok) && TransitiveOn(cmp, ok)
  }

  ghost predicate TotalOn<T(!new)>(cmp: (T, T) -> int, ok: T -> bool) {
    forall a, b {:trigger cmp(a, b)} | ok(a) && ok(b) :: cmp(a, b) <= 0 || cmp(b, a) <= 0
  }

  ghost predicate TransitiveOn<T(!new)>(cmp: (T, T) -> int, ok: T -> bool) {
    forall a, b, c {:trigger cmp(a, b), cmp(b, c)} | ok(a) && ok(b) && ok(c) && cmp(a, b) <= 0 && cmp(b, c) <= 0 :: cmp(a, c) <= 0
  }

  /** A comparator that answers 0 for (a, b) answers 0 for (b, a). */
  ghost predicate ZeroSymmetric<T(!new)>(cmp: (T, T) -> int) {
    forall a, b :: cmp(a, b) == 0 ==> cmp(b, a) == 0
  }

  /**
   * Inserting into a sorted sequence keeps it sorted when `x` is not greater
   * than anything after its slot and nothing before its slot is greater than `x`.
   */
  lemma InsertSortedAt<T>(t: seq<T>, x: T, cmp: (T, T) -> int, i: nat, j: nat)
    requires SortedBy(t, cmp)
    requires forall k | InsertPos(t, x, cmp) <= k < |t| :: cmp(x, t[k]) <= 0
    requires forall k | 0 <= k < InsertPos(t, x, cmp) :: cmp(t[k], x) <= 0
    requires i < j <= |t|
    ensures cmp(Insert(t, x, cmp)[i], Insert(t, x, cmp)[j]) <= 0
  {
    var m := InsertPos(t, x, cmp);
    InsertAt(t, x, cmp, i);
    InsertAt(t, x, cmp, j);
    if j < m {
      assert cmp(t[i], t[j]) <= 0;
    } else if j == m {
      assert cmp(t[i], x) <= 0;
    } else if i < m {
      assert cmp(t[i], t[j - 1]) <= 0;
    } else if i == m {
      assert cmp(x, t[j - 1]) <= 0;
    } else {
      assert cmp(t[i - 1], t[j - 1]) <= 0;
    }
  }

  /** Under a total preorder, `x` is not greater than anything after its slot. */
  lemma InsertPosAfter<T(!new)>(t: seq<T>, x: T, cmp: (T, T) -> int, ok: T -> bool)
    requires TotalOn(cmp, ok)
    requires forall y | y in t :: ok(y)
    requires ok(x)
    ensures forall k | InsertPos(t, x, cmp) <= k < |t| :: cmp(x, t[k]) <= 0
  {
    forall k | InsertPos(t, x, cmp) <= k < |t|
      ensures cmp(x, t[k]) <= 0
    {
      assert t[k] in t;
      assert cmp(t[k], x) > 0;
    }
  }

  /** Under a total preorder on a sorted sequence, nothing before the slot of `x` is greater than `x`. */
  lemma InsertPosBefore<T(!new)>(t: seq<T>, x: T, cmp: (T, T) -> int, ok: T -> bool)
    requires TransitiveOn(cmp, ok)
    requires forall y | y in t :: ok(y)
    requires ok(x)
    requires SortedBy(t, cmp)
    ensures forall k | 0 <= k < InsertPos(t, x, cmp) :: cmp(t[k], x) <= 0
  {
    var m := InsertPos(t, x, cmp);
    forall k | 0 <= k < m
      ensures cmp(t[k], x) <= 0
    {
      if k < m - 1 {
        assert t[k] in t && t[m - 1] in t;
        assert cmp(t[k], t[m - 1]) <= 0 && cmp(t[m - 1], x) <= 0;
      }
    }
  }

  lemma InsertSorted<T(!new)>(t: seq<T>, x: T, cmp: (T, T) -> int, ok: T -> bool)
    requires TotalPreorderOn(cmp, ok)
    requires forall y | y in t :: ok(y)
    requires ok(x)
    requires SortedBy(t, cmp)
    ensures SortedBy(Insert(t, x, cmp), cmp)
  {
    InsertPosAfter(t, x, cmp, ok);
    InsertPosBefore(t, x, cmp, ok);
    var r := Insert(t, x, cmp);
    forall i, j | 0 <= i < j < |r|
      ensures cmp(r[i], r[j]) <= 0
    {
      InsertSortedAt(t, x, cmp, i, j);
    }
  }

  /** On elements where the comparator is a total preorder, the result is sorted. */
  lemma {:induction false} SortSorted<T(!new)>(s: seq<T>, cmp: (T, T) -> int, ok: T -> bool)
    requires TotalPreorderOn(cmp, ok)
    requires forall y | y in s :: ok(y)
    ensures SortedBy(Sort(s, cmp), cmp)
    decreases |s|
  {
    if |s| > 0 {
      var init := s[..|s| - 1];
      assert forall y | y in init :: y in s;
      SortSorted(init, cmp, ok);
      var t := Sort(init, cmp);
      forall y | y in t
        ensures ok(y)
      {
        assert y in multiset(t);
      }
      InsertSorted(t, s[|s| - 1], cmp, ok);
    }
  }

  /**
   * Among elements the comparator ties, output order follows `rank`, and no
   * two outputs share a rank, when `rank` strictly increases along the input.
   */
  predicate RankOrderedOnTies<T>(s: seq<T>, cmp: (T, T) -> int, rank: T -> int) {
    forall i, j | 0 <= i < j < |s| ::
      rank(s[i]) != rank(s[j]) && (cmp(s[i], s[j]) == 0 ==> rank(s[i]) < rank(s[j]))
  }

  lemma RankOrderedAt<T>(s: seq<T>, cmp: (T, T) -> int, rank: T -> int, i: nat, j: nat)
    requires RankOrderedOnTies(s, cmp, rank)
    requires i < j < |s|
    ensures rank(s[i]) != rank(s[j]) && (cmp(s[i], s[j]) == 0 ==> rank(s[i]) < rank(s[j]))
  {
  }

  lemma InsertKeepsTieOrder<T(!new)>(t: seq<T>, x: T, cmp: (T, T) -> int, rank: T -> int)
    requires ZeroSymmetric(cmp)
    requires RankOrderedOnTies(t, cmp, rank)
    requires forall y | y in t :: rank(y) < rank(x)
    ensures RankOrderedOnTies(Insert(t, x, cmp), cmp, rank)
  {
    var m := InsertPos(t, x, cmp);
    var r := Insert(t, x, cmp);
    forall i, j | 0 <= i < j < |r|
      ensures rank(r[i]) != rank(r[j]) && (cmp(r[i], r[j]) == 0 ==> rank(r[i]) < rank(r[j]))
    {
      InsertAt(t, x, cmp, i);
      InsertAt(t, x, cmp, j);
      if j == m {
        assert t[i] in t;
      } else if i == m {
        assert t[j - 1] in t;
        assert cmp(t[j - 1], x) != 0;
      }
    }
  }

  /** Every element of the sorted sequence comes from the input. */
  lemma SortMember<T>(s: seq<T>, cmp: (T, T) -> int, y: T)
    requires y in Sort(s, cmp)
    ensures y in s
  {
    assert y in multiset(Sort(s, cmp));
  }

  /** A bound on the ranks of the input bounds the ranks of the output. */
  lemma SortRanksBelow<T>(s: seq<T>, cmp: (T, T) -> int, rank: T -> int, bound: int)
    requires forall k | 0 <= k < |s| :: rank(s[k]) < bound
    ensures forall y | y in Sort(s, cmp) :: rank(y) < bound
  {
    forall y | y in Sort(s, cmp)
      ensures rank(y) < bound
    {
      SortMember(s, cmp, y);
      var p :| 0 <= p < |s| && s[p] == y;
    }
  }

  /** The sort never reorders two elements the comparator ties: it is stable. */
  lemma {:induction false} SortKeepsTieOrder<T(!new)>(xs: seq<T>, cmp: (T, T) -> int, rank: T -> int)
    requires ZeroSymmetric(cmp)
    requires forall i, j | 0 <= i < j < |xs| :: rank(xs[i]) < rank(xs[j])
    ensures RankOrderedOnTies(Sort(xs, cmp), cmp, rank)
    decreases |xs|
  {
    if |xs| > 0 {
      var n := |xs| - 1;
      var init := xs[..n];
      assert forall i, j | 0 <= i < j < |init| :: rank(init[i]) < rank(init[j]) by {
        forall i, j | 0 <= i < j < |init|
          ensures rank(init[i]) < rank(init[j])
        {
          assert init[i] == xs[i] && init[j] == xs[j];
        }
      }
      SortKeepsTieOrder(init, cmp, rank);
      assert forall k | 0 <= k < |init| :: rank(init[k]) < rank(xs[n]) by {
        forall k | 0 <= k < |init|
          ensures rank(init[k]) < rank(xs[n])
        {
          assert init[k] == xs[k];
        }
      }
      SortRanksBelow(init, cmp, rank, rank(xs[n]));
      assert Sort(xs, cmp) == Insert(Sort(init, cmp), xs[n], cmp);
      InsertKeepsTieOrder(Sort(init, cmp), xs[n], cmp, rank);
    }
  }

  function MapSeq<U, T>(s: seq<U>, f: U -> T): seq<T> {
    seq(|s|, i requires 0 <= i < |s| => f(s[i]))
  }

  lemma {:induction false} InsertPosMap<U(!new), T>(t: seq<U>, x: U, f: U -> T, cmpU: (U, U) -> int, cmp: (T, T) -> int)
    requires forall p, q :: cmpU(p, q) == cmp(f(p), f(q))
    ensures InsertPos(t, x, cmpU) == InsertPos(MapSeq(t, f), f(x), cmp)
    decreases |t|
  {
    if |t| > 0 && cmpU(t[|t| - 1], x) > 0 {
      assert MapSeq(t[..|t| - 1], f) == MapSeq(t, f)[..|t| - 1];
      InsertPosMap(t[..|t| - 1], x, f, cmpU, cmp);
    }
  }

  lemma MapInsert<U(!new), T>(t: seq<U>, x: U, f: U -> T, cmpU: (U, U) -> int, cmp: (T, T) -> int)
    requires forall p, q :: cmpU(p, q) == cmp(f(p), f(q))
    ensures MapSeq(Insert(t, x, cmpU), f) == Insert(MapSeq(t, f), f(x), cmp)
  {
    InsertPosMap(t, x, f, cmpU, cmp);
    var a, b := MapSeq(Insert(t, x, cmpU), f), Insert(MapSeq(t, f), f(x), cmp);
    forall i | 0 <= i < |a|
      ensures a[i] == b[i]
    {
      InsertAt(t, x, cmpU, i);
      InsertAt(MapSeq(t, f), f(x), cmp, i);
    }
  }

  /** Sorting by a comparator that only looks at `f` of each element commutes with mapping `f`. */
  lemma {:induction false} SortMap<U(!new), T>(xs: seq<U>, f: U -> T, cmpU: (U, U) -> int, cmp: (T, T) -> int)
    requires forall p, q :: cmpU(p, q) == cmp(f(p), f(q))
    ensures MapSeq(Sort(xs, cmpU), f) == Sort(MapSeq(xs, f), cmp)
    decreases |xs|
  {
    if |xs| > 0 {
      var n := |xs| - 1;
      SortMap(xs[..n], f, cmpU, cmp);
      assert MapSeq(xs[..n], f) == MapSeq(xs, f)[..n];
      MapInsert(Sort(xs[..n], cmpU), xs[n], f, cmpU, cmp);
    }
  }

  /** An element of a sequence tagged with its position in it. */
  datatype Tagged<T> = Tagged(pos: nat, item: T)

  function Tag<T>(s: seq<T>): seq<Tagged<T>> {
    seq(|s|, i requires 0 <= i < |s| => Tagged(i, s[i]))
  }

  function TagCmp<T>(cmp: (T, T) -> int): (Tagged<T>, Tagged<T>) -> int {
    (p: Tagged<T>, q: Tagged<T>) => cmp(p.item, q.item)
  }

  /**
   * The position of a tagged element, twice: `Pos` as a `nat`, for the
   * positions `SortedPositions` returns, and `Rank` as an `int`, for the
   * `rank` parameter of `SortKeepsTieOrder`, which has type `T -> int`.
   * Passing `Pos` there would coerce a `nat`-valued function to an
   * `int`-valued one, which makes the stability proof much costlier.
   */
  function Pos<T>(p: Tagged<T>): nat {
    p.pos
  }

  function Rank<T>(p: Tagged<T>): int {
    p.pos
  }

  function Item<T>(p: Tagged<T>): T {
    p.item
  }

  /** For each output position of `Sort(s, cmp)`, the input position its element came from. */
  function SortedPositions<T>(s: seq<T>, cmp: (T, T) -> int): seq<nat> {
    MapSeq(Sort(Tag(s), TagCmp(cmp)), Pos)
  }

  /** Dropping the tags gives back the sequence. */
  lemma UntagTag<T>(s: seq<T>)
    ensures MapSeq(Tag(s), Item) == s
  {
    var m := MapSeq(Tag(s), Item);
    forall i | 0 <= i < |s|
      ensures m[i] == s[i]
    {
      assert Tag(s)[i] == Tagged(i, s[i]);
    }
  }

  /** Sorting the tagged sequence and dropping the tags is sorting the sequence. */
  lemma TaggedSortItems<T(!new)>(s: seq<T>, cmp: (T, T) -> int)
    ensures MapSeq(Sort(Tag(s), TagCmp(cmp)), Item) == Sort(s, cmp)
  {
    SortMap(Tag(s), Item, TagCmp(cmp), cmp);
    UntagTag(s);
  }

  /** Tagged elements that tie keep the order of their tags, and no tag repeats. */
  lemma TaggedSortTies<T(!new)>(s: seq<T>, cmp: (T, T) -> int)
    requires ZeroSymmetric(cmp)
    ensures RankOrderedOnTies(Sort(Tag(s), TagCmp(cmp)), TagCmp(cmp), Rank)
  {
    var tcmp := TagCmp(cmp);
    assert ZeroSymmetric(tcmp) by {
      forall p: Tagged<T>, q: Tagged<T> | tcmp(p, q) == 0
        ensures tcmp(q, p) == 0
      {
        assert cmp(p.item, q.item) == 0;
      }
    }
    forall i, j | 0 <= i < j < |s|
      ensures Rank(Tag(s)[i]) < Rank(Tag(s)[j])
    {
      assert Tag(s)[i].pos == i && Tag(s)[j].pos == j;
    }
    SortKeepsTieOrder(Tag(s), tcmp, Rank);
  }

  lemma MapSeqAt<U, T>(s: seq<U>, f: U -> T, i: nat)
    requires i < |s|
    ensures MapSeq(s, f)[i] == f(s[i])
  {
  }

  /** Each tagged element of the sorted tagged sequence carries an input position and the element there. */
  lemma TaggedSortAt<T(!new)>(s: seq<T>, cmp: (T, T) -> int, i: nat)
    requires i < |s|
    ensures var out := Sort(Tag(s), TagCmp(cmp));
      out[i].pos < |s| && out[i].item == s[out[i].pos]
  {
    var tagged := Tag(s);
    var e := Sort(tagged, TagCmp(cmp))[i];
    SortMember(tagged, TagCmp(cmp), e);
    var p :| 0 <= p < |tagged| && tagged[p] == e;
    assert tagged[p] == Tagged(p, s[p]);
  }

  /** Output position i of the sort holds the input element at position ps[i]. */
  lemma SortedPositionsSelect<T(!new)>(s: seq<T>, cmp: (T, T) -> int)
    ensures var ps, v := SortedPositions(s, cmp), Sort(s, cmp);
      && |ps| == |v| == |s|
      && (forall i | 0 <= i < |ps| :: ps[i] < |s| && v[i] == s[ps[i]])
  {
    var out := Sort(Tag(s), TagCmp(cmp));
    var ps, v := SortedPositions(s, cmp), Sort(s, cmp);
    TaggedSortItems(s, cmp);
    forall i | 0 <= i < |ps|
      ensures ps[i] < |s| && v[i] == s[ps[i]]
    {
      TaggedSortAt(s, cmp, i);
      MapSeqAt(out, Item, i);
      MapSeqAt(out, Pos, i);
    }
  }

  /** Stability read off a tagged sequence whose positions are `ps` and whose elements are `v`. */
  lemma RankOrderedUntagged<T>(out: seq<Tagged<T>>, ps: seq<nat>, v: seq<T>, cmp: (T, T) -> int)
    requires |ps| == |v| == |out|
    requires forall i | 0 <= i < |out| :: ps[i] == out[i].pos && v[i] == out[i].item
    requires RankOrderedOnTies(out, TagCmp(cmp), Rank)
    ensures forall i, j | 0 <= i < j < |ps| :: ps[i] != ps[j]
    ensures forall i, j | 0 <= i < j < |ps| :: cmp(v[i], v[j]) == 0 ==> ps[i] < ps[j]
  {
    forall i, j | 0 <= i < j < |ps|
      ensures ps[i] != ps[j] && (cmp(v[i], v[j]) == 0 ==> ps[i] < ps[j])
    {
      RankOrderedAt(out, TagCmp(cmp), Rank, i, j);
      assert TagCmp(cmp)(out[i], out[j]) == cmp(v[i], v[j]);
    }
  }

  /** Elements the comparator ties keep their input order, and no input position is used twice. */
  lemma SortedPositionsStable<T(!new)>(s: seq<T>, cmp: (T, T) -> int)
    requires ZeroSymmetric(cmp)
    ensures |SortedPositions(s, cmp)| == |Sort(s, cmp)| == |s|
    ensures var ps := SortedPositions(s, cmp);
      forall i, j | 0 <= i < j < |ps| :: ps[i] != ps[j]
    ensures var ps, v := SortedPositions(s, cmp), Sort(s, cmp);
      forall i, j | 0 <= i < j < |ps| :: cmp(v[i], v[j]) == 0 ==> ps[i] < ps[j]
  {
    var out := Sort(Tag(s), TagCmp(cmp));
    var ps, v := SortedPositions(s, cmp), Sort(s, cmp);
    TaggedSortTies(s, cmp);
    TaggedSortItems(s, cmp);
    forall i | 0 <= i < |out|
      ensures ps[i] == out[i].pos && v[i] == out[i].item
    {
      MapSeqAt(out, Item, i);
      MapSeqAt(out, Pos, i);
    }
    RankOrderedUntagged(out, ps, v, cmp);
  }

  /** A two-element sequence is swapped exactly when its first element compares greater. */
  lemma SortPair<T>(x: T, y: T, cmp: (T, T) -> int)
    ensures cmp(x, y) <= 0 ==> Sort([x, y], cmp) == [x, y]
    ensures cmp(x, y) > 0 ==> Sort([x, y], cmp) == [y, x]
  {
    assert [x, y][..1] == [x] && [x][..0] == [];
    assert Sort([x], cmp) == Insert([], x, cmp) == [x];
    assert Sort([x, y], cmp) == Insert([x], y, cmp);
    if cmp(x, y) > 0 {
      assert InsertPos([x], y, cmp) == 0;
    }
  }

  /** A three-element sequence is sorted by inserting its last element into the sorted first two. */
  lemma SortTriple<T>(x: T, y: T, z: T, cmp: (T, T) -> int)
    ensures Sort([x, y, z], cmp) == Insert(Sort([x, y], cmp), z, cmp)
  {
    assert [x, y, z][..2] == [x, y];
  }

  /** Where a third element goes relative to a sorted pair. */
  lemma InsertIntoPair<T>(p: T, q: T, z: T, cmp: (T, T) -> int)
    ensures cmp(q, z) <= 0 ==> Insert([p, q], z, cmp) == [p, q, z]
    ensures cmp(q, z) > 0 && cmp(p, z) > 0 ==> Insert([p, q], z, cmp) == [z, p, q]
  {
    assert [p, q][..1] == [p] && [p][..0] == [];
  }

  /**
   * `Sort` is a stable sort: output position i holds input element ps[i],
   * `ps` is a permutation of the input positions, and elements the comparator
   * ties keep their input order.
   */
  lemma SortIsStablePermutation<T(!new)>(s: seq<T>, cmp: (T, T) -> int)
    requires ZeroSymmetric(cmp)
    ensures var ps, v := SortedPositions(s, cmp), Sort(s, cmp);
      && |ps| == |v| == |s|
      && (forall i | 0 <= i < |ps| :: ps[i] < |s| && v[i] == s[ps[i]])
      && (forall i, j | 0 <= i < j < |ps| :: ps[i] != ps[j])
      && (forall i, j | 0 <= i < j < |ps| :: cmp(v[i], v[j]) == 0 ==> ps[i] < ps[j])
  {
    SortedPositionsSelect(s, cmp);
    SortedPositionsStable(s, cmp);
  }
}

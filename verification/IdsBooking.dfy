/** `CIdsBooking` of AccessNode/Shared/IdsBooking.cpp: booked ids as a canonical interval list in a
    doubly linked list, edited in place.  Every method is proved against the plain-set allocator of
    module `IdPool`. */
module IdsBooking {
  import opened ObjLists
  import opened Intervals
  import IdPool

  /** The plain-set allocator that an interval list stands for. */
  ghost function PoolOf(s: seq<Interval>, min: int, max: int, last: int): IdPool.Pool {
    IdPool.Pool(min, max, last, Booked(s, min, max))
  }

  /** What lies inside the range is booked exactly when some interval covers it. */
  lemma BookedIsCovered(s: seq<Interval>, min: int, max: int, x: int)
    requires min < x < max
    ensures x in Booked(s, min, max) <==> Covers(s, x)
  {
    IdsCovers(s);
  }

  /** With everything from `from` up to the gap behind interval `i` covered, the least free id is the
      first one `x` in that gap. */
  lemma NextFreeInGap(s: seq<Interval>, min: int, max: int, last: int, from: int, i: nat, x: int)
    requires Canonical(s, min, max) && i + 1 < |s| && s[i].end < x < s[i + 1].start
    requires min < from <= x && forall y :: from <= y < x ==> Covers(s, y)
    ensures min < x < max && PoolOf(s, min, max, last).NextFree(from) == x
  {
    Place(s, min, max, i);
    GapIsFree(s, i, x);
    IdsCovers(s);
    IdPool.NextFreeIs(PoolOf(s, min, max, last), from, x);
  }

  /** With everything from `from` up to `max` covered, there is no free id to find. */
  lemma NoneFree(s: seq<Interval>, min: int, max: int, last: int, from: int)
    requires min < from <= max && forall y :: from <= y < max ==> Covers(s, y)
    ensures PoolOf(s, min, max, last).NextFree(from) == max
  {
    IdsCovers(s);
    IdPool.NextFreeIs(PoolOf(s, min, max, last), from, max);
  }

  lemma TwoSentinels(min: int, max: int)
    ensures var s := [Interval(min, min), Interval(max, max)];
            (Apart(s) <==> min + 1 < max) && Ids(s) == {min, max}
  {
    var s := [Interval(min, min), Interval(max, max)];
    ApartPairs(s);
    assert Apart(s) ==> s[0].end + 1 < s[1].start;
    IdsCovers(s);
    assert s[0].Has(min) && s[1].Has(max);
  }

  lemma CoveredBy(s: seq<Interval>, i: nat)
    requires i < |s|
    ensures forall x :: s[i].start <= x <= s[i].end ==> Covers(s, x)
  {
    forall x | s[i].start <= x <= s[i].end
      ensures Covers(s, x)
    {
      assert s[i].Has(x);
    }
  }

  lemma HeadCovers(s: seq<Interval>, x: int)
    requires |s| > 0 && s[0].start <= x <= s[0].end
    ensures Covers(s, x)
  {
    assert s[0].Has(x);
  }

  /** The list is down to a single interval exactly when every id is booked; otherwise the first
      free id is the one behind the first interval. */
  lemma FirstFit(s: seq<Interval>, min: int, max: int, last: int)
    requires Canonical(s, min, max) && min + 2 <= max
    ensures |s| == 1 <==> PoolOf(s, min, max, last).NextFree(min + 1) == max
    ensures |s| > 1 ==> PoolOf(s, min, max, last).NextFree(min + 1) == s[0].end + 1 < max
  {
    forall x | min < x <= s[0].end
      ensures Covers(s, x)
    {
      HeadCovers(s, x);
    }
    if |s| == 1 {
      NoneFree(s, min, max, last, min + 1);
    } else {
      Place(s, min, max, 0);
      NextFreeInGap(s, min, max, last, min + 1, 0, s[0].end + 1);
    }
  }

  class IdsBooking {
    var min: int
    var max: int
    var lastAdd: int
    var idList: ObjList<Interval>

    ghost predicate Valid()
      reads this, idList, idList.Nodes
    {
      && idList.Valid()
      && min + 2 <= max
      && Canonical(idList.Contents, min, max)
    }

    ghost function Pool(): IdPool.Pool
      reads this, idList, idList.Nodes
    {
      PoolOf(idList.Contents, min, max, lastAdd)
    }

    /** Two sentinel intervals stand at `min` and `max`.  Bounds given the wrong way round are
        repaired; a range with nothing between its bounds is accepted but gives no valid list. */
    constructor (minId: int, maxId: int)
      ensures fresh(idList) && fresh(idList.Nodes)
      ensures min == minId && max == if minId > maxId then minId + 10000 else maxId
      ensures idList.Valid() && idList.Contents == [Interval(min, min), Interval(max, max)]
      ensures Valid() <==> min + 2 <= max
      ensures Valid() ==> Pool() == IdPool.Pool(min, max, max, {})
    {
      min, max := minId, if minId > maxId then minId + 10000 else maxId;
      lastAdd := max;
      idList := new ObjList();
      new;
      var _ := idList.AddHead(Interval(min, min));
      var _ := idList.AddTail(Interval(max, max));
      assert idList.Contents == [Interval(min, min), Interval(max, max)];
      TwoSentinels(min, max);
    }

    /** The list edit behind booking `id` between the intervals at `pos1` and `pos2`: one of them
        grows, the two are joined, or a new interval goes in between. */
    method EditBetween(pos1: Elem<Interval>, pos2: Elem<Interval>, id: int, ghost k: nat)
      requires idList.Valid() && idList.At(pos1, k) && idList.At(pos2, k + 1)
      requires idList.Contents[k].end < id < idList.Contents[k + 1].start
      modifies idList, idList.Nodes
      ensures idList.Valid() && forall n :: n in idList.Nodes ==> n in old(idList.Nodes) || fresh(n)
      ensures idList.Contents == Fill(old(idList.Contents), k, id)
    {
      var t1 := pos1.obj;
      var t2 := pos2.obj;
      if t1.end + 1 == id {
        if id + 1 == t2.start {
          var _ := idList.SetAt(pos1, t1.(end := t2.end), k);
          var _ := idList.RemoveAt(pos2, k + 1);
        } else {
          var _ := idList.SetAt(pos1, t1.(end := t1.end + 1), k);
        }
      } else if t2.start - 1 == id {
        // The gap holds more than `id`, so lowering the start never makes the two touch.
        var _ := idList.SetAt(pos2, t2.(start := t2.start - 1), k + 1);
      } else {
        var _ := idList.InsertAfter(pos1, Interval(id, id), k);
      }
    }

    method BookBetween(pos1: Elem<Interval>, pos2: Elem<Interval>, id: int, ghost k: nat)
      requires Valid() && idList.At(pos1, k) && idList.At(pos2, k + 1)
      requires idList.Contents[k].end < id < idList.Contents[k + 1].start
      modifies this`lastAdd, idList, idList.Nodes
      ensures Valid() && forall n :: n in idList.Nodes ==> n in old(idList.Nodes) || fresh(n)
      ensures Pool() == old(Pool()).Book(id)
    {
      ghost var s := idList.Contents;
      lastAdd := id;
      EditBetween(pos1, pos2, id, k);
      FillCanonical(s, min, max, k, id);
      FillIds(s, k, id);
      ghost var t := idList.Contents;
      assert Canonical(t, min, max) && Ids(t) == Ids(s) + {id};
    }

    /** Finds the first interval behind the head that ends at or above `id`, and its predecessor.
        The sentinel at `max` ends above `id`, so the search cannot run off the list. */
    method FindNeighbours(id: int) returns (pos1: Elem<Interval>, pos2: Elem<Interval>, ghost k: nat)
      requires Valid() && min < id < max && |idList.Contents| > 1
      ensures idList.At(pos1, k) && idList.At(pos2, k + 1)
      ensures id <= idList.Contents[k + 1].end && (k > 0 ==> idList.Contents[k].end < id)
    {
      ghost var s := idList.Contents;
      pos1 := idList.headNode;
      k := 0;
      var _, next := idList.GetNext(pos1, 0);
      var pos := next;
      while pos != null
        invariant k + 1 <= |s| && idList.At(pos1, k) && idList.At(pos, k + 1)
        invariant k > 0 ==> s[k].end < id
        modifies {}
        decreases |s| - k
      {
        if pos.obj.end >= id {
          break;
        }
        pos1 := pos;
        k := k + 1;
        var _, succ := idList.GetNext(pos, k);
        pos := succ;
      }
      pos2 := pos;
    }

    /** Books a given id.  A full list reports success without recording the id as the last one. */
    method Add(id: int) returns (ok: int)
      requires Valid()
      modifies this`lastAdd, idList, idList.Nodes
      ensures Valid() && forall n :: n in idList.Nodes ==> n in old(idList.Nodes) || fresh(n)
      ensures (Pool(), ok) == old(Pool()).Add(id)
    {
      if id <= min || id >= max {
        return 0;
      }
      ghost var s := idList.Contents;
      FirstFit(s, min, max, lastAdd);
      if idList.headNode.next == null {
        return 1;
      }
      var pos1, pos2, k := FindNeighbours(id);
      lastAdd := id;
      var t1 := pos1.obj;
      var t2 := pos2.obj;
      if t1.Has(id) || t2.Has(id) {
        assert Covers(s, id) by {
          assert s[if t1.Has(id) then k else k + 1].Has(id);
        }
        BookedIsCovered(s, min, max, id);
        assert Pool().booked == Pool().booked + {id};
        return 1;
      }
      BookBetween(pos1, pos2, id, k);
      return 1;
    }

    /** First fit: hands out the least free id, or `max` when there is none. */
    method GetNewId() returns (id: int)
      requires Valid()
      modifies this`lastAdd, idList, idList.Nodes
      ensures Valid() && forall n :: n in idList.Nodes ==> n in old(idList.Nodes) || fresh(n)
      ensures (Pool(), id) == old(Pool()).GetNewId()
    {
      ghost var s, pool := idList.Contents, Pool();
      FirstFit(s, min, max, lastAdd);
      ghost var free := pool.NextFree(min + 1);
      IdPool.FirstFits(pool, free);
      var pos1 := idList.headNode;
      var _, pos2 := idList.GetNext(pos1, 0);
      if pos2 == null {
        assert |s| == 1 && free == max;
        return max;
      }
      assert |s| > 1 && pos1.obj == s[0];
      id := pos1.obj.end + 1;
      assert free == id < max;
      BookBetween(pos1, pos2, id, 0);
      assert Pool() == pool.Book(id);
    }

    /** Walks the list from a point inside the range to the first gap at or above it, moving
        `lastAdd` along; `pos2` is null when the walk reaches the end of the list. */
    method SeekGap() returns (pos1: Elem<Interval>, pos2: Elem?<Interval>, ghost k: nat)
      requires Valid() && min < lastAdd <= max && |idList.Contents| > 1
      modifies this`lastAdd
      ensures Valid() && idList.At(pos1, k) && idList.At(pos2, k + 1)
      ensures old(lastAdd) <= lastAdd
      ensures forall y :: old(lastAdd) <= y < lastAdd ==> Covers(idList.Contents, y)
      ensures if pos2 == null then max < lastAdd
              else idList.Contents[k].end < lastAdd < idList.Contents[k + 1].start
    {
      ghost var s := idList.Contents;
      ghost var from := lastAdd;
      pos1 := idList.headNode;
      k := 0;
      var _, next := idList.GetNext(pos1, 0);
      pos2 := next;
      while pos2 != null
        invariant k + 1 <= |s| && idList.At(pos1, k) && idList.At(pos2, k + 1)
        invariant from <= lastAdd && forall y :: from <= y < lastAdd ==> Covers(s, y)
        invariant k > 0 ==> s[k].end < lastAdd
        modifies this`lastAdd
        decreases |s| - k
      {
        var t2 := pos2.obj;
        if t2.start > lastAdd {
          break;
        }
        if t2.end >= lastAdd {
          CoveredBy(s, k + 1);
          lastAdd := t2.end + 1;
        }
        pos1 := pos2;
        k := k + 1;
        var _, succ := idList.GetNext(pos2, k);
        pos2 := succ;
      }
      if pos2 != null && (pos1.obj.Has(lastAdd) || pos2.obj.Has(lastAdd)) {
        CoveredBy(s, k);
        Place(s, min, max, k);
        lastAdd := pos1.obj.end + 1;
      }
    }

    /** Next fit: hands out the least free id above the last one, or the least free id. */
    method GetNewId2() returns (id: int)
      requires Valid()
      modifies this`lastAdd, idList, idList.Nodes
      ensures Valid() && forall n :: n in idList.Nodes ==> n in old(idList.Nodes) || fresh(n)
      ensures (Pool(), id) == old(Pool()).GetNewId2()
    {
      if lastAdd <= min || lastAdd >= max {
        id := GetNewId();
        return;
      }
      ghost var pool := Pool();
      ghost var s := idList.Contents;
      FirstFit(s, min, max, lastAdd);
      if idList.headNode.next == null {
        CoveredBy(s, 0);
        NoneFree(s, min, max, lastAdd, lastAdd + 1);
        assert pool.GetNewId2() == (pool, max);
        return max;
      }
      lastAdd := lastAdd + 1;
      var pos1, pos2, k := SeekGap();
      if pos2 == null {
        assert pool.NextFree(pool.last + 1) == max by {
          NoneFree(s, min, max, pool.last, pool.last + 1);
        }
        IdPool.NextFitWraps(pool, lastAdd);
        id := GetNewId();
      } else {
        id := lastAdd;
        assert min < id < max && pool.NextFree(pool.last + 1) == id by {
          NextFreeInGap(s, min, max, pool.last, pool.last + 1, k, id);
        }
        IdPool.NextFitAbove(pool, id);
        BookBetween(pos1, pos2, id, k);
      }
    }

    /** Gives an id back: the interval that holds it vanishes, shrinks or is split.  An id that is
        out of range or not booked changes nothing. */
    method Remove(id: int)
      requires Valid()
      modifies idList, idList.Nodes
      ensures Valid() && forall n :: n in idList.Nodes ==> n in old(idList.Nodes) || fresh(n)
      ensures Pool() == old(Pool()).Remove(id)
    {
      if id <= min || id >= max {
        return;
      }
      var pos := idList.headNode;
      ghost var k := 0;
      ghost var s := idList.Contents;
      while pos != null
        invariant k <= |s| && idList.At(pos, k)
        invariant forall j :: 0 <= j < k ==> !s[j].Has(id)
        modifies {}
        decreases |s| - k
      {
        var t := pos.obj;
        if !(id < t.start || t.end < id) {
          break;
        }
        var _, next := idList.GetNext(pos, k);
        pos := next;
        k := k + 1;
      }
      if pos == null {
        BookedIsCovered(s, min, max, id);
        return;
      }
      Release(pos, id, k);
    }

    method Release(pos: Elem<Interval>, id: int, ghost k: nat)
      requires Valid() && min < id < max && idList.At(pos, k) && idList.Contents[k].Has(id)
      modifies idList, idList.Nodes
      ensures Valid() && forall n :: n in idList.Nodes ==> n in old(idList.Nodes) || fresh(n)
      ensures Pool() == old(Pool()).(booked := old(Pool()).booked - {id})
    {
      CutCanonical(idList.Contents, min, max, k, id);
      CutIds(idList.Contents, k, id);
      CutAt(pos, id, k);
    }

    method CutAt(pos: Elem<Interval>, id: int, ghost k: nat)
      requires idList.Valid() && idList.At(pos, k) && idList.Contents[k].Has(id)
      modifies idList, idList.Nodes
      ensures idList.Valid() && forall n :: n in idList.Nodes ==> n in old(idList.Nodes) || fresh(n)
      ensures idList.Contents == Cut(old(idList.Contents), k, id)
    {
      var t := pos.obj;
      if t.start == t.end {
        var _ := idList.RemoveAt(pos, k);
      } else if t.start == id {
        var _ := idList.SetAt(pos, t.(start := t.start + 1), k);
      } else if t.end == id {
        var _ := idList.SetAt(pos, t.(end := t.end - 1), k);
      } else {
        var _ := idList.SetAt(pos, t.(end := id - 1), k);
        var _ := idList.InsertAfter(pos, Interval(id + 1, t.end), k);
      }
    }

    /** Callers may move the point from which next fit goes on to any value at all. */
    method SetLastAdd(last: int)
      requires Valid()
      modifies this`lastAdd
      ensures Valid() && Pool() == old(Pool()).(last := last)
    {
      lastAdd := last;
    }
  }
}

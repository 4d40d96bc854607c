/** Sorted lists of closed intervals, as the id allocator of AccessNode/Shared/IdsBooking.cpp keeps
    them: what a list covers, and what each of its in-place edits does to the covered set. */
module Intervals {
  import opened Basics
  import opened ObjLists
  import IdPool

  datatype Interval = Interval(start: int, end: int) {
    predicate Has(x: int) {
      start <= x <= end
    }
  }

  /** Sorted, disjoint and not even touching. */
  ghost predicate Apart(s: seq<Interval>) {
    s == [] ||
    (s[0].start <= s[0].end && (|s| > 1 ==> s[0].end + 1 < s[1].start) && Apart(s[1..]))
  }

  /** Apart, with the first interval starting at `min` and the last one ending at `max`. */
  ghost predicate Canonical(s: seq<Interval>, min: int, max: int) {
    |s| > 0 && s[0].start == min && s[|s| - 1].end == max && Apart(s)
  }

  /** What `Apart` says of every pair of intervals. */
  ghost predicate Pairs(s: seq<Interval>) {
    && (forall i {:trigger s[i].end} :: 0 <= i < |s| ==> s[i].start <= s[i].end)
    && (forall i, j {:trigger s[i].end, s[j].start} :: 0 <= i < j < |s| ==> s[i].end + 1 < s[j].start)
  }

  lemma {:induction false} ApartPairs(s: seq<Interval>)
    ensures Apart(s) <==> Pairs(s)
  {
    if |s| > 1 {
      var rest := s[1..];
      ApartPairs(rest);
      if Pairs(rest) && s[0].start <= s[0].end && s[0].end + 1 < s[1].start {
        forall j | 1 <= j < |s|
          ensures s[0].end + 1 < s[j].start
        {
          assert j > 1 ==> rest[0].end + 1 < rest[j - 1].start;
          assert rest[0].start <= rest[0].end;
        }
      }
      if Pairs(s) {
        forall i, j | 0 <= i < j < |rest|
          ensures rest[i].end + 1 < rest[j].start
        {
          assert s[i + 1].end + 1 < s[j + 1].start;
        }
      }
    }
  }

  /** Where interval `i` lies, and the gap behind it. */
  lemma Place(s: seq<Interval>, min: int, max: int, i: nat)
    requires Canonical(s, min, max) && i < |s|
    ensures min <= s[i].start <= s[i].end <= max
    ensures i + 1 < |s| ==> s[i].end + 1 < s[i + 1].start <= max
  {
    ApartPairs(s);
    assert i > 0 ==> s[0].end + 1 < s[i].start;
    assert i < |s| - 1 ==> s[i].end + 1 < s[|s| - 1].start;
    assert i + 1 < |s| - 1 ==> s[i + 1].end + 1 < s[|s| - 1].start;
  }

  ghost predicate Covers(s: seq<Interval>, x: int) {
    exists i :: 0 <= i < |s| && s[i].Has(x)
  }

  /** All ids the list covers. */
  ghost function Ids(s: seq<Interval>): set<int> {
    if s == [] then {} else Ids(s[1..]) + IdPool.IdsBetween(s[0].start - 1, s[0].end + 1)
  }

  lemma {:induction false} IdsCovers(s: seq<Interval>)
    ensures forall x :: x in Ids(s) <==> Covers(s, x)
  {
    if s != [] {
      var rest := s[1..];
      IdsCovers(rest);
      forall x
        ensures x in Ids(s) <==> Covers(s, x)
      {
        if Covers(rest, x) {
          var i :| 0 <= i < |rest| && rest[i].Has(x);
          assert s[i + 1].Has(x);
        }
        if s[0].Has(x) {
          assert Covers(s, x);
        } else if Covers(s, x) {
          var i :| 0 <= i < |s| && s[i].Has(x);
          assert rest[i - 1].Has(x);
        }
      }
    }
  }

  /** The booked ids: everything covered apart from the two sentinels `min` and `max`. */
  ghost function Booked(s: seq<Interval>, min: int, max: int): set<int> {
    Ids(s) - {min, max}
  }

  /** In a canonical list what lies between two neighbours is not covered. */
  lemma GapIsFree(s: seq<Interval>, i: nat, x: int)
    requires Apart(s) && i + 1 < |s| && s[i].end < x < s[i + 1].start
    ensures !Covers(s, x)
  {
    ApartPairs(s);
    forall j | 0 <= j < |s|
      ensures !s[j].Has(x)
    {
      if j < i {
        assert s[j].end < s[i].start;
      } else if j > i + 1 {
        assert s[i + 1].end < s[j].start;
      }
    }
  }

  /** Interval `i` moves one of its ends out by one, onto `x`. */
  lemma GrowCovers(s: seq<Interval>, i: nat, v: Interval, x: int)
    requires i < |s| && s[i].start <= s[i].end
    requires || (v == Interval(s[i].start, x) && s[i].end + 1 == x)
             || (v == Interval(x, s[i].end) && s[i].start - 1 == x)
    ensures forall y :: Covers(s[i := v], y) <==> Covers(s, y) || y == x
  {
    var t := s[i := v];
    assert t[i].Has(x);
    forall y
      ensures Covers(t, y) <==> Covers(s, y) || y == x
    {
      if Covers(s, y) {
        var j :| 0 <= j < |s| && s[j].Has(y);
        assert t[j].Has(y);
      }
      if Covers(t, y) && y != x {
        var j :| 0 <= j < |t| && t[j].Has(y);
        assert s[j].Has(y);
      }
    }
  }

  /** `x` is all that separates interval `i` from the next one; the two become one. */
  lemma JoinCovers(s: seq<Interval>, i: nat, x: int)
    requires i + 1 < |s| && s[i].start <= s[i].end && s[i + 1].start <= s[i + 1].end
    requires s[i].end + 1 == x == s[i + 1].start - 1
    ensures forall y :: Covers(Without(s[i := Interval(s[i].start, s[i + 1].end)], i + 1), y) <==> Covers(s, y) || y == x
  {
    var t := Without(s[i := Interval(s[i].start, s[i + 1].end)], i + 1);
    assert t[i].Has(x);
    forall y
      ensures Covers(t, y) <==> Covers(s, y) || y == x
    {
      if Covers(s, y) {
        var j :| 0 <= j < |s| && s[j].Has(y);
        assert t[if j <= i then j else j - 1].Has(y);
      }
      if Covers(t, y) && y != x {
        var j :| 0 <= j < |t| && t[j].Has(y);
        if j <= i {
          assert s[j].Has(y) || s[i + 1].Has(y);
        } else {
          assert s[j + 1].Has(y);
        }
      }
    }
  }

  /** An interval put in at index `n` adds what it has. */
  lemma PutCovers(s: seq<Interval>, n: nat, v: Interval)
    requires n <= |s|
    ensures forall y :: Covers(Splice(s, n, v), y) <==> Covers(s, y) || v.Has(y)
  {
    var t := Splice(s, n, v);
    forall y
      ensures Covers(t, y) <==> Covers(s, y) || v.Has(y)
    {
      if Covers(s, y) {
        var j :| 0 <= j < |s| && s[j].Has(y);
        assert t[if j < n then j else j + 1].Has(y);
      }
      if v.Has(y) {
        assert t[n].Has(y);
      }
      if Covers(t, y) && !v.Has(y) {
        var j :| 0 <= j < |t| && t[j].Has(y);
        assert s[if j < n then j else j - 1].Has(y);
      }
    }
  }

  /** Taking out interval `i` removes exactly what it has. */
  lemma DropCovers(s: seq<Interval>, i: nat)
    requires Pairs(s) && i < |s|
    ensures forall y :: Covers(Without(s, i), y) <==> Covers(s, y) && !s[i].Has(y)
  {
    var t := Without(s, i);
    assert Splice(t, i, s[i]) == s;
    PutCovers(t, i, s[i]);
    forall y | s[i].Has(y)
      ensures !Covers(t, y)
    {
      forall j | 0 <= j < |t|
        ensures !t[j].Has(y)
      {
        if j < i {
          assert s[j].end < s[i].start;
        } else {
          assert s[i].end < s[j + 1].start;
        }
      }
    }
  }

  /** What booking `x`, which lies between interval `i` and the next one, makes of the list. */
  ghost function Fill(s: seq<Interval>, i: nat, x: int): seq<Interval>
    requires i + 1 < |s| && s[i].end < x < s[i + 1].start
  {
    if s[i].end + 1 == x && x + 1 == s[i + 1].start then
      Without(s[i := Interval(s[i].start, s[i + 1].end)], i + 1)
    else if s[i].end + 1 == x then s[i := Interval(s[i].start, x)]
    else if s[i + 1].start - 1 == x then s[i + 1 := Interval(x, s[i + 1].end)]
    else Splice(s, i + 1, Interval(x, x))
  }

  lemma JoinApart(s: seq<Interval>, i: nat, t: seq<Interval>)
    requires Pairs(s) && i + 1 < |s| && t == Without(s[i := Interval(s[i].start, s[i + 1].end)], i + 1)
    ensures Pairs(t)
  {
    forall j, k | 0 <= j < k < |t|
      ensures t[j].end + 1 < t[k].start
    {
      assert s[if j < i then j else j + 1].end + 1 < s[if k <= i then k else k + 1].start;
    }
  }

  lemma GrowApart(s: seq<Interval>, n: nat, v: Interval)
    requires Pairs(s) && n < |s| && v.start <= s[n].start && s[n].end <= v.end
    requires (n > 0 ==> s[n - 1].end + 1 < v.start) && (n + 1 < |s| ==> v.end + 1 < s[n + 1].start)
    ensures Pairs(s[n := v])
  {
    var t := s[n := v];
    forall j, k | 0 <= j < k < |t|
      ensures t[j].end + 1 < t[k].start
    {
      assert s[j].end + 1 < s[k].start;
      assert k == n && j < n - 1 ==> s[j].end + 1 < s[n - 1].start;
      assert j == n && k > n + 1 ==> s[n + 1].end + 1 < s[k].start;
    }
  }

  lemma PutApart(s: seq<Interval>, i: nat, x: int)
    requires Pairs(s) && i + 1 < |s| && s[i].end + 1 < x && x + 1 < s[i + 1].start
    ensures Pairs(Splice(s, i + 1, Interval(x, x)))
  {
    var t := Splice(s, i + 1, Interval(x, x));
    forall j, k | 0 <= j < k < |t|
      ensures t[j].end + 1 < t[k].start
    {
      assert s[if j <= i then j else j - 1].end + 1 < s[if k <= i then k else k - 1].start || j == i + 1 || k == i + 1;
      assert j < i ==> s[j].end + 1 < s[i].start;
      assert k > i + 2 ==> s[i + 1].end + 1 < s[k - 1].start;
    }
  }

  lemma FillApart(s: seq<Interval>, i: nat, x: int)
    requires Pairs(s) && i + 1 < |s| && s[i].end < x < s[i + 1].start
    ensures Pairs(Fill(s, i, x))
  {
    if s[i].end + 1 == x && x + 1 == s[i + 1].start {
      JoinApart(s, i, Fill(s, i, x));
    } else if s[i].end + 1 == x {
      GrowApart(s, i, Interval(s[i].start, x));
    } else if s[i + 1].start - 1 == x {
      GrowApart(s, i + 1, Interval(x, s[i + 1].end));
    } else {
      PutApart(s, i, x);
    }
  }

  lemma FillCanonical(s: seq<Interval>, min: int, max: int, i: nat, x: int)
    requires Canonical(s, min, max) && i + 1 < |s| && s[i].end < x < s[i + 1].start
    ensures Canonical(Fill(s, i, x), min, max)
    ensures min < x < max
  {
    assert Apart(Fill(s, i, x)) by {
      ApartPairs(s);
      FillApart(s, i, x);
      ApartPairs(Fill(s, i, x));
    }
    Place(s, min, max, i);
    Place(s, min, max, i + 1);
  }

  lemma FillCovers(s: seq<Interval>, i: nat, x: int)
    requires Pairs(s) && i + 1 < |s| && s[i].end < x < s[i + 1].start
    ensures forall y :: Covers(Fill(s, i, x), y) <==> Covers(s, y) || y == x
  {
    if s[i].end + 1 == x && x + 1 == s[i + 1].start {
      JoinCovers(s, i, x);
    } else if s[i].end + 1 == x {
      GrowCovers(s, i, Interval(s[i].start, x), x);
    } else if s[i + 1].start - 1 == x {
      GrowCovers(s, i + 1, Interval(x, s[i + 1].end), x);
    } else {
      PutCovers(s, i + 1, Interval(x, x));
    }
  }

  lemma OneIdMore(s: seq<Interval>, t: seq<Interval>, x: int)
    requires forall y :: Covers(t, y) <==> Covers(s, y) || y == x
    ensures Ids(t) == Ids(s) + {x}
  {
    IdsCovers(s);
    IdsCovers(t);
  }

  lemma FillIds(s: seq<Interval>, i: nat, x: int)
    requires Apart(s) && i + 1 < |s| && s[i].end < x < s[i + 1].start
    ensures Ids(Fill(s, i, x)) == Ids(s) + {x}
  {
    ApartPairs(s);
    FillCovers(s, i, x);
    OneIdMore(s, Fill(s, i, x), x);
  }

  /** What giving back id `x` makes of the interval that holds it. */
  ghost function Cut(s: seq<Interval>, i: nat, x: int): seq<Interval>
    requires i < |s| && s[i].Has(x)
  {
    var v := s[i];
    if v.start == v.end then Without(s, i)
    else if v.start == x then s[i := Interval(x + 1, v.end)]
    else if v.end == x then s[i := Interval(v.start, x - 1)]
    else Splice(s[i := Interval(v.start, x - 1)], i + 1, Interval(x + 1, v.end))
  }

  lemma CutPairs(s: seq<Interval>, i: nat, x: int)
    requires Pairs(s) && i < |s| && s[i].Has(x)
    ensures Pairs(Cut(s, i, x))
  {
    var v := s[i];
    if v.start == v.end {
      WithoutApart(s, i);
    } else if v.start == x {
      NarrowApart(s, i, Interval(x + 1, v.end));
    } else if v.end == x {
      NarrowApart(s, i, Interval(v.start, x - 1));
    } else {
      SplitApart(s, i, x);
    }
  }

  lemma CutCanonical(s: seq<Interval>, min: int, max: int, i: nat, x: int)
    requires Canonical(s, min, max) && min < x < max && i < |s| && s[i].Has(x)
    ensures Canonical(Cut(s, i, x), min, max)
  {
    ApartPairs(s);
    ApartPairs(Cut(s, i, x));
    CutPairs(s, i, x);
    assert i > 0 ==> s[0].end < s[i].start;
    assert i < |s| - 1 ==> s[i].end < s[|s| - 1].start;
  }

  lemma WithoutApart(s: seq<Interval>, i: nat)
    requires Pairs(s) && i < |s|
    ensures Pairs(Without(s, i))
  {
    var t := Without(s, i);
    forall j, k | 0 <= j < k < |t|
      ensures t[j].end + 1 < t[k].start
    {
      assert s[if j < i then j else j + 1].end + 1 < s[if k < i then k else k + 1].start;
    }
  }

  lemma NarrowApart(s: seq<Interval>, i: nat, v: Interval)
    requires Pairs(s) && i < |s| && s[i].start <= v.start <= v.end <= s[i].end
    ensures Pairs(s[i := v])
  {
    var t := s[i := v];
    forall j, k | 0 <= j < k < |t|
      ensures t[j].end + 1 < t[k].start
    {
      assert s[j].end + 1 < s[k].start;
    }
  }

  lemma SplitApart(s: seq<Interval>, i: nat, x: int)
    requires Pairs(s) && i < |s| && s[i].start < x < s[i].end
    ensures Pairs(Splice(s[i := Interval(s[i].start, x - 1)], i + 1, Interval(x + 1, s[i].end)))
  {
    var t := Splice(s[i := Interval(s[i].start, x - 1)], i + 1, Interval(x + 1, s[i].end));
    forall j, k | 0 <= j < k < |t|
      ensures t[j].end + 1 < t[k].start
    {
      var j' := if j <= i then j else j - 1;
      var k' := if k <= i then k else k - 1;
      if j' < k' {
        assert s[j'].end + 1 < s[k'].start;
        assert t[j].end <= s[j'].end && s[k'].start <= t[k].start;
      }
    }
  }

  lemma CutCovers(s: seq<Interval>, i: nat, x: int)
    requires Pairs(s) && i < |s| && s[i].Has(x)
    ensures forall y :: Covers(Cut(s, i, x), y) <==> Covers(s, y) && y != x
  {
    var v := s[i];
    var rest := Without(s, i);
    DropCovers(s, i);
    if v.start == v.end {
    } else if v.start == x {
      assert Splice(rest, i, Interval(x + 1, v.end)) == s[i := Interval(x + 1, v.end)];
      PutCovers(rest, i, Interval(x + 1, v.end));
    } else if v.end == x {
      assert Splice(rest, i, Interval(v.start, x - 1)) == s[i := Interval(v.start, x - 1)];
      PutCovers(rest, i, Interval(v.start, x - 1));
    } else {
      assert Splice(rest, i, Interval(v.start, x - 1)) == s[i := Interval(v.start, x - 1)];
      PutCovers(rest, i, Interval(v.start, x - 1));
      PutCovers(s[i := Interval(v.start, x - 1)], i + 1, Interval(x + 1, v.end));
    }
  }

  lemma CutIds(s: seq<Interval>, i: nat, x: int)
    requires Apart(s) && i < |s| && s[i].Has(x)
    ensures Ids(Cut(s, i, x)) == Ids(s) - {x}
  {
    ApartPairs(s);
    CutCovers(s, i, x);
    IdsCovers(s);
    IdsCovers(Cut(s, i, x));
  }
}

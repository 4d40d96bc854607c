/** The id allocator as a plain finite set: what each operation of AccessNode/Shared/IdsBooking.cpp
    returns and how it changes the set of booked ids, and what then holds over whole runs. */
module IdPool {

  /** Ids strictly between `min` and `max` can be booked; `max` doubles as "no id". */
  datatype Pool = Pool(min: int, max: int, last: int, booked: set<int>) {
    ghost predicate Valid() {
      min + 2 <= max && forall x :: x in booked ==> min < x < max
    }

    ghost predicate Full() {
      forall x :: min < x < max ==> x in booked
    }

    predicate InRange(id: int) {
      min < id < max
    }

    /** The least free id at or above `from`, or `max` when there is none. */
    function NextFree(from: int): (id: int)
      ensures from <= max ==> from <= id <= max
      ensures id == max || id !in booked
      ensures forall x :: from <= x < id ==> x in booked
      decreases max - from
    {
      if from >= max then max else if from in booked then NextFree(from + 1) else from
    }

    function Book(id: int): Pool {
      Pool(min, max, id, booked + {id})
    }

    function Add(id: int): (r: (Pool, int)) {
      if !InRange(id) then (this, 0)
      else if NextFree(min + 1) == max then (this, 1)
      else (Book(id), 1)
    }

    function Remove(id: int): Pool {
      if InRange(id) then this.(booked := booked - {id}) else this
    }

    /** First fit. */
    function GetNewId(): (Pool, int) {
      var id := NextFree(min + 1);
      if id == max then (this, max) else (Book(id), id)
    }

    /** Next fit: above the last id if that is inside the range, otherwise, or when nothing is left
        above, from the bottom. */
    function GetNewId2(): (Pool, int) {
      var id := if InRange(last) then NextFree(last + 1) else max;
      if id < max then (Book(id), id) else GetNewId()
    }
  }

  /** `NextFree` is pinned down by what is booked below it. */
  lemma {:induction false} NextFreeIs(p: Pool, from: int, id: int)
    requires from <= id <= p.max
    requires id == p.max || id !in p.booked
    requires forall x :: from <= x < id ==> x in p.booked
    ensures p.NextFree(from) == id
    decreases id - from
  {
    if from < id {
      NextFreeIs(p, from + 1, id);
    }
  }

  /** First fit does not depend on the last id. */
  lemma {:induction false} LastDoesNotMatter(p: Pool, last: int, from: int)
    ensures p.(last := last).NextFree(from) == p.NextFree(from)
    decreases p.max - from
  {
    if from < p.max && from in p.booked {
      LastDoesNotMatter(p, last, from + 1);
    }
  }

  /** With something free above the last id, next fit takes the least of it and remembers it. */
  lemma FirstFits(p: Pool, id: int)
    requires p.NextFree(p.min + 1) == id
    ensures p.GetNewId() == if id == p.max then (p, p.max) else (p.Book(id), id)
  {
  }

  lemma NextFitAbove(p: Pool, id: int)
    requires p.InRange(p.last) && p.NextFree(p.last + 1) == id < p.max
    ensures p.GetNewId2() == (p.Book(id), id)
  {
  }

  /** With nothing free above the last id, next fit is first fit, wherever the last id has got to. */
  lemma NextFitWraps(p: Pool, last: int)
    requires p.InRange(p.last) && p.NextFree(p.last + 1) == p.max && p.NextFree(p.min + 1) < p.max
    ensures p.GetNewId2() == p.(last := last).GetNewId()
  {
    LastDoesNotMatter(p, last, p.min + 1);
  }

  datatype Op = Add(id: int) | Remove(id: int) | GetNewId | GetNewId2 | SetLastAdd(last: int) {
    predicate Allocates() {
      GetNewId? || GetNewId2?
    }
  }

  function Step(p: Pool, op: Op): (Pool, int) {
    match op
    case Add(id) => p.Add(id)
    case Remove(id) => (p.Remove(id), 0)
    case GetNewId => p.GetNewId()
    case GetNewId2 => p.GetNewId2()
    case SetLastAdd(last) => (p.(last := last), 0)
  }

  /** The pools a run passes through, the first one included. */
  function Run(p: Pool, ops: seq<Op>): (pools: seq<Pool>)
    ensures |pools| == |ops| + 1 && pools[0] == p
    ensures forall i :: 0 <= i < |ops| ==> pools[i + 1] == Step(pools[i], ops[i]).0
    decreases |ops|
  {
    if ops == [] then [p] else [p] + Run(Step(p, ops[0]).0, ops[1..])
  }

  /** What one step guarantees: the range stays, the pool stays valid, and an allocation hands out a
      free id and books it, or hands out `max` and changes nothing, which happens exactly when every
      id is booked. */
  lemma StepIsSafe(p: Pool, op: Op)
    requires p.Valid()
    ensures var (q, id) := Step(p, op);
            && q.Valid() && q.min == p.min && q.max == p.max
            && (op.Allocates() ==>
                  && (id == p.max <==> p.Full())
                  && (id == p.max ==> q == p)
                  && (id != p.max ==> p.InRange(id) && id !in p.booked && q.booked == p.booked + {id}))
  {
    var id := p.NextFree(p.min + 1);
    if p.Full() {
      NextFreeIs(p, p.min + 1, p.max);
      if p.InRange(p.last) {
        NextFreeIs(p, p.last + 1, p.max);
      }
    } else {
      var x :| p.min < x < p.max && x !in p.booked;
      assert id <= x;
    }
  }

  /** `GetNewId2` is next fit: the least free id above the last one, or else the least free id. */
  lemma NextFit(p: Pool)
    requires p.Valid() && !p.Full()
    ensures var id := p.GetNewId2().1;
            && p.InRange(id) && id !in p.booked
            && if p.InRange(p.last) && exists x :: p.last < x < p.max && x !in p.booked
            then p.last < id && forall x :: p.last < x < id ==> x in p.booked
            else forall x :: p.min < x < id ==> x in p.booked
  {
    StepIsSafe(p, GetNewId2);
    if p.InRange(p.last) && exists x :: p.last < x < p.max && x !in p.booked {
      var x :| p.last < x < p.max && x !in p.booked;
      assert p.NextFree(p.last + 1) <= x;
    } else if p.InRange(p.last) {
      NextFreeIs(p, p.last + 1, p.max);
    }
  }

  lemma {:induction false} RunIsSafe(p: Pool, ops: seq<Op>, i: nat)
    requires p.Valid() && i <= |ops|
    ensures var q := Run(p, ops)[i]; q.Valid() && q.min == p.min && q.max == p.max
    decreases i
  {
    if i > 0 {
      RunIsSafe(p, ops, i - 1);
      StepIsSafe(Run(p, ops)[i - 1], ops[i - 1]);
    }
  }

  /** A booked id stays booked until it is given back. */
  lemma {:induction false} StaysBooked(p: Pool, ops: seq<Op>, i: nat, j: nat, id: int)
    requires p.Valid() && i <= j <= |ops| && id in Run(p, ops)[i].booked
    requires forall k :: i <= k < j ==> ops[k] != Remove(id)
    ensures id in Run(p, ops)[j].booked
    decreases j
  {
    if i < j {
      StaysBooked(p, ops, i, j - 1, id);
      var pools := Run(p, ops);
      assert pools[j] == Step(pools[j - 1], ops[j - 1]).0;
    }
  }

  /** Over any run of any operations, no id is handed out a second time unless it was given back in
      between. */
  lemma NeverIssuedTwice(p: Pool, ops: seq<Op>, i: nat, j: nat)
    requires p.Valid() && i < j < |ops| && ops[i].Allocates() && ops[j].Allocates()
    requires Step(Run(p, ops)[i], ops[i]).1 == Step(Run(p, ops)[j], ops[j]).1 != p.max
    ensures exists k :: i < k < j && ops[k] == Remove(Step(Run(p, ops)[i], ops[i]).1)
  {
    var pools := Run(p, ops);
    var id := Step(pools[i], ops[i]).1;
    RunIsSafe(p, ops, i);
    RunIsSafe(p, ops, j);
    StepIsSafe(pools[i], ops[i]);
    StepIsSafe(pools[j], ops[j]);
    if forall k :: i < k < j ==> ops[k] != Remove(id) {
      StaysBooked(p, ops, i + 1, j, id);
      assert false;
    }
  }

  function Allocations(n: nat): (ops: seq<Op>)
    ensures |ops| == n && forall i :: 0 <= i < n ==> ops[i] == GetNewId2
  {
    seq(n, i => GetNewId2)
  }

  /** Conservation: `n` allocations in a row, with room for them, book exactly `n` more ids; so a
      pool hands out every one of its `max - min - 1` ids before it reports that it is full. */
  lemma {:induction false} AllocationsConserve(p: Pool, n: nat)
    requires p.Valid() && |p.booked| + n <= p.max - p.min - 1
    ensures var q := Run(p, Allocations(n))[n];
            && |q.booked| == |p.booked| + n && p.booked <= q.booked
            && (q.Full() <==> |q.booked| == q.max - q.min - 1)
    decreases n
  {
    var pools := Run(p, Allocations(n));
    RunIsSafe(p, Allocations(n), n);
    FullByCount(pools[n]);
    if n > 0 {
      AllocationsConserve(p, n - 1);
      PrefixRun(p, Allocations(n), Allocations(n - 1), n - 1);
      var q := pools[n - 1];
      RunIsSafe(p, Allocations(n), n - 1);
      FullByCount(q);
      StepIsSafe(q, GetNewId2);
      assert pools[n] == Step(q, Allocations(n)[n - 1]).0;
    }
  }

  lemma {:induction false} PrefixRun(p: Pool, ops: seq<Op>, ops': seq<Op>, i: nat)
    requires i <= |ops| && i <= |ops'| && ops[..i] == ops'[..i]
    ensures Run(p, ops)[i] == Run(p, ops')[i]
    decreases i
  {
    if i > 0 {
      assert ops[i - 1] == ops[..i][i - 1] == ops'[i - 1];
      assert ops[..i - 1] == ops[..i][..i - 1] == ops'[..i - 1];
      PrefixRun(p, ops, ops', i - 1);
    }
  }

  lemma FullByCount(p: Pool)
    requires p.Valid()
    ensures p.Full() <==> |p.booked| == p.max - p.min - 1
  {
    var all := IdsBetween(p.min, p.max);
    assert p.booked <= all;
    if p.Full() {
      assert p.booked == all;
    } else {
      var x :| p.min < x < p.max && x !in p.booked;
      assert all - {x} == p.booked + (all - {x} - p.booked);
    }
  }

  /** The ids strictly between `min` and `max`. */
  ghost function IdsBetween(min: int, max: int): (ids: set<int>)
    ensures forall x :: x in ids <==> min < x < max
    ensures min < max ==> |ids| == max - min - 1
    decreases max - min
  {
    if min + 1 >= max then {} else IdsBetween(min, max - 1) + {max - 1}
  }

  /** First fit answers the least free id. */
  lemma FirstFitIsLeast(p: Pool)
    requires p.Valid() && !p.Full()
    ensures var id := p.GetNewId().1;
            p.InRange(id) && id !in p.booked && forall x :: p.min < x < id ==> x in p.booked
  {
    StepIsSafe(p, GetNewId);
  }

  /** The step books `id`: an allocation that answers it, or an `Add` of it with room. */
  ghost predicate Books(p: Pool, op: Op, id: int) {
    (op.Allocates() && Step(p, op).1 == id != p.max) || (op == Add(id) && p.InRange(id) && !p.Full())
  }

  lemma FullAnswersMax(p: Pool)
    requires p.Valid()
    ensures p.NextFree(p.min + 1) == p.max <==> p.Full()
  {
    StepIsSafe(p, GetNewId);
  }

  /** What a step does to the booking of any one id. */
  lemma StepBooks(p: Pool, op: Op, id: int)
    requires p.Valid()
    ensures id in Step(p, op).0.booked <==> Books(p, op, id) || (id in p.booked && op != Remove(id))
  {
    StepIsSafe(p, op);
    FullAnswersMax(p);
  }

  /** Whether an id is booked, told from the history alone: it was booked, and has not been given back
      since. */
  lemma {:induction false} BookedByHistory(p: Pool, ops: seq<Op>, j: nat, id: int)
    requires p.Valid() && j <= |ops|
    ensures id in Run(p, ops)[j].booked <==>
              || (id in p.booked && forall m :: 0 <= m < j ==> ops[m] != Remove(id))
              || exists k :: 0 <= k < j && Books(Run(p, ops)[k], ops[k], id)
                             && forall m :: k < m < j ==> ops[m] != Remove(id)
    decreases j
  {
    if j > 0 {
      BookedByHistory(p, ops, j - 1, id);
      RunIsSafe(p, ops, j - 1);
      StepBooks(Run(p, ops)[j - 1], ops[j - 1], id);
    }
  }

  /** In a full pool the id that is given back is the one that the next allocation answers. */
  lemma GivenBackIsAnswered(p: Pool, id: int)
    requires p.Valid() && p.Full() && p.InRange(id)
    ensures var q := Step(p, Remove(id)).0;
            Step(q, GetNewId).1 == id && Step(q, GetNewId2).1 == id
  {
    var q := Step(p, Remove(id)).0;
    StepIsSafe(p, Remove(id));
    StepBooks(p, Remove(id), id);
    forall x | p.min < x < p.max && x != id ensures x in q.booked {
      StepBooks(p, Remove(id), x);
    }
    StepIsSafe(q, GetNewId);
    StepIsSafe(q, GetNewId2);
  }

  /** Whatever is free is handed out again: as many allocations as there are free ids answer each one
      of them. */
  lemma FreeIsIssuedAgain(p: Pool, id: int) returns (k: nat)
    requires p.Valid() && p.InRange(id) && id !in p.booked && |p.booked| <= p.max - p.min - 1
    ensures var ops := Allocations(p.max - p.min - 1 - |p.booked|);
            k < |ops| && Step(Run(p, ops)[k], ops[k]).1 == id
  {
    var n: nat := p.max - p.min - 1 - |p.booked|;
    var ops := Allocations(n);
    AllocationsConserve(p, n);
    RunIsSafe(p, ops, n);
    BookedByHistory(p, ops, n, id);
    k :| 0 <= k < n && Books(Run(p, ops)[k], ops[k], id);
  }

  /** An id whose last event in a run is that it is given back is free, and so is handed out again. */
  lemma GivenBackIsIssuedAgain(p: Pool, ops: seq<Op>, i: nat, j: nat, id: int) returns (k: nat)
    requires p.Valid() && i < j <= |ops| && ops[i] == Remove(id) && p.InRange(id)
    requires forall m :: i < m < j ==> !Books(Run(p, ops)[m], ops[m], id)
    ensures id !in Run(p, ops)[j].booked
    ensures var q := Run(p, ops)[j];
            var n := q.max - q.min - 1 - |q.booked|;
            k < n && Step(Run(q, Allocations(n))[k], GetNewId2).1 == id
  {
    var q := Run(p, ops)[j];
    BookedByHistory(p, ops, j, id);
    RunIsSafe(p, ops, j);
    BookedFits(q);
    k := FreeIsIssuedAgain(q, id);
  }

  lemma BookedFits(p: Pool)
    requires p.Valid()
    ensures |p.booked| <= p.max - p.min - 1
  {
    var all := IdsBetween(p.min, p.max);
    assert p.booked <= all;
    assert all == p.booked + (all - p.booked);
  }

  /** An id that was added with room is not answered again before it is given back. */
  lemma AddedIsNotAnswered(p: Pool, ops: seq<Op>, i: nat, j: nat, id: int)
    requires p.Valid() && i < j < |ops| && ops[i] == Add(id) && p.InRange(id) && !Run(p, ops)[i].Full()
    requires ops[j].Allocates() && forall m :: i < m < j ==> ops[m] != Remove(id)
    ensures Step(Run(p, ops)[j], ops[j]).1 != id
  {
    RunIsSafe(p, ops, i);
    RunIsSafe(p, ops, j);
    BookedByHistory(p, ops, j, id);
    StepIsSafe(Run(p, ops)[j], ops[j]);
  }

  /** What `Add` answers, and the cases in which nothing is answered differently ever after. */
  lemma IdleAdd(p: Pool, id: int, ops: seq<Op>)
    requires p.Valid()
    ensures Step(p, Add(id)).1 == if p.min < id < p.max then 1 else 0
    ensures !(p.min < id < p.max) || p.Full() ==> Run(Step(p, Add(id)).0, ops) == Run(p, ops)
  {
    FullAnswersMax(p);
  }

  lemma {:induction false} RemovesKeepLast(p: Pool, ops: seq<Op>, j: nat)
    requires j <= |ops| && forall m :: 0 <= m < j ==> ops[m].Remove?
    ensures Run(p, ops)[j].last == p.last
    decreases j
  {
    if j > 0 {
      RemovesKeepLast(p, ops, j - 1);
    }
  }

  /** Next fit with `last` as the place to go on from. */
  ghost predicate GoesOnFrom(q: Pool, last: int) {
    var id := Step(q, GetNewId2).1;
    if exists x :: last < x < q.max && x !in q.booked
    then last < id && forall x :: last < x < id ==> x in q.booked
    else forall x :: q.min < x < id ==> x in q.booked
  }

  lemma GoesOn(q: Pool, last: int)
    requires q.Valid() && !q.Full() && q.last == last && q.InRange(last)
    ensures GoesOnFrom(q, last)
  {
    NextFit(q);
  }

  /** Next fit goes on behind the id that was booked last, by whatever operation, and whatever was given
      back since. */
  lemma NextFitGoesOn(p: Pool, op: Op, last: int, ops: seq<Op>)
    requires p.Valid() && Books(p, op, last) && forall m :: 0 <= m < |ops| ==> ops[m].Remove?
    ensures var q := Run(Step(p, op).0, ops)[|ops|]; q.Full() || GoesOnFrom(q, last)
  {
    var next := Step(p, op).0;
    StepIsSafe(p, op);
    FullAnswersMax(p);
    RemovesKeepLast(next, ops, |ops|);
    RunIsSafe(next, ops, |ops|);
    var q := Run(next, ops)[|ops|];
    if !q.Full() {
      GoesOn(q, last);
    }
  }
}

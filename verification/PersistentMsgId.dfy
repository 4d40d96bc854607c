/** The crash-safe id counter of AccessNode/Shared/PersistentMsgId.cpp: a mark ahead of the ids in use
    is kept in storage. */
module PersistentMsgIds {
  import opened Basics

  const MODULUS: int := 0x1_0000_0000

  type word = x: int | 0 <= x < MODULUS

  /** Addition and subtraction wrap around at 32 bits. */
  function Wrap(x: int): word {
    x % MODULUS
  }

  datatype Limits = Limits(min: word, max: word, step: word) {
    function Safe(): word {
      if step / 2 > 50 then 50 else step / 2
    }
  }

  /** The next mark: a step further, or back at the lower end. */
  function NextMark(c: Limits, mark: word): word {
    if Wrap(mark + c.step) >= c.max then c.min else Wrap(mark + c.step)
  }

  function NextId(c: Limits, id: word): word {
    if Wrap(id + 1) >= c.max then c.min else Wrap(id + 1)
  }

  /** The mark is due to be moved when the ids come within the safety distance. */
  predicate MarkDue(c: Limits, id: word, mark: word) {
    id >= Wrap(mark - c.Safe())
  }

  class PersistentMsgId {
    var limits: Limits
    var id: word
    var mark: word      // the last saved id in memory
    var stored: word    // what storage holds

    /** `Init`: `storage` is what loading finds, if anything. */
    constructor (storage: Option<word>, c: Limits)
      ensures limits == c
      ensures id == match storage case Some(v) => v case None => c.min
      ensures mark == stored == NextMark(c, id)
    {
      var loaded := match storage case Some(v) => v case None => c.min;
      limits := c;
      id := loaded;
      var m := Wrap(loaded + c.step);
      if m >= c.max {
        m := c.min;
      }
      mark := m;
      stored := m;
    }

    method GetNextMsgId() returns (r: word)
      modifies this
      ensures r == id == NextId(limits, old(id))
      ensures mark == if MarkDue(limits, id, old(mark)) then NextMark(limits, old(mark)) else old(mark)
      ensures stored == if MarkDue(limits, id, old(mark)) then mark else old(stored)
      ensures State(id, mark) == Do(limits, old(State(id, mark)), Next)
      ensures old(mark == stored) ==> mark == stored
      ensures limits == old(limits)
    {
      id := Wrap(id + 1);
      if id >= limits.max {
        id := limits.min;
      }
      if id >= Wrap(mark - limits.Safe()) {
        mark := Wrap(mark + limits.step);
        if mark >= limits.max {
          mark := limits.min;
        }
        stored := mark;
      }
      return id;
    }
  }

  /** The counter with its storage; `GetNextMsgId` keeps `mark` and `stored` the same. */
  datatype State = State(id: word, mark: word)

  datatype Step = Next | Crash

  /** One step: an id is issued, or the process dies and starts anew from storage. */
  function Do(c: Limits, s: State, step: Step): State {
    match step
    case Next =>
      var id := NextId(c, s.id);
      State(id, if MarkDue(c, id, s.mark) then NextMark(c, s.mark) else s.mark)
    case Crash => State(s.mark, NextMark(c, s.mark))
  }

  /** The ids that a run issues. */
  function Issued(c: Limits, s: State, steps: seq<Step>): seq<word>
    decreases |steps|
  {
    if steps == [] then []
    else
      var s' := Do(c, s, steps[0]);
      (if steps[0] == Next then [s'.id] else []) + Issued(c, s', steps[1..])
  }

  /** No step of the run takes the mark to the upper end, where it would wrap. */
  predicate NeverWraps(c: Limits, s: State, steps: seq<Step>)
    decreases |steps|
  {
    steps == [] ||
    (s.mark + c.step < c.max && NeverWraps(c, Do(c, s, steps[0]), steps[1..]))
  }

  /** The mark is ahead of the ids issued, by more than the safety distance. */
  predicate Ahead(c: Limits, s: State) {
    s.id + c.Safe() < s.mark < c.max
  }

  lemma MarkAhead(c: Limits, mark: word)
    requires mark + c.step < c.max
    ensures NextMark(c, mark) == mark + c.step
  {
  }

  lemma StepStaysAhead(c: Limits, s: State, step: Step)
    requires c.step >= 1 && Ahead(c, s) && s.mark + c.step < c.max
    ensures var s' := Do(c, s, step);
            Ahead(c, s') && s.mark <= s'.mark && s.id < s'.id && (step == Next ==> s'.id < s'.mark)
  {
    MarkAhead(c, s.mark);
    assert Wrap(s.id + 1) == s.id + 1 && Wrap(s.mark - c.Safe()) == s.mark - c.Safe();
  }

  /** One step in numbers, below the upper end: the ids count up, and the mark goes a step further as soon
      as no more than 50 ids, or half a step, are left in front of it; after a crash they go on at the mark. */
  lemma StepSays(c: Limits, s: State)
    requires Ahead(c, s) && s.mark + c.step < MODULUS
    ensures s.mark - s.id > if c.step >= 100 then 50 else c.step / 2
    ensures Do(c, s, Next).id == s.id + 1
    ensures Do(c, s, Next).mark == if s.mark - (s.id + 1) > (if c.step >= 100 then 50 else c.step / 2) then s.mark
                                   else if s.mark + c.step < c.max then s.mark + c.step else c.min
    ensures Do(c, s, Crash) == State(s.mark, if s.mark + c.step < c.max then s.mark + c.step else c.min)
  {
    assert Wrap(s.id + 1) == s.id + 1 && Wrap(s.mark - c.Safe()) == s.mark - c.Safe();
  }

  predicate Increasing(ids: seq<word>) {
    forall i :: 0 <= i < |ids| - 1 ==> ids[i] < ids[i + 1]
  }

  function Final(c: Limits, s: State, steps: seq<Step>): State
    decreases |steps|
  {
    if steps == [] then s else Final(c, Do(c, s, steps[0]), steps[1..])
  }

  /** Under any interleaving of issuing ids and crashing, until the mark would wrap: every id is
      greater than all before it, and the stored mark stays above every id issued. */
  lemma {:induction false} IdsIncrease(c: Limits, s: State, steps: seq<Step>)
    requires c.step >= 1 && Ahead(c, s) && NeverWraps(c, s, steps)
    ensures Increasing(Issued(c, s, steps))
    ensures forall i :: 0 <= i < |Issued(c, s, steps)| ==> s.id < Issued(c, s, steps)[i]
    ensures forall i :: 0 <= i < |Issued(c, s, steps)| ==> Issued(c, s, steps)[i] < Final(c, s, steps).mark
    ensures s.mark <= Final(c, s, steps).mark
    decreases |steps|
  {
    if steps != [] {
      StepStaysAhead(c, s, steps[0]);
      IdsIncrease(c, Do(c, s, steps[0]), steps[1..]);
    }
  }

  /** A counter started on empty storage is ahead. */
  lemma StartsAhead(c: Limits)
    requires c.step >= 1 && c.min + c.step < c.max
    ensures Ahead(c, State(c.min, NextMark(c, c.min)))
  {
  }

  function Nexts(k: nat): (steps: seq<Step>)
    ensures |steps| == k && forall i :: 0 <= i < k ==> steps[i] == Next
  {
    seq(k, _ => Next)
  }

  /** How many ids can be issued before the mark is due to be moved. */
  function UntilDue(c: Limits, s: State): nat
    requires Ahead(c, s)
  {
    s.mark - c.Safe() - s.id
  }

  lemma {:induction false} NextStep(c: Limits, s: State)
    requires Ahead(c, s)
    ensures Do(c, s, Next) == State(s.id + 1, if UntilDue(c, s) == 1 then NextMark(c, s.mark) else s.mark)
  {
    assert Wrap(s.id + 1) == s.id + 1 && Wrap(s.mark - c.Safe()) == s.mark - c.Safe();
  }

  lemma {:induction false} IssuedNext(c: Limits, s: State, k: nat)
    requires k > 0
    ensures Issued(c, s, Nexts(k)) == [Do(c, s, Next).id] + Issued(c, Do(c, s, Next), Nexts(k - 1))
    ensures Final(c, s, Nexts(k)) == Final(c, Do(c, s, Next), Nexts(k - 1))
  {
    assert Nexts(k)[1..] == Nexts(k - 1);
  }

  /** Issuing ids one after the other up to the point at which the mark is moved. */
  lemma {:induction false} IssuedUntilDue(c: Limits, s: State, k: nat)
    requires Ahead(c, s) && k == UntilDue(c, s)
    ensures Final(c, s, Nexts(k)) == State(s.mark - c.Safe(), NextMark(c, s.mark))
    ensures |Issued(c, s, Nexts(k))| == k && Issued(c, s, Nexts(k))[k - 1] == s.mark - c.Safe()
    decreases k
  {
    NextStep(c, s);
    IssuedNext(c, s, k);
    if k > 1 {
      IssuedUntilDue(c, Do(c, s, Next), k - 1);
    } else {
      assert Nexts(0) == [];
    }
  }

  lemma {:induction false} IssuedAppend(c: Limits, s: State, a: seq<Step>, b: seq<Step>)
    ensures Issued(c, s, a + b) == Issued(c, s, a) + Issued(c, Final(c, s, a), b)
    decreases |a|
  {
    if a == [] {
      assert a + b == b;
    } else {
      assert (a + b)[1..] == a[1..] + b;
      IssuedAppend(c, Do(c, s, a[0]), a[1..], b);
    }
  }

  lemma {:induction false} IssuedAfterCrash(c: Limits, s: State)
    ensures Issued(c, s, [Crash, Next]) == [NextId(c, s.mark)]
  {
    var low := Do(c, s, Crash);
    assert [Crash, Next][1..] == [Next] && [Next][1..] == [];
    assert Issued(c, low, [Next]) == [NextId(c, low.id)] + [];
  }

  lemma LowestAgain(c: Limits, mark: word)
    requires mark < c.max <= mark + c.step && c.max + c.step <= MODULUS && c.min + 1 < c.max
    ensures NextId(c, NextMark(c, mark)) == c.min + 1
  {
  }

  /** When the mark would wrap, ids come again: the counter runs on until it moves the mark, dies, and
      issues an id from the wrapped mark on.  Without overflow that is the lowest but one. */
  lemma {:induction false} WrappedMarkRepeats(c: Limits, s: State)
    requires c.step >= 1 && Ahead(c, s) && s.mark + c.step >= c.max
    ensures var k := UntilDue(c, s);
            var ids := Issued(c, s, Nexts(k) + [Crash, Next]);
            && |ids| == k + 1 && ids[k - 1] == s.mark - c.Safe() && ids[k] == NextId(c, NextMark(c, s.mark))
            && (c.min <= s.id && c.max + c.step <= MODULUS ==> ids[k] == c.min + 1 <= ids[k - 1])
  {
    var k := UntilDue(c, s);
    IssuedUntilDue(c, s, k);
    IssuedAppend(c, s, Nexts(k), [Crash, Next]);
    IssuedAfterCrash(c, State(s.mark - c.Safe(), NextMark(c, s.mark)));
    if c.min <= s.id && c.max + c.step <= MODULUS {
      LowestAgain(c, s.mark);
    }
  }

  /** Where a run first comes to a mark that would wrap: the steps before it, and the state there. */
  lemma {:induction false} FirstWrap(c: Limits, s: State, steps: seq<Step>) returns (i: nat)
    requires c.step >= 1 && Ahead(c, s) && !NeverWraps(c, s, steps)
    ensures i < |steps| && NeverWraps(c, s, steps[..i])
    ensures var at := Final(c, s, steps[..i]);
            Ahead(c, at) && s.id <= at.id && at.mark + c.step >= c.max
    decreases |steps|
  {
    if s.mark + c.step >= c.max {
      i := 0;
    } else {
      StepStaysAhead(c, s, steps[0]);
      i := FirstWrap(c, Do(c, s, steps[0]), steps[1..]);
      i := i + 1;
      assert steps[..i][0] == steps[0] && steps[..i][1..] == steps[1..][..i - 1];
    }
  }

  /** The limit of `IdsIncrease` is a real one: any run that goes past it could have gone on, from there,
      to issue an id that is not above all before it. */
  lemma {:induction false} RunPastTheMarkRepeats(c: Limits, s: State, steps: seq<Step>) returns (i: nat, tail: seq<Step>)
    requires c.step >= 1 && Ahead(c, s) && c.min <= s.id && c.max + c.step <= MODULUS
    requires !NeverWraps(c, s, steps)
    ensures i < |steps| && NeverWraps(c, s, steps[..i])
    ensures !Increasing(Issued(c, s, steps[..i] + tail))
  {
    i := FirstWrap(c, s, steps);
    var at := Final(c, s, steps[..i]);
    var k := UntilDue(c, at);
    tail := Nexts(k) + [Crash, Next];
    WrappedMarkRepeats(c, at);
    IssuedAppend(c, s, steps[..i], tail);
    var n := |Issued(c, s, steps[..i])|;
    var ids := Issued(c, s, steps[..i] + tail);
    assert ids[n + k - 1] == Issued(c, at, tail)[k - 1] && ids[n + k] == Issued(c, at, tail)[k];
    assert ids[n + k - 1 + 1] <= ids[n + k - 1];
  }

  /** Limits with room between them, and no overflow of 32 bits when a step is added. */
  predicate Roomy(c: Limits) {
    c.min < c.max && c.max + c.step <= MODULUS
  }

  predicate Within(c: Limits, x: word) {
    c.min <= x < c.max
  }

  lemma StaysWithin(c: Limits, s: State, step: Step)
    requires Roomy(c) && Within(c, s.id) && Within(c, s.mark)
    ensures Within(c, Do(c, s, step).id) && Within(c, Do(c, s, step).mark)
    ensures NextId(c, s.id) == if s.id + 1 < c.max then s.id + 1 else c.min
  {
  }

  /** In the run every id behind another one, `last` being the one before the run, is issued from a place
      that is not below that, and not at the upper end.  Such a place is the last id itself, or behind
      a crash the mark that the counter finds. */
  predicate GoesUp(c: Limits, s: State, last: Option<word>, steps: seq<Step>)
    decreases |steps|
  {
    steps == [] ||
    match steps[0]
    case Next =>
      (last.Some? ==> last.value <= s.id && s.id + 1 < c.max) && GoesUp(c, Do(c, s, Next), Some(NextId(c, s.id)), steps[1..])
    case Crash => GoesUp(c, Do(c, s, Crash), last, steps[1..])
  }

  function Listed(last: Option<word>): seq<word> {
    match last
    case None => []
    case Some(id) => [id]
  }

  lemma OneInFront(last: Option<word>, id: word, ids: seq<word>)
    ensures Increasing(Listed(last) + ([id] + ids)) <==> Increasing([id] + ids) && (last.Some? ==> last.value < id)
  {
    var some, all := [id] + ids, Listed(last) + ([id] + ids);
    if last.Some? {
      assert forall i :: 0 <= i < |some| ==> all[i + 1] == some[i];
      if Increasing(all) {
        forall i | 0 <= i < |some| - 1 ensures some[i] < some[i + 1] {
          assert all[i + 1] < all[i + 1 + 1];
        }
        assert all[0] < all[0 + 1];
      }
    } else {
      assert all == some;
    }
  }

  /** When the ids of a run increase, exactly: for every run from every state, with any crashes. */
  lemma {:induction false} IncreaseExactly(c: Limits, s: State, last: Option<word>, steps: seq<Step>)
    requires Roomy(c) && Within(c, s.id) && Within(c, s.mark) && (last.Some? ==> Within(c, last.value))
    ensures Increasing(Listed(last) + Issued(c, s, steps)) <==> GoesUp(c, s, last, steps)
    decreases |steps|
  {
    if steps != [] {
      StaysWithin(c, s, steps[0]);
      var s' := Do(c, s, steps[0]);
      if steps[0] == Next {
        IncreaseExactly(c, s', Some(s'.id), steps[1..]);
        OneInFront(last, s'.id, Issued(c, s', steps[1..]));
      } else {
        IncreaseExactly(c, s', last, steps[1..]);
        assert [] + Issued(c, s', steps[1..]) == Issued(c, s', steps[1..]);
      }
    }
  }

  lemma {:induction false} UpWithoutCrash(c: Limits, s: State, k: nat)
    requires Roomy(c) && Within(c, s.id) && Within(c, s.mark)
    ensures GoesUp(c, s, Some(s.id), Nexts(k)) <==> s.id + k < c.max
    decreases k
  {
    if k > 0 {
      StaysWithin(c, s, Next);
      assert Nexts(k)[1..] == Nexts(k - 1);
      if s.id + 1 < c.max {
        UpWithoutCrash(c, Do(c, s, Next), k - 1);
      }
    }
  }

  /** Without a crash the mark does not matter, even when it wraps: the ids increase until they reach the
      upper end. */
  lemma {:induction false} IncreaseWithoutCrash(c: Limits, s: State, k: nat)
    requires Roomy(c) && Within(c, s.id) && Within(c, s.mark)
    ensures Increasing([s.id] + Issued(c, s, Nexts(k))) <==> s.id + k < c.max
  {
    UpWithoutCrash(c, s, k);
    IncreaseExactly(c, s, Some(s.id), Nexts(k));
  }
}

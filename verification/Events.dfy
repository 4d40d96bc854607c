/** The rule file of AccessNode/Shared/Events.cpp: its operations as steps on a sequence of rules, and
    what holds over whole runs of them. */
module Events {
  import opened Bytes
  import opened Rules

  /** A message id holds the position of a rule above its 16-bit id. */
  function MsgId(ruleId: int, pos: int): int
    requires 0 <= ruleId < 0x10000
  {
    pos * 0x10000 + ruleId
  }

  function RuleId(msgId: int): int {
    msgId % 0x10000
  }

  function RulePos(msgId: int): int {
    msgId / 0x10000
  }

  lemma MsgIdRoundTrip(ruleId: int, pos: int)
    requires 0 <= ruleId < 0x10000
    ensures RuleId(MsgId(ruleId, pos)) == ruleId && RulePos(MsgId(ruleId, pos)) == pos
  {
  }

  /** A response is meant for the rule at the position that its message id names, if the id agrees. */
  predicate Meant(rules: seq<Rule>, msgId: int) {
    0 <= RulePos(msgId) < |rules| && rules[RulePos(msgId)].config.id == RuleId(msgId)
  }

  function AllMatched(rules: seq<Rule>, code: seq<byte>, node: seq<byte>): (out: seq<Rule>)
    ensures |out| == |rules| && forall i :: 0 <= i < |rules| ==> out[i] == Matched(rules[i], code, node)
  {
    seq(|rules|, i requires 0 <= i < |rules| => Matched(rules[i], code, node))
  }

  /** The kind of the last rule that matches. */
  function MatchKind(rules: seq<Rule>, code: seq<byte>, node: seq<byte>): int {
    if rules == [] then NO_MATCH
    else if Matches(rules[|rules| - 1], code, node) then rules[|rules| - 1].config.kind
    else MatchKind(rules[..|rules| - 1], code, node)
  }

  lemma {:induction false} LastMatchCounts(rules: seq<Rule>, i: nat, code: seq<byte>, node: seq<byte>)
    requires i < |rules| ==> Matches(rules[i], code, node)
    requires forall j :: i < j < |rules| ==> !Matches(rules[j], code, node)
    requires i >= |rules| ==> forall j :: 0 <= j < |rules| ==> !Matches(rules[j], code, node)
    ensures MatchKind(rules, code, node) == if i < |rules| then rules[i].config.kind else NO_MATCH
    decreases |rules|
  {
    if |rules| > i + 1 || (rules != [] && i >= |rules|) {
      LastMatchCounts(rules[..|rules| - 1], i, code, node);
    }
  }

  /** The time that a scan of the file predicts: the least of the rules' times and the constant. */
  function UntilNext(rules: seq<Rule>, now: int, nextAbs: int -> int): (d: int)
    ensures 0 <= d <= INFINIT
  {
    if rules == [] then INFINIT
    else
      var d := UntilNext(rules[..|rules| - 1], now, nextAbs);
      var e := Predict(rules[|rules| - 1], now, nextAbs).1;
      if e < d then e else d
  }

  /** The rule file. */
  class EventsFile {
    var rules: seq<Rule>

    constructor (r: seq<Rule>)
      ensures rules == r
    {
      rules := r;
    }

    method IsSignaling(i: nat, now: int, later: int, absDue: int -> bool) returns (sends: bool)
      requires 0 < now <= later
      modifies this
      ensures i >= |old(rules)| ==> rules == old(rules) && !sends
      ensures i < |old(rules)| ==>
                var (r, v) := Poll(old(rules)[i], now, later, absDue);
                rules == old(rules)[i := r] && (sends <==> v != Quiet)
    {
      sends := false;
      if |rules| <= i {
        return;
      }
      var ev := new Event(rules[i]);
      var needWrite;
      sends, needWrite := ev.IsSignaling(now, later, absDue);
      if needWrite {
        rules := rules[i := ev.State()];
      }
    }

    /** A response that is not meant for a rule changes nothing. */
    method UpdateResponse(msgId: int, time: int, now: int) returns (ok: bool)
      modifies this
      ensures ok <==> Meant(old(rules), msgId)
      ensures rules == if ok then
                         var i := RulePos(msgId);
                         old(rules)[i := old(rules)[i].(response := if time == -1 then now else time)]
                       else old(rules)
    {
      var i := RulePos(msgId);
      if i >= |rules| || i < 0 {
        return false;
      }
      var ev := new Event(rules[i]);
      if RuleId(msgId) != ev.config.id {
        return false;
      }
      ev.response := if time == -1 then now else time;
      rules := rules[i := ev.State()];
      ok := true;
    }

    method MatchEvents(code: seq<byte>, node: seq<byte>) returns (kind: int)
      modifies this
      ensures rules == AllMatched(old(rules), code, node)
      ensures kind == MatchKind(old(rules), code, node)
    {
      kind := NO_MATCH;
      ghost var all := rules;
      for i := 0 to |rules|
        invariant |rules| == |all|
        invariant forall j :: 0 <= j < i ==> rules[j] == Matched(all[j], code, node)
        invariant forall j :: i <= j < |all| ==> rules[j] == all[j]
        invariant kind == MatchKind(all[..i], code, node)
      {
        assert all[..i + 1][..i] == all[..i];
        var ev := new Event(rules[i]);
        var t := ev.CheckMatch(code, node);
        if t != NO_MATCH {
          kind := t;
          rules := rules[i := ev.State()];
        }
      }
      assert all[..|all|] == all;
    }

    /** A negative position cannot be read, and so changes nothing. */
    method ForceSend(pos: int) returns (ok: bool)
      modifies this
      ensures ok <==> 0 <= pos < |old(rules)|
      ensures rules == if ok then old(rules)[pos := old(rules)[pos].(response := 0, access := 0)] else old(rules)
    {
      if pos >= |rules| || pos < 0 {
        return false;
      }
      var ev := new Event(rules[pos]);
      ev.response := 0;
      ev.access := 0;
      rules := rules[pos := ev.State()];
      ok := true;
    }

    /** The time of one rule, read from the file; what the prediction makes of it is not written back. */
    method TimeOf(i: nat, now: int, nextAbs: int -> int) returns (due: int)
      requires 0 < now && i < |rules|
      ensures due == Predict(rules[i], now, nextAbs).1
    {
      var ev := new Event(rules[i]);
      due := ev.GetNextSchedTime(now, nextAbs);
    }

    /** Stops at the first rule that is due. */
    method GetTimeUntilNextSched(now: int, nextAbs: int -> int) returns (time: int)
      requires 0 < now
      ensures time == UntilNext(rules, now, nextAbs)
      ensures rules == old(rules)
    {
      time := INFINIT;
      var i := 0;
      while i < |rules| && time != 0
        invariant i <= |rules|
        invariant time == UntilNext(rules[..i], now, nextAbs)
        modifies {}
      {
        UntilNextSnoc(rules, i, now, nextAbs);
        var due := TimeOf(i, now, nextAbs);
        if due < time {
          time := due;
        }
        i := i + 1;
      }
      assert rules[..|rules|] == rules;
      UntilNextShrinks(rules, i, now, nextAbs);
    }
  }

  lemma {:induction false} UntilNextSnoc(rules: seq<Rule>, i: nat, now: int, nextAbs: int -> int)
    requires i < |rules|
    ensures var d, e := UntilNext(rules[..i], now, nextAbs), Predict(rules[i], now, nextAbs).1;
            UntilNext(rules[..i + 1], now, nextAbs) == if e < d then e else d
  {
    assert rules[..i + 1][..i] == rules[..i];
  }

  lemma {:induction false} UntilNextShrinks(rules: seq<Rule>, i: nat, now: int, nextAbs: int -> int)
    requires i <= |rules|
    ensures UntilNext(rules, now, nextAbs) <= UntilNext(rules[..i], now, nextAbs)
    decreases |rules|
  {
    if i == |rules| {
      assert rules[..i] == rules;
    } else {
      UntilNextShrinks(rules[..|rules| - 1], i, now, nextAbs);
      assert rules[..|rules| - 1][..i] == rules[..i];
    }
  }

  lemma {:induction false} UntilNextIsLeast(rules: seq<Rule>, i: nat, now: int, nextAbs: int -> int)
    requires i < |rules|
    ensures UntilNext(rules, now, nextAbs) <= Predict(rules[i], now, nextAbs).1
  {
    if i < |rules| - 1 {
      UntilNextIsLeast(rules[..|rules| - 1], i, now, nextAbs);
    }
  }

  /** The scan does not predict less than it must: some rule asks for that time, or none for less than the
      constant. */
  lemma {:induction false} UntilNextIsAttained(rules: seq<Rule>, now: int, nextAbs: int -> int)
    ensures || UntilNext(rules, now, nextAbs) == 100000000
            || exists i :: 0 <= i < |rules| && Predict(rules[i], now, nextAbs).1 == UntilNext(rules, now, nextAbs)
  {
    if rules != [] {
      var front := rules[..|rules| - 1];
      UntilNextIsAttained(front, now, nextAbs);
      if i :| 0 <= i < |front| && Predict(front[i], now, nextAbs).1 == UntilNext(front, now, nextAbs) {
        assert rules[i] == front[i];
      }
    }
  }

  /** The scheduler may sleep for the predicted time: no rule fires in it, exactly if every rule that is
      still inside its guard, or sends at plain intervals, fires no earlier. */
  lemma SleepMissesNothing(rules: seq<Rule>, now: int, absDue: int -> bool, nextAbs: int -> int)
    requires forall i :: 0 <= i < |rules| ==> Predictable(rules[i])
    ensures (forall i, t, later :: 0 <= i < |rules| && now <= t < now + UntilNext(rules, now, nextAbs) ==>
               Poll(rules[i], t, later, absDue).1 == Quiet)
       <==> (forall i :: 0 <= i < |rules| ==> HoldsFor(rules[i], now, UntilNext(rules, now, nextAbs)))
  {
    var d := UntilNext(rules, now, nextAbs);
    forall i | 0 <= i < |rules|
      ensures (forall t, later :: now <= t < now + d ==> Poll(rules[i], t, later, absDue).1 == Quiet)
         <==> HoldsFor(rules[i], now, d)
    {
      UntilNextIsLeast(rules, i, now, nextAbs);
      NeverEarly(rules[i], now, d, absDue, nextAbs);
    }
  }

  /** What can happen to the rule file. */
  datatype Step =
    | PollRule(pos: nat, now: int, later: int)
    | Respond(msgId: int, time: int, now: int)
    | Report(code: seq<byte>, node: seq<byte>)
    | Force(pos: nat)

  /** A transmission and whether it opens an episode. */
  datatype Send = Send(time: int, first: bool)

  /** One step, as the rule at position `k` sees it. */
  function StepOne(r: Rule, log: seq<Send>, k: nat, step: Step, absDue: int -> bool): (Rule, seq<Send>) {
    match step
    case PollRule(pos, now, later) =>
      if pos != k then (r, log)
      else
        var (r', v) := Poll(r, now, later, absDue);
        (r', if v == Quiet then log else log + [Send(now, v == First)])
    case Respond(msgId, time, now) =>
      if RulePos(msgId) == k && RuleId(msgId) == r.config.id then
        (r.(response := if time == -1 then now else time), log)
      else (r, log)
    case Report(code, node) => (Matched(r, code, node), log)
    case Force(pos) => if pos == k then (r.(response := 0, access := 0), log) else (r, log)
  }

  function RunOne(r: Rule, log: seq<Send>, k: nat, steps: seq<Step>, absDue: int -> bool): (Rule, seq<Send>)
    decreases |steps|
  {
    if steps == [] then (r, log)
    else
      var (r', log') := StepOne(r, log, k, steps[0], absDue);
      RunOne(r', log', k, steps[1..], absDue)
  }

  /** The same steps on the whole file, as its operations make them. */
  function StepAll(rules: seq<Rule>, step: Step, absDue: int -> bool): (out: seq<Rule>)
    ensures |out| == |rules|
  {
    match step
    case PollRule(pos, now, later) =>
      if pos < |rules| then rules[pos := Poll(rules[pos], now, later, absDue).0] else rules
    case Respond(msgId, time, now) =>
      if Meant(rules, msgId) then
        var i := RulePos(msgId);
        rules[i := rules[i].(response := if time == -1 then now else time)]
      else rules
    case Report(code, node) => AllMatched(rules, code, node)
    case Force(pos) =>
      if pos < |rules| then rules[pos := rules[pos].(response := 0, access := 0)] else rules
  }

  function RunAll(rules: seq<Rule>, steps: seq<Step>, absDue: int -> bool): (out: seq<Rule>)
    ensures |out| == |rules|
    decreases |steps|
  {
    if steps == [] then rules else RunAll(StepAll(rules, steps[0], absDue), steps[1..], absDue)
  }

  /** Rules do not disturb each other: in a run of the whole file every rule goes its own way. */
  lemma {:induction false} RulesAreIndependent(rules: seq<Rule>, log: seq<Send>, k: nat, steps: seq<Step>,
                                               absDue: int -> bool)
    requires k < |rules|
    ensures RunAll(rules, steps, absDue)[k] == RunOne(rules[k], log, k, steps, absDue).0
    decreases |steps|
  {
    if steps != [] {
      var (r', log') := StepOne(rules[k], log, k, steps[0], absDue);
      assert StepAll(rules, steps[0], absDue)[k] == r';
      RulesAreIndependent(StepAll(rules, steps[0], absDue), log', k, steps[1..], absDue);
    }
  }

  /** The clock of a run never goes back and has started. */
  predicate Ordered(clock: int, steps: seq<Step>)
    decreases |steps|
  {
    clock > 0 &&
    (steps == [] ||
     match steps[0]
     case PollRule(_, now, later) => clock <= now <= later && Ordered(later, steps[1..])
     case Respond(_, _, now) => clock <= now && Ordered(now, steps[1..])
     case Report(_, _) => Ordered(clock, steps[1..])
     case Force(_) => Ordered(clock, steps[1..]))
  }

  function ClockAfter(clock: int, step: Step): int {
    match step
    case PollRule(_, _, later) => later
    case Respond(_, _, now) => now
    case Report(_, _) => clock
    case Force(_) => clock
  }

  /** Transmissions since the last one that opened an episode, that one included. */
  function Burst(log: seq<Send>): nat {
    if log == [] then 0
    else if log[|log| - 1].first then 1
    else 1 + Burst(log[..|log| - 1])
  }

  /** At no point does an episode exceed `limit` transmissions, and inside an episode they are at
      least `gap` apart. */
  predicate Disciplined(log: seq<Send>, limit: int, gap: int) {
    log == [] ||
    (var n := |log| - 1;
     && Disciplined(log[..n], limit, gap) && Burst(log) <= limit
     && (!log[n].first && n > 0 ==> log[n].time - log[n - 1].time >= gap))
  }

  /** What every step of a run keeps of a rule and its transmissions. */
  ghost predicate OnLimit(c: Config, r: Rule, log: seq<Send>, clock: int) {
    && r.config == c && r.retries >= 0 && Disciplined(log, c.limit, c.noSec)
    && (r.access != 0 ==> Burst(log) <= r.retries)
    && (log != [] ==> log[|log| - 1].time <= clock && (r.access != 0 ==> log[|log| - 1].time <= r.access))
  }

  lemma PollKeepsLimit(c: Config, r: Rule, log: seq<Send>, clock: int, now: int, later: int, absDue: int -> bool)
    requires c.limit > 0 && OnLimit(c, r, log, clock) && 0 < clock <= now <= later
    ensures var (r', v) := Poll(r, now, later, absDue);
            OnLimit(c, r', if v == Quiet then log else log + [Send(now, v == First)], later)
  {
    var v := Poll(r, now, later, absDue).1;
    var log' := log + [Send(now, v == First)];
    assert log'[..|log|] == log;
  }

  lemma StepKeepsLimit(c: Config, r: Rule, log: seq<Send>, clock: int, k: nat, step: Step, absDue: int -> bool)
    requires c.limit > 0 && OnLimit(c, r, log, clock) && Ordered(clock, [step])
    ensures var (r', log') := StepOne(r, log, k, step, absDue);
            OnLimit(c, r', log', ClockAfter(clock, step))
  {
    match step
    case PollRule(pos, now, later) =>
      if pos == k {
        PollKeepsLimit(c, r, log, clock, now, later, absDue);
      }
    case Respond(_, _, _) =>
    case Report(_, _) =>
    case Force(_) =>
  }

  /** In every run with a clock that does not go back and a positive retry limit, the transmissions of
      an episode never exceed the limit and are spaced by at least the retry interval. */
  lemma {:induction false} RunKeepsLimit(c: Config, r: Rule, log: seq<Send>, clock: int, k: nat, steps: seq<Step>,
                                         absDue: int -> bool)
    requires c.limit > 0 && OnLimit(c, r, log, clock) && Ordered(clock, steps)
    ensures Disciplined(RunOne(r, log, k, steps, absDue).1, c.limit, c.noSec)
    decreases |steps|
  {
    if steps != [] {
      StepKeepsLimit(c, r, log, clock, k, steps[0], absDue);
      var (r', log') := StepOne(r, log, k, steps[0], absDue);
      RunKeepsLimit(c, r', log', ClockAfter(clock, steps[0]), k, steps[1..], absDue);
    }
  }

  /** The run theorem from any rule as it may stand in the file, before anything was sent. */
  lemma RetriesAreBounded(r: Rule, k: nat, steps: seq<Step>, absDue: int -> bool)
    requires r.config.limit > 0 && r.retries >= 0 && Ordered(1, steps)
    ensures Disciplined(RunOne(r, [], k, steps, absDue).1, r.config.limit, r.config.noSec)
  {
    RunKeepsLimit(r.config, r, [], 1, k, steps, absDue);
  }

  /** No response in the run carries the time 0, which the record takes for none. */
  predicate RealResponses(steps: seq<Step>) {
    forall i :: 0 <= i < |steps| ==> steps[i].Respond? ==> steps[i].time != 0 && steps[i].now > 0
  }

  /** The episode of a rule is over: it was answered, or a new one is to begin. */
  predicate EpisodeOver(r: Rule) {
    r.response != 0 || r.access == 0
  }

  /** Once the episode is over, nothing is repeated: whatever is sent next opens a new one. */
  lemma {:induction false} NextSendIsFirst(r: Rule, log: seq<Send>, k: nat, steps: seq<Step>, absDue: int -> bool,
                                           clock: int)
    requires EpisodeOver(r) && RealResponses(steps) && Ordered(clock, steps)
    ensures var log' := RunOne(r, log, k, steps, absDue).1;
            log' == log || (|log'| > |log| && log'[..|log|] == log && log'[|log|].first)
    decreases |steps|
  {
    if steps != [] {
      var (r', log') := StepOne(r, log, k, steps[0], absDue);
      assert RealResponses(steps[1..]) by {
        assert forall i :: 0 <= i < |steps[1..]| ==> steps[1..][i] == steps[i + 1];
      }
      if log' == log {
        NextSendIsFirst(r', log, k, steps[1..], absDue, ClockAfter(clock, steps[0]));
      } else {
        LogGrows(r', log', k, steps[1..], absDue);
      }
    }
  }

  lemma {:induction false} LogGrows(r: Rule, log: seq<Send>, k: nat, steps: seq<Step>, absDue: int -> bool)
    ensures log <= RunOne(r, log, k, steps, absDue).1
    decreases |steps|
  {
    if steps != [] {
      var (r', log') := StepOne(r, log, k, steps[0], absDue);
      LogGrows(r', log', k, steps[1..], absDue);
    }
  }

  /** A response with the matching rule id ends the episode: until a new one begins, nothing is sent.
      A response with any other id leaves every rule as it was. */
  lemma ResponseEndsEpisode(rules: seq<Rule>, log: seq<Send>, k: nat, msgId: int, time: int, now: int,
                            steps: seq<Step>, absDue: int -> bool)
    requires k < |rules| && time != 0 && now > 0 && RealResponses(steps) && Ordered(now, steps)
    ensures var answered := StepAll(rules, Respond(msgId, time, now), absDue);
            if Meant(rules, msgId) then
              RulePos(msgId) == k ==>
                var log' := RunOne(answered[k], log, k, steps, absDue).1;
                log' == log || (|log'| > |log| && log'[..|log|] == log && log'[|log|].first)
            else answered == rules
  {
    if Meant(rules, msgId) && RulePos(msgId) == k {
      var answered := StepAll(rules, Respond(msgId, time, now), absDue);
      NextSendIsFirst(answered[k], log, k, steps, absDue, now);
    }
  }
}

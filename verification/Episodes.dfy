/** That rules are sent, over runs: when a rule of AccessNode/Shared/EventsStruct.cpp opens an episode,
    how often it repeats itself before it gives up, and when an answered rule is sent again. */
module Episodes {
  import opened Bytes
  import opened Schedules
  import opened Rules
  import opened Events

  /** No step polls the rule at position `k`. */
  predicate Unpolled(steps: seq<Step>, k: nat) {
    forall i :: 0 <= i < |steps| ==> !steps[i].PollRule? || steps[i].pos != k
  }

  /** One step after a run. */
  lemma {:induction false} RunThen(r: Rule, log: seq<Send>, k: nat, steps: seq<Step>, more: seq<Step>, absDue: int -> bool)
    ensures var (r', log') := RunOne(r, log, k, steps, absDue);
            RunOne(r, log, k, steps + more, absDue) == RunOne(r', log', k, more, absDue)
    decreases |steps|
  {
    if steps == [] {
      assert steps + more == more;
    } else {
      var (r', log') := StepOne(r, log, k, steps[0], absDue);
      assert (steps + more)[1..] == steps[1..] + more;
      RunThen(r', log', k, steps[1..], more, absDue);
    }
  }

  lemma RunStep(r: Rule, log: seq<Send>, k: nat, step: Step, absDue: int -> bool)
    ensures RunOne(r, log, k, [step], absDue) == StepOne(r, log, k, step, absDue)
  {
    var (r', log') := StepOne(r, log, k, step, absDue);
    assert [step][1..] == [];
    assert RunOne(r', log', k, [], absDue) == (r', log');
  }

  lemma {:induction false} StaysFresh(r: Rule, log: seq<Send>, k: nat, steps: seq<Step>, absDue: int -> bool)
    requires r.access == 0 && Unpolled(steps, k)
    ensures var (r', log') := RunOne(r, log, k, steps, absDue);
            r'.access == 0 && r'.config == r.config && log' == log
    decreases |steps|
  {
    if steps != [] {
      var (r', log') := StepOne(r, log, k, steps[0], absDue);
      assert !steps[0].PollRule? || steps[0].pos != k;
      assert Unpolled(steps[1..], k) by {
        assert forall i :: 0 <= i < |steps[1..]| ==> steps[1..][i] == steps[i + 1];
      }
      StaysFresh(r', log', k, steps[1..], absDue);
    }
  }

  /** The active window, spelled out. */
  predicate Active(c: Config, now: int) {
    c.active != 0 && c.start <= now && now <= c.end
  }

  /** A rule that was never sent is sent by the first poll in its window, whatever happens before, and
      that opens an episode: nothing was answered, and one transmission counts. */
  lemma FirstPollSends(r: Rule, log: seq<Send>, k: nat, steps: seq<Step>, now: int, later: int, absDue: int -> bool)
    requires r.access == 0 && Unpolled(steps, k) && Active(r.config, now)
    ensures var (r', log') := RunOne(r, log, k, steps + [PollRule(k, now, later)], absDue);
            && log' == log + [Send(now, true)]
            && r'.access == later && r'.response == 0 && (r.config.limit > 0 ==> r'.retries == 1)
  {
    RunThen(r, log, k, steps, [PollRule(k, now, later)], absDue);
    StaysFresh(r, log, k, steps, absDue);
    var (s, slog) := RunOne(r, log, k, steps, absDue);
    RunStep(s, slog, k, PollRule(k, now, later), absDue);
  }

  /** So it is after a forced send, whatever state the rule was in. */
  lemma ForcedIsSent(r: Rule, log: seq<Send>, k: nat, steps: seq<Step>, now: int, later: int, absDue: int -> bool)
    requires Unpolled(steps, k) && Active(r.config, now)
    ensures RunOne(r, log, k, [Force(k)] + (steps + [PollRule(k, now, later)]), absDue).1 == log + [Send(now, true)]
  {
    RunThen(r, log, k, [Force(k)], steps + [PollRule(k, now, later)], absDue);
    RunStep(r, log, k, Force(k), absDue);
    FirstPollSends(StepOne(r, log, k, Force(k), absDue).0, log, k, steps, now, later, absDue);
  }

  /** A rule that waits for this report: active, of one of the two reporting kinds, with the same event
      code, for the node or for any. */
  predicate WaitsFor(c: Config, code: seq<byte>, node: seq<byte>) {
    c.active == 1 && (c.kind == 2 || c.kind == 3) && c.code == code && (c.node == node || c.node == [255, 255, 255, 255])
  }

  /** A report makes exactly the rules that wait for it send at their next poll; an answered rule of a
      reporting kind is sent for no other reason. */
  lemma ReportedIsSent(r: Rule, log: seq<Send>, k: nat, code: seq<byte>, node: seq<byte>, steps: seq<Step>,
                       now: int, later: int, absDue: int -> bool)
    requires Unpolled(steps, k) && Active(r.config, now) && WaitsFor(r.config, code, node)
    ensures RunOne(r, log, k, [Report(code, node)] + (steps + [PollRule(k, now, later)]), absDue).1 == log + [Send(now, true)]
  {
    RunThen(r, log, k, [Report(code, node)], steps + [PollRule(k, now, later)], absDue);
    RunStep(r, log, k, Report(code, node), absDue);
    FirstPollSends(StepOne(r, log, k, Report(code, node), absDue).0, log, k, steps, now, later, absDue);
  }

  lemma OtherReportsDoNothing(r: Rule, log: seq<Send>, k: nat, code: seq<byte>, node: seq<byte>, steps: seq<Step>,
                              absDue: int -> bool)
    requires !WaitsFor(r.config, code, node)
    ensures RunOne(r, log, k, [Report(code, node)] + steps, absDue) == RunOne(r, log, k, steps, absDue)
  {
    RunThen(r, log, k, [Report(code, node)], steps, absDue);
    RunStep(r, log, k, Report(code, node), absDue);
  }

  /** A report from which a rule is sent, exactly. */
  lemma ReportSendsExactly(r: Rule, log: seq<Send>, k: nat, code: seq<byte>, node: seq<byte>, now: int, later: int,
                           absDue: int -> bool)
    requires (r.config.kind == 2 || r.config.kind == 3) && r.access != 0 && r.response != 0 && Active(r.config, now)
    ensures RunOne(r, log, k, [Report(code, node), PollRule(k, now, later)], absDue).1
         == if WaitsFor(r.config, code, node) then log + [Send(now, true)] else log
  {
    var poll := PollRule(k, now, later);
    assert [Report(code, node)] + ([] + [poll]) == [Report(code, node), poll] == [Report(code, node)] + [poll];
    if WaitsFor(r.config, code, node) {
      ReportedIsSent(r, log, k, code, node, [], now, later, absDue);
    } else {
      OtherReportsDoNothing(r, log, k, code, node, [poll], absDue);
      RunStep(r, log, k, poll, absDue);
    }
  }

  /** The polls of a rule at the given times. */
  function Polls(k: nat, times: seq<int>): (steps: seq<Step>)
    ensures |steps| == |times| && forall i :: 0 <= i < |times| ==> steps[i] == PollRule(k, times[i], times[i])
  {
    seq(|times|, i requires 0 <= i < |times| => PollRule(k, times[i], times[i]))
  }

  /** Times in the active window, each at least the retry interval behind the one before. */
  predicate Spaced(c: Config, from: int, times: seq<int>)
    decreases |times|
  {
    times == [] ||
    (Active(c, times[0]) && times[0] > 0 && times[0] - from >= c.noSec && Spaced(c, times[0], times[1..]))
  }

  function Repeats(times: seq<int>): (log: seq<Send>)
    ensures |log| == |times| && forall i :: 0 <= i < |times| ==> log[i] == Send(times[i], false)
  {
    seq(|times|, i requires 0 <= i < |times| => Send(times[i], false))
  }

  /** In an episode that nobody answers. */
  predicate Waiting(r: Rule, sent: int) {
    r.response == 0 && r.access != 0 && r.config.noSec >= 0 && (r.config.limit > 0 ==> r.retries == sent)
  }

  /** Before the retry interval has passed an unanswered rule is quiet. */
  lemma TooEarlyIsQuiet(r: Rule, now: int, later: int, absDue: int -> bool)
    requires r.response == 0 && r.access != 0 && r.access <= now && now - r.access < r.config.noSec
    ensures Poll(r, now, later, absDue) == (r, Quiet)
  {
  }

  lemma OnceMore(r: Rule, log: seq<Send>, k: nat, t: int, sent: int, absDue: int -> bool)
    requires Waiting(r, sent) && Active(r.config, t) && t > 0 && t - r.access >= r.config.noSec
    requires r.config.limit > 0 ==> sent < r.config.limit
    ensures var (r', log') := StepOne(r, log, k, PollRule(k, t, t), absDue);
            && log' == log + [Send(t, false)] && Waiting(r', sent + 1) && r'.config == r.config && r'.access == t
  {
  }

  lemma {:induction false} RepeatsUntilLimit(r: Rule, log: seq<Send>, k: nat, times: seq<int>, sent: int, absDue: int -> bool)
    requires Waiting(r, sent) && Spaced(r.config, r.access, times)
    requires r.config.limit > 0 ==> sent + |times| <= r.config.limit
    ensures var (r', log') := RunOne(r, log, k, Polls(k, times), absDue);
            && log' == log + Repeats(times) && Waiting(r', sent + |times|) && r'.config == r.config
            && r'.access == (if times == [] then r.access else times[|times| - 1])
    decreases |times|
  {
    if times == [] {
      assert log + Repeats(times) == log;
    } else {
      var t := times[0];
      OnceMore(r, log, k, t, sent, absDue);
      var (r', log') := StepOne(r, log, k, PollRule(k, t, t), absDue);
      assert Polls(k, times)[1..] == Polls(k, times[1..]);
      RepeatsUntilLimit(r', log', k, times[1..], sent + 1, absDue);
      assert log + Repeats(times) == log + [Send(t, false)] + Repeats(times[1..]);
    }
  }

  /** An episode that nobody answers, polled at least a retry interval apart: with the first poll the rule
      is sent for the first time, then again at every poll until `limit` transmissions are made; the
      next poll sends nothing and ends the episode, as if it had been answered then. */
  lemma UnansweredEpisode(r: Rule, log: seq<Send>, k: nat, first: int, later: int, times: seq<int>, last: int,
                          absDue: int -> bool)
    requires r.access == 0 && r.config.limit > 0 && r.config.noSec >= 0 && Active(r.config, first) && later != 0
    requires |times| == r.config.limit - 1 && Spaced(r.config, later, times + [last])
    ensures var (r', log') := RunOne(r, log, k, [PollRule(k, first, later)] + (Polls(k, times) + Polls(k, [last])), absDue);
            log' == log + [Send(first, true)] + Repeats(times) && r'.response == last
  {
    var more := Polls(k, times) + Polls(k, [last]);
    RunThen(r, log, k, [PollRule(k, first, later)], more, absDue);
    assert [] + [PollRule(k, first, later)] == [PollRule(k, first, later)];
    FirstPollSends(r, log, k, [], first, later, absDue);
    var (s, slog) := RunOne(r, log, k, [PollRule(k, first, later)], absDue);
    RunStep(r, log, k, PollRule(k, first, later), absDue);
    SpacedSplit(r.config, later, times, last);
    RepeatsUntilLimit(s, slog, k, times, 1, absDue);
    RunThen(s, slog, k, Polls(k, times), Polls(k, [last]), absDue);
    var (u, ulog) := RunOne(s, slog, k, Polls(k, times), absDue);
    assert Polls(k, [last]) == [PollRule(k, last, last)];
    RunStep(u, ulog, k, PollRule(k, last, last), absDue);
  }

  lemma {:induction false} SpacedSplit(c: Config, from: int, times: seq<int>, last: int)
    requires Spaced(c, from, times + [last])
    ensures Spaced(c, from, times)
    ensures Active(c, last) && last > 0 && last - (if times == [] then from else times[|times| - 1]) >= c.noSec
    decreases |times|
  {
    if times == [] {
      assert times + [last] == [last];
    } else {
      assert (times + [last])[1..] == times[1..] + [last];
      SpacedSplit(c, times[0], times[1..], last);
    }
  }

  /** Without a limit the rule is sent again at every such poll. */
  lemma RepeatsForever(r: Rule, log: seq<Send>, k: nat, times: seq<int>, absDue: int -> bool)
    requires Waiting(r, 0) && r.config.limit <= 0 && Spaced(r.config, r.access, times)
    ensures RunOne(r, log, k, Polls(k, times), absDue).1 == log + Repeats(times)
  {
    RepeatsUntilLimit(r, log, k, times, 0, absDue);
  }

  /** When a rule that was answered is due, spelled out for each kind: an interval since the last access
      or in a window behind a multiple of it since the start; at an absolute time; in a window behind a
      multiple of the interval in its period. */
  predicate DueNow(c: Config, access: int, now: int, absDue: int -> bool) {
    var n, width := Interval(c.sched), Trigger(c.sched);
    || (c.kind == 1 && (now - access > n || (n > 0 && (now - c.start) % n < width)))
    || (c.kind == 0 && absDue(now))
    || (c.kind == 4 && n > 0 && now % Period(c.sched) % n < width)
  }

  /** An answered rule is sent by exactly those polls that find it due, a trigger width or more behind the
      last access, and that opens a new episode. */
  lemma AnsweredIsSentAgain(r: Rule, log: seq<Send>, k: nat, now: int, later: int, absDue: int -> bool)
    requires r.response != 0 && r.access != 0 && r.access <= now && Active(r.config, now)
    ensures var (r', log') := RunOne(r, log, k, [PollRule(k, now, later)], absDue);
            if now - r.access >= Trigger(r.config.sched) && DueNow(r.config, r.access, now, absDue) then
              && log' == log + [Send(now, true)]
              && r'.access == later && r'.response == 0 && (r.config.limit > 0 ==> r'.retries == 1)
            else log' == log && r' == r
  {
    RunStep(r, log, k, PollRule(k, now, later), absDue);
  }

  /** When the clock was set back behind the last access, that counts from now, so that the waiting
      starts anew. */
  lemma ClockSetBack(r: Rule, log: seq<Send>, k: nat, now: int, later: int, absDue: int -> bool)
    requires 0 < now < r.access && Active(r.config, now)
    ensures RunOne(r, log, k, [PollRule(k, now, later)], absDue)
         == RunOne(r.(access := now), log, k, [PollRule(k, now, later)], absDue)
    ensures r.config.noSec > 0 || r.response != 0 ==>
              RunOne(r, log, k, [PollRule(k, now, later)], absDue) == (r.(access := now), log)
  {
    RunStep(r, log, k, PollRule(k, now, later), absDue);
    RunStep(r.(access := now), log, k, PollRule(k, now, later), absDue);
    assert Trigger(r.config.sched) > 0;
  }

  /** Outside its active window no poll sends a rule. */
  lemma InactiveIsQuiet(r: Rule, log: seq<Send>, k: nat, now: int, later: int, absDue: int -> bool)
    requires !Active(r.config, now)
    ensures RunOne(r, log, k, [PollRule(k, now, later)], absDue) == (r, log)
  {
    RunStep(r, log, k, PollRule(k, now, later), absDue);
  }

  /** A response is recorded with its time, or with the clock for -1, for exactly the rule at the position
      and with the id that its message id is made of. */
  lemma ResponseIsRecorded(r: Rule, log: seq<Send>, k: nat, ruleId: int, pos: int, time: int, now: int, absDue: int -> bool)
    requires 0 <= ruleId < 0x10000
    ensures RunOne(r, log, k, [Respond(pos * 0x10000 + ruleId, time, now)], absDue)
         == (if pos == k && ruleId == r.config.id then r.(response := if time == -1 then now else time) else r, log)
  {
    RunStep(r, log, k, Respond(pos * 0x10000 + ruleId, time, now), absDue);
    MsgIdRoundTrip(ruleId, pos);
  }
}

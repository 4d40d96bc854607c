/** The rule state machine of AccessNode/Shared/EventsStruct.cpp: when a rule sends, when it repeats
    itself, when it gives up, and the predictor of its next due time. */
module Rules {
  import opened Basics
  import opened Bytes
  import opened Schedules

  const INACTIVE: int := 0
  const ACTIVE: int := 1
  const NO_MATCH: int := -1
  const INFINIT: int := 100000000
  const FIX_TIME: int := 0
  const INTERVAL: int := 1
  const SEND_TO_CC: int := 2
  const DONT_SEND_TO_CC: int := 3
  const FIX_INTERVAL: int := 4
  const ANY_NODE: seq<byte> := [0xFF, 0xFF, 0xFF, 0xFF]

  /** The fields that sending does not change. */
  datatype Config = Config(id: nat, active: int, kind: int, sched: Schedule, code: seq<byte>, node: seq<byte>,
                           start: int, end: int, noSec: int, limit: int)

  datatype Rule = Rule(config: Config, access: int, response: int, retries: int) {
    predicate InWindow(now: int) {
      config.active != INACTIVE && config.start <= now <= config.end
    }
  }

  /** Whether a poll sends, and then whether for the first time or again. */
  datatype Verdict = Quiet | First | Again

  function Prepared(r: Rule, later: int): Rule {
    Rule(r.config, later, 0, if r.config.limit > 0 then 1 else r.retries)
  }

  /** The windows of a fixed schedule: every interval one opens, and the period starts them anew. */
  predicate Open(s: Schedule, t: int) {
    Interval(s) > 0 && t % Period(s) % Interval(s) < Trigger(s)
  }

  /** The seconds from `t` to the next second in a window. */
  function Wait(s: Schedule, t: int): (d: nat)
    requires Interval(s) > 0
  {
    var n, m := Interval(s), t % Period(s);
    if m % n < Trigger(s) then 0
    else if m + (n - m % n) <= Period(s) then n - m % n
    else Period(s) - m
  }

  /** A rule that was answered is due by its schedule. */
  predicate Due(r: Rule, now: int, absDue: int -> bool) {
    var c := r.config;
    var n := Interval(c.sched);
    if c.kind == INTERVAL then
      now - r.access > n || (n > 0 && (now - c.start) % n < Trigger(c.sched))
    else if c.kind == FIX_TIME then absDue(now)
    else if c.kind == FIX_INTERVAL then Open(c.sched, now)
    else false
  }

  /** What polling a rule makes of it.  `later` is the clock at the moment of sending. */
  function Poll(r: Rule, now: int, later: int, absDue: int -> bool): (Rule, Verdict) {
    if !r.InWindow(now) then (r, Quiet)
    else if r.access == 0 then (Prepared(r, later), First)
    else
      var r1 := if now < r.access then r.(access := now) else r;
      var c := r.config;
      if r1.response == 0 then
        if now - r1.access < c.noSec then (r1, Quiet)
        else if c.limit > 0 && r1.retries >= c.limit then (r1.(response := now), Quiet)
        else (r1.(access := now, retries := if c.limit > 0 then r1.retries + 1 else r1.retries), Again)
      else if now - r1.access < Trigger(c.sched) then (r1, Quiet)
      else if Due(r1, now, absDue) then (Prepared(r1, later), First)
      else (r1, Quiet)
  }

  /** The seconds to the next due time, by prediction.  A last access in the future is moved to now. */
  function Predict(r: Rule, now: int, nextAbs: int -> int): (p: (Rule, int))
    ensures p.1 >= 0
  {
    var c := r.config;
    if c.active == INACTIVE then (r, INFINIT)
    else if r.access == 0 || r.response == 0 then (r, 0)
    else if c.kind == SEND_TO_CC || c.kind == DONT_SEND_TO_CC then (r, INFINIT)
    else if c.start > now || c.end < now then (r, 0)
    else
      var r1 := if r.access > now then r.(access := now) else r;
      var n, trig := Interval(c.sched), Trigger(c.sched);
      if c.kind == FIX_TIME then
        (r1, if nextAbs(now) < now then INFINIT else nextAbs(now) - now)
      else if c.kind == INTERVAL then
        if n <= 0 || now - r1.access > n then (r1, 0)
        else
          var m := (now - c.start) % n;
          (r1, if now - r1.access > trig && m < trig then 0 else n - m)
      else if c.kind == FIX_INTERVAL then
        if now - r1.access < trig then
          var left := n - (now - r1.access) - trig / 5;
          (r1, if left >= 0 then left else 0)
        else if n == 0 then (r1, INFINIT)
        else (r1, Wait(c.sched, now))
      else (r1, INFINIT)
  }

  /** A rule record as it stands in memory. */
  class Event {
    var config: Config
    var access: int
    var response: int
    var retries: int

    function State(): Rule
      reads this
    {
      Rule(config, access, response, retries)
    }

    constructor (r: Rule)
      ensures State() == r
    {
      config, access, response, retries := r.config, r.access, r.response, r.retries;
    }

    method PrepareSend(later: int)
      modifies this
      ensures State() == Prepared(old(State()), later)
    {
      response := 0;
      if config.limit > 0 {
        retries := 1;
      }
      access := later;
    }

    /** Polls the rule.  Whatever changes it asks for being written back. */
    method IsSignaling(clock: int, later: int, absDue: int -> bool) returns (sends: bool, needWrite: bool)
      requires 0 < clock <= later
      modifies this
      ensures State() == Poll(old(State()), clock, later, absDue).0
      ensures sends <==> Poll(old(State()), clock, later, absDue).1 != Quiet
      ensures !needWrite ==> State() == old(State())
    {
      sends, needWrite := false, false;
      var now := clock;
      if config.active == INACTIVE {
        return;
      }
      if config.start > now || config.end < now {
        return;
      }
      if access == 0 {
        PrepareSend(later);
        return true, true;
      }
      if now < access {
        access := now;
        needWrite := true;
      }
      if response == 0 {
        if now - access < config.noSec {
          return;
        }
        if config.limit > 0 && retries >= config.limit {
          response := now;
          needWrite := true;
          return;
        }
        access := now;
        if config.limit > 0 {
          retries := retries + 1;
        }
        return true, true;
      }
      var trig := GetTrigInterval(config.sched);
      if now - access < trig {
        return;
      }
      if config.kind == DONT_SEND_TO_CC || config.kind == SEND_TO_CC {
        return;
      } else if config.kind == INTERVAL {
        var sched := GetSchedTimeInterval(config.sched);
        if now - access > sched {
          PrepareSend(later);
          return true, true;
        }
        if sched <= 0 {
          return;
        }
        now := now - config.start;
        now := now % sched;
        if now < trig {
          PrepareSend(later);
          return true, true;
        }
      } else if config.kind == FIX_TIME {
        if !absDue(now) {
          return;
        }
        PrepareSend(later);
        return true, true;
      } else if config.kind == FIX_INTERVAL {
        var sched := GetSchedTimeInterval(config.sched);
        var period := GetBasePeriod(config.sched);
        if sched == 0 || period == 0 {
          return;
        }
        now := now % period;
        now := now % sched;
        if now >= trig {
          return;
        }
        PrepareSend(later);
        return true, true;
      }
    }

    method GetNextSchedTime(clock: int, nextAbs: int -> int) returns (d: int)
      requires 0 < clock
      modifies this
      ensures (State(), d) == Predict(old(State()), clock, nextAbs)
    {
      var now := clock;
      if config.active == INACTIVE {
        return INFINIT;
      }
      if access == 0 || response == 0 {
        return 0;
      }
      if config.kind == SEND_TO_CC || config.kind == DONT_SEND_TO_CC {
        return INFINIT;
      }
      if config.start > now || config.end < now {
        return 0;
      }
      if access > now {
        access := now;
      }
      if config.kind == FIX_TIME {
        var when := nextAbs(now);
        return if when < now then INFINIT else when - now;
      } else if config.kind == INTERVAL {
        var trig := GetTrigInterval(config.sched);
        var sched := GetSchedTimeInterval(config.sched);
        if sched <= 0 {
          return 0;
        }
        if now - access > sched {
          return 0;
        }
        var interval := (now - config.start) % sched;
        if now - access > trig && interval < trig {
          return 0;
        }
        return sched - interval;
      } else if config.kind == FIX_INTERVAL {
        var trig := GetTrigInterval(config.sched);
        var n := GetSchedTimeInterval(config.sched);
        var sched: int := n;
        if now - access < trig {
          sched := sched - (now - access);
          return if sched - trig / 5 >= 0 then sched - trig / 5 else 0;
        }
        var period := GetBasePeriod(config.sched);
        if sched == 0 || period == 0 {
          return INFINIT;
        }
        now := now % period;
        if now % sched < trig {
          return 0;
        }
        sched := sched - now % sched;
        return if now + sched <= period then sched else period - now;
      }
      return INFINIT;
    }

    /** A report from a node: a rule that waits for it is made to send at the next poll. */
    method CheckMatch(code: seq<byte>, node: seq<byte>) returns (t: int)
      modifies this
      ensures State() == Matched(old(State()), code, node)
      ensures t == if Matches(old(State()), code, node) then config.kind else NO_MATCH
      ensures config == old(config)
    {
      if config.active != ACTIVE {
        return NO_MATCH;
      }
      if config.kind != SEND_TO_CC && config.kind != DONT_SEND_TO_CC {
        return NO_MATCH;
      }
      if config.code == code && (config.node == node || config.node == ANY_NODE) {
        access := 0;
        response := 0;
        if config.limit > 0 {
          retries := 1;
        }
        return config.kind;
      }
      return NO_MATCH;
    }
  }

  predicate Matches(r: Rule, code: seq<byte>, node: seq<byte>) {
    var c := r.config;
    && c.active == ACTIVE && (c.kind == SEND_TO_CC || c.kind == DONT_SEND_TO_CC)
    && c.code == code && (c.node == node || c.node == ANY_NODE)
  }

  function Matched(r: Rule, code: seq<byte>, node: seq<byte>): Rule {
    if Matches(r, code, node) then Rule(r.config, 0, 0, if r.config.limit > 0 then 1 else r.retries) else r
  }

  lemma ModAdd(n: int, e: int, w: int)
    requires w > 0 && 0 <= e
    ensures n % w + e < w ==> (n + e) % w == n % w + e
    ensures n % w + e == w ==> (n + e) % w == 0
  {
    assert n == (n / w) * w + n % w;
    if n % w + e < w {
      DivisionUnique(n + e, n / w, n % w + e, w);
    } else if n % w + e == w {
      assert (n / w + 1) * w == (n / w) * w + w;
      DivisionUnique(n + e, n / w + 1, 0, w);
    }
  }

  /** A rule that sends at fixed intervals, was answered, and is in its active window at `now`. */
  predicate Answered(r: Rule, now: int) {
    && r.config.kind == FIX_INTERVAL && r.response != 0 && r.access != 0 && r.InWindow(now)
    && Interval(r.config.sched) > 0
  }

  /** Such a rule does not fire again in the trigger width after it was sent. */
  predicate PastGuard(r: Rule, now: int) {
    Answered(r, now) && now - r.access >= Trigger(r.config.sched)
  }

  predicate InGuard(r: Rule, now: int) {
    Answered(r, now) && now - r.access < Trigger(r.config.sched)
  }

  /** No window opens before the end of the wait, and one is open then. */
  lemma WindowsAhead(s: Schedule, t: int, e: int)
    requires Interval(s) > 0 && 0 <= e <= Wait(s, t)
    ensures Wait(s, t) <= Interval(s)
    ensures Open(s, t + e) <==> e == Wait(s, t)
  {
    var p, n := Period(s), Interval(s);
    if Wait(s, t) > 0 {
      ModAdd(t, e, p);
      ModAdd(t % p, e, n);
      ModAdd(0, 0, n);
    }
  }

  /** The first second at which an answered rule fires: the first in a window past its guard. */
  function FirstFire(r: Rule): (t: int)
    requires Interval(r.config.sched) > 0
    ensures t >= r.access + Trigger(r.config.sched)
  {
    var s := r.config.sched;
    r.access + Trigger(s) + Wait(s, r.access + Trigger(s))
  }

  /** Inside the guard an answered rule is quiet up to that second, and fires then unless its active
      window has closed. */
  lemma GuardFires(r: Rule, now: int, t: int, later: int, absDue: int -> bool)
    requires InGuard(r, now) && now <= t <= FirstFire(r)
    ensures t < FirstFire(r) ==> Poll(r, t, later, absDue).1 == Quiet
    ensures t < FirstFire(r) && r.access <= now ==> Poll(r, t, later, absDue).0 == r
    ensures t == FirstFire(r) ==> Poll(r, t, later, absDue).1 == (if t <= r.config.end then First else Quiet)
  {
    var s := r.config.sched;
    var start := r.access + Trigger(s);
    if t >= start {
      WindowsAhead(s, start, t - start);
      assert start + (t - start) == t;
    }
  }

  /** What the predictor says of the rule at `now` is right: quiet until then, and due then, unless the
      active window has closed. */
  ghost predicate Right(r: Rule, now: int, d: int, absDue: int -> bool) {
    && (forall t, later :: now <= t < now + d ==> Poll(r, t, later, absDue).1 == Quiet)
    && (now + d <= r.config.end ==> Poll(r, now + d, now + d, absDue).1 == First)
  }

  /** Past the guard the predictor agrees with the poll.  It says 0 exactly when the rule fires now;
      otherwise the rule stays as it is and quiet until the predicted time, and fires then, unless its
      active window has closed. */
  lemma PredictorExact(r: Rule, now: int, absDue: int -> bool, nextAbs: int -> int)
    requires PastGuard(r, now)
    ensures var (r', d) := Predict(r, now, nextAbs);
            && r' == r && 0 <= d <= Interval(r.config.sched)
            && (d == 0 <==> Poll(r, now, now, absDue).1 != Quiet)
            && (d > 0 ==> forall t, later :: now <= t <= now + d ==>
                  if t < now + d then Poll(r, t, later, absDue) == (r, Quiet)
                  else Poll(r, t, later, absDue).1 == (if t <= r.config.end then First else Quiet))
  {
    var s := r.config.sched;
    var d := Predict(r, now, nextAbs).1;
    WindowsAhead(s, now, 0);
    if d > 0 {
      forall t, later | now <= t <= now + d
        ensures if t < now + d then Poll(r, t, later, absDue) == (r, Quiet)
                else Poll(r, t, later, absDue).1 == (if t <= r.config.end then First else Quiet)
      {
        WindowsAhead(s, now, t - now);
        assert now + (t - now) == t;
      }
    }
  }

  /** The second for which the predictor announces a rule. */
  function Announced(r: Rule, now: int, nextAbs: int -> int): int {
    now + Predict(r, now, nextAbs).1
  }

  /** The second that the predictor computes inside the guard: an interval after the last access, which
      it takes for now if it lies ahead of the clock, less a fifth of the trigger width. */
  function Guess(r: Rule, now: int): int {
    (if r.access > now then now else r.access) + Interval(r.config.sched) - Trigger(r.config.sched) / 5
  }

  /** Inside the guard a rule is announced for that second, or for now if it has passed; that is late,
      early or on time by plain arithmetic. */
  lemma AnnouncedInGuard(r: Rule, now: int, nextAbs: int -> int)
    requires InGuard(r, now)
    ensures Announced(r, now, nextAbs) == (if Guess(r, now) >= now then Guess(r, now) else now)
    ensures Announced(r, now, nextAbs) > FirstFire(r) <==> Guess(r, now) > FirstFire(r)
    ensures Announced(r, now, nextAbs) == FirstFire(r) <==> Guess(r, now) == FirstFire(r)
  {
  }

  /** When the predictor is right about an answered rule: always past its guard; inside it, exactly if
      its guess is the first second at which the rule fires, or the active window closes before both. */
  lemma PredictorRight(r: Rule, now: int, absDue: int -> bool, nextAbs: int -> int)
    requires Answered(r, now)
    ensures Right(r, now, Predict(r, now, nextAbs).1, absDue)
       <==> PastGuard(r, now) || Guess(r, now) == FirstFire(r)
            || (Guess(r, now) > r.config.end && FirstFire(r) > r.config.end)
  {
    var d := Predict(r, now, nextAbs).1;
    if PastGuard(r, now) {
      PredictorExact(r, now, absDue, nextAbs);
    } else {
      AnnouncedInGuard(r, now, nextAbs);
      GuardFiresFirst(r, now, absDue);
      RightIff(r, now, d, FirstFire(r), absDue);
    }
  }

  /** A rule is quiet from `now` up to the second `fire`, and fires then unless its active window has
      closed. */
  ghost predicate FiresFirst(r: Rule, now: int, fire: int, absDue: int -> bool) {
    && r.InWindow(now) && now <= fire
    && (forall t, later :: now <= t < fire ==> Poll(r, t, later, absDue).1 == Quiet)
    && (forall later :: Poll(r, fire, later, absDue).1 == (if fire <= r.config.end then First else Quiet))
  }

  /** Whatever is predicted for a rule of which that is known. */
  lemma RightIff(r: Rule, now: int, d: int, fire: int, absDue: int -> bool)
    requires FiresFirst(r, now, fire, absDue) && d >= 0
    ensures Right(r, now, d, absDue) <==> now + d == fire || (now + d > r.config.end && fire > r.config.end)
  {
    assert Poll(r, fire, fire, absDue).1 == (if fire <= r.config.end then First else Quiet);
    assert forall t, later :: now <= t && t > r.config.end ==> Poll(r, t, later, absDue).1 == Quiet;
  }

  lemma QuietIff(r: Rule, now: int, d: int, fire: int, absDue: int -> bool)
    requires FiresFirst(r, now, fire, absDue)
    ensures (forall t, later :: now <= t < now + d ==> Poll(r, t, later, absDue).1 == Quiet)
       <==> now + d <= fire || fire > r.config.end
  {
    assert Poll(r, fire, fire, absDue).1 == (if fire <= r.config.end then First else Quiet);
    assert forall t, later :: now <= t && t > r.config.end ==> Poll(r, t, later, absDue).1 == Quiet;
  }

  lemma GuardFiresFirst(r: Rule, now: int, absDue: int -> bool)
    requires InGuard(r, now)
    ensures FiresFirst(r, now, FirstFire(r), absDue)
  {
    forall t, later | now <= t < FirstFire(r) ensures Poll(r, t, later, absDue).1 == Quiet {
      GuardFires(r, now, t, later, absDue);
    }
    forall later
      ensures Poll(r, FirstFire(r), later, absDue).1 == (if FirstFire(r) <= r.config.end then First else Quiet)
    {
      GuardFires(r, now, FirstFire(r), later, absDue);
    }
  }

  /** A rule that sends at plain intervals, was answered, and is in its active window at `now`. */
  predicate OnInterval(r: Rule, now: int) {
    && r.config.kind == INTERVAL && r.response != 0 && r.access != 0 && r.InWindow(now)
    && Interval(r.config.sched) > 0
  }

  /** The seconds behind the last edge, the edges being the start and every interval behind it. */
  function BehindEdge(c: Config, t: int): (m: nat)
    requires Interval(c.sched) > 0
    ensures m < Interval(c.sched)
  {
    (t - c.start) % Interval(c.sched)
  }

  /** The first second from `now` on at which such a rule fires: past its guard, within a trigger width of
      an edge or more than an interval behind the last access. */
  function IntervalFire(r: Rule, now: int): (t: int)
    requires Interval(r.config.sched) > 0
    ensures t >= now
  {
    var n, trig := Interval(r.config.sched), Trigger(r.config.sched);
    var past := if r.access + trig > now then r.access + trig else now;
    var m := BehindEdge(r.config, past);
    if m < trig || past - r.access > n then past
    else if r.access + n + 1 < past + (n - m) then r.access + n + 1
    else past + (n - m)
  }

  lemma IntervalFires(r: Rule, now: int, t: int, later: int, absDue: int -> bool)
    requires OnInterval(r, now) && now <= t <= IntervalFire(r, now)
    ensures t < IntervalFire(r, now) ==> Poll(r, t, later, absDue).1 == Quiet
    ensures t == IntervalFire(r, now) ==> Poll(r, t, later, absDue).1 == (if t <= r.config.end then First else Quiet)
  {
    var c, n, trig := r.config, Interval(r.config.sched), Trigger(r.config.sched);
    var past := if r.access + trig > now then r.access + trig else now;
    if t >= past {
      ModAdd(past - c.start, t - past, n);
      assert past - c.start + (t - past) == t - c.start;
    }
  }

  lemma IntervalFiresFirst(r: Rule, now: int, absDue: int -> bool)
    requires OnInterval(r, now)
    ensures FiresFirst(r, now, IntervalFire(r, now), absDue)
  {
    var fire := IntervalFire(r, now);
    forall t, later | now <= t < fire ensures Poll(r, t, later, absDue).1 == Quiet {
      IntervalFires(r, now, t, later, absDue);
    }
    forall later ensures Poll(r, fire, later, absDue).1 == (if fire <= r.config.end then First else Quiet) {
      IntervalFires(r, now, fire, later, absDue);
    }
  }

  /** When the predictor is right about such a rule. */
  lemma IntervalRight(r: Rule, now: int, absDue: int -> bool, nextAbs: int -> int)
    requires OnInterval(r, now)
    ensures Right(r, now, Predict(r, now, nextAbs).1, absDue)
       <==> Announced(r, now, nextAbs) == IntervalFire(r, now)
            || (Announced(r, now, nextAbs) > r.config.end && IntervalFire(r, now) > r.config.end)
  {
    IntervalFiresFirst(r, now, absDue);
    RightIff(r, now, Predict(r, now, nextAbs).1, IntervalFire(r, now), absDue);
  }

  /** A rule that was sent `a` seconds into a window, the next of which opens no sooner than the guard
      ends, fires when that opens: an interval after the last, or when the period starts anew. */
  lemma FiresAtNextWindow(r: Rule)
    requires Interval(r.config.sched) > 0
    requires var s := r.config.sched;
             var a := r.access % Period(s) % Interval(s);
             var open := Min(Interval(s), Period(s) - (r.access % Period(s) - a));
             a < Trigger(s) && open - a >= Trigger(s)
    ensures var s := r.config.sched;
            var a := r.access % Period(s) % Interval(s);
            FirstFire(r) == r.access - a + Min(Interval(s), Period(s) - (r.access % Period(s) - a))
  {
    var s := r.config.sched;
    var p, n, trig := Period(s), Interval(s), Trigger(s);
    var m := r.access % p;
    ModAdd(r.access, trig, p);
    ModAdd(m, trig, n);
    ModAdd(0, 0, n);
  }

  /** So with whole intervals left in the period, the predictor is late exactly for a rule that was sent
      more than a fifth of the trigger width into its window, and on time at a fifth. */
  lemma LateByFifth(r: Rule, now: int, nextAbs: int -> int)
    requires InGuard(r, now) && r.access <= now
    requires var s := r.config.sched;
             var a := r.access % Period(s) % Interval(s);
             && a < Trigger(s) && Interval(s) - a >= Trigger(s)
             && r.access % Period(s) - a + Interval(s) <= Period(s)
    ensures var s := r.config.sched;
            var a := r.access % Period(s) % Interval(s);
            && (Announced(r, now, nextAbs) > FirstFire(r) <==> a > Trigger(s) / 5)
            && (Announced(r, now, nextAbs) == FirstFire(r) <==> a == Trigger(s) / 5)
  {
    FiresAtNextWindow(r);
    AnnouncedInGuard(r, now, nextAbs);
  }

  /** An instance: a rule for every quarter of an hour, sent at 920 s, is announced for 1808 s, and fires
      at 1800 s. */
  lemma GuardPredictsLate(absDue: int -> bool, nextAbs: int -> int)
    ensures var r := Rule(Config(1, ACTIVE, FIX_INTERVAL, [ANY, ANY, ANY, ANY, 15, ANY], [], [], 0, 10000, 60, 3),
                          920, 921, 1);
            && Announced(r, 921, nextAbs) == 1808
            && Poll(r, 1800, 1800, absDue).1 == First
  {
    QuarterHour();
  }

  /** Which announcements for such a rule are late, by the last edge before the clock: those of a rule that
      was last sent more than a second before it; or any time before it, if the window behind that edge
      is still open.  A rule announced for now is never late. */
  lemma IntervalLate(r: Rule, now: int, nextAbs: int -> int)
    requires OnInterval(r, now) && r.access <= now && Interval(r.config.sched) >= Trigger(r.config.sched)
    ensures var m := BehindEdge(r.config, now);
            Announced(r, now, nextAbs) > IntervalFire(r, now) <==>
              && Announced(r, now, nextAbs) != now
              && (r.access + 1 < now - m || (r.access < now - m && m < Trigger(r.config.sched)))
  {
    var c, n, trig := r.config, Interval(r.config.sched), Trigger(r.config.sched);
    var past := if r.access + trig > now then r.access + trig else now;
    ModWrap(now - c.start, past - now, n);
    assert now - c.start + (past - now) == past - c.start;
  }

  lemma ModWrap(x: int, e: int, w: int)
    requires 0 <= e <= w && w > 0
    ensures (x + e) % w == if x % w + e < w then x % w + e else x % w + e - w
  {
    assert x == (x / w) * w + x % w;
    if x % w + e < w {
      DivisionUnique(x + e, x / w, x % w + e, w);
    } else {
      assert (x / w + 1) * w == (x / w) * w + w;
      DivisionUnique(x + e, x / w + 1, x % w + e - w, w);
    }
  }

  /** An instance: a quarter-hour rule that was sent at 850 s is announced at 905 s for 1800 s, and fires at
      910 s. */
  lemma IntervalPredictsLate(absDue: int -> bool, nextAbs: int -> int)
    ensures var r := Rule(Config(1, ACTIVE, INTERVAL, [ANY, ANY, ANY, ANY, 15, ANY], [], [], 0, 10000, 60, 3),
                          850, 851, 1);
            && Announced(r, 905, nextAbs) == 1800
            && Poll(r, 910, 910, absDue).1 == First
  {
    QuarterHour();
  }

  lemma QuarterHour()
    ensures var s: Schedule := [ANY, ANY, ANY, ANY, 15, ANY];
            Interval(s) == 900 && Trigger(s) == 60 && Period(s) == 3600
  {
    var s: Schedule := [ANY, ANY, ANY, ANY, 15, ANY];
    IntervalInSeconds(s);
    WeightsAre();
    PeriodIsNextUnit(s, 4);
    TriggerIsSmallest(s, 4);
  }

  /** The kinds of rule for which the predictor computes for itself. */
  predicate Predictable(r: Rule) {
    r.config.kind != FIX_TIME
  }

  /** A rule that is inside its guard, or sends at plain intervals, does not fire in the next `d` seconds. */
  predicate HoldsFor(r: Rule, now: int, d: int) {
    && (InGuard(r, now) ==> now + d <= FirstFire(r) || FirstFire(r) > r.config.end)
    && (OnInterval(r, now) ==> now + d <= IntervalFire(r, now) || IntervalFire(r, now) > r.config.end)
  }

  /** Such a rule fires in no part of its predicted time, exactly if it holds so long. */
  lemma NeverEarly(r: Rule, now: int, d: int, absDue: int -> bool, nextAbs: int -> int)
    requires Predictable(r) && d <= Predict(r, now, nextAbs).1
    ensures (forall t, later :: now <= t < now + d ==> Poll(r, t, later, absDue).1 == Quiet)
       <==> HoldsFor(r, now, d)
  {
    if InGuard(r, now) {
      GuardFiresFirst(r, now, absDue);
      QuietIff(r, now, d, FirstFire(r), absDue);
    } else if OnInterval(r, now) {
      IntervalFiresFirst(r, now, absDue);
      QuietIff(r, now, d, IntervalFire(r, now), absDue);
    } else if PastGuard(r, now) {
      PredictorExact(r, now, absDue, nextAbs);
    }
  }

  /** What is predicted where nothing has to be computed, and what becomes of the rule: one that was never
      sent or not answered is due, as is one outside its active window, which a poll will find out;
      an inactive one and an answered one that waits for reports ask for nothing; absolute times are
      looked up. */
  lemma OtherPredictions(r: Rule, now: int, nextAbs: int -> int)
    ensures var c, d := r.config, Predict(r, now, nextAbs).1;
            && (c.active == 0 ==> d == 100000000)
            && (c.active != 0 && (r.access == 0 || r.response == 0) ==> d == 0)
            && (c.active != 0 && r.access != 0 && r.response != 0 ==>
                  if c.kind == 2 || c.kind == 3 then d == 100000000
                  else if now < c.start || c.end < now then d == 0
                  else c.kind == 0 ==> d == if nextAbs(now) < now then 100000000 else nextAbs(now) - now)
    ensures var r' := Predict(r, now, nextAbs).0;
            r' == r || (r.access > now && r' == r.(access := now))
  {
  }
}

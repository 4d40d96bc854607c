/** Schedule arithmetic of a rule: the six time fields of AccessNode/Shared/EventsStruct.cpp as a
    mixed-radix number, the trigger width and the base period. */
module Schedules {
  import opened Bytes

  const ANY: byte := 0xFF
  const YEAR: nat := 0
  const SECOND: nat := 5
  const TIME_SIZE: nat := 6
  const FIXED_TRIGGER: nat := 15

  type Schedule = s: seq<byte> | |s| == TIME_SIZE witness [0, 0, 0, 0, 0, 0]

  /** How many of a unit make one of the next larger: years, months, days, hours, minutes, seconds. */
  function Unit(i: nat): nat
    requires i < TIME_SIZE
  {
    [127, 12, 30, 24, 60, 60][i]
  }

  /** The seconds in one unit of field `i`. */
  function Weight(i: nat): (w: nat)
    requires i < TIME_SIZE
    ensures w > 0
    decreases TIME_SIZE - i
  {
    if i == SECOND then 1 else Unit(i + 1) * Weight(i + 1)
  }

  function FieldValue(s: Schedule, i: nat): nat
    requires i < TIME_SIZE
  {
    if s[i] == ANY then 0 else s[i]
  }

  /** The fields from `i` on, each times its weight. */
  function Weighted(s: Schedule, i: nat): nat
    requires i <= TIME_SIZE
    decreases TIME_SIZE - i
  {
    if i == TIME_SIZE then 0
    else
      NatTimes(FieldValue(s, i), Weight(i));
      FieldValue(s, i) * Weight(i) + Weighted(s, i + 1)
  }

  lemma NatTimes(a: nat, b: nat)
    ensures a * b >= 0
  {
  }

  /** The length of a schedule interval. */
  function Interval(s: Schedule): nat {
    Weighted(s, YEAR)
  }

  /** The last field that is set, or the year. */
  function LastSet(s: Schedule, i: nat): (k: nat)
    requires i < TIME_SIZE
    ensures k <= i && (k == YEAR || s[k] != ANY) && forall j :: k < j <= i ==> s[j] == ANY
  {
    if i == YEAR || s[i] != ANY then i else LastSet(s, i - 1)
  }

  /** The width of the window in which a schedule triggers. */
  function Trigger(s: Schedule): (n: nat)
    ensures n > 0
  {
    if s[SECOND] != ANY then FIXED_TRIGGER else Weight(LastSet(s, SECOND))
  }

  /** The first field that is set and not zero, or the number of fields. */
  function FirstSet(s: Schedule, i: nat): (k: nat)
    requires i <= TIME_SIZE
    ensures i <= k <= TIME_SIZE && (k < TIME_SIZE ==> s[k] != ANY && s[k] != 0)
    ensures forall j :: i <= j < k ==> s[j] == ANY || s[j] == 0
    decreases TIME_SIZE - i
  {
    if i == TIME_SIZE || (s[i] != ANY && s[i] != 0) then i else FirstSet(s, i + 1)
  }

  /** The period after which a schedule starts anew. */
  function Period(s: Schedule): (n: nat)
    ensures n > 0
  {
    var k := FirstSet(s, YEAR);
    if k == TIME_SIZE then 1 else Unit(k) * Weight(k)
  }

  lemma SplitSum(s: Schedule, i: nat)
    requires i < TIME_SIZE
    ensures Weighted(s, i) == FieldValue(s, i) * Weight(i) + Weighted(s, i + 1)
  {
  }

  lemma HornerStep(n: nat, v: nat, i: nat)
    requires i < SECOND
    ensures (n + v) * Unit(i + 1) * Weight(i + 1) == n * Weight(i) + v * Weight(i)
  {
    var u, w := Unit(i + 1), Weight(i + 1);
    assert (n + v) * u * w == (n + v) * (u * w) == n * (u * w) + v * (u * w);
  }

  /** `getSchedTimeInterval`: Horner's scheme computes the weighted sum of the fields. */
  method GetSchedTimeInterval(s: Schedule) returns (n: nat)
    ensures n == Interval(s)
  {
    n := 0;
    for i := YEAR to SECOND
      invariant n * Weight(i) + Weighted(s, i) == Interval(s)
    {
      ghost var before := n;
      HornerStep(n, FieldValue(s, i), i);
      if s[i] != ANY {
        n := n + s[i];
      }
      NatTimes(n, Unit(i + 1));
      n := n * Unit(i + 1);
      SplitSum(s, i);
    }
    assert Weighted(s, SECOND) == FieldValue(s, SECOND);
    if s[SECOND] != ANY {
      n := n + s[SECOND];
    }
  }

  /** `getTrigInterval`. */
  method GetTrigInterval(s: Schedule) returns (n: nat)
    ensures n == Trigger(s)
  {
    if s[SECOND] != ANY {
      return FIXED_TRIGGER;
    }
    n := 1;
    var i := SECOND;
    while i > YEAR && s[i] == ANY
      invariant YEAR <= i <= SECOND && n == Weight(i) && LastSet(s, i) == LastSet(s, SECOND)
    {
      n := n * Unit(i);
      i := i - 1;
    }
  }

  lemma Regroup(n: nat, u: nat, w: nat)
    ensures (n * u) * w == n * (u * w)
  {
  }

  /** `GetBasePeriod`. */
  method GetBasePeriod(s: Schedule) returns (n: nat)
    ensures n == Period(s)
  {
    var i := YEAR;
    while i < TIME_SIZE && (s[i] == ANY || s[i] == 0)
      invariant i <= TIME_SIZE && FirstSet(s, i) == FirstSet(s, YEAR)
    {
      i := i + 1;
    }
    n := 1;
    ghost var first := i;
    while i < TIME_SIZE
      invariant first <= i <= TIME_SIZE
      invariant i == first ==> n == 1
      invariant first < i ==> n * Weight(i - 1) == Unit(first) * Weight(first)
    {
      Regroup(n, Unit(i), Weight(i));
      n := n * Unit(i);
      i := i + 1;
    }
  }

  predicate InUnits(s: Schedule) {
    forall i :: 0 <= i < TIME_SIZE ==> s[i] == ANY || s[i] < Unit(i)
  }

  lemma LessThanNextUnit(v: nat, u: nat, w: nat, rest: nat)
    requires v < u && rest < w
    ensures v * w + rest < u * w
  {
    assert (v + 1) * w <= u * w;
  }

  lemma {:induction false} WeightedBelow(s: Schedule, i: nat)
    requires i < TIME_SIZE && InUnits(s)
    ensures Weighted(s, i) < Unit(i) * Weight(i)
    decreases TIME_SIZE - i
  {
    assert s[i] == ANY || s[i] < Unit(i);
    if i < SECOND {
      WeightedBelow(s, i + 1);
    }
    LessThanNextUnit(FieldValue(s, i), Unit(i), Weight(i), Weighted(s, i + 1));
  }

  lemma {:induction false} LeadingZeros(s: Schedule, i: nat)
    requires i <= TIME_SIZE
    ensures Weighted(s, i) == Weighted(s, FirstSet(s, i))
    decreases TIME_SIZE - i
  {
    if i < FirstSet(s, i) {
      LeadingZeros(s, i + 1);
    }
  }

  lemma SomethingCounts(s: Schedule)
    requires FirstSet(s, YEAR) < TIME_SIZE
    ensures Interval(s) > 0
  {
    var k := FirstSet(s, YEAR);
    LeadingZeros(s, YEAR);
    SplitSum(s, k);
    assert FieldValue(s, k) * Weight(k) > 0;
  }

  /** The interval is positive exactly when some field counts, and then less than the base period. */
  lemma IntervalBelowPeriod(s: Schedule)
    requires InUnits(s)
    ensures Interval(s) > 0 <==> exists i :: 0 <= i < TIME_SIZE && s[i] != ANY && s[i] != 0
    ensures Interval(s) < Period(s)
  {
    var k := FirstSet(s, YEAR);
    LeadingZeros(s, YEAR);
    if k < TIME_SIZE {
      WeightedBelow(s, k);
      SomethingCounts(s);
    }
  }

  lemma AtLeastOnce(d: int, w: int)
    requires w > 0
    ensures d >= 1 ==> d * w >= w
    ensures d <= -1 ==> d * w <= -w
  {
  }

  lemma DivisionUnique(a: int, q: int, r: int, w: int)
    requires 0 <= r < w && a == q * w + r
    ensures a % w == r
  {
    var d := q - a / w;
    assert d * w == q * w - (a / w) * w;
    AtLeastOnce(d, w);
  }

  lemma Multiple(a: int, b: int, w: int)
    requires w > 0 && a % w == 0 && b % w == 0
    ensures (a + b) % w == 0
  {
    var x, y := a / w, b / w;
    assert a + b == (x + y) * w;
    DivisionUnique(a + b, x + y, 0, w);
  }

  lemma MultipleOf(x: int, w: int)
    requires w > 0
    ensures (x * w) % w == 0
  {
    DivisionUnique(x * w, x, 0, w);
  }

  lemma {:induction false} WeightsDivide(i: nat, k: nat)
    requires i <= k < TIME_SIZE
    ensures Weight(i) % Weight(k) == 0
    decreases k - i
  {
    if i < k {
      WeightsDivide(i + 1, k);
      var q := Weight(i + 1) / Weight(k);
      assert Weight(i) == (Unit(i + 1) * q) * Weight(k);
      MultipleOf(Unit(i + 1) * q, Weight(k));
    } else {
      MultipleOf(1, Weight(k));
    }
  }

  lemma Times(v: nat, x: int, w: int)
    requires w > 0 && x % w == 0
    ensures (v * x) % w == 0
  {
    var q := x / w;
    assert v * x == (v * q) * w;
    MultipleOf(v * q, w);
  }

  lemma {:induction false} PartDivides(s: Schedule, i: nat, k: nat)
    requires i < TIME_SIZE && k < TIME_SIZE && (i > k ==> s[i] == ANY)
    ensures (FieldValue(s, i) * Weight(i)) % Weight(k) == 0
  {
    if i <= k {
      WeightsDivide(i, k);
      Times(FieldValue(s, i), Weight(i), Weight(k));
    }
  }

  lemma {:induction false} WeightedDivides(s: Schedule, i: nat, k: nat)
    requires i <= TIME_SIZE && k < TIME_SIZE && forall j :: k < j < TIME_SIZE ==> s[j] == ANY
    ensures Weighted(s, i) % Weight(k) == 0
    decreases TIME_SIZE - i
  {
    if i < TIME_SIZE {
      WeightedDivides(s, i + 1, k);
      PartDivides(s, i, k);
      var part, rest, w := FieldValue(s, i) * Weight(i), Weighted(s, i + 1), Weight(k);
      Multiple(part, rest, w);
      SplitSum(s, i);
      assert Weighted(s, i) == part + rest;
    }
  }

  lemma AtLeastDivisor(n: nat, w: nat)
    requires n > 0 && w > 0 && n % w == 0
    ensures n >= w
  {
  }

  /** With the seconds open, the trigger width divides both the interval and the base period of a
      schedule that sets some field, so that no window is cut off. */
  lemma TriggerDivides(s: Schedule)
    requires s[SECOND] == ANY && FirstSet(s, YEAR) < TIME_SIZE
    ensures Interval(s) % Trigger(s) == 0 && Period(s) % Trigger(s) == 0
    ensures Interval(s) >= Trigger(s)
  {
    var k, f := LastSet(s, SECOND), FirstSet(s, YEAR);
    WeightedDivides(s, YEAR, k);
    WeightsDivide(f, k);
    Times(Unit(f), Weight(f), Weight(k));
    SomethingCounts(s);
    AtLeastDivisor(Interval(s), Weight(k));
  }

  /** What the fields count for, in seconds: months of 30 days, years of twelve of them. */
  lemma WeightsAre()
    ensures Weight(5) == 1 && Weight(4) == 60 && Weight(3) == 3600
    ensures Weight(2) == 86400 && Weight(1) == 2592000 && Weight(0) == 31104000
  {
    assert Weight(5) == 1;
    assert Weight(4) == 60 * Weight(5);
    assert Weight(3) == 60 * Weight(4);
    assert Weight(2) == 24 * Weight(3);
    assert Weight(1) == 30 * Weight(2);
    assert Weight(0) == 12 * Weight(1);
  }

  /** A field that is open counts for nothing. */
  function Seconds(field: byte, weight: nat): nat {
    NatTimes(field, weight);
    if field == 255 then 0 else field * weight
  }

  /** The interval in seconds, field by field. */
  lemma IntervalInSeconds(s: Schedule)
    ensures Interval(s) == Seconds(s[0], 31104000) + Seconds(s[1], 2592000) + Seconds(s[2], 86400)
                           + Seconds(s[3], 3600) + Seconds(s[4], 60) + Seconds(s[5], 1)
  {
    WeightsAre();
    SplitSum(s, 0);
    SplitSum(s, 1);
    SplitSum(s, 2);
    SplitSum(s, 3);
    SplitSum(s, 4);
    SplitSum(s, 5);
    assert Weighted(s, 6) == 0;
  }

  /** The period is one unit of the next larger field than the first that counts, for years 127 of them,
      and a second if none counts. */
  lemma PeriodIsNextUnit(s: Schedule, k: nat)
    requires k <= TIME_SIZE && (k < TIME_SIZE ==> s[k] != 255 && s[k] != 0)
    requires forall j :: 0 <= j < k ==> s[j] == 255 || s[j] == 0
    ensures Period(s) == if k == TIME_SIZE then 1 else if k == 0 then 127 * 31104000 else Weight(k - 1)
  {
    WeightsAre();
    FirstIs(s, 0, k);
  }

  lemma {:induction false} FirstIs(s: Schedule, i: nat, k: nat)
    requires i <= k <= TIME_SIZE && (k < TIME_SIZE ==> s[k] != 255 && s[k] != 0)
    requires forall j :: i <= j < k ==> s[j] == 255 || s[j] == 0
    ensures FirstSet(s, i) == k
    decreases k - i
  {
    if i < k {
      FirstIs(s, i + 1, k);
    }
  }

  /** The trigger width is 15 seconds if the seconds are set, or else one unit of the smallest field that
      is, of the year if none is. */
  lemma TriggerIsSmallest(s: Schedule, k: nat)
    requires k < TIME_SIZE && (k == 0 || s[k] != 255) && forall j :: k < j < TIME_SIZE ==> s[j] == 255
    ensures Trigger(s) == if k == 5 then 15 else Weight(k)
  {
    LastIs(s, 5, k);
  }

  lemma {:induction false} LastIs(s: Schedule, i: nat, k: nat)
    requires k <= i < TIME_SIZE && (k == 0 || s[k] != 255) && forall j :: k < j <= i ==> s[j] == 255
    ensures LastSet(s, i) == k
    decreases i
  {
    if k < i {
      LastIs(s, i - 1, k);
    }
  }
}

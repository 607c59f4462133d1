/**
 SubscriptionSchedulerPlan.ets and the due test of SubscriptionGroups.ets. Times and
 intervals are numbers, that is `real`; undefined and NaN are values of their own.
 */
module Scheduler {
  import opened JsText
  import opened JsTrim
  import JsBits

  datatype Number = Undefined | NotANumber | Finite(value: real)

  datatype Group = Group(id: Text, enabled: bool, autoUpdate: bool, url: Text, interval: Number, updatedAt: real)

  datatype GroupPlan = GroupPlan(groupId: Text, workId: int, intervalMinutes: real, repeatCycleMs: real, nextDelayMs: real)

  datatype Plan = Plan(enabled: bool, enabledGroupCount: nat, intervalMinutes: real, repeatCycleMs: real,
                       groupPlans: seq<GroupPlan>)

  const DEFAULT_MINUTES := 1440.0
  const MIN_MINUTES := 15.0
  const LEGACY_WORK_ID := 260618
  const WORK_ID_BASE := 261000
  const WORK_ID_SPACE := 900000

  /** An interval is honoured exactly if it is a whole number of at least 15 minutes. */
  function NormalizedInterval(value: Number): (minutes: real)
    ensures minutes >= MIN_MINUTES && minutes.Floor as real == minutes
    ensures value == Finite(minutes) <==> value.Finite? && value.value >= MIN_MINUTES && value.value.Floor as real == value.value
  {
    if !value.Finite? || value.value.Floor as real != value.value || value.value <= 0.0 then DEFAULT_MINUTES
    else if value.value < MIN_MINUTES then MIN_MINUTES
    else value.value
  }

  function CycleMs(g: Group): (ms: real)
    ensures ms >= 900000.0
  {
    NormalizedInterval(g.interval) * 60.0 * 1000.0
  }

  predicate Schedulable(g: Group) { g.enabled && g.autoUpdate && |Trim(g.url)| > 0 }

  predicate Due(g: Group, now: real) {
    if !g.enabled || !g.autoUpdate || |Trim(g.url)| == 0 then false
    else if g.updatedAt <= 0.0 then true
    else now - g.updatedAt >= CycleMs(g)
  }

  function NextDelayMs(updatedAt: real, cycle: real, now: real): real {
    if updatedAt <= 0.0 || cycle <= 0.0 then 0.0
    else if updatedAt + cycle > now then updatedAt + cycle - now
    else 0.0
  }

  /**
   The two tests agree: a group is due exactly if it is schedulable with delay 0, and from now on
   it is due exactly from the end of its delay.
   */
  lemma DueIsNoDelay(g: Group, now: real, later: real)
    requires later >= now
    ensures Due(g, now) <==> Schedulable(g) && NextDelayMs(g.updatedAt, CycleMs(g), now) == 0.0
    ensures Due(g, later) <==> Schedulable(g) && later >= now + NextDelayMs(g.updatedAt, CycleMs(g), now)
  {
    hide Trim, CycleMs;
  }

  // ---- The same in numbers

  /** A whole number of minutes from 15 up is honoured, a smaller positive one is 15; what lies between, is not positive or no number is a day. */
  lemma IntervalExactly(value: Number, n: int)
    ensures n >= 15 ==> NormalizedInterval(Finite(n as real)) == n as real
    ensures 0 < n < 15 ==> NormalizedInterval(Finite(n as real)) == 15.0
    ensures value.Finite? && n as real < value.value < (n + 1) as real ==> NormalizedInterval(value) == 1440.0
    ensures !value.Finite? || value.value <= 0.0 ==> NormalizedInterval(value) == 1440.0
  {
    FloorOfWhole(n);
    if value.Finite? && n as real < value.value < (n + 1) as real {
      FloorBetween(value.value, n);
    }
    hide NormalizedInterval;
    IntervalCases(value);
    IntervalCases(Finite(n as real));
  }

  lemma FloorOfWhole(n: int)
    ensures (n as real).Floor == n
  {
  }

  lemma FloorBetween(x: real, n: int)
    requires n as real < x < (n + 1) as real
    ensures x.Floor as real != x
  {
    NothingBetween(x.Floor, n);
  }

  lemma NothingBetween(k: int, n: int)
    ensures k as real <= n as real || k as real >= (n + 1) as real
  {
    assert k <= n || k >= n + 1;
  }

  lemma IntervalCases(value: Number)
    ensures !value.Finite? || value.value.Floor as real != value.value || value.value <= 0.0 ==> NormalizedInterval(value) == 1440.0
    ensures value.Finite? && value.value.Floor as real == value.value && 0.0 < value.value < 15.0 ==> NormalizedInterval(value) == 15.0
    ensures value.Finite? && value.value.Floor as real == value.value && value.value >= 15.0 ==> NormalizedInterval(value) == value.value
  {
  }

  /** An automatic group with an address is due when it was never updated, or 60000 milliseconds a minute ago. */
  lemma DueExactly(g: Group, now: real)
    ensures Due(g, now) <==>
      && g.enabled && g.autoUpdate && HasInk(g.url)
      && (g.updatedAt <= 0.0 || now >= g.updatedAt + 60000.0 * NormalizedInterval(g.interval))
  {
    TrimKeepsInk(g.url);
    hide Trim, HasInk, NormalizedInterval;
  }

  /** Its plan: the interval, the same in milliseconds, and what is left of it since the last update. */
  lemma PlanExactly(g: Group, now: real)
    ensures var p := PlanOf(g, now); var cycle := 60000.0 * NormalizedInterval(g.interval);
      && p.groupId == g.id && p.intervalMinutes == NormalizedInterval(g.interval) && p.repeatCycleMs == cycle
      && p.nextDelayMs == (if g.updatedAt > 0.0 && g.updatedAt + cycle > now then g.updatedAt + cycle - now else 0.0)
  {
    hide NormalizedInterval, WorkId;
  }

  // ---- Work ids

  /** The base-31 polynomial of the id's code units. */
  function Polynomial(id: Text): nat {
    if id == [] then 0 else Polynomial(id[..|id| - 1]) * 31 + id[|id| - 1]
  }

  function WorkId(id: Text): int { WORK_ID_BASE + Polynomial(id) % WORK_ID_SPACE }

  lemma ReduceEarly(a: nat, c: nat)
    ensures (a % WORK_ID_SPACE * 31 + c) % WORK_ID_SPACE == (a * 31 + c) % WORK_ID_SPACE
  {
    var q, r := a / WORK_ID_SPACE, a % WORK_ID_SPACE;
    var reduced := r * 31 + c;
    JsBits.DivUnique(a * 31 + c, WORK_ID_SPACE, reduced / WORK_ID_SPACE + 31 * q, reduced % WORK_ID_SPACE);
  }

  /** What the loop computes at position index, before it reduces. */
  function Unreduced(id: Text, index: nat): nat
    requires index < |id|
  {
    Polynomial(id[..index]) % WORK_ID_SPACE * 31 + id[index]
  }

  /** The hash is reduced at every step, and no intermediate value leaves 32 bits. */
  method WorkIdForGroup(id: Text) returns (workId: int)
    ensures workId == WorkId(id)
    ensures WORK_ID_BASE <= workId < WORK_ID_BASE + WORK_ID_SPACE && workId != LEGACY_WORK_ID
    ensures forall index | 0 <= index < |id| :: Unreduced(id, index) < 0x1_0000_0000
  {
    var hash := 0;
    for index := 0 to |id|
      invariant 0 <= hash < WORK_ID_SPACE
      invariant hash == Polynomial(id[..index]) % WORK_ID_SPACE
      invariant forall i | 0 <= i < index :: Unreduced(id, i) < 0x1_0000_0000
    {
      assert id[..index + 1][..index] == id[..index];
      ReduceEarly(Polynomial(id[..index]), id[index]);
      assert hash * 31 + id[index] == Unreduced(id, index);
      hash := (hash * 31 + id[index]) % WORK_ID_SPACE;
    }
    assert id[..|id|] == id;
    return WORK_ID_BASE + hash;
  }

  /** The hash starts at 0 and takes one unit at a time, times 31, modulo 900000; the id is 261000 more. */
  lemma WorkIdStep(id: Text, u: Unit)
    ensures WorkId([]) == 261000
    ensures WorkId(id + [u]) == 261000 + ((WorkId(id) - 261000) * 31 + u) % 900000
  {
    assert (id + [u])[..|id|] == id;
    ReduceEarly(Polynomial(id), u);
  }

  /** `Aa` has the id 263112. */
  lemma KnownWorkId(id: Text)
    requires id == [0x41, 0x61]
    ensures WorkId(id) == 263112
  {
    hide WorkId;
    WorkIdStep([], 0x41);
    assert [] + [0x41] == [0x41] && [0x41] + [0x61] == id;
    WorkIdStep([0x41], 0x61);
  }

  /** Two groups share a work id exactly if their polynomials differ by a multiple of the id space. */
  lemma SameWorkId(a: Text, b: Text)
    ensures WorkId(a) == WorkId(b) <==> (Polynomial(a) - Polynomial(b)) % WORK_ID_SPACE == 0
  {
    hide Polynomial;
    SameRemainder(Polynomial(a), Polynomial(b));
  }

  lemma SameRemainder(x: nat, y: nat)
    ensures x % WORK_ID_SPACE == y % WORK_ID_SPACE <==> (x - y) % WORK_ID_SPACE == 0
  {
    var d, e := x / WORK_ID_SPACE, y / WORK_ID_SPACE;
    if x % WORK_ID_SPACE == y % WORK_ID_SPACE {
      JsBits.DivUnique(x - y, WORK_ID_SPACE, d - e, 0);
    }
    if (x - y) % WORK_ID_SPACE == 0 {
      JsBits.DivUnique(x, WORK_ID_SPACE, e + (x - y) / WORK_ID_SPACE, y % WORK_ID_SPACE);
    }
  }

  /** Two groups can share a work id: `Aa` and `BB`, and whatever follows them. */
  lemma {:induction false} WorkIdsCollide(rest: Text)
    ensures [0x41, 0x61] + rest != [0x42, 0x42] + rest
    ensures WorkId([0x41, 0x61] + rest) == WorkId([0x42, 0x42] + rest)
  {
    var a: Text, b: Text := [0x41, 0x61], [0x42, 0x42];
    assert (a + rest)[0] != (b + rest)[0];
    SamePolynomial(a, b, rest);
  }

  lemma {:induction false} SamePolynomial(a: Text, b: Text, rest: Text)
    requires a == [0x41, 0x61] && b == [0x42, 0x42]
    ensures Polynomial(a + rest) == Polynomial(b + rest)
  {
    if rest == [] {
      assert a + rest == a && b + rest == b;
      assert a[..1] == [0x41] && b[..1] == [0x42];
      assert Polynomial([0x41]) == 0x41 && Polynomial([0x42]) == 0x42;
    } else {
      var n := |rest| - 1;
      assert (a + rest)[..|a| + n] == a + rest[..n];
      assert (b + rest)[..|b| + n] == b + rest[..n];
      SamePolynomial(a, b, rest[..n]);
    }
  }

  // ---- Plans

  function PlanOf(g: Group, now: real): GroupPlan {
    GroupPlan(g.id, WorkId(g.id), NormalizedInterval(g.interval), CycleMs(g), NextDelayMs(g.updatedAt, CycleMs(g), now))
  }

  /** One plan for each schedulable group, in order. */
  function PlansOf(groups: seq<Group>, now: real): seq<GroupPlan> {
    if groups == [] then []
    else
      var n := |groups| - 1;
      PlansOf(groups[..n], now) + (if Schedulable(groups[n]) then [PlanOf(groups[n], now)] else [])
  }

  method BuildGroupPlans(groups: seq<Group>, now: real) returns (plans: seq<GroupPlan>)
    ensures plans == PlansOf(groups, now)
  {
    plans := [];
    for index := 0 to |groups|
      invariant plans == PlansOf(groups[..index], now)
    {
      assert groups[..index + 1][..index] == groups[..index];
      var group := groups[index];
      if !Schedulable(group) {
        continue;
      }
      var minutes := NormalizedInterval(group.interval);
      var cycle := minutes * 60.0 * 1000.0;
      var workId := WorkIdForGroup(group.id);
      plans := plans + [GroupPlan(group.id, workId, minutes, cycle, NextDelayMs(group.updatedAt, cycle, now))];
    }
    assert groups[..|groups|] == groups;
  }

  /** The shortest interval of the plans, 0 if there are none. */
  predicate IsShortest(minutes: real, plans: seq<GroupPlan>) {
    if plans == [] then minutes == 0.0
    else
      && (exists p | p in plans :: p.intervalMinutes == minutes)
      && (forall p | p in plans :: minutes <= p.intervalMinutes)
  }

  lemma ShortestOfNone()
    ensures IsShortest(0.0, [])
  {
  }

  lemma ShortestStep(minutes: real, plans: seq<GroupPlan>, index: nat)
    requires index < |plans| && IsShortest(minutes, plans[..index])
    requires forall p | p in plans :: p.intervalMinutes >= MIN_MINUTES
    ensures var interval := plans[index].intervalMinutes;
      IsShortest(if minutes == 0.0 || interval < minutes then interval else minutes, plans[..index + 1])
  {
    assert plans[..index + 1] == plans[..index] + [plans[index]];
    assert forall p | p in plans[..index] :: p in plans;
  }

  lemma ShortestIsLongEnough(minutes: real, plans: seq<GroupPlan>)
    requires IsShortest(minutes, plans) && forall p | p in plans :: p.intervalMinutes >= MIN_MINUTES
    ensures if plans == [] then minutes == 0.0 else minutes >= MIN_MINUTES
  {
  }

  method BuildSchedulePlan(groups: seq<Group>, now: real) returns (plan: Plan)
    ensures plan.groupPlans == PlansOf(groups, now)
    ensures plan.enabledGroupCount == |plan.groupPlans| && (plan.enabled <==> plan.groupPlans != [])
    ensures plan.enabled <==> exists g | g in groups :: Schedulable(g)
    ensures IsShortest(plan.intervalMinutes, plan.groupPlans)
    ensures plan.enabled ==> plan.intervalMinutes >= MIN_MINUTES
    ensures plan.repeatCycleMs == plan.intervalMinutes * 60.0 * 1000.0
  {
    var plans := BuildGroupPlans(groups, now);
    PlansAreOfGroups(groups, now);
    hide IsShortest, PlansOf, Schedulable, WorkId;
    var count, minutes := 0, 0.0;
    ShortestOfNone();
    for index := 0 to |plans|
      invariant count == index
      invariant IsShortest(minutes, plans[..index])
    {
      var interval := plans[index].intervalMinutes;
      assert plans[index] in plans;
      ShortestStep(minutes, plans, index);
      count := count + 1;
      if minutes == 0.0 || interval < minutes {
        minutes := interval;
      }
    }
    assert plans[..|plans|] == plans;
    ShortestIsLongEnough(minutes, plans);
    return Plan(count > 0, count, minutes, if minutes > 0.0 then minutes * 60.0 * 1000.0 else 0.0, plans);
  }

  lemma {:induction false} PlansAreOfGroups(groups: seq<Group>, now: real)
    ensures forall g | g in groups && Schedulable(g) :: PlanOf(g, now) in PlansOf(groups, now)
    ensures PlansOf(groups, now) != [] <==> exists g | g in groups :: Schedulable(g)
    ensures forall p | p in PlansOf(groups, now) ::
              p.intervalMinutes >= MIN_MINUTES && exists g | g in groups && Schedulable(g) :: p == PlanOf(g, now)
  {
    hide Schedulable, WorkId, CycleMs, NextDelayMs;
    if groups != [] {
      var n := |groups| - 1;
      PlansAreOfGroups(groups[..n], now);
      assert forall g :: g in groups <==> g in groups[..n] || g == groups[n];
      forall p | p in PlansOf(groups, now)
        ensures p.intervalMinutes >= MIN_MINUTES && exists g | g in groups && Schedulable(g) :: p == PlanOf(g, now)
      {
        if p in PlansOf(groups[..n], now) {
          var g :| g in groups[..n] && Schedulable(g) && p == PlanOf(g, now);
          assert g in groups;
        } else {
          assert p == PlanOf(groups[n], now);
        }
      }
    }
  }

  /** Whatever the plan says is when something is due: at any later time, exactly if some plan's delay is over. */
  lemma PlanWakesWhenDue(groups: seq<Group>, now: real, later: real)
    requires later >= now
    ensures (exists g | g in groups :: Due(g, later)) <==>
            (exists p | p in PlansOf(groups, now) :: later >= now + p.nextDelayMs)
  {
    PlansAreOfGroups(groups, now);
    hide PlansOf, Due, Schedulable, WorkId, CycleMs, NextDelayMs;
    if g :| g in groups && Due(g, later) {
      DueIsNoDelay(g, now, later);
      assert PlanOf(g, now) in PlansOf(groups, now);
    }
    if p :| p in PlansOf(groups, now) && later >= now + p.nextDelayMs {
      var g :| g in groups && Schedulable(g) && p == PlanOf(g, now);
      DueIsNoDelay(g, now, later);
    }
  }
}

/** The publication experiment: delayed, corrected and missing feedback queued
    against two evidence sets, and the exact counts of a whole run. The learner
    and the control plane are an arbitrary oracle. */
module Experiment {
  import opened Basics

  datatype Scenario =
    | Beneficial | Harmful | Delayed | RevisedShort | RevisedLong | Drift | Missing | AssessedUnknown | CorrelatedForks

  datatype Strategy = Baseline | GuardedFixed | Thompson | ThompsonWithoutAdoptionMonitor

  datatype Arm = Baseline | Challenger

  datatype Revision = Pending | Provisional | Final

  datatype Potential = Potential(
    baselineQuality: real, candidateQuality: real, resourceNoise: real,
    delay: nat, correctionDelay: Option<nat>, missing: bool, family: string)

  datatype Observation = Observation(
    key: string, sequence: nat, family: string, revision: Revision, arm: Arm,
    quality: Option<real>, cost: Option<nat>, latency: Option<nat>)

  datatype Feedback = Feedback(due: nat, monitoring: bool, observation: Observation)

  datatype Allocation = Allocation(arm: Arm, sequence: nat)

  /** Every answer the control plane and the learner give during one run: whether
      the block is adopted when a session arrives, the trial reservation, the next
      monitoring sequence (none on overflow), whether reconciling at a time
      succeeds, and whether the closing summary and quota checks do. */
  datatype Oracle = Oracle(
    adopted: nat -> bool,
    reserve: nat -> Result<Option<Allocation>>,
    next: nat -> Option<nat>,
    reconciles: nat -> bool,
    closes: bool)

  datatype Setup = Setup(scenario: Scenario, strategy: Strategy, oracle: Oracle, potentials: seq<Potential>)

  /** What the workload generator produces for each scenario. */
  predicate Generated(scenario: Scenario, p: Potential) {
    && 0.0 <= p.baselineQuality <= 1.0 && 0.0 <= p.candidateQuality <= 1.0 && p.family != ""
    && (if scenario.Delayed? then 8 <= p.delay <= 96 else p.delay == 1)
    && (match scenario
        case RevisedShort => p.correctionDelay.Some? && 8 <= p.correctionDelay.value <= 64
        case RevisedLong => p.correctionDelay.Some? && 96 <= p.correctionDelay.value <= 384
        case _ => p.correctionDelay.None?)
    && (p.missing ==> scenario.Missing? || scenario.AssessedUnknown?)
  }

  predicate Workload(c: Setup) {
    forall s :: 0 <= s < |c.potentials| ==> Generated(c.scenario, c.potentials[s])
  }

  // ---- Session keys ------------------------------------------------------

  const DIGITS: string := "0123456789"

  function Decimal(n: nat): string {
    if n < 10 then [DIGITS[n]] else Decimal(n / 10) + [DIGITS[n % 10]]
  }

  function Key(t: nat): string {
    "session-" + Decimal(t)
  }

  lemma {:induction false} DecimalIsInjective(m: nat, n: nat)
    requires Decimal(m) == Decimal(n)
    ensures m == n
  {
    var (a, b) := (Decimal(m), Decimal(n));
    assert a[|a| - 1] == DIGITS[m % 10] && b[|b| - 1] == DIGITS[n % 10];
    if m >= 10 && n >= 10 {
      assert Decimal(m / 10) == a[..|a| - 1] && Decimal(n / 10) == b[..|b| - 1];
      DecimalIsInjective(m / 10, n / 10);
    } else {
      DecimalNotEmpty(m / 10);
      DecimalNotEmpty(n / 10);
    }
  }

  lemma DecimalNotEmpty(n: nat)
    ensures Decimal(n) != []
  {
  }

  lemma KeyIsInjective(m: nat, n: nat)
    requires Key(m) == Key(n)
    ensures m == n
  {
    assert Decimal(m) == Key(m)[8..] && Decimal(n) == Key(n)[8..];
    DecimalIsInjective(m, n);
  }

  ghost predicate Issued(key: string, t: nat) {
    exists s: nat :: s < t && key == Key(s)
  }

  // ---- What one arrival owes ---------------------------------------------

  datatype Decision = Trial(arm: Arm, sequence: nat) | Monitored(sequence: nat) | Unenrolled

  function Decide(strategy: Strategy, oracle: Oracle, t: nat): Result<Decision> {
    if strategy == Strategy.Baseline then Ok(Unenrolled)
    else if oracle.adopted(t) then
      (match oracle.next(t)
       case None => Err
       case Some(sequence) => Ok(Monitored(sequence)))
    else
      match oracle.reserve(t)
      case Err => Err
      case Ok(None) => Ok(Unenrolled)
      case Ok(Some(a)) => Ok(Trial(a.arm, a.sequence))
  }

  function Decided(c: Setup, t: nat): Decision {
    match Decide(c.strategy, c.oracle, t)
    case Err => Unenrolled
    case Ok(decision) => decision
  }

  function ArmOf(decision: Decision): Arm {
    match decision
    case Trial(arm, _) => arm
    case Monitored(_) => Arm.Challenger
    case Unenrolled => Arm.Baseline
  }

  function Units(amount: real): nat {
    if amount < 0.0 then 0 else amount.Floor
  }

  function PendingOf(t: nat, p: Potential, decision: Decision): Observation
    requires !decision.Unenrolled?
  {
    Observation(Key(t), decision.sequence, p.family, Pending, ArmOf(decision), None, None, None)
  }

  function FinalOf(t: nat, p: Potential, decision: Decision): Observation
    requires !decision.Unenrolled?
  {
    var baseline := ArmOf(decision) == Arm.Baseline;
    var quality := if baseline then p.baselineQuality else p.candidateQuality;
    PendingOf(t, p, decision).(
      revision := Final,
      quality := if p.missing then None else Some(quality),
      cost := Some(Units((if baseline then 1000000.0 else 350000.0) * p.resourceNoise)),
      latency := Some(Units((if baseline then 60000.0 else 40000.0) * p.resourceNoise)))
  }

  /** The feedback that will ever arrive for one session, in order. */
  function Feed(scenario: Scenario, t: nat, p: Potential, decision: Decision): seq<Feedback> {
    if decision.Unenrolled? || (p.missing && !scenario.AssessedUnknown?) then []
    else
      var final := FinalOf(t, p, decision);
      if p.correctionDelay.Some? && ArmOf(decision) == Arm.Challenger then
        [Feedback(t + 1, decision.Monitored?, final.(revision := Provisional, quality := Some(0.98))),
         Feedback(t + p.correctionDelay.value, decision.Monitored?, final)]
      else [Feedback(t + p.delay, decision.Monitored?, final)]
  }

  function FeedAt(c: Setup, s: nat): seq<Feedback>
    requires s < |c.potentials|
  {
    Feed(c.scenario, s, c.potentials[s], Decided(c, s))
  }

  predicate Acceptable(o: Observation) {
    o.key != "" && o.family != "" && (o.quality.Some? ==> 0.0 <= o.quality.value <= 1.0)
  }

  function Replace(data: map<string, Observation>, o: Observation): Result<map<string, Observation>> {
    if Acceptable(o) then Ok(data[o.key := o]) else Err
  }

  lemma FeedShape(c: Setup, s: nat)
    requires Workload(c) && s < |c.potentials|
    ensures |FeedAt(c, s)| <= 2
    ensures |FeedAt(c, s)| == 2 ==> FeedAt(c, s)[0].due < FeedAt(c, s)[1].due && FeedAt(c, s)[0].observation.quality.Some?
    ensures forall f :: f in FeedAt(c, s) ==>
              && s < f.due && f.observation.key == Key(s) && f.monitoring == Decided(c, s).Monitored?
              && !Decided(c, s).Unenrolled? && Acceptable(f.observation)
  {
    assert Generated(c.scenario, c.potentials[s]);
  }

  // ---- The queue ---------------------------------------------------------

  /** The queued feedback of one session, in queue order. */
  function Left(queue: seq<Feedback>, key: string): seq<Feedback> {
    if queue == [] then []
    else
      var last := |queue| - 1;
      Left(queue[..last], key) + (if queue[last].observation.key == key then [queue[last]] else [])
  }

  /** The feedback not yet due, in queue order. */
  function Later(queue: seq<Feedback>, time: nat): seq<Feedback> {
    if queue == [] then []
    else
      var last := |queue| - 1;
      Later(queue[..last], time) + (if queue[last].due > time then [queue[last]] else [])
  }

  lemma {:induction false} LeftMembers(queue: seq<Feedback>, key: string)
    ensures forall f :: f in Left(queue, key) <==> f in queue && f.observation.key == key
    decreases |queue|
  {
    if queue != [] {
      var last := |queue| - 1;
      LeftMembers(queue[..last], key);
      assert queue == queue[..last] + [queue[last]];
    }
  }

  /** Nothing due stays, nothing else goes: each pass over due items shortens the queue. */
  lemma {:induction false} LaterMembers(queue: seq<Feedback>, time: nat)
    ensures forall f :: f in Later(queue, time) <==> f in queue && f.due > time
    ensures |Later(queue, time)| <= |queue|
    ensures (exists f :: f in queue && f.due <= time) ==> |Later(queue, time)| < |queue|
    decreases |queue|
  {
    if queue != [] {
      var last := |queue| - 1;
      LaterMembers(queue[..last], time);
      assert queue == queue[..last] + [queue[last]];
    }
  }

  lemma LaterOfNone(time: nat)
    ensures Later([], time) == []
  {
  }

  lemma LaterNext(queue: seq<Feedback>, k: nat, time: nat)
    requires k < |queue|
    ensures Later(queue[..k + 1], time) == Later(queue[..k], time) + (if queue[k].due > time then [queue[k]] else [])
  {
    assert queue[..k + 1][..k] == queue[..k];
  }

  lemma {:induction false} LeftOfConcat(a: seq<Feedback>, b: seq<Feedback>, key: string)
    ensures Left(a + b, key) == Left(a, key) + Left(b, key)
    decreases |b|
  {
    if b == [] {
      assert a + b == a;
    } else {
      var last := |b| - 1;
      LeftOfConcat(a, b[..last], key);
      assert (a + b)[..|a + b| - 1] == a + b[..last];
    }
  }

  lemma {:induction false} LeftOfSame(queue: seq<Feedback>, key: string)
    requires forall f :: f in queue ==> f.observation.key == key
    ensures Left(queue, key) == queue
    decreases |queue|
  {
    if queue != [] {
      var last := |queue| - 1;
      assert queue == queue[..last] + [queue[last]];
      LeftOfSame(queue[..last], key);
    }
  }

  // ---- The books ---------------------------------------------------------

  datatype Books = Books(
    trial: map<string, Observation>,
    deployment: map<string, Observation>,
    resolved: set<string>,
    feedback: seq<Feedback>,
    labels: nat,
    unenrolled: nat,
    challengers: nat)

  /** What an evidence set shows for a session after d deliveries. */
  function Shown(c: Setup, s: nat, d: nat): Observation
    requires s < |c.potentials| && !Decided(c, s).Unenrolled? && d <= |FeedAt(c, s)|
  {
    if d == 0 then PendingOf(s, c.potentials[s], Decided(c, s)) else FeedAt(c, s)[d - 1].observation
  }

  /** One session's entries: what is queued is the end of its feedback, and its
      evidence set shows the last delivery. */
  ghost predicate Recorded(c: Setup, b: Books, s: nat)
    requires s < |c.potentials|
  {
    var (key, feed, left) := (Key(s), FeedAt(c, s), Left(b.feedback, Key(s)));
    var d := |feed| - |left|;
    && 0 <= d && left == feed[d..]
    && (key in b.trial <==> Decided(c, s).Trial?)
    && (key in b.deployment <==> Decided(c, s).Monitored?)
    && (key in b.trial ==> b.trial[key] == Shown(c, s, d))
    && (key in b.deployment ==> b.deployment[key] == Shown(c, s, d))
    && (key in b.resolved <==> key in b.trial && d > 0)
  }

  ghost predicate OnlyIssued(t: nat, b: Books) {
    && (forall k :: k in b.trial || k in b.deployment || k in b.resolved ==> Issued(k, t))
    && (forall f :: f in b.feedback ==> Issued(f.observation.key, t))
  }

  function Relabelled(c: Setup, t: nat, feedback: seq<Feedback>): set<nat>
    requires t <= |c.potentials|
  {
    set s: nat | s < t && |FeedAt(c, s)| == 2 && Left(feedback, Key(s)) == []
  }

  function Challengers(c: Setup, t: nat): set<nat> {
    set s: nat | s < t && ArmOf(Decided(c, s)) == Arm.Challenger
  }

  ghost predicate Balanced(c: Setup, t: nat, b: Books) {
    && t <= |c.potentials|
    && (forall s: nat :: s < t ==> Recorded(c, b, s))
    && OnlyIssued(t, b)
    && |b.trial| + |b.deployment| + b.unenrolled == t
    && b.labels == |Relabelled(c, t, b.feedback)|
    && b.challengers == |Challengers(c, t)|
  }

  /** Delivering one item. */
  function Deliver1(b: Books, f: Feedback): Books {
    var (key, data) := (f.observation.key, if f.monitoring then b.deployment else b.trial);
    var relabels := if key in data && data[key].quality.Some? then 1 else 0;
    if f.monitoring then b.(deployment := b.deployment[key := f.observation], labels := b.labels + relabels)
    else b.(trial := b.trial[key := f.observation], labels := b.labels + relabels, resolved := b.resolved + {key})
  }

  /** The first due item of the queue is the next one its session owes. */
  lemma DueIsNext(c: Setup, t: nat, b: Books, kept: seq<Feedback>, f: Feedback, rest: seq<Feedback>, time: nat) returns (s: nat)
    requires Workload(c) && Balanced(c, t, b) && b.feedback == kept + [f] + rest
    requires f.due <= time && forall k :: k in kept ==> k.due > time
    ensures s < t && f.observation.key == Key(s)
    ensures Left(b.feedback, Key(s)) == [f] + Left(rest, Key(s)) && Left(kept + rest, Key(s)) == Left(rest, Key(s))
    ensures forall other: nat :: other < t && other != s ==> Left(kept + rest, Key(other)) == Left(b.feedback, Key(other))
  {
    hide Left, FeedAt, Key, Workload, Shown, Relabelled, Challengers, Decided;
    assert f in b.feedback;
    s :| s < t && f.observation.key == Key(s);
    assert Recorded(c, b, s);
    SplitLeft(kept, f, rest, Key(s));
    LeftMembers(kept, Key(s));
    FirstDue(c, s, Left(kept, Key(s)), f, Left(rest, Key(s)), time);
    forall other: nat | other < t && other != s ensures Left(kept + rest, Key(other)) == Left(b.feedback, Key(other)) {
      SplitLeft(kept, f, rest, Key(other));
      if Key(other) == Key(s) { KeyIsInjective(other, s); }
    }
  }

  /** Feedback of one session falls due in order. */
  lemma FirstDue(c: Setup, s: nat, early: seq<Feedback>, f: Feedback, late: seq<Feedback>, time: nat)
    requires Workload(c) && s < |c.potentials| && f.due <= time && forall k :: k in early ==> k.due > time
    requires var left := early + [f] + late; |left| <= |FeedAt(c, s)| && left == FeedAt(c, s)[|FeedAt(c, s)| - |left|..]
    ensures early == []
  {
    hide FeedAt, Workload;
    var (feed, left) := (FeedAt(c, s), early + [f] + late);
    assert left[|early|] == f;
    assert early != [] ==> left[0] == early[0] && early[0] in early;
    FeedShape(c, s);
    assert |left| == 2 ==> left == feed;
  }

  lemma SplitLeft(kept: seq<Feedback>, f: Feedback, rest: seq<Feedback>, key: string)
    ensures Left(kept + [f] + rest, key) == Left(kept, key) + (if f.observation.key == key then [f] else []) + Left(rest, key)
    ensures Left(kept + rest, key) == Left(kept, key) + Left(rest, key)
  {
    LeftOfConcat(kept + [f], rest, key);
    LeftOfConcat(kept, [f], key);
    LeftOfConcat(kept, rest, key);
    assert [f][..0] == [];
  }

  lemma DeliverBalanced(c: Setup, t: nat, b: Books, kept: seq<Feedback>, f: Feedback, rest: seq<Feedback>, time: nat)
    requires Workload(c) && Balanced(c, t, b) && b.feedback == kept + [f] + rest
    requires f.due <= time && forall k :: k in kept ==> k.due > time
    ensures Acceptable(f.observation)
    ensures Balanced(c, t, Deliver1(b, f).(feedback := kept + rest))
  {
    hide Left, FeedAt, Key, Recorded, OnlyIssued, Issued, Relabelled, Challengers, Workload, Acceptable, Deliver1;
    var s := DueIsNext(c, t, b, kept, f, rest, time);
    var after := Deliver1(b, f).(feedback := kept + rest);
    DueIsOwed(c, b, s, f);
    DeliverRecorded(c, b, after, s, f);
    forall other: nat | other < t && other != s ensures Recorded(c, after, other) {
      if Key(other) == Key(s) { KeyIsInjective(other, s); }
      OtherRecorded(c, b, after, other, f);
    }
    DeliverIssued(t, b, kept, f, rest, s);
    RelabelledByDelivery(c, t, b, kept + rest, s);
    DeliverCounters(b, f);
  }

  /** The delivery loop after i items: the kept ones are those not due, and the
      books balance with them and the rest of the taken queue still waiting. */
  ghost predicate Midway(c: Setup, t: nat, b: Books, pending: seq<Feedback>, taken: seq<Feedback>, i: nat, time: nat) {
    && Workload(c)
    && i <= |taken|
    && Balanced(c, t, b.(feedback := pending + taken[i..]))
    && pending == Later(taken[..i], time)
  }

  lemma MidwayStart(c: Setup, t: nat, b: Books, time: nat)
    requires Workload(c) && Balanced(c, t, b)
    ensures Midway(c, t, b.(feedback := []), [], b.feedback, 0, time)
  {
    hide Balanced, Workload;
    assert [] + b.feedback[0..] == b.feedback;
    LaterOfNone(time);
  }

  lemma MidwayKeep(c: Setup, t: nat, b: Books, pending: seq<Feedback>, taken: seq<Feedback>, i: nat, time: nat)
    requires Midway(c, t, b, pending, taken, i, time) && i < |taken| && taken[i].due > time
    ensures Midway(c, t, b, pending + [taken[i]], taken, i + 1, time)
  {
    hide Balanced, Workload;
    LaterNext(taken, i, time);
    assert pending + taken[i..] == pending + [taken[i]] + taken[i + 1..];
  }

  lemma MidwayDeliver(c: Setup, t: nat, b: Books, pending: seq<Feedback>, taken: seq<Feedback>, i: nat, time: nat)
    requires Midway(c, t, b, pending, taken, i, time) && i < |taken| && taken[i].due <= time
    ensures Acceptable(taken[i].observation)
    ensures Midway(c, t, Deliver1(b, taken[i]), pending, taken, i + 1, time)
  {
    hide Balanced, Workload, Acceptable;
    LaterNext(taken, i, time);
    LaterMembers(taken[..i], time);
    assert pending + taken[i..] == pending + [taken[i]] + taken[i + 1..];
    DeliverBalanced(c, t, b.(feedback := pending + taken[i..]), pending, taken[i], taken[i + 1..], time);
  }

  lemma MidwayEnd(c: Setup, t: nat, b: Books, pending: seq<Feedback>, taken: seq<Feedback>, time: nat)
    requires Midway(c, t, b, pending, taken, |taken|, time)
    ensures Workload(c) && Balanced(c, t, b.(feedback := pending)) && pending == Later(taken, time)
  {
    hide Balanced, Workload;
    assert taken[..|taken|] == taken && pending + taken[|taken|..] == pending;
  }

  lemma DueIsOwed(c: Setup, b: Books, s: nat, f: Feedback)
    requires Workload(c) && s < |c.potentials| && Recorded(c, b, s)
    requires var left := Left(b.feedback, Key(s)); left != [] && left[0] == f
    ensures f in FeedAt(c, s) && Acceptable(f.observation)
  {
    hide Left, FeedAt, Key, Workload, Acceptable, Shown;
    FeedShape(c, s);
    var (feed, left) := (FeedAt(c, s), Left(b.feedback, Key(s)));
    assert feed[|feed| - |left|] == left[0];
  }

  lemma OtherRecorded(c: Setup, b: Books, after: Books, other: nat, f: Feedback)
    requires other < |c.potentials| && Recorded(c, b, other) && f.observation.key != Key(other)
    requires after == Deliver1(b, f).(feedback := after.feedback)
    requires Left(after.feedback, Key(other)) == Left(b.feedback, Key(other))
    ensures Recorded(c, after, other)
  {
    hide Left, FeedAt, Key, Shown, Decided;
  }

  lemma DeliverIssued(t: nat, b: Books, kept: seq<Feedback>, f: Feedback, rest: seq<Feedback>, s: nat)
    requires OnlyIssued(t, b) && b.feedback == kept + [f] + rest && s < t && f.observation.key == Key(s)
    ensures OnlyIssued(t, Deliver1(b, f).(feedback := kept + rest))
  {
    hide Key;
    assert Issued(Key(s), t);
    hide Issued;
    forall g | g in kept + rest ensures g in b.feedback {
    }
  }

  lemma DeliverCounters(b: Books, f: Feedback)
    ensures Deliver1(b, f).unenrolled == b.unenrolled && Deliver1(b, f).challengers == b.challengers
  {
  }

  lemma DeliverRecorded(c: Setup, b: Books, after: Books, s: nat, f: Feedback)
    requires Workload(c) && s < |c.potentials| && Recorded(c, b, s) && f in FeedAt(c, s)
    requires var left := Left(b.feedback, Key(s)); left != [] && left[0] == f && Left(after.feedback, Key(s)) == left[1..]
    requires after == Deliver1(b, f).(feedback := after.feedback)
    ensures Recorded(c, after, s)
    ensures |after.trial| == |b.trial| && |after.deployment| == |b.deployment|
    ensures after.labels == b.labels + if |FeedAt(c, s)| == 2 && Left(after.feedback, Key(s)) == [] then 1 else 0
  {
    FeedShape(c, s);
    var (feed, left) := (FeedAt(c, s), Left(b.feedback, Key(s)));
    var d := |feed| - |left|;
    assert feed[d] == feed[d..][0] == f;
    assert feed[d..][1..] == feed[d + 1..];
    assert after.trial.Keys == b.trial.Keys && after.deployment.Keys == b.deployment.Keys;
  }

  lemma RelabelledByDelivery(c: Setup, t: nat, b: Books, feedback: seq<Feedback>, s: nat)
    requires t <= |c.potentials| && s < t && Left(b.feedback, Key(s)) != []
    requires forall other: nat :: other < t && other != s ==> Left(feedback, Key(other)) == Left(b.feedback, Key(other))
    ensures |Relabelled(c, t, feedback)| ==
            |Relabelled(c, t, b.feedback)| + if |FeedAt(c, s)| == 2 && Left(feedback, Key(s)) == [] then 1 else 0
  {
    hide Left, FeedAt, Key;
    var (before, after) := (Relabelled(c, t, b.feedback), Relabelled(c, t, feedback));
    if |FeedAt(c, s)| == 2 && Left(feedback, Key(s)) == [] {
      assert after == before + {s};
    } else {
      assert after == before;
    }
  }

  /** What admitting one session does to the books. */
  function Admitted(c: Setup, t: nat, b: Books): Books
    requires t < |c.potentials|
  {
    var (decision, p) := (Decided(c, t), c.potentials[t]);
    var counted := b.(challengers := b.challengers + if ArmOf(decision) == Arm.Challenger then 1 else 0);
    match decision
    case Unenrolled => counted.(unenrolled := b.unenrolled + 1)
    case Trial(_, _) => counted.(trial := b.trial[Key(t) := PendingOf(t, p, decision)], feedback := b.feedback + FeedAt(c, t))
    case Monitored(_) => counted.(deployment := b.deployment[Key(t) := PendingOf(t, p, decision)], feedback := b.feedback + FeedAt(c, t))
  }

  lemma AdmitBalanced(c: Setup, t: nat, b: Books)
    requires Workload(c) && Balanced(c, t, b) && t < |c.potentials|
    ensures Balanced(c, t + 1, Admitted(c, t, b))
  {
    hide Left, FeedAt, Key, Admitted, Recorded, OnlyIssued, Issued, Workload, Relabelled, Challengers;
    var after := Admitted(c, t, b);
    FreshKey(t);
    AdmitRecorded(c, t, b);
    forall s: nat | s < t ensures Recorded(c, after, s) {
      EarlierRecorded(c, t, b, s);
    }
    AdmitIssued(c, t, b);
    AdmitSums(c, t, b);
    AdmitRelabelled(c, t, b);
  }

  lemma EarlierLeft(c: Setup, t: nat, b: Books, s: nat)
    requires Workload(c) && t < |c.potentials| && s < t
    ensures Left(Admitted(c, t, b).feedback, Key(s)) == Left(b.feedback, Key(s)) && Key(s) != Key(t)
  {
    hide Left, FeedAt, Key, Admitted, Workload;
    FeedShape(c, t);
    AdmittedFeedback(c, t, b);
    if Key(s) == Key(t) { KeyIsInjective(s, t); }
    LeftOfConcat(b.feedback, FeedAt(c, t), Key(s));
    LeftOfOther(FeedAt(c, t), Key(s));
  }

  lemma EarlierRecorded(c: Setup, t: nat, b: Books, s: nat)
    requires Workload(c) && t < |c.potentials| && s < t && Recorded(c, b, s)
    ensures Recorded(c, Admitted(c, t, b), s)
  {
    hide Left, FeedAt, Key, Shown, Workload, Decided, PendingOf;
    EarlierLeft(c, t, b, s);
  }

  lemma AdmitSums(c: Setup, t: nat, b: Books)
    requires t < |c.potentials| && OnlyIssued(t, b) && !Issued(Key(t), t)
    requires |b.trial| + |b.deployment| + b.unenrolled == t && b.challengers == |Challengers(c, t)|
    ensures var after := Admitted(c, t, b);
            && |after.trial| + |after.deployment| + after.unenrolled == t + 1
            && after.challengers == |Challengers(c, t + 1)|
            && after.labels == b.labels
  {
    hide FeedAt, Key, Decided, PendingOf, Issued, ArmOf, Decimal;
    assert Key(t) !in b.trial && Key(t) !in b.deployment;
    ChallengersNext(c, t);
  }

  lemma ChallengersNext(c: Setup, t: nat)
    ensures |Challengers(c, t + 1)| == |Challengers(c, t)| + if ArmOf(Decided(c, t)) == Arm.Challenger then 1 else 0
  {
    hide Decided, ArmOf;
    assert Challengers(c, t + 1) == Challengers(c, t) + if ArmOf(Decided(c, t)) == Arm.Challenger then {t} else {};
  }

  lemma AdmitRelabelled(c: Setup, t: nat, b: Books)
    requires Workload(c) && t < |c.potentials| && Left(Admitted(c, t, b).feedback, Key(t)) == FeedAt(c, t)
    ensures Relabelled(c, t + 1, Admitted(c, t, b).feedback) == Relabelled(c, t, b.feedback)
  {
    hide Left, FeedAt, Key, Admitted, Workload;
    forall s: nat | s < t ensures Left(Admitted(c, t, b).feedback, Key(s)) == Left(b.feedback, Key(s)) {
      EarlierLeft(c, t, b, s);
    }
  }

  lemma FreshKey(t: nat)
    ensures !Issued(Key(t), t)
  {
    hide Key;
    if Issued(Key(t), t) {
      var s: nat :| s < t && Key(t) == Key(s);
      KeyIsInjective(t, s);
      assert false;
    }
  }

  lemma LeftOfOther(queue: seq<Feedback>, other: string)
    requires forall f :: f in queue ==> f.observation.key != other
    ensures Left(queue, other) == []
  {
    hide Left;
    LeftMembers(queue, other);
    assert Left(queue, other) == [] || Left(queue, other)[0] in Left(queue, other);
  }

  lemma AdmittedFeedback(c: Setup, t: nat, b: Books)
    requires t < |c.potentials|
    ensures Admitted(c, t, b).feedback == b.feedback + FeedAt(c, t)
  {
  }

  lemma AdmitIssued(c: Setup, t: nat, b: Books)
    requires Workload(c) && t < |c.potentials| && OnlyIssued(t, b)
    ensures OnlyIssued(t + 1, Admitted(c, t, b))
  {
    hide Key, FeedAt, Workload;
    FeedShape(c, t);
    AdmittedFeedback(c, t, b);
    forall k | Issued(k, t) ensures Issued(k, t + 1) {
      var s: nat :| s < t && k == Key(s);
      assert s < t + 1;
    }
    assert Issued(Key(t), t + 1) by { assert t < t + 1; }
    hide Issued;
  }

  lemma AdmitRecorded(c: Setup, t: nat, b: Books)
    requires Workload(c) && t < |c.potentials| && OnlyIssued(t, b) && !Issued(Key(t), t)
    ensures Recorded(c, Admitted(c, t, b), t)
    ensures Left(Admitted(c, t, b).feedback, Key(t)) == FeedAt(c, t)
  {
    hide Left, FeedAt, Key, Workload, Issued, Decided, PendingOf;
    FeedShape(c, t);
    var after := Admitted(c, t, b);
    AdmittedFeedback(c, t, b);
    LeftOfConcat(b.feedback, FeedAt(c, t), Key(t));
    LeftOfSame(FeedAt(c, t), Key(t));
    LeftOfOther(b.feedback, Key(t));
    assert FeedAt(c, t)[0..] == FeedAt(c, t);
  }

  // ---- Whole runs --------------------------------------------------------

  /** The counts a run reports. */
  datatype Report = Report(trial: nat, deployment: nat, unenrolled: nat, unresolved: nat, labels: nat, challengers: nat)

  predicate Revised(scenario: Scenario) {
    scenario.RevisedShort? || scenario.RevisedLong?
  }

  function Trials(c: Setup): set<nat> {
    set s: nat | s < |c.potentials| && Decided(c, s).Trial?
  }

  function Monitorings(c: Setup): set<nat> {
    set s: nat | s < |c.potentials| && Decided(c, s).Monitored?
  }

  function Refused(c: Setup): set<nat> {
    set s: nat | s < |c.potentials| && Decided(c, s).Unenrolled?
  }

  /** Trial sessions nothing is ever heard of. */
  function Silent(c: Setup): set<nat> {
    set s: nat | s < |c.potentials| && Decided(c, s).Trial? && c.potentials[s].missing && c.scenario.Missing?
  }

  /** The report in terms of the oracle's decisions and the workload alone. */
  function Expected(c: Setup): Report {
    Report(|Trials(c)|, |Monitorings(c)|, |Refused(c)|, |Silent(c)|,
           if Revised(c.scenario) then |Challengers(c, |c.potentials|)| else 0,
           |Challengers(c, |c.potentials|)|)
  }

  /** Each arrival is counted in exactly one place. */
  lemma EachArrivalCountsOnce(c: Setup)
    ensures Expected(c).trial + Expected(c).deployment + Expected(c).unenrolled == |c.potentials|
    ensures Expected(c).unresolved <= Expected(c).trial
    ensures !c.scenario.Missing? ==> Expected(c).unresolved == 0
    ensures c.strategy == Strategy.Baseline ==> Expected(c) == Report(0, 0, |c.potentials|, 0, 0, 0)
  {
    ArrivalsSplit(c);
    SubsetSize(Silent(c), Trials(c));
    if c.strategy == Strategy.Baseline { NoneEnrolled(c); }
    if !c.scenario.Missing? { assert Silent(c) == {}; }
  }

  lemma ArrivalsSplit(c: Setup)
    ensures |Trials(c)| + |Monitorings(c)| + |Refused(c)| == |c.potentials|
  {
    hide Decided;
    var (trials, rest) := (Trials(c), Monitorings(c) + Refused(c));
    assert UpTo(|c.potentials|) == trials + rest;
    assert trials !! rest && Monitorings(c) !! Refused(c);
    hide Trials, Monitorings, Refused;
    assert |rest| == |Monitorings(c)| + |Refused(c)|;
    assert |trials + rest| == |trials| + |rest|;
  }

  lemma NoneEnrolled(c: Setup)
    requires c.strategy == Strategy.Baseline
    ensures Trials(c) == Monitorings(c) == Silent(c) == {} && Challengers(c, |c.potentials|) == {}
  {
  }

  function UpTo(n: nat): (all: set<nat>)
    ensures |all| == n && forall s: nat :: s in all <==> s < n
  {
    if n == 0 then {} else UpTo(n - 1) + {n - 1}
  }

  lemma {:induction false} SubsetSize<T>(a: set<T>, b: set<T>)
    requires a <= b
    ensures |a| <= |b|
  {
    if x :| x in a {
      SubsetSize(a - {x}, b - {x});
    }
  }

  function Keys(sessions: set<nat>): set<string> {
    set s | s in sessions :: Key(s)
  }

  lemma {:induction false} KeysCount(sessions: set<nat>)
    ensures |Keys(sessions)| == |sessions|
  {
    hide Key;
    if s :| s in sessions {
      var rest := sessions - {s};
      KeysCount(rest);
      if Key(s) in Keys(rest) {
        var other :| other in rest && Key(other) == Key(s);
        KeyIsInjective(other, s);
        assert false;
      }
      assert Keys(sessions) == Keys(rest) + {Key(s)};
    } else {
      assert sessions == {};
    }
  }

  function Unresolved(b: Books): set<string> {
    set k | k in b.trial && k !in b.resolved
  }

  function ReportOf(b: Books): Report {
    Report(|b.trial|, |b.deployment|, b.unenrolled, |Unresolved(b)|, b.labels, b.challengers)
  }

  /** Once the queue is drained every session is in one evidence set at most, and
      shows its final observation if it has any feedback. */
  ghost predicate Settled(c: Setup, b: Books) {
    && b.trial.Keys == Keys(Trials(c)) && b.deployment.Keys == Keys(Monitorings(c))
    && b.trial.Keys !! b.deployment.Keys
    && b.resolved == Keys(Trials(c) - Silent(c))
    && forall s: nat :: s < |c.potentials| ==> Ends(c, b, s)
  }

  ghost predicate Ends(c: Setup, b: Books, s: nat)
    requires s < |c.potentials|
  {
    var (p, d) := (c.potentials[s], Decided(c, s));
    var heard := !(p.missing && c.scenario.Missing?);
    && (d.Trial? ==> Key(s) in b.trial && b.trial[Key(s)] == if heard then FinalOf(s, p, d) else PendingOf(s, p, d))
    && (d.Monitored? ==> Key(s) in b.deployment && b.deployment[Key(s)] == if heard then FinalOf(s, p, d) else PendingOf(s, p, d))
  }

  lemma DrainedEnds(c: Setup, b: Books, s: nat)
    requires Workload(c) && s < |c.potentials| && b.feedback == [] && Recorded(c, b, s)
    ensures Ends(c, b, s)
    ensures Key(s) in b.resolved <==> Decided(c, s).Trial? && !(c.potentials[s].missing && c.scenario.Missing?)
  {
    hide Key, FinalOf, PendingOf, Decided;
    assert Generated(c.scenario, c.potentials[s]);
  }

  lemma DrainedIsSettled(c: Setup, b: Books)
    requires Workload(c) && Balanced(c, |c.potentials|, b) && b.feedback == []
    ensures Settled(c, b)
  {
    hide Key, Recorded, Workload, Ends, Keys, Trials, Monitorings, Silent, Relabelled, Challengers;
    forall s: nat | s < |c.potentials| ensures Ends(c, b, s) {
      DrainedEnds(c, b, s);
    }
    forall s: nat | s < |c.potentials|
      ensures Key(s) in b.trial <==> Decided(c, s).Trial?
      ensures Key(s) in b.deployment <==> Decided(c, s).Monitored?
      ensures Key(s) in b.resolved <==> Decided(c, s).Trial? && !(c.potentials[s].missing && c.scenario.Missing?)
    {
      DrainedEnds(c, b, s);
      KeyPlaces(c, b, s);
    }
    hide Decided;
    DrainedKeys(c, b);
  }

  lemma KeyPlaces(c: Setup, b: Books, s: nat)
    requires s < |c.potentials| && Recorded(c, b, s)
    ensures Key(s) in b.trial <==> Decided(c, s).Trial?
    ensures Key(s) in b.deployment <==> Decided(c, s).Monitored?
  {
    hide Key, Left, FeedAt, Decided, Shown;
  }

  lemma DrainedKeys(c: Setup, b: Books)
    requires OnlyIssued(|c.potentials|, b)
    requires forall s: nat :: s < |c.potentials| ==>
               && (Key(s) in b.trial <==> Decided(c, s).Trial?)
               && (Key(s) in b.deployment <==> Decided(c, s).Monitored?)
               && (Key(s) in b.resolved <==> Decided(c, s).Trial? && !(c.potentials[s].missing && c.scenario.Missing?))
    ensures b.trial.Keys == Keys(Trials(c)) && b.deployment.Keys == Keys(Monitorings(c))
    ensures b.trial.Keys !! b.deployment.Keys && b.resolved == Keys(Trials(c) - Silent(c))
  {
    hide Key, Decided;
    forall k | k in b.trial ensures k in Keys(Trials(c)) && k !in b.deployment {
      var s: nat :| s < |c.potentials| && k == Key(s);
      assert s in Trials(c);
    }
    forall k | k in b.deployment ensures k in Keys(Monitorings(c)) {
      var s: nat :| s < |c.potentials| && k == Key(s);
      assert s in Monitorings(c);
    }
    forall k | k in b.resolved ensures k in Keys(Trials(c) - Silent(c)) {
      var s: nat :| s < |c.potentials| && k == Key(s);
      assert s in Trials(c) - Silent(c);
    }
  }

  lemma DrainedRelabelled(c: Setup)
    requires Workload(c)
    ensures Relabelled(c, |c.potentials|, []) == if Revised(c.scenario) then Challengers(c, |c.potentials|) else {}
  {
    forall s: nat | s < |c.potentials|
      ensures |FeedAt(c, s)| == 2 <==> Revised(c.scenario) && ArmOf(Decided(c, s)) == Arm.Challenger
    {
      assert Generated(c.scenario, c.potentials[s]);
    }
  }

  /** A drained run reports exactly the expected counts, whatever the oracle did. */
  lemma DrainedReport(c: Setup, b: Books)
    requires Workload(c) && Balanced(c, |c.potentials|, b) && b.feedback == []
    ensures ReportOf(b) == Expected(c)
  {
    hide Key, Left, FeedAt, Decided, Workload, Ends, Recorded, OnlyIssued;
    DrainedIsSettled(c, b);
    DrainedRelabelled(c);
    KeysCount(Trials(c));
    KeysCount(Monitorings(c));
    KeysCount(Silent(c));
    EachArrivalCountsOnce(c);
    assert |b.trial| == |b.trial.Keys| && |b.deployment| == |b.deployment.Keys|;
    assert Unresolved(b) == Keys(Silent(c)) by { SilentKeys(c); }
  }

  lemma SilentKeys(c: Setup)
    ensures Keys(Trials(c)) - Keys(Trials(c) - Silent(c)) == Keys(Silent(c))
  {
    hide Key, Decided;
    forall s: nat, other: nat | Key(s) == Key(other) ensures s == other {
      KeyIsInjective(s, other);
    }
  }

  // ---- The figures behind the counts -------------------------------------

  /** A figure cut off to whole units; a negative one is zero. */
  predicate Truncates(units: nat, amount: real) {
    if amount < 0.0 then units == 0 else units as real <= amount < units as real + 1.0
  }

  /** A final observation with the figures of the arm that served the session. */
  predicate HoldsFigures(p: Potential, challenger: bool, o: Observation) {
    && o.revision == Final && o.family == p.family
    && o.quality == (if p.missing then None else if challenger then Some(p.candidateQuality) else Some(p.baselineQuality))
    && o.cost.Some? && Truncates(o.cost.value, (if challenger then 350000.0 else 1000000.0) * p.resourceNoise)
    && o.latency.Some? && Truncates(o.latency.value, (if challenger then 40000.0 else 60000.0) * p.resourceNoise)
  }

  /** An entry nothing was heard of. */
  predicate HoldsNothing(p: Potential, o: Observation) {
    o.revision == Pending && o.family == p.family && o.quality.None? && o.cost.None? && o.latency.None?
  }

  predicate Entry(c: Setup, s: nat, sequence: nat, arm: Arm, o: Observation)
    requires s < |c.potentials|
  {
    var p := c.potentials[s];
    && o.key == Key(s) && o.sequence == sequence && o.arm == arm
    && (if p.missing && c.scenario.Missing? then HoldsNothing(p, o) else HoldsFigures(p, arm == Arm.Challenger, o))
  }

  /** Where a session ends and with what, from the oracle's answers and the workload
      alone: adopted, it is monitored under the challenger; reserved, it is in the
      trial under its arm; otherwise, or under the baseline strategy, it is nowhere. */
  lemma SettledFigures(c: Setup, b: Books, s: nat)
    requires Settled(c, b) && s < |c.potentials| && Decide(c.strategy, c.oracle, s).Ok?
    ensures var (active, key) := (c.strategy != Strategy.Baseline, Key(s));
            && (active && c.oracle.adopted(s) ==>
                  && key !in b.trial && key in b.deployment && c.oracle.next(s).Some?
                  && Entry(c, s, c.oracle.next(s).value, Arm.Challenger, b.deployment[key]))
            && (active && !c.oracle.adopted(s) && c.oracle.reserve(s).Ok? && c.oracle.reserve(s).value.Some? ==>
                  var allocation := c.oracle.reserve(s).value.value;
                  key in b.trial && key !in b.deployment && Entry(c, s, allocation.sequence, allocation.arm, b.trial[key]))
            && (!active || (!c.oracle.adopted(s) && c.oracle.reserve(s) == Ok(None)) ==> key !in b.trial && key !in b.deployment)
  {
    assert Ends(c, b, s);
    OwnKey(Trials(c), s);
    OwnKey(Monitorings(c), s);
  }

  lemma OwnKey(sessions: set<nat>, s: nat)
    ensures Key(s) in Keys(sessions) <==> s in sessions
  {
    hide Key;
    if Key(s) in Keys(sessions) {
      var other :| other in sessions && Key(other) == Key(s);
      KeyIsInjective(other, s);
    }
  }

  /** When and what a session's feedback is: for a challenger under a revised label a
      provisional 0.98 at the next arrival and the final figures after the correction
      delay, otherwise the final figures after the delay. */
  lemma FeedIsExact(c: Setup, s: nat)
    requires Workload(c) && s < |c.potentials| && !Decided(c, s).Unenrolled?
    ensures var (p, d, feed) := (c.potentials[s], Decided(c, s), FeedAt(c, s));
            var (arm, revised) := (ArmOf(d), c.scenario.RevisedShort? || c.scenario.RevisedLong?);
            var silent := p.missing && c.scenario.Missing?;
            && (silent ==> feed == [])
            && (!silent && revised && arm == Arm.Challenger ==>
                  && |feed| == 2 && feed[0].due == s + 1 && feed[1].due == s + p.correctionDelay.value
                  && feed[0].observation == feed[1].observation.(revision := Provisional, quality := Some(0.98))
                  && Entry(c, s, d.sequence, arm, feed[1].observation))
            && (!silent && !(revised && arm == Arm.Challenger) ==>
                  |feed| == 1 && feed[0].due == s + p.delay && Entry(c, s, d.sequence, arm, feed[0].observation))
  {
    assert Generated(c.scenario, c.potentials[s]);
    hide Key;
  }

  /** The counted sets in terms of the oracle's answers. */
  lemma CountsFromOracle(c: Setup)
    requires NeverFails(c) && c.strategy != Strategy.Baseline
    ensures Monitorings(c) == set s: nat | s < |c.potentials| && c.oracle.adopted(s)
    ensures Trials(c) == set s: nat | s < |c.potentials| && !c.oracle.adopted(s) && c.oracle.reserve(s).Ok? && c.oracle.reserve(s).value.Some?
    ensures Refused(c) == set s: nat | s < |c.potentials| && !c.oracle.adopted(s) && c.oracle.reserve(s) == Ok(None)
    ensures Challengers(c, |c.potentials|) == set s: nat | s < |c.potentials| && ServedByChallenger(c.oracle, s)
  {
    forall s: nat | s < |c.potentials| ensures Decide(c.strategy, c.oracle, s).Ok? {
    }
  }

  predicate ServedByChallenger(oracle: Oracle, s: nat) {
    oracle.adopted(s) || (oracle.reserve(s).Ok? && oracle.reserve(s).value.Some? && oracle.reserve(s).value.value.arm == Arm.Challenger)
  }

  ghost predicate NeverFails(c: Setup) {
    && (forall t: nat :: t < |c.potentials| ==> Decide(c.strategy, c.oracle, t).Ok?)
    && (forall time: nat :: c.oracle.reconciles(time))
    && c.oracle.closes
  }

  const RECONCILE_EVERY: nat := 16

  class Experiment {
    const setup: Setup
    var trial: map<string, Observation>
    var deployment: map<string, Observation>
    var resolved: set<string>
    var feedback: seq<Feedback>
    var labels: nat
    var unenrolled: nat
    var challengers: nat
    ghost var arrivals: nat

    ghost function View(): Books
      reads this
    {
      Books(trial, deployment, resolved, feedback, labels, unenrolled, challengers)
    }

    ghost predicate Valid()
      reads this
    {
      Workload(setup) && Balanced(setup, arrivals, View())
    }

    constructor (setup: Setup)
      requires Workload(setup)
      ensures this.setup == setup && Valid() && arrivals == 0
      ensures View() == Books(map[], map[], {}, [], 0, 0, 0)
    {
      this.setup := setup;
      trial, deployment, resolved, feedback := map[], map[], {}, [];
      labels, unenrolled, challengers, arrivals := 0, 0, 0, 0;
    }

    /** Writes one due item into its evidence set. */
    method Record(item: Feedback)
      requires Acceptable(item.observation)
      modifies this
      ensures View() == Deliver1(old(View()), item) && arrivals == old(arrivals)
      ensures feedback == old(feedback) && unenrolled == old(unenrolled) && challengers == old(challengers)
    {
      var key := item.observation.key;
      if item.monitoring {
        if key in deployment && deployment[key].quality.Some? { labels := labels + 1; }
        var replaced := Replace(deployment, item.observation);
        deployment := replaced.value;
      } else {
        resolved := resolved + {key};
        if key in trial && trial[key].quality.Some? { labels := labels + 1; }
        var replaced := Replace(trial, item.observation);
        trial := replaced.value;
      }
    }

    /** Every due item replaces its session's entry; the rest waits in order. */
    method Deliver(time: nat)
      requires Valid()
      modifies this
      ensures Valid() && arrivals == old(arrivals)
      ensures feedback == Later(old(feedback), time)
      ensures unenrolled == old(unenrolled) && challengers == old(challengers)
    {
      hide Balanced, Workload, Acceptable, Deliver1, Midway;
      MidwayStart(setup, arrivals, View(), time);
      var taken := feedback;
      feedback := [];
      var pending := [];
      for i := 0 to |taken|
        invariant feedback == [] && arrivals == old(arrivals)
        invariant Midway(setup, arrivals, View(), pending, taken, i, time)
        invariant unenrolled == old(unenrolled) && challengers == old(challengers)
      {
        var item := taken[i];
        if item.due > time {
          MidwayKeep(setup, arrivals, View(), pending, taken, i, time);
          pending := pending + [item];
          continue;
        }
        MidwayDeliver(setup, arrivals, View(), pending, taken, i, time);
        Record(item);
      }
      MidwayEnd(setup, arrivals, View(), pending, taken, time);
      feedback := pending;
    }

    method Admit(t: nat, potential: Potential) returns (ok: bool)
      requires Valid() && t == arrivals < |setup.potentials| && potential == setup.potentials[t]
      modifies this
      ensures ok == Decide(setup.strategy, setup.oracle, t).Ok?
      ensures ok ==> Valid() && arrivals == t + 1 && View() == Admitted(setup, t, old(View()))
    {
      hide Balanced, Workload, Key, Units;
      AdmitBalanced(setup, t, View());
      var decided := Decide(setup.strategy, setup.oracle, t);
      if decided.Err? { return false; }
      var decision := decided.value;
      if ArmOf(decision) == Arm.Challenger { challengers := challengers + 1; }
      arrivals := t + 1;
      if decision.Unenrolled? {
        unenrolled := unenrolled + 1;
        return true;
      }
      var pending, observed := PendingOf(t, potential, decision), FinalOf(t, potential, decision);
      if decision.Monitored? {
        deployment := deployment[Key(t) := pending];
      } else {
        trial := trial[Key(t) := pending];
      }
      if !potential.missing || setup.scenario.AssessedUnknown? {
        if potential.correctionDelay.Some? && ArmOf(decision) == Arm.Challenger {
          feedback := feedback + [Feedback(t + 1, decision.Monitored?, observed.(revision := Provisional, quality := Some(0.98)))];
          feedback := feedback + [Feedback(t + potential.correctionDelay.value, decision.Monitored?, observed)];
        } else {
          feedback := feedback + [Feedback(t + potential.delay, decision.Monitored?, observed)];
        }
      }
      assert feedback == old(feedback) + FeedAt(setup, t);
      assert View() == Admitted(setup, t, old(View()));
      return true;
    }

    /** Drains the queue: each pass delivers at least one item. The closing checks on
        membership and on disjoint evidence never fail. */
    method Finish() returns (r: Result<Report>)
      requires Valid() && arrivals == |setup.potentials|
      modifies this
      ensures Valid() && arrivals == old(arrivals)
      ensures r.Ok? ==> r.value == Expected(setup) && feedback == [] && Settled(setup, View())
      ensures NeverFails(setup) ==> r.Ok?
    {
      while feedback != []
        invariant Valid() && arrivals == old(arrivals)
        decreases |feedback|
      {
        var time := EarliestDue(feedback);
        LaterMembers(feedback, time);
        Deliver(time);
        if !setup.oracle.reconciles(time) { return Err; }
      }
      DrainedIsSettled(setup, View());
      DrainedReport(setup, View());
      if !setup.oracle.closes { return Err; }
      if |trial| + |deployment| + unenrolled != |setup.potentials| { assert false; return Err; }
      if exists key :: key in trial && key in deployment { assert false; return Err; }
      return Ok(Report(|trial|, |deployment|, unenrolled, |set k | k in trial && k !in resolved|, labels, challengers));
    }
  }

  method EarliestDue(queue: seq<Feedback>) returns (time: nat)
    requires queue != []
    ensures exists f :: f in queue && f.due == time
    ensures forall f :: f in queue ==> time <= f.due
  {
    time := queue[0].due;
    for i := 1 to |queue|
      invariant exists f :: f in queue && f.due == time
      invariant forall f :: f in queue[..i] ==> time <= f.due
    {
      if queue[i].due < time { time := queue[i].due; }
    }
    assert queue[..|queue|] == queue;
  }

  /** One whole run. It reports what the decisions and the workload determine,
      and fails only when the oracle does. */
  method Run(setup: Setup) returns (r: Result<Report>)
    requires Workload(setup)
    ensures r.Ok? ==> r.value == Expected(setup)
    ensures NeverFails(setup) ==> r.Ok?
  {
    var experiment := new Experiment(setup);
    for t := 0 to |setup.potentials|
      invariant experiment.setup == setup && experiment.Valid() && experiment.arrivals == t
    {
      experiment.Deliver(t);
      if t % RECONCILE_EVERY == 0 && !setup.oracle.reconciles(t) { return Err; }
      var ok := experiment.Admit(t, setup.potentials[t]);
      if !ok { return Err; }
    }
    r := experiment.Finish();
  }
}

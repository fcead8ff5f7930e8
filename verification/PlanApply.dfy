/**
  The hash-bound plan/apply protocol, as a state machine over one NAS that other clients, other
  applies and DSM itself may change between any two steps.
 */
module PlanApply {
  import opened Results
  import opened Text

  /** What an approval hash covers: the intent, what the planner derived from the state, the profile revision. */
  datatype Contents<R, C> = Contents(request: R, body: C, revision: nat)

  datatype Plan<R, C> = Plan(contents: Contents<R, C>, hash: string) {
    function Request(): R { contents.request }
    function Body(): C { contents.body }
  }

  /**
    One guarded write. `build` is the planner, `view` what two reads at different moments make up
    together, and `verified` the test of one read after the write, of which there may be `attempts`.
   */
  datatype Workflow<!S, !R, !C> = Workflow(
    valid: R -> bool,
    build: (S, R) -> Option<C>,
    view: (S, S) -> S,
    verified: (S, R, C) -> bool,
    attempts: nat,
    hash: Contents<R, C> -> string)

  ghost predicate InjectiveHash<S(!new), R(!new), C(!new)>(f: Workflow<S, R, C>) {
    forall a, b :: f.hash(a) == f.hash(b) ==> a == b
  }

  /** The checks made on a submitted plan before anything is read. */
  ghost predicate Accepts<S, R, C>(f: Workflow<S, R, C>, plan: Plan<R, C>, approval: string) {
    && !Blank(approval) && approval == plan.hash
    && f.valid(plan.Request())
    && f.hash(plan.contents) == plan.hash
  }

  // Times are positions in the trace: v of the checks, i and j of the two reads that the plan is
  // rebuilt from, k of the write.
  datatype Evidence<R, C> = Evidence(plan: Plan<R, C>, v: nat, i: nat, j: nat, k: nat)

  datatype Phase<R, C> =
    | Refused
    | Validated(plan: Plan<R, C>, v: nat)
    | Reading(plan: Plan<R, C>, v: nat, i: nat)
    | Ready(plan: Plan<R, C>, v: nat, i: nat, j: nat)
    | Written(evidence: Evidence<R, C>, tries: nat)
    | Failed(evidence: Evidence<R, C>)
    | Applied(evidence: Evidence<R, C>, r: nat)
  {
    predicate Wrote() {
      Written? || Failed? || Applied?
    }

    /** The plan an apply works on, unless it was refused. */
    function ThePlan(): Plan<R, C>
      requires !Refused?
    {
      if Wrote() then evidence.plan else plan
    }
  }

  /** Every state the NAS has been in, the profile's revision, and how far each apply has come. */
  datatype World<S, R, C> = World(trace: seq<S>, revision: nat, sessions: map<nat, Phase<R, C>>)

  datatype Step<S, R, C> =
    | Outside(nas: S, revision: nat)
    | Validate(id: nat, plan: Plan<R, C>, approval: string)
    | ReadFirst(id: nat, error: bool)
    | ReadSecond(id: nat, error: bool)
    | Write(id: nat, after: S, error: bool)
    | ReadBack(id: nat, error: bool)

  ghost function Put<S, R, C>(w: World<S, R, C>, nas: S, id: nat, phase: Phase<R, C>): World<S, R, C> {
    w.(trace := w.trace + [nas], sessions := w.sessions[id := phase])
  }

  /**
    One step; a step that is not due leaves everything as it is. The NAS answers a write as it likes, and
    any call may end in an error, which ends the apply.
   */
  ghost function Next<S, R, C>(f: Workflow<S, R, C>, w: World<S, R, C>, step: Step<S, R, C>): World<S, R, C>
    requires w.trace != []
  {
    var now := |w.trace| - 1;
    var nas := w.trace[now];
    match step
    case Outside(after, revision) =>
      w.(trace := w.trace + [after], revision := revision)
    case Validate(id, plan, approval) =>
      if id in w.sessions then w
      else if Accepts(f, plan, approval) && plan.contents.revision == w.revision then
        Put(w, nas, id, Validated(plan, now))
      else
        Put(w, nas, id, Refused)
    case ReadFirst(id, error) =>
      if id in w.sessions && w.sessions[id].Validated? then
        Put(w, nas, id, if error then Refused else Reading(w.sessions[id].plan, w.sessions[id].v, now))
      else w
    case ReadSecond(id, error) =>
      if id in w.sessions && w.sessions[id].Reading? && w.sessions[id].i < |w.trace| then
        var Reading(plan, v, i) := w.sessions[id];
        Put(w, nas, id, if error then Refused else Rebuild(f, plan, f.view(w.trace[i], nas), v, i, now))
      else w
    case Write(id, after, error) =>
      if id in w.sessions && w.sessions[id].Ready? then
        var Ready(plan, v, i, j) := w.sessions[id];
        var evidence := Evidence(plan, v, i, j, now);
        Put(w, after, id, if error then Failed(evidence) else Written(evidence, 0))
      else w
    case ReadBack(id, error) =>
      if id in w.sessions && w.sessions[id].Written? then
        var Written(evidence, tries) := w.sessions[id];
        Put(w, nas, id, if error then Failed(evidence) else Confirm(f, evidence, tries, nas, now))
      else w
  }

  /** The planner runs again on what was just read; only the hash of the result is compared. */
  function Rebuild<S, R, C>(f: Workflow<S, R, C>, plan: Plan<R, C>, seen: S, v: nat, i: nat, j: nat): Phase<R, C> {
    match f.build(seen, plan.Request())
    case None => Refused
    case Some(body) =>
      if f.hash(Contents(plan.Request(), body, plan.contents.revision)) == plan.hash
      then Ready(plan, v, i, j) else Refused
  }

  function Confirm<S, R, C>(f: Workflow<S, R, C>, evidence: Evidence<R, C>, tries: nat, read: S, now: nat): Phase<R, C> {
    if f.verified(read, evidence.plan.Request(), evidence.plan.Body()) then Applied(evidence, now)
    else if tries + 1 < f.attempts then Written(evidence, tries + 1)
    else Failed(evidence)
  }

  ghost function Run<S, R, C>(f: Workflow<S, R, C>, w: World<S, R, C>, steps: seq<Step<S, R, C>>): (w': World<S, R, C>)
    requires w.trace != []
    ensures w'.trace != []
  {
    if steps == [] then w else Next(f, Run(f, w, steps[..|steps| - 1]), steps[|steps| - 1])
  }

  ghost predicate Bound<S, R, C>(f: Workflow<S, R, C>, plan: Plan<R, C>) {
    f.valid(plan.Request()) && f.hash(plan.contents) == plan.hash
  }

  /** After its checks, this apply read states from which the planner rebuilds the submitted plan, field for field. */
  ghost predicate Reread<S, R, C>(f: Workflow<S, R, C>, trace: seq<S>, plan: Plan<R, C>, v: nat, i: nat, j: nat) {
    && Bound(f, plan)
    && v <= i <= j < |trace|
    && f.build(f.view(trace[i], trace[j]), plan.Request()) == Some(plan.Body())
  }

  /** Planning from the state that the write met would give the plan that was written. */
  ghost predicate MeetsPlannedState<S, R, C>(f: Workflow<S, R, C>, trace: seq<S>, e: Evidence<R, C>)
    requires e.k < |trace|
  {
    f.build(f.view(trace[e.k], trace[e.k]), e.plan.Request()) == Some(e.plan.Body())
  }

  ghost predicate WroteAfterReread<S, R, C>(f: Workflow<S, R, C>, trace: seq<S>, e: Evidence<R, C>) {
    Reread(f, trace, e.plan, e.v, e.i, e.j) && e.j < e.k < |trace|
  }

  /** What each phase is evidence of. */
  ghost predicate Justified<S, R, C>(f: Workflow<S, R, C>, trace: seq<S>, phase: Phase<R, C>) {
    match phase
    case Refused => true
    case Validated(plan, v) => Bound(f, plan) && v < |trace|
    case Reading(plan, v, i) => Bound(f, plan) && v <= i < |trace|
    case Ready(plan, v, i, j) => Reread(f, trace, plan, v, i, j) && j + 1 < |trace|
    case Written(e, tries) => WroteAfterReread(f, trace, e) && e.k + 1 < |trace| && (tries == 0 || tries < f.attempts)
    case Failed(e) => WroteAfterReread(f, trace, e)
    case Applied(e, r) =>
      && WroteAfterReread(f, trace, e)
      && e.k < r < |trace|
      && f.verified(trace[r], e.plan.Request(), e.plan.Body())
  }

  ghost predicate Sound<S, R, C>(f: Workflow<S, R, C>, w: World<S, R, C>) {
    w.trace != [] && forall id :: id in w.sessions ==> Justified(f, w.trace, w.sessions[id])
  }

  lemma EvidenceLasts<S(!new), R(!new), C(!new)>(f: Workflow<S, R, C>, trace: seq<S>, more: seq<S>, phase: Phase<R, C>)
    requires Justified(f, trace, phase)
    ensures Justified(f, trace + more, phase)
  {
    assert forall t :: 0 <= t < |trace| ==> (trace + more)[t] == trace[t];
  }

  lemma HashBindsBody<S(!new), R(!new), C(!new)>(f: Workflow<S, R, C>, plan: Plan<R, C>, body: C)
    requires InjectiveHash(f) && Bound(f, plan)
    requires f.hash(Contents(plan.Request(), body, plan.contents.revision)) == plan.hash
    ensures body == plan.Body()
  {
    assert Contents(plan.Request(), body, plan.contents.revision) == plan.contents;
  }

  /** Every step keeps every session's evidence good. */
  lemma NextIsSound<S(!new), R(!new), C(!new)>(f: Workflow<S, R, C>, w: World<S, R, C>, step: Step<S, R, C>)
    requires InjectiveHash(f) && Sound(f, w)
    ensures Sound(f, Next(f, w, step))
  {
    var w' := Next(f, w, step);
    if w' != w {
      var more := [w'.trace[|w.trace|]];
      assert w'.trace == w.trace + more;
      forall id | id in w'.sessions ensures Justified(f, w'.trace, w'.sessions[id]) {
        if id in w.sessions {
          EvidenceLasts(f, w.trace, more, w.sessions[id]);
        }
        if !step.Outside? && id == step.id {
          StepIsJustified(f, w, step);
        }
      }
    }
  }

  lemma StepIsJustified<S(!new), R(!new), C(!new)>(f: Workflow<S, R, C>, w: World<S, R, C>, step: Step<S, R, C>)
    requires InjectiveHash(f) && Sound(f, w) && !step.Outside?
    requires Next(f, w, step) != w
    ensures step.id in Next(f, w, step).sessions
    ensures Justified(f, Next(f, w, step).trace, Next(f, w, step).sessions[step.id])
  {
    var w' := Next(f, w, step);
    var now := |w.trace| - 1;
    if step.id in w.sessions {
      EvidenceLasts(f, w.trace, [w'.trace[|w.trace|]], w.sessions[step.id]);
    }
    if step.ReadSecond? {
      var Reading(plan, v, i) := w.sessions[step.id];
      var seen := f.view(w.trace[i], w.trace[now]);
      if Rebuild(f, plan, seen, v, i, now).Ready? {
        HashBindsBody(f, plan, f.build(seen, plan.Request()).value);
      }
    }
  }

  /** Whatever others do and however applies interleave, no write happens without a matching re-read by the same apply. */
  lemma {:induction false} EveryRunIsSound<S(!new), R(!new), C(!new)>(
    f: Workflow<S, R, C>, start: S, revision: nat, steps: seq<Step<S, R, C>>)
    requires InjectiveHash(f)
    ensures Sound(f, Run(f, World([start], revision, map[]), steps))
  {
    if steps != [] {
      EveryRunIsSound(f, start, revision, steps[..|steps| - 1]);
      NextIsSound(f, Run(f, World([start], revision, map[]), steps[..|steps| - 1]), steps[|steps| - 1]);
    }
  }

  /**
    The plan was submitted to this apply with its own hash as the approval, and had been planned for the
    profile's revision of that moment.
   */
  ghost predicate ApprovedAt<S(!new), R(!new), C(!new)>(
    f: Workflow<S, R, C>, w: World<S, R, C>, steps: seq<Step<S, R, C>>, k: nat, id: nat, plan: Plan<R, C>)
    requires w.trace != []
  {
    && k < |steps| && steps[k] == Validate(id, plan, plan.hash) && !Blank(plan.hash)
    && f.valid(plan.contents.request) && f.hash(plan.contents) == plan.hash
    && Run(f, w, steps[..k]).revision == plan.contents.revision
  }

  lemma ApprovedEarlier<S(!new), R(!new), C(!new)>(
    f: Workflow<S, R, C>, w: World<S, R, C>, steps: seq<Step<S, R, C>>, n: nat, k: nat, id: nat, plan: Plan<R, C>)
    requires w.trace != [] && n <= |steps| && ApprovedAt(f, w, steps[..n], k, id, plan)
    ensures ApprovedAt(f, w, steps, k, id, plan)
  {
    assert steps[..n][..k] == steps[..k];
  }

  /** An apply that was not refused at once goes on with the plan it was given, and enters only by validation. */
  lemma PlanIsKept<S(!new), R(!new), C(!new)>(f: Workflow<S, R, C>, w: World<S, R, C>, step: Step<S, R, C>, id: nat)
    requires w.trace != []
    requires id in Next(f, w, step).sessions && !Next(f, w, step).sessions[id].Refused?
    ensures id in w.sessions ==> !w.sessions[id].Refused? && w.sessions[id].ThePlan() == Next(f, w, step).sessions[id].ThePlan()
    ensures id !in w.sessions ==>
      var plan := Next(f, w, step).sessions[id].ThePlan();
      && step == Validate(id, plan, plan.hash) && !Blank(plan.hash)
      && f.valid(plan.contents.request) && f.hash(plan.contents) == plan.hash
      && w.revision == plan.contents.revision
  {
  }

  /** In every run, what an apply works on was approved by its hash. In particular so was every write. */
  lemma {:induction false} EveryPlanWasApproved<S(!new), R(!new), C(!new)>(
    f: Workflow<S, R, C>, start: S, revision: nat, steps: seq<Step<S, R, C>>, id: nat) returns (k: nat)
    requires var w := Run(f, World([start], revision, map[]), steps); id in w.sessions && !w.sessions[id].Refused?
    ensures var w := Run(f, World([start], revision, map[]), steps);
            ApprovedAt(f, World([start], revision, map[]), steps, k, id, w.sessions[id].ThePlan())
  {
    k := 0;
    var w0, n := World([start], revision, map[]), |steps| - 1;
    if steps != [] {
      var before := Run(f, w0, steps[..n]);
      PlanIsKept(f, before, steps[n], id);
      if id in before.sessions {
        k := EveryPlanWasApproved(f, start, revision, steps[..n], id);
        ApprovedEarlier(f, w0, steps, n, k, id, before.sessions[id].ThePlan());
      } else {
        k := n;
      }
    }
  }

  /** An apply writes once: what it has written with which evidence does not change any more. */
  lemma WriteIsFinal<S(!new), R(!new), C(!new)>(f: Workflow<S, R, C>, w: World<S, R, C>, step: Step<S, R, C>, id: nat)
    requires w.trace != [] && id in w.sessions && w.sessions[id].Wrote()
    ensures id in Next(f, w, step).sessions && Next(f, w, step).sessions[id].Wrote()
    ensures Next(f, w, step).sessions[id].evidence == w.sessions[id].evidence
  {
  }

  /**
    The apply is not atomic, but when the NAS is the same at the two reads and at the write, the write meets
    a state from which the planner rebuilds the plan, whatever happened in between.
   */
  lemma WriteMeetsPlannedState<S(!new), R(!new), C(!new)>(f: Workflow<S, R, C>, w: World<S, R, C>, id: nat)
    requires Sound(f, w) && id in w.sessions && w.sessions[id].Wrote()
    ensures w.sessions[id].Written? ==> w.sessions[id].tries == 0 || w.sessions[id].tries < f.attempts
    ensures var e := w.sessions[id].evidence;
            && WroteAfterReread(f, w.trace, e)
            && (w.trace[e.i] == w.trace[e.j] == w.trace[e.k] ==> MeetsPlannedState(f, w.trace, e))
  {
    assert Justified(f, w.trace, w.sessions[id]);
  }

  /** One approval can only ever lead to one change: two writes with the same approval have the same contents. */
  lemma ApprovalBindsContents<S(!new), R(!new), C(!new)>(
    f: Workflow<S, R, C>, start: S, revision: nat, steps: seq<Step<S, R, C>>, a: nat, b: nat) returns (k: nat, m: nat)
    requires InjectiveHash(f)
    requires var w := Run(f, World([start], revision, map[]), steps);
             a in w.sessions && b in w.sessions && w.sessions[a].Wrote() && w.sessions[b].Wrote()
    ensures var w := Run(f, World([start], revision, map[]), steps);
            && k < |steps| && steps[k].Validate? && steps[k].id == a && steps[k].plan == w.sessions[a].evidence.plan
            && m < |steps| && steps[m].Validate? && steps[m].id == b && steps[m].plan == w.sessions[b].evidence.plan
            && (steps[k].approval == steps[m].approval ==> steps[k].plan.contents == steps[m].plan.contents)
  {
    k := EveryPlanWasApproved(f, start, revision, steps, a);
    m := EveryPlanWasApproved(f, start, revision, steps, b);
  }

  /** A plan edited after planning is never accepted, with any approval. */
  lemma EditedPlanIsRefused<S(!new), R(!new), C(!new)>(
    f: Workflow<S, R, C>, plan: Plan<R, C>, edited: Contents<R, C>, approval: string)
    requires InjectiveHash(f) && f.hash(plan.contents) == plan.hash
    requires edited != plan.contents
    ensures !Accepts(f, Plan(edited, plan.hash), approval)
  {
    assert f.hash(edited) == f.hash(plan.contents) ==> edited == plan.contents;
  }

  ghost predicate Plans<S, R, C>(f: Workflow<S, R, C>, seen: S, request: R, body: C) {
    f.valid(request) && f.build(seen, request) == Some(body)
  }

  ghost predicate Refuses<S, R, C>(f: Workflow<S, R, C>, state: S, request: R) {
    f.build(f.view(state, state), request) == None
  }

  /** Passing verification after a plan's write leaves a state the planner refuses to plan from. */
  ghost predicate VerifiedIsNoOp<S(!new), R(!new), C(!new)>(f: Workflow<S, R, C>) {
    forall planned, after, request, body ::
      Plans(f, planned, request, body) && f.verified(after, request, body) ==> Refuses(f, after, request)
  }

  /**
    After a successful apply, an apply of the same request gets past its re-read again only if the
    NAS has changed in between.
   */
  lemma AppliedPlanIsNotRepeated<S(!new), R(!new), C(!new)>(
    f: Workflow<S, R, C>, w: World<S, R, C>, done: nat, plan: Plan<R, C>, v: nat, i: nat, j: nat)
    requires Sound(f, w) && VerifiedIsNoOp(f)
    requires done in w.sessions && w.sessions[done].Applied?
    requires plan.Request() == w.sessions[done].evidence.plan.Request()
    requires w.sessions[done].r <= i && Reread(f, w.trace, plan, v, i, j)
    ensures exists t :: w.sessions[done].r <= t <= j && w.trace[t] != w.trace[w.sessions[done].r]
  {
    var Applied(e, r) := w.sessions[done];
    assert Plans(f, f.view(w.trace[e.i], w.trace[e.j]), e.plan.Request(), e.plan.Body());
    assert Refuses(f, w.trace[r], plan.Request());
    assert w.trace[i] != w.trace[r] || w.trace[j] != w.trace[r];
  }

  /** The same over whole runs from any starting state: nothing but a change of the NAS makes a second write possible. */
  lemma AppliedPlanStaysRefused<S(!new), R(!new), C(!new)>(
    f: Workflow<S, R, C>, start: S, revision: nat, steps: seq<Step<S, R, C>>, done: nat, again: nat)
    requires InjectiveHash(f) && VerifiedIsNoOp(f)
    requires var w := Run(f, World([start], revision, map[]), steps);
             && done in w.sessions && w.sessions[done].Applied?
             && again in w.sessions && w.sessions[again].Wrote()
             && w.sessions[again].evidence.plan.Request() == w.sessions[done].evidence.plan.Request()
             && w.sessions[done].r <= w.sessions[again].evidence.i
    ensures var w := Run(f, World([start], revision, map[]), steps);
            exists t :: w.sessions[done].r <= t <= w.sessions[again].evidence.j < |w.trace|
                        && w.trace[t] != w.trace[w.sessions[done].r]
  {
    var w := Run(f, World([start], revision, map[]), steps);
    EveryRunIsSound(f, start, revision, steps);
    var e := w.sessions[again].evidence;
    assert WroteAfterReread(f, w.trace, e);
    AppliedPlanIsNotRepeated(f, w, done, e.plan, e.v, e.i, e.j);
  }

  lemma RunOneMore<S(!new), R(!new), C(!new)>(
    f: Workflow<S, R, C>, w: World<S, R, C>, steps: seq<Step<S, R, C>>, step: Step<S, R, C>)
    requires w.trace != []
    ensures Run(f, w, steps + [step]) == Next(f, Run(f, w, steps), step)
  {
    assert (steps + [step])[..|steps|] == steps;
  }

  lemma {:induction false} RunConcat<S(!new), R(!new), C(!new)>(
    f: Workflow<S, R, C>, w: World<S, R, C>, a: seq<Step<S, R, C>>, b: seq<Step<S, R, C>>)
    requires w.trace != []
    ensures Run(f, w, a + b) == Run(f, Run(f, w, a), b)
  {
    if b == [] {
      assert a + b == a;
    } else {
      var n := |b| - 1;
      assert a + b == (a + b[..n]) + [b[n]];
      RunConcat(f, w, a, b[..n]);
      RunOneMore(f, w, a + b[..n], b[n]);
    }
  }

  /** The steps of one apply up to its write; `met` is what others turn the NAS into before that. */
  function UpToWrite<S, R, C>(id: nat, plan: Plan<R, C>, met: S, revision: nat, after: S): seq<Step<S, R, C>> {
    [Validate(id, plan, plan.hash), ReadFirst(id, false), ReadSecond(id, false), Outside(met, revision), Write(id, after, false)]
  }

  /** A plan that is accepted and that the planner rebuilds from the current state passes the re-read. */
  ghost predicate Good<S, R, C>(f: Workflow<S, R, C>, w: World<S, R, C>, plan: Plan<R, C>) {
    && w.trace != [] && Accepts(f, plan, plan.hash) && plan.contents.revision == w.revision
    && var nas := w.trace[|w.trace| - 1]; f.build(f.view(nas, nas), plan.Request()) == Some(plan.Body())
  }

  lemma GoodPlanIsValidated<S(!new), R(!new), C(!new)>(f: Workflow<S, R, C>, w: World<S, R, C>, id: nat, plan: Plan<R, C>)
    requires Good(f, w, plan) && id !in w.sessions
    ensures var nas, n := w.trace[|w.trace| - 1], |w.trace|;
            Run(f, w, [Validate(id, plan, plan.hash)]) == Put(w, nas, id, Validated(plan, n - 1))
  {
    RunOneMore(f, w, [], Validate(id, plan, plan.hash));
    assert [] + [Step<S, R, C>.Validate(id, plan, plan.hash)] == [Validate(id, plan, plan.hash)];
  }

  lemma ValidatedPlanIsReady<S(!new), R(!new), C(!new)>(f: Workflow<S, R, C>, w: World<S, R, C>, id: nat, plan: Plan<R, C>)
    requires Good(f, w, plan) && |w.trace| >= 2 && id in w.sessions && w.sessions[id] == Validated(plan, |w.trace| - 2)
    ensures var nas, n := w.trace[|w.trace| - 1], |w.trace|;
            Next(f, Next(f, w, ReadFirst(id, false)), ReadSecond(id, false)) ==
            World(w.trace + [nas, nas], w.revision, w.sessions[id := Ready(plan, n - 2, n - 1, n)])
  {
    var nas, n := w.trace[|w.trace| - 1], |w.trace|;
    assert Contents(plan.Request(), plan.Body(), plan.contents.revision) == plan.contents;
    var read := Next(f, w, ReadFirst(id, false));
    assert read == Put(w, nas, id, Reading(plan, n - 2, n - 1));
    assert Rebuild(f, plan, f.view(read.trace[n - 1], nas), n - 2, n - 1, n) == Ready(plan, n - 2, n - 1, n);
    assert w.trace + [nas] + [nas] == w.trace + [nas, nas];
  }

  lemma GoodPlanIsReady<S(!new), R(!new), C(!new)>(f: Workflow<S, R, C>, w: World<S, R, C>, id: nat, plan: Plan<R, C>)
    requires Good(f, w, plan) && id !in w.sessions
    ensures var nas, n := w.trace[|w.trace| - 1], |w.trace|;
            Run(f, w, [Validate(id, plan, plan.hash), ReadFirst(id, false), ReadSecond(id, false)]) ==
            World(w.trace + [nas, nas, nas], w.revision, w.sessions[id := Ready(plan, n - 1, n, n + 1)])
  {
    var nas := w.trace[|w.trace| - 1];
    var first, second, third := Validate(id, plan, plan.hash), ReadFirst(id, false), ReadSecond(id, false);
    GoodPlanIsValidated(f, w, id, plan);
    RunOneMore(f, w, [first], second);
    RunOneMore(f, w, [first, second], third);
    assert [first] + [second] == [first, second] && [first, second] + [third] == [first, second, third];
    ValidatedPlanIsReady(f, Run(f, w, [first]), id, plan);
    assert w.trace + [nas] + [nas, nas] == w.trace + [nas, nas, nas];
  }

  lemma ReadyPlanIsWritten<S(!new), R(!new), C(!new)>(
    f: Workflow<S, R, C>, w: World<S, R, C>, id: nat, plan: Plan<R, C>, v: nat, i: nat, j: nat, met: S, after: S)
    requires w.trace != [] && id in w.sessions && w.sessions[id] == Ready(plan, v, i, j)
    ensures Next(f, Next(f, w, Outside(met, w.revision)), Write(id, after, false)) ==
            World(w.trace + [met, after], w.revision, w.sessions[id := Written(Evidence(plan, v, i, j, |w.trace|), 0)])
  {
    assert w.trace + [met] + [after] == w.trace + [met, after];
  }

  /** A good plan gets as far as its write, whatever others do after the re-read. */
  lemma GoodPlanIsWritten<S(!new), R(!new), C(!new)>(
    f: Workflow<S, R, C>, w: World<S, R, C>, id: nat, plan: Plan<R, C>, met: S, after: S)
    requires Good(f, w, plan) && id !in w.sessions
    ensures var nas, n := w.trace[|w.trace| - 1], |w.trace|;
            Run(f, w, UpToWrite(id, plan, met, w.revision, after)) ==
            World(w.trace + [nas, nas, nas, met, after], w.revision,
                  w.sessions[id := Written(Evidence(plan, n - 1, n, n + 1, n + 3), 0)])
  {
    var nas, n := w.trace[|w.trace| - 1], |w.trace|;
    var ready := [Validate(id, plan, plan.hash), ReadFirst(id, false), ReadSecond(id, false)];
    var outside, write := Outside(met, w.revision), Write(id, after, false);
    GoodPlanIsReady(f, w, id, plan);
    RunOneMore(f, w, ready, outside);
    RunOneMore(f, w, ready + [outside], write);
    assert ready + [outside] + [write] == UpToWrite(id, plan, met, w.revision, after);
    ReadyPlanIsWritten(f, Run(f, w, ready), id, plan, n - 1, n, n + 1, met, after);
    assert w.trace + [nas, nas, nas] + [met, after] == w.trace + [nas, nas, nas, met, after];
  }

  /** An apply that nobody disturbs and that DSM carries out is reported applied. */
  lemma UndisturbedApplySucceeds<S(!new), R(!new), C(!new)>(
    f: Workflow<S, R, C>, w: World<S, R, C>, id: nat, plan: Plan<R, C>, after: S)
    requires Good(f, w, plan) && id !in w.sessions
    requires f.verified(after, plan.Request(), plan.Body())
    ensures var nas, n := w.trace[|w.trace| - 1], |w.trace|;
            Run(f, w, UpToWrite(id, plan, nas, w.revision, after) + [ReadBack(id, false)]) ==
            World(w.trace + [nas, nas, nas, nas, after, after], w.revision,
                  w.sessions[id := Applied(Evidence(plan, n - 1, n, n + 1, n + 3), n + 4)])
  {
    var nas := w.trace[|w.trace| - 1];
    GoodPlanIsWritten(f, w, id, plan, nas, after);
    RunOneMore(f, w, UpToWrite(id, plan, nas, w.revision, after), ReadBack(id, false));
  }

  /** While the NAS does not show the change, an apply keeps reading until its last attempt, and then has failed. */
  lemma {:induction false} EveryAttemptIsMade<S(!new), R(!new), C(!new)>(
    f: Workflow<S, R, C>, w: World<S, R, C>, id: nat, e: Evidence<R, C>, n: nat)
    requires w.trace != [] && id in w.sessions && w.sessions[id] == Written(e, 0) && 0 < n <= f.attempts
    requires !f.verified(w.trace[|w.trace| - 1], e.plan.Request(), e.plan.Body())
    ensures var w' := Run(f, w, seq(n, _ => ReadBack(id, false)));
            && id in w'.sessions && w'.sessions[id] == (if n < f.attempts then Written(e, n) else Failed(e))
            && w'.trace[|w'.trace| - 1] == w.trace[|w.trace| - 1]
  {
    var steps := seq(n - 1, _ => Step<S, R, C>.ReadBack(id, false));
    assert seq(n, _ => Step<S, R, C>.ReadBack(id, false)) == steps + [ReadBack(id, false)];
    RunOneMore(f, w, steps, ReadBack(id, false));
    if n > 1 {
      EveryAttemptIsMade(f, w, id, e, n - 1);
    } else {
      assert steps == [];
    }
  }

  /** The steps of an apply that finds its request in force already, and that nobody disturbs. */
  function QuietApply<S, R, C>(id: nat, plan: Plan<R, C>, nas: S, revision: nat): seq<Step<S, R, C>> {
    UpToWrite(id, plan, nas, revision, nas) + [ReadBack(id, false)]
  }

  /** The NAS has been in one state all along. */
  ghost predicate Still<S, R, C>(w: World<S, R, C>, nas: S) {
    w.trace != [] && forall t :: 0 <= t < |w.trace| ==> w.trace[t] == nas
  }

  /** A good plan whose request is in force already is applied, and then it is still good. */
  lemma QuietApplySucceeds<S(!new), R(!new), C(!new)>(
    f: Workflow<S, R, C>, w: World<S, R, C>, id: nat, plan: Plan<R, C>, nas: S)
    requires Good(f, w, plan) && Still(w, nas) && id !in w.sessions
    requires f.verified(nas, plan.Request(), plan.Body())
    ensures var n, w' := |w.trace|, Run(f, w, QuietApply(id, plan, nas, w.revision));
            && w'.revision == w.revision && Still(w', nas) && Good(f, w', plan)
            && w'.sessions == w.sessions[id := Applied(Evidence(plan, n - 1, n, n + 1, n + 3), n + 4)]
            && |w'.trace| == n + 6
  {
    UndisturbedApplySucceeds(f, w, id, plan, nas);
  }

  /** So it can be applied any number of times: here twice. */
  lemma QuietApplyRepeats<S(!new), R(!new), C(!new)>(
    f: Workflow<S, R, C>, start: S, plan: Plan<R, C>) returns (steps: seq<Step<S, R, C>>)
    requires Good(f, World([start], plan.contents.revision, map[]), plan)
    requires f.verified(start, plan.Request(), plan.Body())
    ensures var w := Run(f, World([start], plan.contents.revision, map[]), steps);
            && Still(w, start)
            && 0 in w.sessions && w.sessions[0].Applied? && w.sessions[0].evidence.plan == plan
            && 1 in w.sessions && w.sessions[1].Applied? && w.sessions[1].evidence.plan == plan
            && w.sessions[0].r <= w.sessions[1].evidence.i
  {
    var w := World([start], plan.contents.revision, map[]);
    var first, second := QuietApply(0, plan, start, w.revision), QuietApply(1, plan, start, w.revision);
    QuietApplySucceeds(f, w, 0, plan, start);
    QuietApplySucceeds(f, Run(f, w, first), 1, plan, start);
    RunConcat(f, w, first, second);
    steps := first + second;
  }

  /** The NAS as one apply sees it: its state, and the writes it has been sent. */
  class Nas<S, R> {
    var state: S
    var writes: seq<R>

    constructor (state: S)
      ensures this.state == state && writes == []
    {
      this.state := state;
      writes := [];
    }

    /** A read, after whatever others do first. */
    method Read(meanwhile: S -> S, error: bool) returns (read: Option<S>)
      modifies this
      ensures state == meanwhile(old(state)) && writes == old(writes)
      ensures read == if error then None else Some(state)
    {
      state := meanwhile(state);
      read := if error then None else Some(state);
    }

    /** A write, after whatever others do first; DSM decides what the request does. */
    method Write(request: R, meanwhile: S -> S, response: (S, R) -> S)
      modifies this
      ensures state == response(meanwhile(old(state)), request) && writes == old(writes) + [request]
    {
      state := response(meanwhile(state), request);
      writes := writes + [request];
    }
  }

  /** What others do before each of one apply's calls, which calls fail, and how DSM answers the write. */
  datatype Surroundings<!S, !R> = Surroundings(
    revision: nat,
    beforeFirst: S -> S,
    firstError: bool,
    beforeSecond: S -> S,
    secondError: bool,
    beforeWrite: S -> S,
    response: (S, R) -> S,
    writeError: bool,
    beforeReadBack: nat -> (S -> S),
    readBackError: nat -> bool)

  /** One whole apply. Its phase is justified by the states the NAS went through, and it writes at most once. */
  method Apply<S(!new), R(!new), C(!new)>(
    f: Workflow<S, R, C>, nas: Nas<S, R>, plan: Plan<R, C>, approval: string, around: Surroundings<S, R>)
    returns (phase: Phase<R, C>, ghost trace: seq<S>)
    requires InjectiveHash(f) && f.attempts > 0
    modifies nas
    ensures trace != [] && trace[0] == old(nas.state) && trace[|trace| - 1] == nas.state
    ensures Justified(f, trace, phase)
    ensures phase.Refused? || phase.Failed? || phase.Applied?
    ensures phase.Wrote() ==> phase.evidence.plan == plan
    ensures nas.writes == old(nas.writes) + (if phase.Refused? then [] else [plan.Request()])
    ensures approval != plan.hash || Blank(approval) || plan.contents.revision != around.revision ==>
      phase.Refused? && nas.state == old(nas.state) && nas.writes == old(nas.writes)
    ensures !f.valid(plan.contents.request) || f.hash(plan.contents) != plan.hash ==>
      phase.Refused? && nas.state == old(nas.state) && nas.writes == old(nas.writes)
  {
    trace := [nas.state];
    if Blank(approval) || approval != plan.hash || !f.valid(plan.Request()) || f.hash(plan.contents) != plan.hash
       || plan.contents.revision != around.revision {
      return Refused, trace;
    }
    var first := nas.Read(around.beforeFirst, around.firstError);
    trace := trace + [nas.state];
    if first.None? {
      return Refused, trace;
    }
    var second := nas.Read(around.beforeSecond, around.secondError);
    trace := trace + [nas.state];
    if second.None? {
      return Refused, trace;
    }
    phase := Rebuild(f, plan, f.view(first.value, second.value), 0, 1, 2);
    if phase.Refused? {
      return;
    }
    HashBindsBody(f, plan, f.build(f.view(first.value, second.value), plan.Request()).value);
    ghost var met := around.beforeWrite(nas.state);
    nas.Write(plan.Request(), around.beforeWrite, around.response);
    trace := trace + [met, nas.state];
    var evidence := Evidence(plan, 0, 1, 2, 3);
    assert WroteAfterReread(f, trace, evidence);
    if around.writeError {
      return Failed(evidence), trace;
    }
    ghost var seen: seq<S>;
    phase, seen := ReadBackUntilDone(f, nas, evidence, around, trace);
    trace := trace + seen;
  }

  /** The reads after the write: until one verifies it, one fails, or there have been enough. */
  method ReadBackUntilDone<S(!new), R(!new), C(!new)>(
    f: Workflow<S, R, C>, nas: Nas<S, R>, evidence: Evidence<R, C>, around: Surroundings<S, R>, ghost trace: seq<S>)
    returns (phase: Phase<R, C>, ghost seen: seq<S>)
    requires f.attempts > 0 && |trace| == 5 && trace[4] == nas.state && WroteAfterReread(f, trace, evidence)
    requires evidence.k == 3
    modifies nas
    ensures |trace + seen| > 0 && (trace + seen)[|trace + seen| - 1] == nas.state
    ensures Justified(f, trace + seen, phase) && (phase.Failed? || phase.Applied?) && phase.evidence == evidence
    ensures nas.writes == old(nas.writes)
  {
    phase, seen := Written(evidence, 0), [];
    assert trace + seen == trace;
    var attempt := 0;
    while attempt < f.attempts && phase.Written?
      invariant attempt <= f.attempts && |seen| == attempt
      invariant (trace + seen)[|trace + seen| - 1] == nas.state
      invariant WroteAfterReread(f, trace + seen, evidence) && Justified(f, trace + seen, phase)
      invariant nas.writes == old(nas.writes)
      invariant phase == Written(evidence, attempt) || phase == Failed(evidence) || phase.Applied?
      invariant phase.Wrote() && phase.evidence == evidence
      invariant phase.Written? ==> attempt < f.attempts
      decreases f.attempts - attempt
    {
      var read := nas.Read(around.beforeReadBack(attempt), around.readBackError(attempt));
      EvidenceLasts(f, trace + seen, [nas.state], phase);
      EvidenceLasts(f, trace + seen, [nas.state], Failed(evidence));
      assert trace + seen + [nas.state] == trace + (seen + [nas.state]);
      seen := seen + [nas.state];
      phase := if read.None? then Failed(evidence) else Confirm(f, evidence, attempt, read.value, attempt + 5);
      attempt := attempt + 1;
    }
  }
}

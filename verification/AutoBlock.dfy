/** The guarded write of the Auto Block settings. */
module AutoBlock {
  import opened Results
  import opened PlanApply
  import opened Text

  datatype Settings = Settings(enabled: bool, attempts: int, withinMinutes: int, expireEnabled: bool, expireDays: int)

  /** A patch: an absent field keeps what the NAS has. */
  datatype Change = Change(
    enabled: Option<bool>,
    attempts: Option<int>,
    withinMinutes: Option<int>,
    expireEnabled: Option<bool>,
    expireDays: Option<int>)

  datatype NasState = NasState(readable: bool, writable: bool, settings: Settings)

  /** The lines of a plan's summary and warnings. */
  datatype Line =
    | Enable | Disable
    | Threshold(before: int, after: int)
    | Window(before: int, after: int)
    | EnableExpiry | DisableExpiry
    | ExpiryDays(days: int)

  datatype Body = Body(observed: Settings, risk: string, warnings: seq<Line>, summary: seq<Line>)

  datatype ShapeError = NoFields | BadAttempts | BadWindow | NegativeExpiry | ZeroExpiry

  function ValidateShape(change: Change): Option<ShapeError> {
    if change == Change(None, None, None, None, None) then Some(NoFields)
    else if change.attempts.Some? && change.attempts.value < 1 then Some(BadAttempts)
    else if change.withinMinutes.Some? && change.withinMinutes.value < 1 then Some(BadWindow)
    else if change.expireDays.Some? && change.expireDays.value < 0 then Some(NegativeExpiry)
    else if change.expireEnabled == Some(true) && change.expireDays.Some? && change.expireDays.value <= 0 then
      Some(ZeroExpiry)
    else None
  }

  predicate Keeps<T(==)>(wanted: Option<T>, present: T) {
    wanted.None? || present == wanted.value
  }

  predicate Satisfied(s: Settings, change: Change) {
    && Keeps(change.enabled, s.enabled)
    && Keeps(change.attempts, s.attempts)
    && Keeps(change.withinMinutes, s.withinMinutes)
    && Keeps(change.expireEnabled, s.expireEnabled)
    && Keeps(change.expireDays, s.expireDays)
  }

  /** What the patch asks for: every present field replaced, every absent one kept. */
  function Patched(s: Settings, change: Change): Settings {
    Settings(
      if change.enabled.Some? then change.enabled.value else s.enabled,
      if change.attempts.Some? then change.attempts.value else s.attempts,
      if change.withinMinutes.Some? then change.withinMinutes.value else s.withinMinutes,
      if change.expireEnabled.Some? then change.expireEnabled.value else s.expireEnabled,
      if change.expireDays.Some? then change.expireDays.value else s.expireDays)
  }

  function Effects(s: Settings, change: Change): Body {
    var enabled := !Keeps(change.enabled, s.enabled);
    var attempts := !Keeps(change.attempts, s.attempts);
    var window := !Keeps(change.withinMinutes, s.withinMinutes);
    var expiry := !Keeps(change.expireEnabled, s.expireEnabled);
    var days := !Keeps(change.expireDays, s.expireDays);
    var disables := enabled && !change.enabled.value;
    var raises := attempts && change.attempts.value > s.attempts;
    var lengthens := window && change.withinMinutes.value > s.withinMinutes;
    var summary :=
      (if enabled then [if change.enabled.value then Enable else Disable] else []) +
      (if attempts then [Threshold(s.attempts, change.attempts.value)] else []) +
      (if window then [Window(s.withinMinutes, change.withinMinutes.value)] else []) +
      (if expiry then [if change.expireEnabled.value then EnableExpiry else DisableExpiry] else []) +
      (if days then [ExpiryDays(change.expireDays.value)] else []);
    var warnings :=
      (if disables then [Disable] else []) +
      (if raises then [Threshold(s.attempts, change.attempts.value)] else []) +
      (if lengthens then [Window(s.withinMinutes, change.withinMinutes.value)] else []);
    Body(s, if disables || raises || lengthens then "high" else "medium", warnings, summary)
  }

  function Build(nas: NasState, change: Change): Option<Body> {
    if !nas.readable || !nas.writable || Satisfied(nas.settings, change) then None
    else Some(Effects(nas.settings, change))
  }

  datatype Field = EnabledField | AttemptsField | WindowField | ExpireField | DaysField

  /** The postcondition read: the first requested field that did not take effect. */
  function Mismatch(s: Settings, change: Change): Option<Field> {
    if change.enabled.Some? && s.enabled != change.enabled.value then Some(EnabledField)
    else if change.attempts.Some? && s.attempts != change.attempts.value then Some(AttemptsField)
    else if change.withinMinutes.Some? && s.withinMinutes != change.withinMinutes.value then Some(WindowField)
    else if change.expireEnabled.Some? && s.expireEnabled != change.expireEnabled.value then Some(ExpireField)
    else if change.expireDays.Some? && s.expireDays != change.expireDays.value then Some(DaysField)
    else None
  }

  function Flow(hash: Contents<Change, Body> -> string): Workflow<NasState, Change, Body> {
    Workflow(
      (change: Change) => ValidateShape(change).None?,
      (nas: NasState, change: Change) => Build(nas, change),
      (first: NasState, second: NasState) => second,
      (nas: NasState, change: Change, body: Body) => Mismatch(nas.settings, change).None?,
      1,
      hash)
  }

  /** Verification passes exactly where the planner finds nothing to do, and both mean the patch is in force. */
  lemma VerificationIsTheNoOpTest(s: Settings, change: Change)
    ensures Mismatch(s, change).None? <==> Satisfied(s, change)
    ensures Satisfied(s, change) <==> Patched(s, change) == s
    ensures Satisfied(Patched(s, change), change)
  {
  }

  /** A plan that is made names at least one operation, and a warning is what makes it high risk. */
  lemma PlansNameTheirChanges(nas: NasState, change: Change)
    ensures nas.readable && nas.writable ==> (Build(nas, change).Some? <==> Effects(nas.settings, change).summary != [])
    ensures Effects(nas.settings, change).risk == "high" <==> Effects(nas.settings, change).warnings != []
    ensures forall w :: w in Effects(nas.settings, change).warnings ==> w in Effects(nas.settings, change).summary
  {
    var summary := Effects(nas.settings, change).summary;
    if !Satisfied(nas.settings, change) {
      assert |summary| > 0;
    }
  }

  /** The requests that are turned away before anything is read. */
  lemma RefusedShapeIff(change: Change)
    ensures ValidateShape(change).Some? <==>
      || (change.enabled.None? && change.attempts.None? && change.withinMinutes.None?
          && change.expireEnabled.None? && change.expireDays.None?)
      || (change.attempts.Some? && change.attempts.value <= 0)
      || (change.withinMinutes.Some? && change.withinMinutes.value <= 0)
      || (change.expireDays.Some? && change.expireDays.value < 0)
      || (change.expireEnabled == Some(true) && change.expireDays == Some(0))
  {
  }

  /** Which error names which defect: the first in this order. */
  lemma ShapeErrorIff(change: Change)
    ensures var e := ValidateShape(change);
      && (e == Some(NoFields) <==> change.enabled.None? && change.attempts.None? && change.withinMinutes.None?
                                   && change.expireEnabled.None? && change.expireDays.None?)
      && (e == Some(BadAttempts) <==> change.attempts.Some? && change.attempts.value <= 0)
      && (e == Some(BadWindow) ==> change.withinMinutes.Some? && change.withinMinutes.value <= 0)
      && (e == Some(NegativeExpiry) ==> change.expireDays.Some? && change.expireDays.value < 0)
      && (e == Some(ZeroExpiry) ==> change.expireEnabled == Some(true) && change.expireDays == Some(0))
  {
  }

  /** A plan is made exactly when the settings can be changed and some requested one differs. */
  lemma PlannedIff(nas: NasState, change: Change)
    ensures Build(nas, change).Some? <==>
      && nas.readable && nas.writable
      && (|| (change.enabled.Some? && change.enabled.value != nas.settings.enabled)
          || (change.attempts.Some? && change.attempts.value != nas.settings.attempts)
          || (change.withinMinutes.Some? && change.withinMinutes.value != nas.settings.withinMinutes)
          || (change.expireEnabled.Some? && change.expireEnabled.value != nas.settings.expireEnabled)
          || (change.expireDays.Some? && change.expireDays.value != nas.settings.expireDays))
    ensures Build(nas, change).Some? ==> Build(nas, change).value.observed == nas.settings
  {
  }

  /** The risk is high exactly when blocking is switched off, or made to need more attempts or a longer window. */
  lemma HighRiskIff(s: Settings, change: Change)
    ensures Effects(s, change).risk == "high" <==>
      || (change.enabled == Some(false) && s.enabled)
      || (change.attempts.Some? && change.attempts.value > s.attempts)
      || (change.withinMinutes.Some? && change.withinMinutes.value > s.withinMinutes)
    ensures Effects(s, change).risk == "high" || Effects(s, change).risk == "medium"
    ensures Disable in Effects(s, change).warnings <==> change.enabled == Some(false) && s.enabled
    ensures forall b, a :: Threshold(b, a) in Effects(s, change).warnings <==>
      change.attempts == Some(a) && b == s.attempts && b < a
    ensures forall b, a :: Window(b, a) in Effects(s, change).warnings <==>
      change.withinMinutes == Some(a) && b == s.withinMinutes && b < a
  {
    assert "high" != "medium" by { assert "high"[0] != "medium"[0]; }
  }

  lemma InOneOf<T>(a: seq<T>, b: seq<T>, c: seq<T>, d: seq<T>, e: seq<T>, x: T)
    ensures x in a + b + c + d + e <==> x in a || x in b || x in c || x in d || x in e
  {
  }

  /** The summary names exactly the requested changes that differ, by their old and new values. */
  lemma SummaryIff(s: Settings, change: Change, line: Line)
    ensures line in Effects(s, change).summary <==>
      match line
      case Enable => change.enabled == Some(true) && !s.enabled
      case Disable => change.enabled == Some(false) && s.enabled
      case Threshold(before, after) => change.attempts == Some(after) && before == s.attempts && after != before
      case Window(before, after) => change.withinMinutes == Some(after) && before == s.withinMinutes && after != before
      case EnableExpiry => change.expireEnabled == Some(true) && !s.expireEnabled
      case DisableExpiry => change.expireEnabled == Some(false) && s.expireEnabled
      case ExpiryDays(days) => change.expireDays == Some(days) && days != s.expireDays
  {
    InOneOf(
      if !Keeps(change.enabled, s.enabled) then [if change.enabled.value then Enable else Disable] else [],
      if !Keeps(change.attempts, s.attempts) then [Threshold(s.attempts, change.attempts.value)] else [],
      if !Keeps(change.withinMinutes, s.withinMinutes) then [Window(s.withinMinutes, change.withinMinutes.value)] else [],
      if !Keeps(change.expireEnabled, s.expireEnabled) then [if change.expireEnabled.value then EnableExpiry else DisableExpiry] else [],
      if !Keeps(change.expireDays, s.expireDays) then [ExpiryDays(change.expireDays.value)] else [],
      line);
  }

  /** In every run, success means that every requested setting was read back after the write. */
  lemma AppliedSettingsAreInForce(
    hash: Contents<Change, Body> -> string, start: NasState, revision: nat, steps: seq<Step<NasState, Change, Body>>,
    id: nat)
    requires InjectiveHash(Flow(hash))
    requires var w := Run(Flow(hash), World([start], revision, map[]), steps);
             id in w.sessions && w.sessions[id].Applied?
    ensures var w := Run(Flow(hash), World([start], revision, map[]), steps);
            var Applied(e, r) := w.sessions[id];
            && e.k < r < |w.trace|
            && var change, s := e.plan.Request(), w.trace[r].settings;
               && (change.enabled.Some? ==> s.enabled == change.enabled.value)
               && (change.attempts.Some? ==> s.attempts == change.attempts.value)
               && (change.withinMinutes.Some? ==> s.withinMinutes == change.withinMinutes.value)
               && (change.expireEnabled.Some? ==> s.expireEnabled == change.expireEnabled.value)
               && (change.expireDays.Some? ==> s.expireDays == change.expireDays.value)
  {
    var f := Flow(hash);
    var w := Run(f, World([start], revision, map[]), steps);
    EveryRunIsSound(f, start, revision, steps);
    assert Justified(f, w.trace, w.sessions[id]);
  }

  lemma AppliedSettingsAreNotReplanned(hash: Contents<Change, Body> -> string)
    ensures VerifiedIsNoOp(Flow(hash))
  {
    var f := Flow(hash);
    forall planned, after, request, body | Plans(f, planned, request, body) && f.verified(after, request, body)
      ensures Refuses(f, after, request)
    {
      VerificationIsTheNoOpTest(after.settings, request);
    }
  }

  /** In every run, a second write of the same patch needs a change of the NAS after the first one was verified. */
  lemma AppliedSettingsStayRefused(
    hash: Contents<Change, Body> -> string, start: NasState, revision: nat, steps: seq<Step<NasState, Change, Body>>,
    done: nat, again: nat)
    requires InjectiveHash(Flow(hash))
    requires var w := Run(Flow(hash), World([start], revision, map[]), steps);
             && done in w.sessions && w.sessions[done].Applied?
             && again in w.sessions && w.sessions[again].Wrote()
             && w.sessions[again].evidence.plan.Request() == w.sessions[done].evidence.plan.Request()
             && w.sessions[done].r <= w.sessions[again].evidence.i
    ensures var w := Run(Flow(hash), World([start], revision, map[]), steps);
            exists t :: w.sessions[done].r <= t <= w.sessions[again].evidence.j < |w.trace|
                        && w.trace[t] != w.trace[w.sessions[done].r]
  {
    AppliedSettingsAreNotReplanned(hash);
    AppliedPlanStaysRefused(Flow(hash), start, revision, steps, done, again);
  }

  /** The write meets a state that the plan describes exactly when the NAS is as it was at the re-read. */
  lemma WriteMeetsPlannedSettingsIff(
    hash: Contents<Change, Body> -> string, w: World<NasState, Change, Body>, id: nat)
    requires Sound(Flow(hash), w) && id in w.sessions && w.sessions[id].Wrote()
    ensures w.sessions[id].Written? ==> w.sessions[id].tries == 0
    ensures var e := w.sessions[id].evidence;
            && e.j < e.k < |w.trace|
            && (Build(w.trace[e.k], e.plan.Request()) == Some(e.plan.Body()) <==> w.trace[e.k] == w.trace[e.j])
  {
    WriteMeetsPlannedState(Flow(hash), w, id);
    var e := w.sessions[id].evidence;
    assert Build(w.trace[e.j], e.plan.Request()) == Some(e.plan.Body());
  }

  /**
    Nothing keeps the two together: whatever others turn the NAS into after the re-read, the write of a
    good plan goes ahead.
   */
  lemma WriteMayMeetAnyState(
    hash: Contents<Change, Body> -> string, start: NasState, plan: Plan<Change, Body>, met: NasState, after: NasState)
    requires Good(Flow(hash), World([start], plan.contents.revision, map[]), plan)
    ensures var w := Run(Flow(hash), World([start], plan.contents.revision, map[]),
                         UpToWrite(0, plan, met, plan.contents.revision, after));
            && 0 in w.sessions && w.sessions[0].Written?
            && var e := w.sessions[0].evidence;
               && e.plan == plan && e.j < e.k < |w.trace| && w.trace[e.k] == met && w.trace[e.j] == start
               && (Build(met, plan.Request()) == Some(plan.Body()) <==> met == start)
  {
    GoodPlanIsWritten(Flow(hash), World([start], plan.contents.revision, map[]), 0, plan, met, after);
    assert Build(start, plan.Request()) == Some(plan.Body());
  }

  /** For instance, when someone lowers the threshold before a write that raises it. */
  lemma WriteMayMeetAnotherState(hash: Contents<Change, Body> -> string) returns (steps: seq<Step<NasState, Change, Body>>)
    requires forall c :: !Blank(hash(c))
    ensures var start := NasState(true, true, Settings(true, 5, 5, false, 0));
            var w := Run(Flow(hash), World([start], 0, map[]), steps);
            && 0 in w.sessions && w.sessions[0].Wrote()
            && var e := w.sessions[0].evidence;
               e.k < |w.trace| && Build(w.trace[e.k], e.plan.Request()) != Some(e.plan.Body())
  {
    var start := NasState(true, true, Settings(true, 5, 5, false, 0));
    var met := start.(settings := start.settings.(attempts := 3));
    var change := Change(None, Some(10), None, None, None);
    var contents := Contents(change, Effects(start.settings, change), 0);
    var plan := Plan(contents, hash(contents));
    steps := UpToWrite(0, plan, met, 0, met);
    assert Good(Flow(hash), World([start], 0, map[]), plan);
    WriteMayMeetAnyState(hash, start, plan, met, met);
  }
}

/** The guarded change of one Drive team folder: enable, disable, or set its versioning. */
module TeamFolder {
  import opened Results
  import opened Text
  import opened PlanApply

  const ENABLE := "enable"
  const DISABLE := "disable"
  const SET_VERSIONING := "set_versioning"

  const VERIFY_ATTEMPTS: nat := 5

  datatype Folder = Folder(name: string, enabled: bool, status: string, maxVersions: Option<int>,
                           versionPolicy: string, retentionDays: Option<int>)

  datatype Change = Change(action: string, name: string, maxVersions: Option<int>, versionPolicy: string,
                           retentionDays: Option<int>)

  /** Kept versions, rotation policy, and days of retention. */
  datatype Versioning = Versioning(count: int, policy: string, days: int)

  function OrZero(value: Option<int>): int {
    if value.Some? then value.value else 0
  }

  predicate HasPrefix(text: string, prefix: string) {
    prefix <= text
  }

  predicate ValidChange(change: Change) {
    && Trim(change.name) != "" && Trim(change.name) == change.name
    && (HasPrefix(change.name, "homes") ==> change.action == SET_VERSIONING)
    && change.name != "surveillance"
    && change.versionPolicy in {"", "fifo", "smart"}
    && (change.maxVersions.Some? ==> 0 <= change.maxVersions.value <= 32)
    && (change.retentionDays.Some? ==> 0 <= change.retentionDays.value <= 120)
    && if change.action == ENABLE then
         && change.maxVersions.Some?
         && (change.maxVersions.value > 0 ==> change.versionPolicy != "")
         && (change.maxVersions.value == 0 ==> change.versionPolicy == "" && OrZero(change.retentionDays) == 0)
       else if change.action == DISABLE then
         change.maxVersions.None? && change.versionPolicy == "" && change.retentionDays.None?
       else
         && change.action == SET_VERSIONING
         && (change.maxVersions.Some? || change.versionPolicy != "" || change.retentionDays.Some?)
  }

  /** The end state a plan commits to: the request over the observed settings, everything off at count zero. */
  function DesiredVersioning(change: Change, observed: Folder): Versioning {
    var start := if change.action == SET_VERSIONING
                 then Versioning(OrZero(observed.maxVersions), observed.versionPolicy, OrZero(observed.retentionDays))
                 else Versioning(0, "", 0);
    var count := if change.maxVersions.Some? then change.maxVersions.value else start.count;
    var policy := if change.versionPolicy != "" then change.versionPolicy else start.policy;
    var days := if change.retentionDays.Some? then change.retentionDays.value else start.days;
    if count == 0 then Versioning(0, "", 0) else Versioning(count, policy, days)
  }

  predicate VersioningMatches(folder: Folder, v: Versioning) {
    && folder.enabled
    && folder.maxVersions == Some(v.count)
    && folder.versionPolicy == v.policy
    && OrZero(folder.retentionDays) == v.days
  }

  datatype Warning =
    | Indexing
    | DeletesDatabase
    | TurnsVersioningOff
    | PrunesVersions(before: int, after: int)
    | PrunesByAge(days: int)
    | ShareStatus(status: string)
    | EveryHome

  predicate Tightened(before: int, after: int) {
    (before == 0 && after > 0) || (before > 0 && after > 0 && after < before)
  }

  function PlanEffects(change: Change, observed: Folder, desired: Versioning): (bool, seq<Warning>) {
    var observedCount, observedDays := OrZero(observed.maxVersions), OrZero(observed.retentionDays);
    var fewer := desired.count < observedCount;
    var shorter := desired.count > 0 && Tightened(observedDays, desired.days);
    var status := if observed.status != "" && observed.status != "normal" then [ShareStatus(observed.status)] else [];
    if change.action == ENABLE then (false, [Indexing] + status)
    else if change.action == DISABLE then (true, [DeletesDatabase] + status)
    else if change.action == SET_VERSIONING then
      (fewer || shorter,
       (if !fewer then [] else if desired.count == 0 then [TurnsVersioningOff]
        else [PrunesVersions(observedCount, desired.count)]) +
       (if shorter then [PrunesByAge(desired.days)] else []) + status)
    else (false, status)
  }

  datatype NasState = NasState(readable: bool, settable: bool, folders: seq<Folder>)

  datatype Body = Body(observed: Folder, destructive: bool, risk: string, warnings: seq<Warning>)

  function FindFolder(folders: seq<Folder>, name: string): Option<Folder> {
    if folders == [] then None
    else if folders[0].name == name then Some(folders[0])
    else FindFolder(folders[1..], name)
  }

  function Build(nas: NasState, change: Change): Option<Body> {
    var found := FindFolder(nas.folders, change.name);
    if !nas.readable || !nas.settable || found.None? then None
    else
      var observed := found.value;
      var desired := DesiredVersioning(change, observed);
      var (destructive, warnings) := PlanEffects(change, observed, desired);
      var home := HasPrefix(change.name, "homes");
      if change.action == ENABLE && observed.enabled then None
      else if change.action == DISABLE && !observed.enabled then None
      else if change.action == SET_VERSIONING && (!observed.enabled || VersioningMatches(observed, desired)) then None
      else Some(Body(observed, destructive, if destructive || home then "high" else "medium",
                     warnings + (if home then [EveryHome] else [])))
  }

  /** What one read after the write has to show. */
  predicate Confirms(folders: seq<Folder>, change: Change, observed: Folder) {
    var found := FindFolder(folders, change.name);
    found.Some? &&
    if change.action == DISABLE then !found.value.enabled
    else VersioningMatches(found.value, DesiredVersioning(change, observed))
  }

  /**
    Polls up to five times. Succeeds exactly when one of the reads confirms the change and no earlier
    read fails, and then returns the folder as that read shows it.
   */
  method VerifyPostcondition(change: Change, observed: Folder, polls: seq<Option<seq<Folder>>>)
    returns (folder: Option<Folder>)
    requires |polls| == VERIFY_ATTEMPTS
    ensures folder.Some? <==>
      exists i :: 0 <= i < |polls| && (forall j :: 0 <= j <= i ==> polls[j].Some?) && Confirms(polls[i].value, change, observed)
    ensures folder.Some? ==>
      exists i :: 0 <= i < |polls| && polls[i].Some? && Confirms(polls[i].value, change, observed)
                  && folder == FindFolder(polls[i].value, change.name)
                  && forall j :: 0 <= j < i ==> polls[j].Some? && !Confirms(polls[j].value, change, observed)
  {
    var desired := DesiredVersioning(change, observed);
    var attempt := 0;
    while attempt < VERIFY_ATTEMPTS
      invariant attempt <= |polls|
      invariant forall j :: 0 <= j < attempt ==> polls[j].Some? && !Confirms(polls[j].value, change, observed)
    {
      if polls[attempt].None? {
        return None;
      }
      var found := FindFolder(polls[attempt].value, change.name);
      if found.Some? {
        if change.action == DISABLE {
          if !found.value.enabled {
            return found;
          }
        } else if VersioningMatches(found.value, desired) {
          return found;
        }
      }
      attempt := attempt + 1;
    }
    return None;
  }

  ghost function Flow(hash: Contents<Change, Body> -> string): Workflow<NasState, Change, Body> {
    Workflow(
      (change: Change) => ValidChange(change),
      (nas: NasState, change: Change) => Build(nas, change),
      (first: NasState, second: NasState) => second,
      (nas: NasState, change: Change, body: Body) => Confirms(nas.folders, change, body.observed),
      VERIFY_ATTEMPTS,
      hash)
  }

  /** What is asked for is what is requested, and for a versioning change otherwise what was observed; at count zero all is off. */
  lemma RequestedFieldsAreDesired(change: Change, observed: Folder)
    ensures var desired := DesiredVersioning(change, observed);
            var sets := change.action == "set_versioning";
            && desired.count == (if change.maxVersions.Some? then change.maxVersions.value
                                 else if sets && observed.maxVersions.Some? then observed.maxVersions.value else 0)
            && (desired.count == 0 ==> desired.policy == "" && desired.days == 0)
            && (desired.count != 0 && change.versionPolicy != "" ==> desired.policy == change.versionPolicy)
            && (desired.count != 0 && change.versionPolicy == "" ==>
                  desired.policy == if sets then observed.versionPolicy else "")
            && (desired.count != 0 && change.retentionDays.Some? ==> desired.days == change.retentionDays.value)
            && (desired.count != 0 && change.retentionDays.None? ==>
                  desired.days == if sets && observed.retentionDays.Some? then observed.retentionDays.value else 0)
  {
  }

  /** Which requests are valid, action by action. */
  lemma ValidChangeIff(change: Change)
    ensures ValidChange(change) <==>
      && change.name != "" && Trim(change.name) == change.name && change.name != "surveillance"
      && (change.versionPolicy == "" || change.versionPolicy == "fifo" || change.versionPolicy == "smart")
      && (change.maxVersions.Some? ==> change.maxVersions.value >= 0 && change.maxVersions.value < 33)
      && (change.retentionDays.Some? ==> change.retentionDays.value >= 0 && change.retentionDays.value < 121)
      && ((&& change.action == "enable" && !("homes" <= change.name) && change.maxVersions.Some?
           && if change.maxVersions.value == 0
              then change.versionPolicy == "" && (change.retentionDays.None? || change.retentionDays.value == 0)
              else change.versionPolicy != "")
          || (&& change.action == "disable" && !("homes" <= change.name)
              && change.maxVersions.None? && change.versionPolicy == "" && change.retentionDays.None?)
          || (&& change.action == "set_versioning"
              && !(change.maxVersions.None? && change.versionPolicy == "" && change.retentionDays.None?)))
  {
    ActionsDiffer();
  }

  lemma ActionsDiffer()
    ensures "enable" != "disable" && "enable" != "set_versioning" && "disable" != "set_versioning"
  {
    assert "enable"[0] != "disable"[0] && "enable"[0] != "set_versioning"[0] && "disable"[0] != "set_versioning"[0];
  }

  /** The first folder of that name. */
  lemma {:induction false} FindFolderIff(folders: seq<Folder>, name: string)
    ensures FindFolder(folders, name).None? <==> forall i :: 0 <= i < |folders| ==> folders[i].name != name
    ensures FindFolder(folders, name).Some? ==>
      exists i :: 0 <= i < |folders| && folders[i] == FindFolder(folders, name).value && folders[i].name == name
                  && forall j :: 0 <= j < i ==> folders[j].name != name
  {
    if folders != [] && folders[0].name != name {
      var rest := folders[1..];
      FindFolderIff(rest, name);
      assert forall i :: 0 < i < |folders| ==> folders[i] == rest[i - 1];
      assert forall i :: 0 <= i < |rest| ==> rest[i] == folders[i + 1];
      if FindFolder(folders, name).Some? {
        var i :| 0 <= i < |rest| && rest[i] == FindFolder(rest, name).value && rest[i].name == name
                 && forall j :: 0 <= j < i ==> rest[j].name != name;
        assert folders[i + 1] == FindFolder(folders, name).value;
      }
    }
  }

  /** The folder is enabled and shows these settings; no retention is the same as zero days. */
  ghost predicate Shows(folder: Folder, count: int, policy: string, days: int) {
    && folder.enabled && folder.maxVersions.Some? && folder.maxVersions.value == count && folder.versionPolicy == policy
    && if folder.retentionDays.Some? then folder.retentionDays.value == days else days == 0
  }

  /**
    A valid change is planned exactly if there is a folder, it has something to do, and versioning is set on an
    enabled folder only; it is destructive and of high risk as the action says.
   */
  lemma PlannedIff(nas: NasState, change: Change)
    requires ValidChange(change)
    ensures Build(nas, change).Some? <==>
      && nas.readable && nas.settable && FindFolder(nas.folders, change.name).Some?
      && var folder := FindFolder(nas.folders, change.name).value;
         var v := DesiredVersioning(change, folder);
         && (change.action == "enable" ==> !folder.enabled)
         && (change.action == "disable" ==> folder.enabled)
         && (change.action == "set_versioning" ==> folder.enabled && !Shows(folder, v.count, v.policy, v.days))
    ensures Build(nas, change).Some? ==>
      var body := Build(nas, change).value;
      && Some(body.observed) == FindFolder(nas.folders, change.name)
      && (change.action == "enable" ==> !body.destructive)
      && (change.action == "disable" ==> body.destructive)
      && (body.risk == "high" <==> body.destructive || "homes" <= change.name)
      && (body.risk == "high" || body.risk == "medium")
  {
    ActionsDiffer();
    assert "high" != "medium" by { assert "high"[0] != "medium"[0]; }
  }

  lemma InEither<T>(a: seq<T>, b: seq<T>, x: T)
    ensures x in a + b <==> x in a || x in b
  {
  }

  /** Retention is tightened from no limit, or from a longer one. */
  predicate ShorterDays(before: int, after: int) {
    after > 0 && (before == 0 || (before > 0 && after < before))
  }

  /** The warnings of a versioning change about what it prunes. */
  lemma PruningWarningsIff(change: Change, observed: Folder, v: Versioning, w: Warning)
    requires change.action == SET_VERSIONING
    ensures w in PlanEffects(change, observed, v).1 <==>
      match w
      case TurnsVersioningOff => v.count == 0 && OrZero(observed.maxVersions) > 0
      case PrunesVersions(before, after) =>
        before == OrZero(observed.maxVersions) && after == v.count && 0 != after && after < before
      case PrunesByAge(days) => v.count > 0 && days == v.days && ShorterDays(OrZero(observed.retentionDays), days)
      case ShareStatus(status) => status == observed.status && status != "" && status != "normal"
      case _ => false
  {
    ActionsDiffer();
    var observedCount := OrZero(observed.maxVersions);
    var fewer := v.count < observedCount;
    var shorter := v.count > 0 && Tightened(OrZero(observed.retentionDays), v.days);
    var counts := if !fewer then [] else if v.count == 0 then [TurnsVersioningOff] else [PrunesVersions(observedCount, v.count)];
    var ages := if shorter then [PrunesByAge(v.days)] else [];
    var status := if observed.status != "" && observed.status != "normal" then [ShareStatus(observed.status)] else [];
    InEither(counts, ages, w);
    InEither(counts + ages, status, w);
  }

  /** Which warnings a plan carries. */
  lemma WarningsIff(nas: NasState, change: Change, w: Warning)
    requires ValidChange(change) && Build(nas, change).Some?
    ensures var body := Build(nas, change).value;
      var v, sets := DesiredVersioning(change, body.observed), change.action == "set_versioning";
      w in body.warnings <==>
      match w
      case Indexing => change.action == "enable"
      case DeletesDatabase => change.action == "disable"
      case TurnsVersioningOff => sets && v.count == 0 && OrZero(body.observed.maxVersions) > 0
      case PrunesVersions(before, after) =>
        sets && before == OrZero(body.observed.maxVersions) && after == v.count && 0 != after && after < before
      case PrunesByAge(days) =>
        sets && v.count > 0 && days == v.days && ShorterDays(OrZero(body.observed.retentionDays), days)
      case ShareStatus(status) => status == body.observed.status && status != "" && status != "normal"
      case EveryHome => "homes" <= change.name
  {
    ActionsDiffer();
    var observed := FindFolder(nas.folders, change.name).value;
    var effects := PlanEffects(change, observed, DesiredVersioning(change, observed)).1;
    InEither(effects, if "homes" <= change.name then [EveryHome] else [], w);
    if change.action == SET_VERSIONING {
      PruningWarningsIff(change, observed, DesiredVersioning(change, observed), w);
    }
  }

  /** In every run, success means that the folder was read back as requested, field by field. */
  lemma AppliedFolderMeetsRequest(
    hash: Contents<Change, Body> -> string, start: NasState, revision: nat,
    steps: seq<Step<NasState, Change, Body>>, id: nat)
    requires InjectiveHash(Flow(hash))
    requires var w := Run(Flow(hash), World([start], revision, map[]), steps);
             id in w.sessions && w.sessions[id].Applied?
    ensures var w := Run(Flow(hash), World([start], revision, map[]), steps);
            var Applied(e, r) := w.sessions[id];
            && e.j < e.k < r < |w.trace|
            && var change := e.plan.Request();
               && FindFolder(w.trace[e.j].folders, change.name).Some? && FindFolder(w.trace[r].folders, change.name).Some?
               && var before, after := FindFolder(w.trace[e.j].folders, change.name).value, FindFolder(w.trace[r].folders, change.name).value;
                  && (change.action == "disable" ==> !after.enabled)
                  && (change.action != "disable" ==>
                        var v := DesiredVersioning(change, before); Shows(after, v.count, v.policy, v.days))
  {
    var f := Flow(hash);
    var w := Run(f, World([start], revision, map[]), steps);
    EveryRunIsSound(f, start, revision, steps);
    var Applied(e, r) := w.sessions[id];
    assert Justified(f, w.trace, w.sessions[id]);
    assert Build(w.trace[e.j], e.plan.Request()) == Some(e.plan.Body());
    assert Confirms(w.trace[r].folders, e.plan.Request(), e.plan.Body().observed);
  }

  /** A folder change that does not show after the write is read back five times before it has failed. */
  lemma FiveReadsAreMade(
    hash: Contents<Change, Body> -> string, w: World<NasState, Change, Body>, id: nat, e: Evidence<Change, Body>)
    requires w.trace != [] && id in w.sessions && w.sessions[id] == Written(e, 0)
    requires !Confirms(w.trace[|w.trace| - 1].folders, e.plan.Request(), e.plan.Body().observed)
    ensures var four, five := Run(Flow(hash), w, seq(4, _ => ReadBack(id, false))), Run(Flow(hash), w, seq(5, _ => ReadBack(id, false)));
            && id in four.sessions && four.sessions[id] == Written(e, 4)
            && id in five.sessions && five.sessions[id] == Failed(e)
  {
    EveryAttemptIsMade(Flow(hash), w, id, e, 4);
    EveryAttemptIsMade(Flow(hash), w, id, e, 5);
  }

  /** The desired versioning is a fixed point: from any state that shows it, the same request asks for it again. */
  lemma DesiredIsFixedPoint(change: Change, observed: Folder, after: Folder)
    requires VersioningMatches(after, DesiredVersioning(change, observed))
    ensures DesiredVersioning(change, after) == DesiredVersioning(change, observed)
  {
  }

  /** So a verified enable, disable or set-versioning is never planned a second time. */
  lemma VerifiedFolderIsNotReplanned(hash: Contents<Change, Body> -> string)
    ensures VerifiedIsNoOp(Flow(hash))
  {
    var f := Flow(hash);
    forall planned, after, request, body | Plans(f, planned, request, body) && f.verified(after, request, body)
      ensures Refuses(f, after, request)
    {
      if request.action != DISABLE {
        var found := FindFolder(after.folders, request.name).value;
        DesiredIsFixedPoint(request, body.observed, found);
      }
      assert Build(after, request).None?;
    }
  }

  /** In every run, a folder change that is reported applied was seen in force after the write. */
  lemma AppliedFolderWasSeen(
    hash: Contents<Change, Body> -> string, start: NasState, revision: nat,
    steps: seq<Step<NasState, Change, Body>>, id: nat)
    requires InjectiveHash(Flow(hash))
    requires var w := Run(Flow(hash), World([start], revision, map[]), steps);
             id in w.sessions && w.sessions[id].Applied?
    ensures var w := Run(Flow(hash), World([start], revision, map[]), steps);
            var Applied(e, r) := w.sessions[id];
            && e.j < e.k < r < |w.trace|
            && Build(w.trace[e.j], e.plan.Request()) == Some(e.plan.Body())
            && Confirms(w.trace[r].folders, e.plan.Request(), e.plan.Body().observed)
            && Build(w.trace[r], e.plan.Request()).None?
  {
    var f := Flow(hash);
    var w := Run(f, World([start], revision, map[]), steps);
    EveryRunIsSound(f, start, revision, steps);
    VerifiedFolderIsNotReplanned(hash);
    var Applied(e, r) := w.sessions[id];
    assert Justified(f, w.trace, w.sessions[id]);
    assert Plans(f, w.trace[e.j], e.plan.Request(), e.plan.Body());
    assert Refuses(f, w.trace[r], e.plan.Request());
  }

  /**
    The write meets a state that the plan describes exactly when team folders can still be changed and the
    folder itself is as it was at the re-read; the other folders do not matter.
   */
  lemma WriteMeetsPlannedFolderIff(
    hash: Contents<Change, Body> -> string, w: World<NasState, Change, Body>, id: nat)
    requires Sound(Flow(hash), w) && id in w.sessions && w.sessions[id].Wrote()
    ensures w.sessions[id].Written? ==> w.sessions[id].tries < 5
    ensures var e := w.sessions[id].evidence;
            && e.j < e.k < |w.trace|
            && var met, name := w.trace[e.k], e.plan.Request().name;
               Build(met, e.plan.Request()) == Some(e.plan.Body()) <==>
               && met.readable && met.settable
               && FindFolder(met.folders, name) == FindFolder(w.trace[e.j].folders, name)
  {
    WriteMeetsPlannedState(Flow(hash), w, id);
    var e := w.sessions[id].evidence;
    assert Build(w.trace[e.j], e.plan.Request()) == Some(e.plan.Body());
  }

  // ---- what "destructive" means for stored versions ----

  // The ages of a file's stored versions in days, newest first.
  type History = seq<nat>

  /** Retention keeps the newest `count` versions that are no older than `days`; zero days is no limit. */
  ghost predicate Keeps(h: History, i: nat, count: int, days: int)
    requires i < |h|
  {
    i < count && (days == 0 || h[i] <= days)
  }

  ghost predicate Stored(h: History, count: int, days: int) {
    && (forall i, j :: 0 <= i < j < |h| ==> h[i] <= h[j])
    && (forall i: nat :: i < |h| ==> Keeps(h, i, count, days))
  }

  ghost predicate Loses(h: History, count: int, days: int) {
    exists i: nat :: i < |h| && !Keeps(h, i, count, days)
  }

  ghost predicate SomeHistoryLoses(observed: Folder, desired: Versioning) {
    exists h: History ::
      Stored(h, OrZero(observed.maxVersions), OrZero(observed.retentionDays)) && Loses(h, desired.count, desired.days)
  }

  /**
    A versioning change is flagged destructive, with versions being kept at all, exactly when it takes
    a stored version away from some history that the observed settings allow.
   */
  lemma DestructiveIffSomeVersionIsLost(change: Change, observed: Folder)
    requires ValidChange(change) && change.action == SET_VERSIONING
    requires OrZero(observed.maxVersions) >= 0 && OrZero(observed.retentionDays) >= 0
    ensures var desired := DesiredVersioning(change, observed);
            PlanEffects(change, observed, desired).0 && OrZero(observed.maxVersions) > 0 <==>
            SomeHistoryLoses(observed, desired)
  {
    var desired := DesiredVersioning(change, observed);
    var count, days := OrZero(observed.maxVersions), OrZero(observed.retentionDays);
    if PlanEffects(change, observed, desired).0 && count > 0 {
      var h := LosingHistory(count, days, desired);
      assert Stored(h, count, days) && Loses(h, desired.count, desired.days);
    }
    if SomeHistoryLoses(observed, desired) {
      var h: History :| Stored(h, count, days) && Loses(h, desired.count, desired.days);
      var i: nat :| i < |h| && !Keeps(h, i, desired.count, desired.days);
      assert Keeps(h, i, count, days);
    }
  }

  lemma LosingHistory(count: int, days: int, desired: Versioning) returns (h: History)
    requires count > 0 && days >= 0 && desired.count >= 0 && desired.days >= 0
    requires desired.count < count || (desired.count > 0 && Tightened(days, desired.days))
    ensures Stored(h, count, days) && Loses(h, desired.count, desired.days)
  {
    if desired.count < count {
      h := seq(count, _ => 0);
      assert !Keeps(h, desired.count, desired.count, desired.days);
    } else {
      h := [desired.days + 1];
      assert !Keeps(h, 0, desired.count, desired.days);
    }
  }

  /** The flag alone does not mean a loss: with versioning off, nothing is stored that a retention limit could prune. */
  lemma FlaggedWithoutLoss(observed: Folder, change: Change)
    requires observed.maxVersions == Some(0) && observed.retentionDays == Some(0)
    requires change.action == SET_VERSIONING && change.maxVersions == Some(8) && change.retentionDays == Some(30)
    ensures PlanEffects(change, observed, DesiredVersioning(change, observed)).0
    ensures !SomeHistoryLoses(observed, DesiredVersioning(change, observed))
  {
    forall h: History, i: nat | i < |h| && !Keeps(h, i, 8, 30) ensures !Stored(h, 0, 0) {
      assert !Keeps(h, i, 0, 0);
    }
  }
}

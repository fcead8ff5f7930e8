/** Running a plan's steps against a NAS that may fail, finish late, or be changed by others meanwhile. */
module InstallRun {
  import opened Results
  import opened Text
  import opened Packages
  import opened Versions
  import opened InstallOrder
  import opened InstallPlanning

  // Package id to version.
  type Inventory = map<string, string>

  /**
    What happens up to one poll of an install task: what others remove and add or change, and the version
    of the package that DSM has installed by then, if it has; `failed` if the task or the read reports an error.
   */
  datatype Poll = Poll(removed: set<string>, changed: Inventory, arrived: Option<string>, failed: bool)

  /** One install call: whether DSM starts the task, and the polls until the deadline. */
  datatype Outcome = Outcome(started: bool, polls: seq<Poll>)

  function AfterPoll(inventory: Inventory, id: string, poll: Poll): Inventory {
    var others := (inventory - poll.removed) + poll.changed;
    if poll.arrived.Some? then others[id := poll.arrived.value] else others
  }

  /** Completion is read off the inventory: the package is there, at the expected version if one is expected. */
  predicate Confirmed(inventory: Inventory, id: string, expectVersion: string) {
    id in inventory && (expectVersion == "" || inventory[id] == expectVersion)
  }

  /** Polling ends at the first poll that fails or confirms, or at the deadline. */
  function Await(inventory: Inventory, id: string, expectVersion: string, polls: seq<Poll>): (Inventory, bool)
    decreases |polls|
  {
    if polls == [] then (inventory, false)
    else
      var next := AfterPoll(inventory, id, polls[0]);
      if polls[0].failed then (next, false)
      else if Confirmed(next, id, expectVersion) then (next, true)
      else Await(next, id, expectVersion, polls[1..])
  }

  function Call(inventory: Inventory, id: string, expectVersion: string, outcome: Outcome): (Inventory, bool) {
    if outcome.started then Await(inventory, id, expectVersion, outcome.polls) else (inventory, false)
  }

  function ExpectedVersion(plan: InstallPlan, step: Step): string {
    if plan.update && step.packageId == plan.packageId then step.version else ""
  }

  /** The inventory after the first `k` calls. */
  function After(start: Inventory, plan: InstallPlan, outcomes: seq<Outcome>, k: nat): Inventory
    requires k <= |plan.steps| && k <= |outcomes|
    decreases k, 0
  {
    if k == 0 then start else CallOf(start, plan, outcomes, k - 1).0
  }

  function CallOf(start: Inventory, plan: InstallPlan, outcomes: seq<Outcome>, k: nat): (Inventory, bool)
    requires k < |plan.steps| && k < |outcomes|
    decreases k, 1
  {
    Call(After(start, plan, outcomes, k), plan.steps[k].packageId, ExpectedVersion(plan, plan.steps[k]), outcomes[k])
  }

  predicate Succeeds(start: Inventory, plan: InstallPlan, outcomes: seq<Outcome>, k: nat)
    requires k < |plan.steps| && k < |outcomes|
  {
    CallOf(start, plan, outcomes, k).1
  }

  class Nas {
    var inventory: Inventory

    constructor (inventory: Inventory)
      ensures this.inventory == inventory
    {
      this.inventory := inventory;
    }

    /** Starts the install task and polls; success means that the inventory last read shows the package. */
    method PackageInstall(id: string, expectVersion: string, outcome: Outcome) returns (ok: bool)
      modifies this
      ensures (inventory, ok) == Call(old(inventory), id, expectVersion, outcome)
      ensures ok ==> Confirmed(inventory, id, expectVersion)
    {
      if !outcome.started {
        return false;
      }
      for i := 0 to |outcome.polls|
        invariant Await(inventory, id, expectVersion, outcome.polls[i..]) ==
                  Await(old(inventory), id, expectVersion, outcome.polls)
      {
        var poll := outcome.polls[i];
        assert outcome.polls[i..][1..] == outcome.polls[i + 1..];
        inventory := (inventory - poll.removed) + poll.changed;
        if poll.arrived.Some? {
          inventory := inventory[id := poll.arrived.value];
        }
        if poll.failed {
          return false;
        }
        if id in inventory && (expectVersion == "" || inventory[id] == expectVersion) {
          return true;
        }
      }
      return false;
    }
  }

  ghost predicate FirstVersion(rows: seq<InstalledPackage>, id: string, version: string) {
    exists i :: 0 <= i < |rows| && rows[i].id == id && rows[i].version == version
                && forall j :: 0 <= j < i ==> rows[j].id != id
  }

  /** Passes exactly when the first inventory row of the target still has the planned, non-blank version. */
  method VerifyUpdatePrecondition(plan: InstallPlan, rows: seq<InstalledPackage>) returns (ok: bool)
    ensures ok <==> !Blank(plan.fromVersion) && FirstVersion(rows, plan.packageId, plan.fromVersion)
  {
    if Blank(plan.fromVersion) {
      return false;
    }
    var currentVersion := "";
    for i := 0 to |rows|
      invariant currentVersion == ""
      invariant forall k :: 0 <= k < i ==> rows[k].id != plan.packageId
    {
      if rows[i].id == plan.packageId {
        currentVersion := rows[i].version;
        if currentVersion == plan.fromVersion {
          assert FirstVersion(rows, plan.packageId, plan.fromVersion);
        }
        break;
      }
    }
    if currentVersion == "" {
      return false;
    }
    return currentVersion == plan.fromVersion;
  }

  /**
    Applies the steps in order and stops at the first call that fails. `rows` is the inventory read
    that an update plan is checked against; an install plan reads nothing first.
   */
  method ApplyInstallPlan(nas: Nas, plan: InstallPlan, rows: seq<InstalledPackage>, outcomes: seq<Outcome>)
    returns (results: seq<string>, completed: bool, ghost attempted: nat)
    requires plan.steps != [] && |outcomes| == |plan.steps|
    modifies nas
    ensures attempted <= |plan.steps|
    ensures nas.inventory == After(old(nas.inventory), plan, outcomes, attempted)
    ensures |results| <= |plan.steps| && forall k :: 0 <= k < |results| ==> results[k] == plan.steps[k].packageId
    ensures |results| <= attempted <= |results| + 1
    ensures forall k :: 0 <= k < |results| ==> Succeeds(old(nas.inventory), plan, outcomes, k)
    ensures |results| < attempted ==> !Succeeds(old(nas.inventory), plan, outcomes, |results|)
    ensures completed <==> |results| == |plan.steps|
    ensures attempted == 0 <==>
      plan.update && (Blank(plan.fromVersion) || !FirstVersion(rows, plan.packageId, plan.fromVersion))
  {
    results, completed, attempted := [], false, 0;
    if plan.update {
      var current := VerifyUpdatePrecondition(plan, rows);
      if !current {
        return;
      }
    }
    for i := 0 to |plan.steps|
      invariant attempted == i == |results|
      invariant nas.inventory == After(old(nas.inventory), plan, outcomes, i)
      invariant forall k :: 0 <= k < i ==> results[k] == plan.steps[k].packageId
      invariant forall k :: 0 <= k < i ==> Succeeds(old(nas.inventory), plan, outcomes, k)
    {
      var step := plan.steps[i];
      var expectVersion := "";
      if plan.update && step.packageId == plan.packageId {
        expectVersion := step.version;
      }
      var ok := nas.PackageInstall(step.packageId, expectVersion, outcomes[i]);
      attempted := attempted + 1;
      if !ok {
        return;
      }
      results := results + [step.packageId];
    }
    completed := true;
  }

  // ---- what a run keeps ----

  /** Others leave the package where it is. */
  predicate NotRemoved(outcome: Outcome, id: string) {
    forall i :: 0 <= i < |outcome.polls| ==> id !in outcome.polls[i].removed
  }

  /** Others leave the package as it is. */
  predicate Untouched(outcome: Outcome, id: string) {
    forall i :: 0 <= i < |outcome.polls| ==> id !in outcome.polls[i].removed && id !in outcome.polls[i].changed
  }

  lemma {:induction false} AwaitKeeps(inventory: Inventory, id: string, expectVersion: string, polls: seq<Poll>, d: string)
    requires d in inventory && NotRemoved(Outcome(true, polls), d)
    ensures d in Await(inventory, id, expectVersion, polls).0
    decreases |polls|
  {
    if polls != [] {
      assert forall i :: 0 <= i < |polls[1..]| ==> polls[1..][i] == polls[i + 1];
      AwaitKeeps(AfterPoll(inventory, id, polls[0]), id, expectVersion, polls[1..], d);
    }
  }

  lemma {:induction false} AwaitTouchesOne(inventory: Inventory, id: string, expectVersion: string, polls: seq<Poll>, d: string)
    requires d != id && Untouched(Outcome(true, polls), d)
    ensures var after := Await(inventory, id, expectVersion, polls).0;
            (d in after <==> d in inventory) && (d in inventory ==> after[d] == inventory[d])
    decreases |polls|
  {
    if polls != [] {
      assert forall i :: 0 <= i < |polls[1..]| ==> polls[1..][i] == polls[i + 1];
      AwaitTouchesOne(AfterPoll(inventory, id, polls[0]), id, expectVersion, polls[1..], d);
    }
  }

  lemma {:induction false} AwaitConfirms(inventory: Inventory, id: string, expectVersion: string, polls: seq<Poll>)
    ensures var (after, ok) := Await(inventory, id, expectVersion, polls); ok ==> Confirmed(after, id, expectVersion)
    decreases |polls|
  {
    if polls != [] {
      AwaitConfirms(AfterPoll(inventory, id, polls[0]), id, expectVersion, polls[1..]);
    }
  }

  function AfterPolls(inventory: Inventory, id: string, polls: seq<Poll>): Inventory
    decreases |polls|
  {
    if polls == [] then inventory else AfterPolls(AfterPoll(inventory, id, polls[0]), id, polls[1..])
  }

  ghost predicate ConfirmedAt(inventory: Inventory, id: string, expectVersion: string, polls: seq<Poll>, n: nat) {
    && n < |polls| && (forall j :: 0 <= j <= n ==> !polls[j].failed)
    && Confirmed(AfterPolls(inventory, id, polls[..n + 1]), id, expectVersion)
  }

  /** An install succeeds exactly when some poll shows the package and nothing failed up to it. */
  lemma {:induction false} InstallSucceedsIff(inventory: Inventory, id: string, expectVersion: string, polls: seq<Poll>)
    ensures Await(inventory, id, expectVersion, polls).1 <==>
            exists n: nat :: ConfirmedAt(inventory, id, expectVersion, polls, n)
    decreases |polls|
  {
    if polls != [] {
      var next := AfterPoll(inventory, id, polls[0]);
      InstallSucceedsIff(next, id, expectVersion, polls[1..]);
      ConfirmedAtFirst(inventory, id, expectVersion, polls);
      forall n: nat | n > 0
        ensures ConfirmedAt(inventory, id, expectVersion, polls, n) <==>
                !polls[0].failed && ConfirmedAt(next, id, expectVersion, polls[1..], n - 1)
      {
        ConfirmedAtLater(inventory, id, expectVersion, polls, n);
      }
      if m: nat :| ConfirmedAt(next, id, expectVersion, polls[1..], m) {
        assert !polls[0].failed ==> ConfirmedAt(inventory, id, expectVersion, polls, m + 1);
      }
    }
  }

  lemma ConfirmedAtFirst(inventory: Inventory, id: string, expectVersion: string, polls: seq<Poll>)
    requires polls != []
    ensures ConfirmedAt(inventory, id, expectVersion, polls, 0) <==>
            !polls[0].failed && Confirmed(AfterPoll(inventory, id, polls[0]), id, expectVersion)
  {
    var next := AfterPoll(inventory, id, polls[0]);
    assert polls[..1][1..] == [] && polls[..1][0] == polls[0];
    assert AfterPolls(next, id, []) == next;
  }

  lemma ConfirmedAtLater(inventory: Inventory, id: string, expectVersion: string, polls: seq<Poll>, n: nat)
    requires polls != [] && n > 0
    ensures ConfirmedAt(inventory, id, expectVersion, polls, n) <==>
            !polls[0].failed && ConfirmedAt(AfterPoll(inventory, id, polls[0]), id, expectVersion, polls[1..], n - 1)
  {
    assert forall j :: 0 <= j < |polls| - 1 ==> polls[1..][j] == polls[j + 1];
    if n < |polls| {
      assert polls[..n + 1][1..] == polls[1..][..n] && polls[..n + 1][0] == polls[0];
      forall j | 0 < j <= n ensures polls[j] == polls[1..][j - 1] {
      }
    }
  }

  lemma SuccessIsSeen(start: Inventory, plan: InstallPlan, outcomes: seq<Outcome>, k: nat)
    requires k < |plan.steps| && k < |outcomes| && Succeeds(start, plan, outcomes, k)
    ensures Confirmed(After(start, plan, outcomes, k + 1), plan.steps[k].packageId, ExpectedVersion(plan, plan.steps[k]))
  {
    AwaitConfirms(After(start, plan, outcomes, k), plan.steps[k].packageId, ExpectedVersion(plan, plan.steps[k]),
                  outcomes[k].polls);
  }

  lemma {:induction false} PackageStays(start: Inventory, plan: InstallPlan, outcomes: seq<Outcome>, j: nat, k: nat, d: string)
    requires j <= k <= |plan.steps| && k <= |outcomes|
    requires d in After(start, plan, outcomes, j)
    requires forall i :: j <= i < k ==> NotRemoved(outcomes[i], d)
    ensures d in After(start, plan, outcomes, k)
    decreases k - j
  {
    if j < k {
      PackageStays(start, plan, outcomes, j, k - 1, d);
      AwaitKeeps(After(start, plan, outcomes, k - 1), plan.steps[k - 1].packageId,
                 ExpectedVersion(plan, plan.steps[k - 1]), outcomes[k - 1].polls, d);
    }
  }

  /**
    At every prefix of a run, also an aborted one, what a step's package depends on was in the inventory
    before that step was tried and still is, as long as others do not remove it and, if the plan saw it
    installed, it was still there at the start.
   */
  lemma DependenciesPrecedeEveryStep(
    g: Graph, quick: bool, plan: InstallPlan, start: Inventory, outcomes: seq<Outcome>, k: nat, j: nat, d: string)
    requires SoundSteps(g, plan.packageId, quick, plan.steps)
    requires j < k <= |plan.steps| && k <= |outcomes|
    requires forall i :: 0 <= i < k - 1 ==> Succeeds(start, plan, outcomes, i)
    requires d in g.offered[plan.steps[j].packageId].dependencies
    requires d in g.installed ==> d in start
    requires forall i :: 0 <= i < k ==> NotRemoved(outcomes[i], d)
    ensures d in After(start, plan, outcomes, j)
    ensures d in After(start, plan, outcomes, k)
  {
    if d in g.installed {
      PackageStays(start, plan, outcomes, 0, j, d);
    } else {
      assert HasStep(plan.steps[..j], d);
      var i :| 0 <= i < j && plan.steps[..j][i].packageId == d;
      SuccessIsSeen(start, plan, outcomes, i);
      PackageStays(start, plan, outcomes, i + 1, j, d);
    }
    PackageStays(start, plan, outcomes, j, k, d);
  }

  /** No run of any length touches a package the plan saw installed, other than an update's own target. */
  lemma {:induction false} RunTouchesNothingInstalled(
    g: Graph, quick: bool, plan: InstallPlan, start: Inventory, outcomes: seq<Outcome>, k: nat, id: string)
    requires SoundSteps(g, plan.packageId, quick, plan.steps)
    requires k <= |plan.steps| && k <= |outcomes|
    requires id in g.installed && forall i :: 0 <= i < k ==> Untouched(outcomes[i], id)
    ensures id in After(start, plan, outcomes, k) <==> id in start
    ensures id in start ==> After(start, plan, outcomes, k)[id] == start[id]
  {
    if k > 0 {
      RunTouchesNothingInstalled(g, quick, plan, start, outcomes, k - 1, id);
      assert plan.steps[k - 1].packageId != id;
      AwaitTouchesOne(After(start, plan, outcomes, k - 1), plan.steps[k - 1].packageId,
                      ExpectedVersion(plan, plan.steps[k - 1]), outcomes[k - 1].polls, id);
    }
  }

  ghost predicate DependsOn(g: Graph, step: Step, d: string) {
    step.packageId in g.offered && d in g.offered[step.packageId].dependencies
  }

  ghost predicate DependenciesIn(g: Graph, steps: seq<Step>, inventory: Inventory) {
    forall j, d :: 0 <= j < |steps| && DependsOn(g, steps[j], d) ==> d in inventory
  }

  /** The same, for the dependencies that were installed when the plan was made. */
  ghost predicate SeenDependenciesIn(g: Graph, steps: seq<Step>, inventory: Inventory) {
    forall j, d :: 0 <= j < |steps| && DependsOn(g, steps[j], d) && d in g.installed ==> d in inventory
  }

  /** Nobody else changes a package that the steps depend on. */
  ghost predicate LeftAlone(g: Graph, steps: seq<Step>, outcomes: seq<Outcome>) {
    forall j, d, i :: 0 <= j < |steps| && DependsOn(g, steps[j], d) && 0 <= i < |outcomes| ==> Untouched(outcomes[i], d)
  }

  /**
    An install plan is not checked against the inventory again. So a completed run, in which nobody
    interferes with the dependencies, leaves every dependency present exactly when the inventory it started
    from still had the dependencies that the plan saw installed.
   */
  lemma DependenciesPresentIff(g: Graph, quick: bool, plan: InstallPlan, start: Inventory, outcomes: seq<Outcome>)
    requires SoundSteps(g, plan.packageId, quick, plan.steps) && |outcomes| == |plan.steps|
    requires LeftAlone(g, plan.steps, outcomes)
    requires forall i :: 0 <= i < |outcomes| ==> Succeeds(start, plan, outcomes, i)
    ensures DependenciesIn(g, plan.steps, After(start, plan, outcomes, |plan.steps|)) <==>
            SeenDependenciesIn(g, plan.steps, start)
  {
    var n := |plan.steps|;
    var finish := After(start, plan, outcomes, n);
    forall j, d | 0 <= j < n && DependsOn(g, plan.steps[j], d)
      ensures d in finish <==> (d in g.installed ==> d in start)
    {
      if d in g.installed {
        RunTouchesNothingInstalled(g, quick, plan, start, outcomes, n, d);
      } else {
        DependenciesPrecedeEveryStep(g, quick, plan, start, outcomes, n, j, d);
      }
    }
    if DependenciesIn(g, plan.steps, finish) {
      assert SeenDependenciesIn(g, plan.steps, start);
    }
  }

  // ---- a completed run that lacks a dependency ----

  const NEEDY := Package("a", "A", "1", false, 1, "link", "", false, ["b"])

  const NEEDY_PLAN := InstallPlan("a", "A", "1", false, "", "", false, [],
                                  [Step("a", "A", "1", 1, "link", "", false, false, false)])

  /** Package b is not offered, only installed. */
  function NeedyGraph(): Graph {
    Graph(map["a" := NEEDY], {"b"})
  }

  lemma NeedyPlanIsSound()
    ensures SoundSteps(NeedyGraph(), "a", false, NEEDY_PLAN.steps)
  {
    var g, steps := NeedyGraph(), NEEDY_PLAN.steps;
    assert "a" != "b" by { assert "a"[0] != "b"[0]; }
    assert steps[0].packageId == "a";
    assert g.Connects(["a"], "a", "a");
    forall id | g.Needed("a", id) ensures id == "a" {
      var p :| g.Connects(p, "a", id);
      assert |p| > 1 ==> g.Edge(p[0], p[1]);
    }
    forall id ensures HasStep(steps, id) <==> g.Needed("a", id) {
      assert HasStep(steps, id) <==> id == "a";
    }
  }

  /** When b is removed after planning, installing a completes all the same, and b is missing. */
  lemma CompletedRunMayLackADependency() returns (outcomes: seq<Outcome>)
    ensures SoundSteps(NeedyGraph(), "a", false, NEEDY_PLAN.steps) && |outcomes| == |NEEDY_PLAN.steps|
    ensures LeftAlone(NeedyGraph(), NEEDY_PLAN.steps, outcomes)
    ensures forall i :: 0 <= i < |outcomes| ==> Succeeds(map[], NEEDY_PLAN, outcomes, i)
    ensures !DependenciesIn(NeedyGraph(), NEEDY_PLAN.steps, After(map[], NEEDY_PLAN, outcomes, |NEEDY_PLAN.steps|))
  {
    NeedyPlanIsSound();
    outcomes := [Outcome(true, [Poll({}, map[], Some("2"), false)])];
    assert Succeeds(map[], NEEDY_PLAN, outcomes, 0);
    assert "b" in NEEDY.dependencies && DependsOn(NeedyGraph(), NEEDY_PLAN.steps[0], "b");
    assert !SeenDependenciesIn(NeedyGraph(), NEEDY_PLAN.steps, map[]);
    DependenciesPresentIff(NeedyGraph(), false, NEEDY_PLAN, map[], outcomes);
  }

  /** A completed update leaves a strictly newer version than the one its precondition has just read. */
  lemma UpdateEndsNewer(
    g: Graph, plan: InstallPlan, rows: seq<InstalledPackage>, versionRead: string,
    start: Inventory, outcomes: seq<Outcome>)
    requires LeadsToNewer(g, plan) && |outcomes| == |plan.steps|
    requires FirstVersion(rows, plan.packageId, plan.fromVersion)
    requires FirstVersion(rows, plan.packageId, versionRead)
    requires Succeeds(start, plan, outcomes, |plan.steps| - 1)
    ensures var finish := After(start, plan, outcomes, |plan.steps|);
            && plan.packageId in finish && finish[plan.packageId] == plan.version
            && Older(Segments(versionRead), Segments(finish[plan.packageId]))
  {
    SuccessIsSeen(start, plan, outcomes, |plan.steps| - 1);
    assert plan.steps[|plan.steps| - 1].version == plan.version;
    assert plan.version != "" by {
      assert Segments("") == [];
    }
  }
}

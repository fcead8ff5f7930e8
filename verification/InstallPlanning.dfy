/** Planning an install or an update from an inventory and a catalog. */
module InstallPlanning {
  import opened Results
  import opened Packages
  import opened Versions
  import opened Catalog
  import opened InstallOrder

  /** One row of the package inventory. */
  datatype InstalledPackage = InstalledPackage(id: string, version: string, volume: string, running: bool)

  datatype Step = Step(
    packageId: string,
    name: string,
    version: string,
    size: int,
    downloadLink: string,
    checksum: string,
    beta: bool,
    quickInstall: bool,
    dependency: bool)

  datatype InstallPlan = InstallPlan(
    packageId: string,
    name: string,
    version: string,
    update: bool,
    fromVersion: string,
    volumePath: string,
    runAfterInstall: bool,
    dependencies: seq<string>,
    steps: seq<Step>)

  datatype PlanError =
    | AlreadyInstalled
    | NotInstalled
    | TargetNotOffered
    | AlreadyAtVersion
    | NotNewer
    | Unresolvable(cause: ResolveError)

  ghost function InventoryIds(inventory: seq<InstalledPackage>): set<string> {
    set i | 0 <= i < |inventory| :: inventory[i].id
  }

  /** The step downloads exactly the offered build. */
  ghost predicate StepMatches(step: Step, pkg: Package, quick: bool) {
    && step.packageId == pkg.id && step.name == pkg.name && step.version == pkg.version
    && step.size == pkg.size && step.downloadLink == pkg.downloadLink && step.checksum == pkg.checksum
    && step.beta == pkg.beta && step.quickInstall == (pkg.quickInstall || quick)
  }

  ghost predicate HasStep(steps: seq<Step>, id: string) {
    exists i :: 0 <= i < |steps| && steps[i].packageId == id
  }

  /**
    What a plan's steps promise: each downloads the offered build of a package that is needed and
    not present, once, after everything it depends on; the target is last and the only step that is
    not a dependency.
   */
  ghost predicate SoundSteps(g: Graph, target: string, quick: bool, steps: seq<Step>) {
    && steps != [] && steps[|steps| - 1].packageId == target
    && (forall i :: 0 <= i < |steps| ==>
          && g.Installable(steps[i].packageId)
          && StepMatches(steps[i], g.offered[steps[i].packageId], quick)
          && steps[i].packageId !in g.installed
          && (steps[i].dependency <==> i < |steps| - 1))
    && (forall i, j :: 0 <= i < j < |steps| ==> steps[i].packageId != steps[j].packageId)
    && (forall i, d :: 0 <= i < |steps| && d in g.offered[steps[i].packageId].dependencies ==>
          d in g.installed || HasStep(steps[..i], d))
    && (forall id :: HasStep(steps, id) <==> g.Needed(target, id))
  }

  /** The dependency list names the steps before the target, in order. */
  ghost predicate DependenciesAreSteps(plan: InstallPlan) {
    && |plan.dependencies| == |plan.steps| - 1
    && forall i :: 0 <= i < |plan.dependencies| ==> plan.dependencies[i] == plan.steps[i].packageId
  }

  method BuildSteps(order: seq<Package>, target: string, quick: bool)
    returns (steps: seq<Step>, dependencies: seq<string>)
    requires order != [] && order[|order| - 1].id == target
    requires forall i :: 0 <= i < |order| - 1 ==> order[i].id != target
    ensures |steps| == |order| && |dependencies| == |order| - 1
    ensures forall i :: 0 <= i < |order| ==>
      StepMatches(steps[i], order[i], quick) && (steps[i].dependency <==> i < |order| - 1)
    ensures forall i :: 0 <= i < |dependencies| ==> dependencies[i] == order[i].id
  {
    steps, dependencies := [], [];
    for i := 0 to |order|
      invariant |steps| == i && |dependencies| == (if i == |order| then i - 1 else i)
      invariant forall k :: 0 <= k < i ==>
        StepMatches(steps[k], order[k], quick) && (steps[k].dependency <==> k < |order| - 1)
      invariant forall k :: 0 <= k < |dependencies| ==> dependencies[k] == order[k].id
    {
      var pkg := order[i];
      var isDependency := pkg.id != target;
      steps := steps + [Step(pkg.id, pkg.name, pkg.version, pkg.size, pkg.downloadLink, pkg.checksum,
                             pkg.beta, pkg.quickInstall || quick, isDependency)];
      if isDependency {
        dependencies := dependencies + [pkg.id];
      }
    }
  }

  lemma StepsAreSound(g: Graph, target: string, quick: bool, order: seq<Package>, steps: seq<Step>)
    requires KeyedById(g.offered) && g.IsInstallOrder(target, order) && target !in g.installed
    requires |steps| == |order|
    requires forall i :: 0 <= i < |order| ==>
      StepMatches(steps[i], order[i], quick) && (steps[i].dependency <==> i < |order| - 1)
    ensures SoundSteps(g, target, quick, steps)
  {
    forall i, d | 0 <= i < |steps| && d in g.offered[steps[i].packageId].dependencies
      ensures d in g.installed || HasStep(steps[..i], d)
    {
      assert d in order[i].dependencies;
      if d !in g.installed {
        var j :| 0 <= j < i && order[..i][j].id == d;
        assert steps[..i][j].packageId == d;
      }
    }
    forall id ensures HasStep(steps, id) <==> g.Needed(target, id) {
      if HasStep(steps, id) {
        var i :| 0 <= i < |steps| && steps[i].packageId == id;
        assert order[i].id == id;
        assert g.Lists(order, id);
      }
      if g.Lists(order, id) {
        var i :| 0 <= i < |order| && order[i].id == id;
        assert steps[i].packageId == id;
      }
    }
  }

  /** The shared tail of both planners. */
  method ResolveSteps(g: Graph, target: string, quick: bool)
    returns (result: Result<(seq<Step>, seq<string>), ResolveError>)
    requires KeyedById(g.offered) && target !in g.installed
    ensures result.Ok? <==> g.Resolvable(target)
    ensures result.Err? ==> g.Justified(target, result.error)
    ensures result.Ok? ==>
      var (steps, dependencies) := result.value;
      && SoundSteps(g, target, quick, steps)
      && |dependencies| == |steps| - 1
      && forall i :: 0 <= i < |dependencies| ==> dependencies[i] == steps[i].packageId
  {
    var resolved := ResolveInstallOrder(target, g.offered, g.installed);
    if resolved.Err? {
      return Err(resolved.error);
    }
    var order := resolved.value;
    var steps, dependencies := BuildSteps(order, target, quick);
    StepsAreSound(g, target, quick, order, steps);
    return Ok((steps, dependencies));
  }

  method ReadIds(inventory: seq<InstalledPackage>) returns (installed: set<string>)
    ensures installed == InventoryIds(inventory)
  {
    installed := {};
    for i := 0 to |inventory|
      invariant installed == InventoryIds(inventory[..i])
    {
      installed := installed + {inventory[i].id};
    }
    assert inventory[..|inventory|] == inventory;
  }

  /** What an install is resolved in: the offers, and everything installed. */
  ghost function InstallGraph(inventory: seq<InstalledPackage>, catalog: seq<Package>): Graph {
    Graph(OffersOf(catalog), InventoryIds(inventory))
  }

  /** What an update is resolved in: its target counts as not installed. */
  ghost function UpdateGraph(inventory: seq<InstalledPackage>, catalog: seq<Package>, id: string): Graph {
    Graph(OffersOf(catalog), InventoryIds(inventory) - {id})
  }

  /** Plans a new install; fails exactly when the target is present or its needs cannot be met. */
  method PlanInstall(inventory: seq<InstalledPackage>, catalog: seq<Package>, packageId: string,
                     volumePath: string, runAfterInstall: bool, quick: bool)
    returns (result: Result<InstallPlan, PlanError>)
    ensures result.Ok? <==>
      packageId !in InventoryIds(inventory) && InstallGraph(inventory, catalog).Resolvable(packageId)
    ensures result == Err(AlreadyInstalled) <==> packageId in InventoryIds(inventory)
    ensures result.Err? && result.error.Unresolvable? ==>
      InstallGraph(inventory, catalog).Justified(packageId, result.error.cause)
    ensures result.Ok? ==>
      var plan, offered := result.value, OffersOf(catalog);
      && plan.packageId == packageId && !plan.update
      && packageId in offered && plan.version == offered[packageId].version && plan.name == offered[packageId].name
      && plan.volumePath == volumePath && plan.runAfterInstall == runAfterInstall
      && SoundSteps(InstallGraph(inventory, catalog), packageId, quick, plan.steps)
      && DependenciesAreSteps(plan)
  {
    var offers := CatalogById(catalog);
    var installed := ReadIds(inventory);
    if packageId in installed {
      return Err(AlreadyInstalled);
    }
    var g := Graph(offers, installed);
    var resolved := ResolveSteps(g, packageId, quick);
    if resolved.Err? {
      return Err(Unresolvable(resolved.error));
    }
    var (steps, dependencies) := resolved.value;
    assert g.Installable(steps[|steps| - 1].packageId);
    var target := offers[packageId];
    return Ok(InstallPlan(packageId, target.name, target.version, false, "", volumePath, runAfterInstall,
                          dependencies, steps));
  }

  /** The row an update plan is made from: the last one with the target's id. */
  ghost function Current(inventory: seq<InstalledPackage>, id: string): (current: Option<InstalledPackage>)
    ensures current.Some? <==> id in InventoryIds(inventory)
    ensures current.Some? ==>
      exists i :: 0 <= i < |inventory| && inventory[i] == current.value && current.value.id == id
                  && forall j :: i < j < |inventory| ==> inventory[j].id != id
  {
    if inventory == [] then None
    else if inventory[|inventory| - 1].id == id then Some(inventory[|inventory| - 1])
    else
      assert forall k :: 0 <= k < |inventory| - 1 ==> inventory[..|inventory| - 1][k] == inventory[k];
      Current(inventory[..|inventory| - 1], id)
  }

  method FindCurrent(inventory: seq<InstalledPackage>, id: string) returns (current: Option<InstalledPackage>)
    ensures current == Current(inventory, id)
  {
    current := None;
    for i := 0 to |inventory|
      invariant current == Current(inventory[..i], id)
    {
      if inventory[i].id == id {
        current := Some(inventory[i]);
      }
      assert inventory[..i + 1][..i] == inventory[..i];
    }
    assert inventory[..|inventory|] == inventory;
  }

  /** The plan leads to the offered build, which is newer, by sound steps. */
  ghost predicate LeadsToNewer(g: Graph, plan: InstallPlan) {
    && plan.update && plan.packageId in g.offered
    && plan.version == g.offered[plan.packageId].version && plan.name == g.offered[plan.packageId].name
    && Older(Segments(plan.fromVersion), Segments(plan.version))
    && SoundSteps(g, plan.packageId, true, plan.steps)
    && DependenciesAreSteps(plan)
  }

  /** The plan starts at the target's current row and keeps its volume and whether it runs. */
  ghost predicate StartsAt(plan: InstallPlan, current: InstalledPackage) {
    && plan.packageId == current.id && plan.fromVersion == current.version
    && plan.volumePath == current.volume && plan.runAfterInstall == current.running
  }

  /** Plans an update of an installed package to the offered build, never to an older or equal one. */
  method PlanUpdate(inventory: seq<InstalledPackage>, catalog: seq<Package>, packageId: string)
    returns (result: Result<InstallPlan, PlanError>)
    ensures result.Ok? <==>
      && Current(inventory, packageId).Some? && packageId in OffersOf(catalog)
      && Older(Segments(Current(inventory, packageId).value.version), Segments(OffersOf(catalog)[packageId].version))
      && UpdateGraph(inventory, catalog, packageId).Resolvable(packageId)
    ensures result == Err(NotInstalled) <==> packageId !in InventoryIds(inventory)
    ensures result == Err(TargetNotOffered) <==>
      packageId in InventoryIds(inventory) && packageId !in OffersOf(catalog)
    ensures result == Err(AlreadyAtVersion) <==>
      && Current(inventory, packageId).Some? && packageId in OffersOf(catalog)
      && OffersOf(catalog)[packageId].version == Current(inventory, packageId).value.version
    ensures result.Err? && result.error.Unresolvable? ==>
      UpdateGraph(inventory, catalog, packageId).Justified(packageId, result.error.cause)
    ensures result.Ok? ==>
      && result.value.packageId == packageId
      && StartsAt(result.value, Current(inventory, packageId).value)
      && LeadsToNewer(UpdateGraph(inventory, catalog, packageId), result.value)
  {
    var offers := CatalogById(catalog);
    var installed := ReadIds(inventory);
    var row := FindCurrent(inventory, packageId);
    if row.None? {
      return Err(NotInstalled);
    }
    if packageId !in offers {
      return Err(TargetNotOffered);
    }
    var target := offers[packageId];
    var installedVersion := ParsePackageVersion(row.value.version);
    var offeredVersion := ParsePackageVersion(target.version);
    var sign := Compare(offeredVersion, installedVersion);
    if target.version == row.value.version {
      return Err(AlreadyAtVersion);
    }
    if sign <= 0 {
      return Err(NotNewer);
    }
    var g := Graph(offers, installed - {packageId});
    var resolved := ResolveSteps(g, packageId, true);
    if resolved.Err? {
      return Err(Unresolvable(resolved.error));
    }
    var (steps, dependencies) := resolved.value;
    return Ok(InstallPlan(packageId, target.name, target.version, true, row.value.version,
                          row.value.volume, row.value.running, dependencies, steps));
  }
}

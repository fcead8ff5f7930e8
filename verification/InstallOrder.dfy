/**
  The dependency resolver: a depth-first search that lists the packages still to be
  installed, dependencies first and the target last.
 */
module InstallOrder {
  import opened Results
  import opened Packages

  datatype ResolveError =
    | Cycle(id: string)
    | NotOffered(id: string, requiredBy: string)
    | NoDownloadLink(id: string)

  /** What the search runs on: the offers, and the packages that need no installing. */
  datatype Graph = Graph(offered: Offers, installed: set<string>) {

    /** Package `from` needs `to`, and `to` is not installed. */
    ghost predicate Edge(from: string, to: string) {
      from in offered && to in offered[from].dependencies && to !in installed
    }

    ghost predicate IsPath(p: seq<string>) {
      && p != []
      && forall i :: 0 <= i < |p| - 1 ==> Edge(p[i], p[i + 1])
    }

    ghost predicate Connects(p: seq<string>, from: string, to: string) {
      IsPath(p) && p[0] == from && p[|p| - 1] == to
    }

    /** `id` has to be installed for `target`: reachable through uninstalled packages. */
    ghost predicate Needed(target: string, id: string) {
      target !in installed && exists p :: Connects(p, target, id)
    }

    ghost predicate OnCycle(id: string) {
      exists p :: Connects(p, id, id) && |p| > 1
    }

    ghost predicate Installable(id: string) {
      id in offered && offered[id].downloadLink != ""
    }

    /** Everything the target needs can be installed, in some order. */
    ghost predicate Resolvable(target: string) {
      forall id :: Needed(target, id) ==> Installable(id) && !OnCycle(id)
    }

    /** The error names a real defect of the packages the target needs. */
    ghost predicate Justified(target: string, error: ResolveError) {
      && Needed(target, error.id)
      && match error
         case Cycle(id) => OnCycle(id)
         case NotOffered(id, parent) => id !in offered && (Edge(parent, id) || (id == target && parent == ""))
         case NoDownloadLink(id) => id in offered && offered[id].downloadLink == ""
    }

    ghost predicate Lists(order: seq<Package>, id: string) {
      exists i :: 0 <= i < |order| && order[i].id == id
    }

    /** Every entry is the needed, installable offer of its id. */
    ghost predicate Entries(target: string, order: seq<Package>) {
      forall i :: 0 <= i < |order| ==>
        && Installable(order[i].id)
        && order[i] == offered[order[i].id]
        && Needed(target, order[i].id)
        && order[i].id !in installed
    }

    ghost predicate Distinct(order: seq<Package>) {
      forall i, j :: 0 <= i < j < |order| ==> order[i].id != order[j].id
    }

    /** Every dependency of an entry is installed or listed strictly earlier. */
    ghost predicate DependenciesFirst(order: seq<Package>) {
      forall i, d :: 0 <= i < |order| && d in order[i].dependencies ==>
        d in installed || Lists(order[..i], d)
    }

    /** The ids of the calls in progress: a dependency path from the target, without repetition. */
    ghost predicate CallStack(target: string, stack: seq<string>) {
      && (stack != [] ==> IsPath(stack) && stack[0] == target && target !in installed)
      && (forall id :: id in stack ==> id in offered)
      && (forall i, j :: 0 <= i < j < |stack| ==> stack[i] != stack[j])
    }

    /** What a successful resolution returns. */
    ghost predicate IsInstallOrder(target: string, order: seq<Package>) {
      && Entries(target, order)
      && Distinct(order)
      && DependenciesFirst(order)
      && (forall id :: Lists(order, id) <==> Needed(target, id))
      && (target in installed ==> order == [])
      && (target !in installed ==> order != [] && order[|order| - 1].id == target)
    }
  }

  lemma PathExtends(g: Graph, p: seq<string>, from: string, mid: string, to: string)
    requires g.Connects(p, from, mid) && g.Edge(mid, to)
    ensures g.Connects(p + [to], from, to)
  {
  }

  lemma PushKeepsCallStack(g: Graph, target: string, stack: seq<string>, id: string)
    requires g.CallStack(target, stack) && g.IsPath(stack + [id]) && id in g.offered && id !in stack
    requires target !in g.installed && (stack == [] ==> id == target)
    ensures g.CallStack(target, stack + [id])
  {
  }

  lemma PopKeepsCallStack(g: Graph, target: string, outer: seq<string>, id: string)
    requires g.CallStack(target, outer + [id])
    ensures g.CallStack(target, outer) && id !in outer
  {
    var whole := outer + [id];
    forall i | 0 <= i < |outer| - 1 ensures g.Edge(outer[i], outer[i + 1]) {
      assert g.Edge(whole[i], whole[i + 1]);
    }
    forall i, j | 0 <= i < j < |outer| ensures outer[i] != outer[j] {
      assert whole[i] != whole[j];
    }
    forall x | x in outer ensures x in g.offered {
      assert x in whole;
    }
    assert whole[|outer|] == id && forall k :: 0 <= k < |outer| ==> whole[k] == outer[k] != whole[|outer|];
  }

  /** Nothing the target needs is missing from a dependency-closed order that lists it. */
  lemma {:induction false} ListsPath(g: Graph, target: string, order: seq<Package>, p: seq<string>)
    requires g.Entries(target, order) && g.DependenciesFirst(order)
    requires g.IsPath(p) && g.Lists(order, p[0])
    ensures g.Lists(order, p[|p| - 1])
    decreases |p|
  {
    if |p| > 1 {
      var q := p[..|p| - 1];
      assert g.IsPath(q) by {
        forall i | 0 <= i < |q| - 1 ensures g.Edge(q[i], q[i + 1]) {
          assert g.Edge(p[i], p[i + 1]);
        }
      }
      ListsPath(g, target, order, q);
      var i :| 0 <= i < |order| && order[i].id == q[|q| - 1];
      assert g.Edge(p[|p| - 2], p[|p| - 1]);
      assert g.Lists(order[..i], p[|p| - 1]);
      var j :| 0 <= j < i && order[..i][j].id == p[|p| - 1];
      assert order[j].id == p[|p| - 1];
    }
  }

  /** Along a path, positions in the order strictly fall. */
  lemma {:induction false} PathFalls(g: Graph, target: string, order: seq<Package>, p: seq<string>, last: nat)
    returns (first: nat)
    requires g.Entries(target, order) && g.Distinct(order) && g.DependenciesFirst(order)
    requires g.IsPath(p) && last < |order| && order[last].id == p[0]
    ensures first < |order| && order[first].id == p[|p| - 1]
    ensures first <= last && (|p| > 1 ==> first < last)
    decreases |p|
  {
    first := last;
    if |p| > 1 {
      assert g.Edge(p[0], p[1]);
      assert g.Lists(order[..last], p[1]);
      var j :| 0 <= j < last && order[..last][j].id == p[1];
      var q := p[1..];
      assert g.IsPath(q) by {
        forall i | 0 <= i < |q| - 1 ensures g.Edge(q[i], q[i + 1]) {
          assert g.Edge(p[i + 1], p[i + 2]);
        }
      }
      first := PathFalls(g, target, order, q, j);
    }
  }

  /** An order with dependencies first leaves no cycle among the packages it lists. */
  lemma OrderForbidsCycles(g: Graph, target: string, order: seq<Package>, id: string)
    requires g.Entries(target, order) && g.Distinct(order) && g.DependenciesFirst(order)
    requires g.Lists(order, id)
    ensures !g.OnCycle(id)
  {
    if g.OnCycle(id) {
      var p :| g.Connects(p, id, id) && |p| > 1;
      var k :| 0 <= k < |order| && order[k].id == id;
      var first := PathFalls(g, target, order, p, k);
      assert false;
    }
  }

  /** An install order exists only for a target whose needs are all installable and acyclic. */
  lemma OrderMeansResolvable(g: Graph, target: string, order: seq<Package>)
    requires g.IsInstallOrder(target, order)
    ensures g.Resolvable(target)
  {
    forall id | g.Needed(target, id)
      ensures g.Installable(id) && !g.OnCycle(id)
    {
      assert g.Lists(order, id);
      OrderForbidsCycles(g, target, order, id);
    }
  }

  /** The search installs nothing superfluous: every dependency-closed set with the target holds the whole order. */
  lemma OrderIsLeast(g: Graph, target: string, order: seq<Package>, closed: set<string>)
    requires g.IsInstallOrder(target, order)
    requires target !in g.installed ==> target in closed
    requires forall a, b :: a in closed && g.Edge(a, b) ==> b in closed
    ensures forall i :: 0 <= i < |order| ==> order[i].id in closed
  {
    forall i | 0 <= i < |order| ensures order[i].id in closed {
      assert g.Needed(target, order[i].id);
      var p :| g.Connects(p, target, order[i].id);
      var k := 0;
      while k < |p| - 1
        invariant 0 <= k < |p| && p[k] in closed
      {
        assert g.Edge(p[k], p[k + 1]);
        k := k + 1;
      }
    }
  }

  predicate On(flags: map<string, bool>, id: string) {
    id in flags && flags[id]
  }

  ghost function Outside(ids: set<string>, stack: seq<string>): set<string> {
    ids - (set id | id in stack)
  }

  lemma PushShrinksOutside(ids: set<string>, stack: seq<string>, id: string)
    requires id in ids && id !in stack
    ensures |Outside(ids, stack + [id])| < |Outside(ids, stack)|
  {
    assert Outside(ids, stack + [id]) == Outside(ids, stack) - {id};
  }

  /** The order is right so far, and `visited` is exactly what it lists. */
  ghost predicate OrderHolds(g: Graph, target: string, order: seq<Package>, visited: map<string, bool>) {
    && g.Entries(target, order)
    && g.Distinct(order)
    && g.DependenciesFirst(order)
    && (forall id :: On(visited, id) <==> g.Lists(order, id))
  }

  /** `visiting` is exactly the call stack, and the call stack is a dependency path from the target. */
  ghost predicate StackHolds(g: Graph, target: string, stack: seq<string>, visiting: map<string, bool>,
                             visited: map<string, bool>) {
    && g.CallStack(target, stack)
    && (forall id :: On(visiting, id) <==> id in stack)
    && (forall id :: id in stack ==> !On(visited, id))
  }

  lemma PushKeepsStack(g: Graph, target: string, stack: seq<string>, visiting: map<string, bool>,
                       visited: map<string, bool>, id: string)
    requires StackHolds(g, target, stack, visiting, visited) && !On(visited, id)
    requires g.IsPath(stack + [id]) && id in g.offered && id !in stack
    requires target !in g.installed && (stack == [] ==> id == target)
    ensures StackHolds(g, target, stack + [id], visiting[id := true], visited)
  {
    PushKeepsCallStack(g, target, stack, id);
    assert forall x :: x in stack + [id] <==> x in stack || x == id;
  }

  lemma PopKeepsStack(g: Graph, target: string, outer: seq<string>, visiting: map<string, bool>,
                      visited: map<string, bool>, id: string)
    requires StackHolds(g, target, outer + [id], visiting, visited)
    ensures StackHolds(g, target, outer, visiting[id := false], visited[id := true])
    ensures !On(visited, id)
  {
    PopKeepsCallStack(g, target, outer, id);
    assert forall x :: x in outer + [id] <==> x in outer || x == id;
  }

  lemma AppendKeepsOrderHolds(g: Graph, target: string, order: seq<Package>, visited: map<string, bool>, pkg: Package)
    requires OrderHolds(g, target, order, visited) && !On(visited, pkg.id)
    requires g.Installable(pkg.id) && pkg == g.offered[pkg.id] && g.Needed(target, pkg.id)
    requires pkg.id !in g.installed
    requires forall d :: d in pkg.dependencies ==> d in g.installed || g.Lists(order, d)
    ensures OrderHolds(g, target, order + [pkg], visited[pkg.id := true]) && g.Lists(order + [pkg], pkg.id)
  {
    AppendKeepsOrder(g, target, order, pkg);
  }

  /** The variables the recursive search closes over. */
  class Resolver {
    const graph: Graph
    ghost const target: string
    var visiting: map<string, bool>
    var visited: map<string, bool>
    var order: seq<Package>
    // The ids of the calls in progress, outermost first.
    ghost var stack: seq<string>

    constructor (graph: Graph, target: string)
      requires KeyedById(graph.offered)
      ensures Valid() && this.graph == graph && this.target == target
      ensures stack == [] && order == []
    {
      this.graph := graph;
      this.target := target;
      visiting, visited, order, stack := map[], map[], [], [];
    }

    ghost predicate Valid()
      reads this
    {
      && KeyedById(graph.offered)
      && OrderValid()
      && StackValid()
    }

    ghost predicate OrderValid()
      reads this
    {
      OrderHolds(graph, target, order, visited)
    }

    ghost predicate StackValid()
      reads this
    {
      StackHolds(graph, target, stack, visiting, visited)
    }

    ghost function Unvisiting(): set<string>
      reads this
    {
      Outside(graph.offered.Keys, stack)
    }

    /** `id` is what the innermost call in progress asks for. */
    ghost predicate Asked(id: string, requiredBy: string)
      reads this
    {
      if stack == [] then
        id == target && requiredBy == ""
      else
        && requiredBy == stack[|stack| - 1]
        && requiredBy in graph.offered
        && id in graph.offered[requiredBy].dependencies
    }

    lemma AskedIsNeeded(id: string, requiredBy: string)
      requires Valid() && Asked(id, requiredBy) && id !in graph.installed
      ensures graph.IsPath(stack + [id]) && graph.Needed(target, id)
    {
      var p := stack + [id];
      if stack != [] {
        PathExtends(graph, stack, target, requiredBy, id);
      }
      assert graph.Connects(p, target, id);
    }

    lemma StackedIsOnCycle(id: string, requiredBy: string)
      requires Valid() && Asked(id, requiredBy) && id !in graph.installed && id in stack
      ensures graph.OnCycle(id)
    {
      AskedIsNeeded(id, requiredBy);
      var k :| 0 <= k < |stack| && stack[k] == id;
      var whole := stack + [id];
      var p := whole[k..];
      forall i | 0 <= i < |p| - 1 ensures graph.Edge(p[i], p[i + 1]) {
        assert graph.Edge(whole[k + i], whole[k + i + 1]);
      }
      assert graph.Connects(p, id, id) && |p| > 1;
    }

    lemma RefusalIsJustified(id: string, requiredBy: string, error: ResolveError)
      requires Valid() && Asked(id, requiredBy) && id !in graph.installed && error.id == id
      requires match error
               case Cycle(_) => id in stack
               case NotOffered(_, parent) => id !in graph.offered && parent == requiredBy
               case NoDownloadLink(_) => id in graph.offered && graph.offered[id].downloadLink == ""
      ensures graph.Justified(target, error)
    {
      AskedIsNeeded(id, requiredBy);
      if error.Cycle? {
        StackedIsOnCycle(id, requiredBy);
      }
    }

    method Visit(id: string, requiredBy: string) returns (failure: Option<ResolveError>)
      requires Valid() && Asked(id, requiredBy)
      modifies this
      ensures failure.None? ==> Valid() && stack == old(stack) && old(order) <= order
      ensures failure.None? ==> id in graph.installed || graph.Lists(order, id)
      ensures failure.None? && id !in graph.installed && !old(graph.Lists(order, id)) ==>
                |old(order)| < |order| && order[|order| - 1].id == id
      ensures failure.None? && (id in graph.installed || old(graph.Lists(order, id))) ==> order == old(order)
      ensures failure.Some? ==> graph.Justified(target, failure.value)
      decreases |Unvisiting()|, 0, 1
    {
      if On(visited, id) || id in graph.installed {
        return None;
      }
      if On(visiting, id) {
        failure := Some(Cycle(id));
      } else if id !in graph.offered {
        failure := Some(NotOffered(id, requiredBy));
      } else if graph.offered[id].downloadLink == "" {
        failure := Some(NoDownloadLink(id));
      } else {
        failure := VisitNew(id, requiredBy);
        return;
      }
      RefusalIsJustified(id, requiredBy, failure.value);
    }

    /** The visit of a package that can be installed and has not been met yet. */
    method VisitNew(id: string, requiredBy: string) returns (failure: Option<ResolveError>)
      requires Valid() && Asked(id, requiredBy) && id !in stack
      requires graph.Installable(id) && id !in graph.installed && !graph.Lists(order, id)
      modifies this
      ensures failure.None? ==> Valid() && stack == old(stack)
      ensures failure.None? ==> old(order) < order && order[|order| - 1].id == id && graph.Lists(order, id)
      ensures failure.Some? ==> graph.Justified(target, failure.value)
      decreases |Unvisiting()|, 0, 0
    {
      ghost var outer, before := stack, order;
      AskedIsNeeded(id, requiredBy);
      Enter(id, requiredBy);
      failure := VisitDependencies(graph.offered[id]);
      if failure.Some? {
        return;
      }
      AppendGrows(before, order, graph.offered[id]);
      Finish(graph.offered[id], outer);
    }

    /** The loop of a visit, over what the package on top of the stack needs. */
    method VisitDependencies(pkg: Package) returns (failure: Option<ResolveError>)
      requires Valid() && stack != [] && stack[|stack| - 1] == pkg.id
      requires pkg.id in graph.offered && pkg == graph.offered[pkg.id]
      modifies this
      ensures failure.None? ==> Valid() && stack == old(stack) && old(order) <= order
      ensures failure.None? ==> forall d :: d in pkg.dependencies ==> d in graph.installed || graph.Lists(order, d)
      ensures failure.Some? ==> graph.Justified(target, failure.value)
      decreases |Unvisiting()|, 1, 0
    {
      failure := None;
      var i := 0;
      while i < |pkg.dependencies|
        invariant 0 <= i <= |pkg.dependencies|
        invariant failure.None? && Valid() && stack == old(stack) && old(order) <= order
        invariant forall k :: 0 <= k < i ==>
          pkg.dependencies[k] in graph.installed || graph.Lists(order, pkg.dependencies[k])
      {
        ghost var before := order;
        failure := Visit(pkg.dependencies[i], pkg.id);
        if failure.Some? {
          return;
        }
        KeepsListing(graph, before, order);
        i := i + 1;
      }
    }

    /** The start of a visit: `id` goes on top of the stack. */
    method Enter(id: string, requiredBy: string)
      requires Valid() && Asked(id, requiredBy) && id !in stack
      requires graph.Installable(id) && id !in graph.installed && !graph.Lists(order, id)
      modifies this`visiting, this`stack
      ensures Valid() && stack == old(stack) + [id]
      ensures |Unvisiting()| < |old(Unvisiting())|
    {
      AskedIsNeeded(id, requiredBy);
      PushKeepsStack(graph, target, stack, visiting, visited, id);
      PushShrinksOutside(graph.offered.Keys, stack, id);
      visiting := visiting[id := true];
      stack := stack + [id];
    }

    /** The end of a visit: `pkg` leaves the stack and joins the order. */
    method Finish(pkg: Package, ghost outer: seq<string>)
      requires Valid() && stack == outer + [pkg.id]
      requires graph.Installable(pkg.id) && pkg == graph.offered[pkg.id]
      requires pkg.id !in graph.installed && graph.Needed(target, pkg.id)
      requires forall d :: d in pkg.dependencies ==> d in graph.installed || graph.Lists(order, d)
      modifies this
      ensures Valid() && stack == outer && order == old(order) + [pkg]
      ensures order[|order| - 1].id == pkg.id && graph.Lists(order, pkg.id)
    {
      PopKeepsStack(graph, target, outer, visiting, visited, pkg.id);
      AppendKeepsOrderHolds(graph, target, order, visited, pkg);
      visiting := visiting[pkg.id := false];
      visited := visited[pkg.id := true];
      order := order + [pkg];
      stack := outer;
    }
  }

  lemma AppendGrows(before: seq<Package>, order: seq<Package>, pkg: Package)
    requires before <= order
    ensures before < order + [pkg]
  {
  }

  lemma KeepsListing(g: Graph, before: seq<Package>, after: seq<Package>)
    requires before <= after
    ensures forall id :: g.Lists(before, id) ==> g.Lists(after, id)
  {
    forall id | g.Lists(before, id) ensures g.Lists(after, id) {
      var i :| 0 <= i < |before| && before[i].id == id;
      assert after[i].id == id;
    }
  }

  lemma AppendKeepsOrder(g: Graph, target: string, order: seq<Package>, pkg: Package)
    requires g.Entries(target, order) && g.Distinct(order) && g.DependenciesFirst(order)
    requires g.Installable(pkg.id) && pkg == g.offered[pkg.id] && g.Needed(target, pkg.id)
    requires pkg.id !in g.installed && !g.Lists(order, pkg.id)
    requires forall d :: d in pkg.dependencies ==> d in g.installed || g.Lists(order, d)
    ensures g.Entries(target, order + [pkg]) && g.Distinct(order + [pkg])
    ensures g.DependenciesFirst(order + [pkg])
    ensures forall id :: g.Lists(order + [pkg], id) <==> g.Lists(order, id) || id == pkg.id
  {
    var longer := order + [pkg];
    forall i, d | 0 <= i < |longer| && d in longer[i].dependencies
      ensures d in g.installed || g.Lists(longer[..i], d)
    {
      if i < |order| {
        assert longer[..i] == order[..i];
      } else {
        assert longer[..i] == order;
      }
    }
    KeepsListing(g, order, longer);
    assert longer[|order|].id == pkg.id;
    forall id | g.Lists(longer, id) ensures g.Lists(order, id) || id == pkg.id {
      var i :| 0 <= i < |longer| && longer[i].id == id;
      assert i < |order| ==> order[i].id == id;
    }
  }

  /** The packages to install for `target`, dependencies first, or why that is impossible. */
  method ResolveInstallOrder(target: string, offered: Offers, installed: set<string>)
    returns (result: Result<seq<Package>, ResolveError>)
    requires KeyedById(offered)
    ensures result.Ok? ==> Graph(offered, installed).IsInstallOrder(target, result.value)
    ensures result.Err? ==> Graph(offered, installed).Justified(target, result.error)
    ensures result.Ok? <==> Graph(offered, installed).Resolvable(target)
  {
    var g := Graph(offered, installed);
    var search := new Resolver(g, target);
    var failure := search.Visit(target, "");
    if failure.Some? {
      return Err(failure.value);
    }
    var order := search.order;
    forall id | g.Needed(target, id) ensures g.Lists(order, id) {
      var p :| g.Connects(p, target, id);
      ListsPath(g, target, order, p);
    }
    OrderMeansResolvable(g, target, order);
    return Ok(order);
  }
}

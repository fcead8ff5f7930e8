/** The guarded edit of one entry of the Auto Block allow or block list. */
module AutoBlockList {
  import opened Results
  import opened Text
  import opened Cidr
  import opened Addresses
  import opened Connections
  import opened PlanApply

  datatype Entry = Entry(ip: string, reason: string, recordTime: int)

  datatype Lists = Lists(allow: seq<Entry>, block: seq<Entry>)

  datatype NasState = NasState(readable: bool, writable: bool, lists: Lists, connections: seq<Connection>)

  const KIND_ALLOW := "allow"
  const KIND_BLOCK := "block"

  datatype Edit = Edit(kind: string, ip: string, remove: bool, allowLockoutOverride: bool)

  datatype Observed = Observed(lists: Lists, protectedSources: seq<string>)

  datatype Line =
    | Edits(remove: bool, target: string, kind: string)
    | LocksOut(target: string, source: string)
    | BlocksMany(target: string)
    | AllowsMany(target: string)
    | Exposes(target: string, source: string)

  datatype Body = Body(observed: Observed, risk: string, warnings: seq<Line>, summary: seq<Line>)

  predicate ValidTarget(parser: Parser, target: string) {
    parser.ip(Trim(target)).Some? || parser.cidr(Trim(target)).Some?
  }

  predicate ValidShape(parser: Parser, edit: Edit) {
    (edit.kind == KIND_ALLOW || edit.kind == KIND_BLOCK) && !Blank(edit.ip) && ValidTarget(parser, edit.ip)
  }

  predicate ListContains(list: seq<Entry>, target: string) {
    exists i :: 0 <= i < |list| && Trim(list[i].ip) == Trim(target)
  }

  /** Whether one source address falls within a target, which is a single address or a subnet. */
  predicate WithinTarget(parser: Parser, target: string, ip: string) {
    var address := parser.ip(Trim(ip));
    if address.None? then false
    else
      var single := parser.ip(Trim(target));
      if single.Some? then To16(single.value) == To16(address.value)
      else
        var subnet := parser.cidr(Trim(target));
        subnet.Some? && Contains(subnet.value, address.value)
  }

  /** The first protected source that the target covers. */
  function MatchingSource(parser: Parser, sources: seq<string>, target: string): (source: Option<string>)
    ensures source.Some? ==> source.value in sources && WithinTarget(parser, target, source.value)
    ensures source.None? ==> forall s :: s in sources ==> !WithinTarget(parser, target, s)
  {
    if sources == [] then None
    else if WithinTarget(parser, target, sources[0]) then Some(sources[0])
    else MatchingSource(parser, sources[1..], target)
  }

  predicate IsBroad(parser: Parser, target: string) {
    var subnet := parser.cidr(Trim(target));
    subnet.Some? && if subnet.value.Bits() == 32 then subnet.value.ones < 24 else subnet.value.ones < 64
  }

  function ListOf(lists: Lists, kind: string): seq<Entry> {
    if kind == KIND_ALLOW then lists.allow else lists.block
  }

  /** None when the edit is refused: nothing to do, or an unacknowledged lockout. */
  function Effects(parser: Parser, observed: Observed, edit: Edit): Option<Body> {
    var target := Trim(edit.ip);
    var present := ListContains(ListOf(observed.lists, edit.kind), target);
    var source := MatchingSource(parser, observed.protectedSources, target);
    var broad := IsBroad(parser, target);
    var summary := [Edits(edit.remove, target, edit.kind)];
    var medium := Some(Body(observed, "medium", [], summary));
    if edit.remove != present then None
    else if edit.kind == KIND_BLOCK && !edit.remove then
      if (source.Some? || broad) && !edit.allowLockoutOverride then None
      else if source.Some? || broad then
        Some(Body(observed, "high",
                  (if source.Some? then [LocksOut(target, source.value)] else []) +
                  (if broad then [BlocksMany(target)] else []), summary))
      else medium
    else if edit.kind == KIND_ALLOW && !edit.remove then
      if broad then Some(Body(observed, "high", [AllowsMany(target)], summary)) else medium
    else if edit.kind == KIND_ALLOW && edit.remove then
      if source.Some? && !edit.allowLockoutOverride then None
      else if source.Some? then Some(Body(observed, "high", [Exposes(target, source.value)], summary))
      else medium
    else medium
  }

  function Build(parser: Parser, nas: NasState, edit: Edit): Option<Body> {
    if !nas.readable || !nas.writable then None
    else Effects(parser, Observed(nas.lists, Sources(nas.connections)), edit)
  }

  predicate Verified(lists: Lists, edit: Edit) {
    var present := ListContains(ListOf(lists, edit.kind), Trim(edit.ip));
    if edit.remove then !present else present
  }

  /** The lists and the connections are two reads: the lists come from the earlier one. */
  function Flow(parser: Parser, hash: Contents<Edit, Body> -> string): Workflow<NasState, Edit, Body> {
    Workflow(
      (edit: Edit) => ValidShape(parser, edit),
      (nas: NasState, edit: Edit) => Build(parser, nas, edit),
      (first: NasState, second: NasState) => first.(connections := second.connections),
      (nas: NasState, edit: Edit, body: Body) => Verified(nas.lists, edit),
      1,
      hash)
  }

  ghost predicate CoversSource(parser: Parser, target: string, address: Address) {
    match parser.ip(target)
    case Some(single) => Value(single) == Value(address)
    case None => parser.cidr(target).Some? && Covers(parser.cidr(target).value, Value(address))
  }

  /** Coverage is about the address's value, for single addresses and subnets of either family. */
  lemma WithinTargetIsCoverage(parser: Parser, target: string, ip: string)
    requires parser.ip(Trim(ip)).Some?
    ensures WithinTarget(parser, target, ip) <==> CoversSource(parser, Trim(target), parser.ip(Trim(ip)).value)
  {
    var address := parser.ip(Trim(ip)).value;
    if parser.ip(Trim(target)).Some? {
      var single := parser.ip(Trim(target)).value;
      if Value(single) == Value(address) {
        ValueIsInjective(single, address);
      }
    } else if parser.cidr(Trim(target)).Some? {
      ContainsIsCovers(parser.cidr(Trim(target)).value, address);
    }
  }

  ghost predicate UnacknowledgedBlock(edit: Edit) {
    edit.kind == KIND_BLOCK && !edit.remove && !edit.allowLockoutOverride
  }

  /** Taking an entry off the allow list exposes its addresses to blocking. */
  ghost predicate UnacknowledgedExposure(edit: Edit) {
    edit.kind == KIND_ALLOW && edit.remove && !edit.allowLockoutOverride
  }

  /** No active connection whose source can be read is covered by the target. */
  ghost predicate SparesConnections(parser: Parser, target: string, connections: seq<Connection>) {
    forall c :: c in connections && Trim(c.from) != "" && parser.ip(Trim(c.from)).Some? ==>
      !CoversSource(parser, target, parser.ip(Trim(c.from)).value)
  }

  lemma NoMatchSparesConnections(parser: Parser, target: string, connections: seq<Connection>)
    requires Trim(target) == target && MatchingSource(parser, Sources(connections), target).None?
    ensures SparesConnections(parser, target, connections)
  {
    SourcesAreExact(connections);
    forall c | c in connections && Trim(c.from) != "" && parser.ip(Trim(c.from)).Some?
      ensures !CoversSource(parser, target, parser.ip(Trim(c.from)).value)
    {
      var source := Trim(c.from);
      assert source in Sources(connections);
      TrimIsIdempotent(c.from);
      WithinTargetIsCoverage(parser, target, source);
    }
  }

  /** A block planned without override spares every readable active source, and is narrow. */
  lemma PlannedBlockSparesConnections(parser: Parser, nas: NasState, edit: Edit)
    requires UnacknowledgedBlock(edit) && Build(parser, nas, edit).Some?
    ensures SparesConnections(parser, Trim(edit.ip), nas.connections)
    ensures !IsBroad(parser, edit.ip)
  {
    TrimIsIdempotent(edit.ip);
    NoMatchSparesConnections(parser, Trim(edit.ip), nas.connections);
  }

  /** So does taking an entry off the allow list without override, however broad it is. */
  lemma PlannedExposureSparesConnections(parser: Parser, nas: NasState, edit: Edit)
    requires UnacknowledgedExposure(edit) && Build(parser, nas, edit).Some?
    ensures SparesConnections(parser, Trim(edit.ip), nas.connections)
  {
    TrimIsIdempotent(edit.ip);
    NoMatchSparesConnections(parser, Trim(edit.ip), nas.connections);
  }

  /**
    In every run: a block written without override had been checked, by that same apply, against the
    connections that were active at its re-read, and covers none of them.
   */
  lemma WrittenBlockSparesConnections(
    parser: Parser, hash: Contents<Edit, Body> -> string, start: NasState, revision: nat,
    steps: seq<Step<NasState, Edit, Body>>, id: nat)
    requires InjectiveHash(Flow(parser, hash))
    requires var w := Run(Flow(parser, hash), World([start], revision, map[]), steps);
             && id in w.sessions && w.sessions[id].Wrote()
             && UnacknowledgedBlock(w.sessions[id].evidence.plan.Request())
    ensures var w := Run(Flow(parser, hash), World([start], revision, map[]), steps);
            var e := w.sessions[id].evidence;
            && e.v <= e.j < e.k && e.j < |w.trace|
            && SparesConnections(parser, Trim(e.plan.Request().ip), w.trace[e.j].connections)
            && !IsBroad(parser, e.plan.Request().ip)
  {
    var f := Flow(parser, hash);
    var w := Run(f, World([start], revision, map[]), steps);
    EveryRunIsSound(f, start, revision, steps);
    var e := w.sessions[id].evidence;
    assert WroteAfterReread(f, w.trace, e);
    PlannedBlockSparesConnections(parser, f.view(w.trace[e.i], w.trace[e.j]), e.plan.Request());
  }

  /** The same in every run for an entry that is taken off the allow list without override. */
  lemma WrittenExposureSparesConnections(
    parser: Parser, hash: Contents<Edit, Body> -> string, start: NasState, revision: nat,
    steps: seq<Step<NasState, Edit, Body>>, id: nat)
    requires InjectiveHash(Flow(parser, hash))
    requires var w := Run(Flow(parser, hash), World([start], revision, map[]), steps);
             && id in w.sessions && w.sessions[id].Wrote()
             && UnacknowledgedExposure(w.sessions[id].evidence.plan.Request())
    ensures var w := Run(Flow(parser, hash), World([start], revision, map[]), steps);
            var e := w.sessions[id].evidence;
            && e.v <= e.j < e.k && e.j < |w.trace|
            && SparesConnections(parser, Trim(e.plan.Request().ip), w.trace[e.j].connections)
  {
    var f := Flow(parser, hash);
    var w := Run(f, World([start], revision, map[]), steps);
    EveryRunIsSound(f, start, revision, steps);
    var e := w.sessions[id].evidence;
    assert WroteAfterReread(f, w.trace, e);
    PlannedExposureSparesConnections(parser, f.view(w.trace[e.i], w.trace[e.j]), e.plan.Request());
  }

  /**
    The write meets a state that the plan describes exactly when the lists are as they were at the first
    read of the re-read, and the active sources, in their order, as they were at the second.
   */
  lemma WriteMeetsPlannedListsIff(
    parser: Parser, hash: Contents<Edit, Body> -> string, w: World<NasState, Edit, Body>, id: nat)
    requires Sound(Flow(parser, hash), w) && id in w.sessions && w.sessions[id].Wrote()
    ensures w.sessions[id].Written? ==> w.sessions[id].tries == 0
    ensures var e := w.sessions[id].evidence;
            && e.i <= e.j < e.k < |w.trace|
            && var met := w.trace[e.k];
               Build(parser, met, e.plan.Request()) == Some(e.plan.Body()) <==>
               && met.readable && met.writable
               && met.lists == w.trace[e.i].lists
               && Sources(met.connections) == Sources(w.trace[e.j].connections)
  {
    var f := Flow(parser, hash);
    WriteMeetsPlannedState(f, w, id);
    var e := w.sessions[id].evidence;
    assert Build(parser, f.view(w.trace[e.i], w.trace[e.j]), e.plan.Request()) == Some(e.plan.Body());
  }

  /** Not broad means at most 2^8 addresses under a 32-bit mask, and at most 2^64 under a 128-bit one. */
  lemma NarrowTargetSize(parser: Parser, target: string)
    requires parser.cidr(Trim(target)).Some?
    ensures var s := parser.cidr(Trim(target)).value;
            !IsBroad(parser, target) <==> Hi(s) + 1 <= Lo(s) + Pow2(if s.Bits() == 32 then 8 else 64)
  {
    var s := parser.cidr(Trim(target)).value;
    var limit := if s.Bits() == 32 then 8 else 64;
    NetworkSize(s);
    if s.Bits() - s.ones <= limit {
      Pow2IsMonotone(s.Bits() - s.ones, limit);
    } else {
      Pow2IsMonotone(limit + 1, s.Bits() - s.ones);
    }
  }

  /**
    The bound of 2^8 is a bound on IPv4 addresses only for a 32-bit mask: a narrow IPv4 target holds
    at most 2^8 addresses exactly when it is written that way or its prefix has at least 120 bits.
   */
  lemma NarrowV4TargetSize(parser: Parser, target: string)
    requires parser.cidr(Trim(target)).Some? && IsV4(parser.cidr(Trim(target)).value.ip)
    requires !IsBroad(parser, target)
    ensures var s := parser.cidr(Trim(target)).value;
            Hi(s) + 1 <= Lo(s) + Pow2(8) <==> s.Bits() == 32 || s.ones >= 120
  {
    var s := parser.cidr(Trim(target)).value;
    NetworkSize(s);
    if s.Bits() - s.ones <= 8 {
      Pow2IsMonotone(s.Bits() - s.ones, 8);
    } else {
      Pow2IsMonotone(9, s.Bits() - s.ones);
    }
  }

  /** The other side of that bound: the IPv4-mapped range under its 96-bit prefix passes as narrow. */
  lemma MappedRangeIsNotBroad(parser: Parser, target: string)
    requires parser.cidr(Trim(target)) == Some(MappedNetwork())
    ensures !IsBroad(parser, target)
    ensures forall v :: IsV4Value(v) ==> Covers(parser.cidr(Trim(target)).value, v)
  {
    MappedNetworkBounds();
  }

  /** The list has an entry for the address, spaces around either aside. */
  ghost predicate HasEntry(list: seq<Entry>, ip: string) {
    exists i :: 0 <= i < |list| && Trim(list[i].ip) == Trim(ip)
  }

  /** A readable active source falls within the target. */
  ghost predicate CoversConnection(parser: Parser, target: string, connections: seq<Connection>) {
    exists c :: c in connections && Trim(c.from) != "" && parser.ip(Trim(c.from)).Some?
                && CoversSource(parser, target, parser.ip(Trim(c.from)).value)
  }

  lemma MatchIffCovered(parser: Parser, target: string, connections: seq<Connection>)
    requires Trim(target) == target
    ensures MatchingSource(parser, Sources(connections), target).Some? <==> CoversConnection(parser, target, connections)
  {
    SourcesAreExact(connections);
    if MatchingSource(parser, Sources(connections), target).Some? {
      var source := MatchingSource(parser, Sources(connections), target).value;
      var c :| c in connections && Trim(c.from) == source;
      TrimIsIdempotent(c.from);
      WithinTargetIsCoverage(parser, target, source);
    } else {
      NoMatchSparesConnections(parser, target, connections);
    }
  }

  /**
    A plan is made exactly when there is something to do to the list that is named, and nothing readable that
    is active would be shut out without override: an entry to block may cover no active source and may not be
    broad, an allow entry to remove may cover none.
   */
  lemma PlannedIff(parser: Parser, nas: NasState, edit: Edit)
    requires edit.kind == "block" || edit.kind == "allow"
    ensures Build(parser, nas, edit).Some? <==>
      && nas.readable && nas.writable
      && (edit.kind == "block" ==>
            && (HasEntry(nas.lists.block, edit.ip) <==> edit.remove)
            && (edit.remove || edit.allowLockoutOverride
                || (!CoversConnection(parser, Trim(edit.ip), nas.connections) && !IsBroad(parser, edit.ip))))
      && (edit.kind == "allow" ==>
            && (HasEntry(nas.lists.allow, edit.ip) <==> edit.remove)
            && (!edit.remove || edit.allowLockoutOverride
                || !CoversConnection(parser, Trim(edit.ip), nas.connections)))
    ensures Build(parser, nas, edit).Some? ==>
      Build(parser, nas, edit).value.observed == Observed(nas.lists, Sources(nas.connections))
  {
    KindsDiffer();
    TrimIsIdempotent(edit.ip);
    MatchIffCovered(parser, Trim(edit.ip), nas.connections);
  }

  lemma KindsDiffer()
    ensures "block" != "allow"
  {
    assert "block"[0] != "allow"[0];
  }

  /** High risk means that an active source is shut out or exposed, or that a broad entry is added to either list. */
  lemma HighRiskIff(parser: Parser, nas: NasState, edit: Edit)
    requires (edit.kind == "block" || edit.kind == "allow") && Build(parser, nas, edit).Some?
    ensures Build(parser, nas, edit).value.risk == "high" <==>
      if edit.kind == "block" then
        !edit.remove && (CoversConnection(parser, Trim(edit.ip), nas.connections) || IsBroad(parser, edit.ip))
      else if edit.remove then CoversConnection(parser, Trim(edit.ip), nas.connections)
      else IsBroad(parser, edit.ip)
  {
    KindsDiffer();
    assert "high" != "medium" by { assert "high"[0] != "medium"[0]; }
    TrimIsIdempotent(edit.ip);
    MatchIffCovered(parser, Trim(edit.ip), nas.connections);
  }

  /** Which warnings a plan carries. */
  lemma WarningsIff(parser: Parser, nas: NasState, edit: Edit, w: Line)
    requires (edit.kind == "block" || edit.kind == "allow") && Build(parser, nas, edit).Some?
    ensures w in Build(parser, nas, edit).value.warnings <==>
      match w
      case Edits(_, _, _) => false
      case LocksOut(target, source) =>
        edit.kind == "block" && !edit.remove && target == Trim(edit.ip)
        && MatchingSource(parser, Sources(nas.connections), Trim(edit.ip)) == Some(source)
      case BlocksMany(target) => edit.kind == "block" && !edit.remove && target == Trim(edit.ip) && IsBroad(parser, edit.ip)
      case AllowsMany(target) => edit.kind == "allow" && !edit.remove && target == Trim(edit.ip) && IsBroad(parser, edit.ip)
      case Exposes(target, source) =>
        edit.kind == "allow" && edit.remove && target == Trim(edit.ip)
        && MatchingSource(parser, Sources(nas.connections), Trim(edit.ip)) == Some(source)
    ensures Build(parser, nas, edit).value.summary == [Edits(edit.remove, Trim(edit.ip), edit.kind)]
  {
    KindsDiffer();
    TrimIsIdempotent(edit.ip);
  }

  /** The source that is named is the first that is covered. */
  lemma {:induction false} MatchingSourceIsFirst(parser: Parser, sources: seq<string>, target: string, i: nat)
    requires i < |sources| && MatchingSource(parser, sources, target).Some?
    requires forall j :: 0 <= j < i ==> !WithinTarget(parser, target, sources[j])
    requires WithinTarget(parser, target, sources[i])
    ensures MatchingSource(parser, sources, target).value == sources[i]
  {
    if i > 0 {
      assert !WithinTarget(parser, target, sources[0]);
      assert forall j :: 0 <= j < |sources| - 1 ==> sources[1..][j] == sources[j + 1];
      MatchingSourceIsFirst(parser, sources[1..], target, i - 1);
    }
  }

  /** Which edits are valid: of one of the two lists, with a target that can be read. */
  lemma ValidShapeIff(parser: Parser, edit: Edit)
    ensures ValidShape(parser, edit) <==>
      && (edit.kind == "block" || edit.kind == "allow")
      && Trim(edit.ip) != "" && (parser.ip(Trim(edit.ip)).Some? || parser.cidr(Trim(edit.ip)).Some?)
  {
    BlankIff(edit.ip);
  }

  /** In every run, what is written names one of the two lists and a readable target. */
  lemma WrittenEditIsValid(
    parser: Parser, hash: Contents<Edit, Body> -> string, start: NasState, revision: nat,
    steps: seq<Step<NasState, Edit, Body>>, id: nat)
    requires var w := Run(Flow(parser, hash), World([start], revision, map[]), steps);
             id in w.sessions && w.sessions[id].Wrote()
    ensures var w := Run(Flow(parser, hash), World([start], revision, map[]), steps);
            var edit := w.sessions[id].evidence.plan.Request();
            && (edit.kind == "block" || edit.kind == "allow")
            && Trim(edit.ip) != "" && (parser.ip(Trim(edit.ip)).Some? || parser.cidr(Trim(edit.ip)).Some?)
  {
    var w := Run(Flow(parser, hash), World([start], revision, map[]), steps);
    var k := EveryPlanWasApproved(Flow(parser, hash), start, revision, steps, id);
    BlankIff(w.sessions[id].evidence.plan.Request().ip);
  }

  /** In every run, success means that the entry was read back from the list the edit names, or was gone from it. */
  lemma AppliedEditIsInTheList(
    parser: Parser, hash: Contents<Edit, Body> -> string, start: NasState, revision: nat,
    steps: seq<Step<NasState, Edit, Body>>, id: nat)
    requires InjectiveHash(Flow(parser, hash))
    requires var w := Run(Flow(parser, hash), World([start], revision, map[]), steps);
             id in w.sessions && w.sessions[id].Applied?
    ensures var w := Run(Flow(parser, hash), World([start], revision, map[]), steps);
            var Applied(e, r) := w.sessions[id];
            && e.k < r < |w.trace|
            && var edit, lists := e.plan.Request(), w.trace[r].lists;
               && (edit.kind == "block" ==> (HasEntry(lists.block, edit.ip) <==> !edit.remove))
               && (edit.kind == "allow" ==> (HasEntry(lists.allow, edit.ip) <==> !edit.remove))
  {
    var f := Flow(parser, hash);
    var w := Run(f, World([start], revision, map[]), steps);
    EveryRunIsSound(f, start, revision, steps);
    assert Justified(f, w.trace, w.sessions[id]);
    KindsDiffer();
    TrimIsIdempotent(w.sessions[id].evidence.plan.Request().ip);
  }

  lemma AppliedEditIsNotReplanned(parser: Parser, hash: Contents<Edit, Body> -> string)
    ensures VerifiedIsNoOp(Flow(parser, hash))
  {
    var f := Flow(parser, hash);
    forall planned, after, request, body | Plans(f, planned, request, body) && f.verified(after, request, body)
      ensures Refuses(f, after, request)
    {
      assert Build(parser, after, request).None?;
    }
  }

  /** A plan never mixes its risk and its warnings, and an override is never taken for granted. */
  lemma RiskIsWarned(parser: Parser, observed: Observed, edit: Edit)
    requires Effects(parser, observed, edit).Some?
    ensures var body := Effects(parser, observed, edit).value;
            body.risk == "high" <==> body.warnings != []
    ensures var body := Effects(parser, observed, edit).value;
            !edit.allowLockoutOverride ==> forall w :: w in body.warnings ==> w.AllowsMany?
  {
  }
}

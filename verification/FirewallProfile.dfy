/** The guarded rewrite of adapter sections in one firewall profile. */
module FirewallProfile {
  import opened Results
  import opened Text
  import opened Addresses
  import opened Connections
  import opened FirewallRules
  import opened FirewallGuard
  import opened KeyedRows
  import opened PlanApply

  datatype Status = Status(enabled: bool, activeProfile: string)

  datatype NasState = NasState(readable: bool, writable: bool, status: Status, profile: Option<Profile>,
                               sessions: seq<Connection>, port: int)

  datatype Change = Change(profile: string, sections: seq<Section>, activate: bool,
                           allowConnectivityBreak: bool, keepReachable: string)

  datatype Body = Body(status: Status, observed: Profile, tuple: ManagementTuple, sources: seq<string>,
                       resulting: Profile, takesEffect: bool, guard: Option<GuardOutcome>)

  /** The last section of that name. */
  function Named(sections: seq<Section>, name: string): (s: Option<Section>)
    ensures s.None? <==> forall i :: 0 <= i < |sections| ==> sections[i].adapter != name
    ensures s.Some? ==> s.value.adapter == name && s.value in sections
  {
    if sections == [] then None
    else if sections[|sections| - 1].adapter == name then Some(sections[|sections| - 1])
    else Named(sections[..|sections| - 1], name)
  }

  lemma {:induction false} NamedIsLast(sections: seq<Section>, name: string) returns (i: nat)
    requires Named(sections, name).Some?
    ensures i < |sections| && sections[i] == Named(sections, name).value && sections[i].adapter == name
    ensures forall j :: i < j < |sections| ==> sections[j].adapter != name
  {
    i := |sections| - 1;
    if sections[i].adapter != name {
      i := NamedIsLast(sections[..i], name);
    }
  }

  function Overlay(current: seq<Section>, desired: seq<Section>): (merged: seq<Section>)
    ensures |merged| == |current|
    ensures forall i :: 0 <= i < |current| ==>
      merged[i] == (var d := Named(desired, current[i].adapter); if d.Some? then d.value else current[i])
  {
    seq(|current|, i requires 0 <= i < |current| =>
      var d := Named(desired, current[i].adapter); if d.Some? then d.value else current[i])
  }

  function Unseen(current: seq<Section>, desired: seq<Section>): seq<Section> {
    if desired == [] then []
    else (if Named(current, desired[0].adapter).Some? then [] else [desired[0]]) + Unseen(current, desired[1..])
  }

  /** Each desired section replaces its adapter's section or is added; every other section is kept as it is. */
  function MergeProfile(current: Profile, desired: seq<Section>): (merged: Profile)
    ensures merged.name == current.name && merged.isActive == current.isActive
    ensures |merged.sections| >= |current.sections|
    ensures forall i :: 0 <= i < |current.sections| ==> merged.sections[i].adapter == current.sections[i].adapter
  {
    current.(sections := Overlay(current.sections, desired) + Unseen(current.sections, desired))
  }

  predicate SameSection(a: Section, b: Section) {
    EqualFold(a.policy, b.policy) && a.rules == b.rules
  }

  predicate ProfilesEqual(a: Profile, b: Profile) {
    && |a.sections| == |b.sections|
    && forall i :: 0 <= i < |b.sections| ==>
         var prior := Named(a.sections, b.sections[i].adapter);
         prior.Some? && SameSection(prior.value, b.sections[i])
  }

  predicate ValidShape(parser: Parser, change: Change) {
    && !Blank(change.profile) && change.sections != []
    && (forall s :: s in change.sections ==>
          && !Blank(s.adapter)
          && Normalize(s.policy) in {POLICY_ALLOW, POLICY_DENY, POLICY_DROP, POLICY_NONE, ""}
          && forall r :: r in s.rules ==> Normalize(r.policy) in {POLICY_ALLOW, POLICY_DENY, POLICY_DROP})
    && (!Blank(change.keepReachable) ==> Probes(parser, change.keepReachable).Some?)
  }

  ghost function TupleOf(nas: NasState, change: Change): ManagementTuple {
    var sources := CurrentSources(nas.sessions);
    if Trim(change.keepReachable) != "" then ManagementTuple(Trim(change.keepReachable), nas.port, false)
    else if exists ip :: sources == {ip} then
      var ip :| sources == {ip};
      ManagementTuple(ip, nas.port, true)
    else ManagementTuple("", nas.port, false)
  }

  lemma TupleOfIsTheTuple(nas: NasState, change: Change)
    ensures IsTuple(TupleOf(nas, change), nas.port, nas.sessions, change.keepReachable)
  {
    var sources := CurrentSources(nas.sessions);
    if |sources| == 1 {
      var ip :| ip in sources;
      assert |sources - {ip}| == 0;
      assert sources == {ip};
    }
  }

  ghost function Build(parser: Parser, nas: NasState, change: Change): Option<Body> {
    if !nas.readable || !nas.writable || nas.profile.None? then None
    else
      var observed := nas.profile.value;
      var resulting := MergeProfile(observed, change.sections);
      var tuple := TupleOf(nas, change);
      var takesEffect := change.activate || (nas.status.enabled && EqualFold(nas.status.activeProfile, change.profile));
      var guard := GuardResult(parser, tuple, resulting, change.allowConnectivityBreak);
      if ProfilesEqual(observed, resulting) && !change.activate then None
      else if takesEffect && !guard.Passed? then None
      else Some(Body(nas.status, observed, tuple, Sources(nas.sessions), resulting, takesEffect,
                     if takesEffect then Some(guard) else None))
  }

  predicate Verified(nas: NasState, body: Body) {
    nas.profile.Some? && ProfilesEqual(nas.profile.value, body.resulting)
  }

  /** Status and rules are taken from the earlier read, the sessions from the later one. */
  ghost function Flow(parser: Parser, hash: Contents<Change, Body> -> string): Workflow<NasState, Change, Body> {
    Workflow(
      (change: Change) => ValidShape(parser, change),
      (nas: NasState, change: Change) => Build(parser, nas, change),
      (first: NasState, second: NasState) => first.(sessions := second.sessions),
      (nas: NasState, change: Change, body: Body) => Verified(nas, body),
      1,
      hash)
  }

  // ---- what comparing profiles means ----

  function Adapter(section: Section): string {
    section.adapter
  }

  ghost predicate DistinctAdapters(profile: Profile) {
    UniqueKeys(profile.sections, Adapter)
  }

  lemma {:induction false} NamedIsUnique(sections: seq<Section>, i: nat)
    requires i < |sections| && UniqueKeys(sections, Adapter)
    ensures Named(sections, sections[i].adapter) == Some(sections[i])
  {
    if i < |sections| - 1 {
      NamedIsUnique(sections[..|sections| - 1], i);
    }
  }

  lemma {:induction false} NamedIsIndexed(sections: seq<Section>, name: string)
    ensures Named(sections, name).Some? <==> name in IndexOf(sections, Adapter)
  {
    if sections != [] {
      NamedIsIndexed(sections[..|sections| - 1], name);
    }
  }

  lemma {:induction false} GlobalIsNamed(sections: seq<Section>)
    ensures GlobalSection(sections) == Named(sections, GLOBAL_ADAPTER)
  {
    if sections != [] {
      GlobalIsNamed(sections[..|sections| - 1]);
    }
  }

  /** Both absent, or the same up to the letter case of the default policy. */
  ghost predicate SameOrAbsent(a: Option<Section>, b: Option<Section>) {
    if a.Some? && b.Some? then EqualFold(a.value.policy, b.value.policy) && a.value.rules == b.value.rules
    else a.None? && b.None?
  }

  ghost predicate SameByName(a: seq<Section>, b: seq<Section>) {
    forall name :: SameOrAbsent(Named(a, name), Named(b, name))
  }

  lemma EqualProfilesHaveSameAdapters(a: Profile, b: Profile)
    requires DistinctAdapters(b) && ProfilesEqual(a, b)
    ensures IndexOf(a.sections, Adapter).Keys == IndexOf(b.sections, Adapter).Keys && DistinctAdapters(a)
  {
    var left, right := IndexOf(a.sections, Adapter).Keys, IndexOf(b.sections, Adapter).Keys;
    forall name | name in right ensures name in left {
      NamedIsIndexed(b.sections, name);
      NamedIsIndexed(a.sections, name);
    }
    IndexSize(a.sections, Adapter);
    IndexSize(b.sections, Adapter);
    SubsetIsSmaller(right, left);
    SubsetOfSameSize(right, left);
  }

  /**
    Against a profile that names each adapter once, equal length and one-way lookup find exactly the
    profiles that name the same adapters once each, with the same sections.
   */
  lemma ProfilesEqualIff(a: Profile, b: Profile)
    requires DistinctAdapters(b)
    ensures ProfilesEqual(a, b) <==> DistinctAdapters(a) && SameByName(a.sections, b.sections)
  {
    if ProfilesEqual(a, b) {
      EqualProfilesHaveSameAdapters(a, b);
      forall name ensures SameOrAbsent(Named(a.sections, name), Named(b.sections, name)) {
        NamedIsIndexed(a.sections, name);
        NamedIsIndexed(b.sections, name);
      }
    }
    if DistinctAdapters(a) && SameByName(a.sections, b.sections) {
      SameByNameHaveSameAdapters(a, b);
      forall i | 0 <= i < |b.sections| ensures SameOrAbsent(Named(a.sections, b.sections[i].adapter), Some(b.sections[i])) {
        NamedIsUnique(b.sections, i);
      }
    }
  }

  lemma SameByNameHaveSameAdapters(a: Profile, b: Profile)
    requires DistinctAdapters(a) && DistinctAdapters(b) && SameByName(a.sections, b.sections)
    ensures |a.sections| == |b.sections|
  {
    var left, right := IndexOf(a.sections, Adapter).Keys, IndexOf(b.sections, Adapter).Keys;
    forall name ensures name in left <==> name in right {
      assert SameOrAbsent(Named(a.sections, name), Named(b.sections, name));
      NamedIsIndexed(a.sections, name);
      NamedIsIndexed(b.sections, name);
    }
    assert left == right;
    IndexSize(a.sections, Adapter);
    IndexSize(b.sections, Adapter);
  }

  lemma SameSectionSameVerdict(a: Section, b: Section, session: Session)
    requires SameSection(a, b)
    ensures Evaluate(a.rules, a.policy, session) == Evaluate(b.rules, b.policy, session)
    ensures Configured(a) <==> Configured(b)
  {
    LowerTrim(a.policy);
    LowerTrim(b.policy);
    SamePolicySameVerdict(a.rules, a.policy, b.policy, session);
  }

  lemma {:induction false} SamePolicySameVerdict(rules: seq<Rule>, p: string, q: string, session: Session)
    requires Normalize(p) == Normalize(q)
    ensures Evaluate(rules, p, session) == Evaluate(rules, q, session)
  {
    if rules != [] {
      SamePolicySameVerdict(rules[1..], p, q, session);
    }
  }

  lemma SameChainVerdict(primary: Option<Section>, primary': Option<Section>, global: Option<Section>,
                         global': Option<Section>, session: Session)
    requires SameOrAbsent(primary, primary') && SameOrAbsent(global, global')
    ensures ChainAllows(primary, global, session) <==> ChainAllows(primary', global', session)
  {
    if primary.Some? {
      SameSectionSameVerdict(primary.value, primary'.value, session);
    }
    if global.Some? {
      SameSectionSameVerdict(global.value, global'.value, session);
    }
  }

  lemma AllowedByName(profile: Profile, name: string, session: Session)
    requires ProfileAllows(profile, session) && name != GLOBAL_ADAPTER
    ensures var s := Named(profile.sections, name);
            s.Some? && Configured(s.value) ==> ChainAllows(s, GlobalSection(profile.sections), session)
  {
  }

  /** Whatever passes verification against such a profile lets the same sessions in. */
  lemma EqualProfilesAllowTheSame(a: Profile, b: Profile, session: Session)
    requires DistinctAdapters(b) && ProfilesEqual(a, b) && ProfileAllows(b, session)
    ensures ProfileAllows(a, session)
  {
    ProfilesEqualIff(a, b);
    GlobalIsNamed(a.sections);
    GlobalIsNamed(b.sections);
    var global, global' := GlobalSection(a.sections), GlobalSection(b.sections);
    assert SameOrAbsent(global, global');
    SameChainVerdict(None, None, global, global', session);
    forall i | 0 <= i < |a.sections| && a.sections[i].adapter != GLOBAL_ADAPTER && Configured(a.sections[i])
      ensures ChainAllows(Some(a.sections[i]), global, session)
    {
      var name := a.sections[i].adapter;
      NamedIsUnique(a.sections, i);
      assert SameOrAbsent(Named(a.sections, name), Named(b.sections, name));
      SameSectionSameVerdict(a.sections[i], Named(b.sections, name).value, session);
      AllowedByName(b, name, session);
      SameChainVerdict(Some(a.sections[i]), Named(b.sections, name), global, global', session);
    }
  }

  // ---- what verification vouches for ----

  /** A profile that nothing equals is never verified; any other equals itself. */
  lemma EqualsItself(after: Profile, b: Profile)
    requires ProfilesEqual(after, b)
    ensures ProfilesEqual(b, b)
  {
    forall i | 0 <= i < |b.sections|
      ensures Named(b.sections, b.sections[i].adapter).Some?
      ensures SameSection(Named(b.sections, b.sections[i].adapter).value, b.sections[i])
    {
      var j :| 0 <= j < |b.sections| && Some(b.sections[j]) == Named(b.sections, b.sections[i].adapter)
               && b.sections[j].adapter == b.sections[i].adapter;
      assert SameSection(Named(after.sections, b.sections[j].adapter).value, b.sections[j]);
    }
  }

  /** A section that is not the last of its name can be replaced without a lookup noticing. */
  lemma LookupIgnoresEarlier(sections: seq<Section>, i: nat, j: nat, stranger: Section, name: string)
    requires i < j < |sections| && sections[i].adapter == sections[j].adapter && stranger.adapter != name
    ensures Named(sections[i := stranger], name) == Named(sections, name)
  {
    var front, rest := sections[..i], sections[i + 1..];
    assert sections == front + ([sections[i]] + rest) && sections[i := stranger] == front + ([stranger] + rest);
    assert rest[j - i - 1] == sections[j];
    NamedConcat(front, [sections[i]] + rest, name);
    NamedConcat([sections[i]], rest, name);
    NamedConcat(front, [stranger] + rest, name);
    NamedConcat([stranger], rest, name);
  }

  lemma {:induction false} LongerThanAll(sections: seq<Section>) returns (n: nat)
    ensures forall i :: 0 <= i < |sections| ==> |sections[i].adapter| < n
  {
    n := 0;
    if sections != [] {
      var last := |sections[|sections| - 1].adapter|;
      n := LongerThanAll(sections[..|sections| - 1]);
      n := if n > last then n else last + 1;
    }
  }

  lemma StrangerIsHidden(b: Profile, i: nat, j: nat, stranger: Section)
    requires i < j < |b.sections| && b.sections[i].adapter == b.sections[j].adapter && ProfilesEqual(b, b)
    requires forall k :: 0 <= k < |b.sections| ==> b.sections[k].adapter != stranger.adapter
    ensures ProfilesEqual(b.(sections := b.sections[i := stranger]), b)
  {
    forall k | 0 <= k < |b.sections|
      ensures Named(b.sections[i := stranger], b.sections[k].adapter) == Named(b.sections, b.sections[k].adapter)
    {
      LookupIgnoresEarlier(b.sections, i, j, stranger, b.sections[k].adapter);
    }
  }

  lemma DenyingSectionShutsOut(profile: Profile, i: nat, session: Session)
    requires i < |profile.sections| && profile.sections[i].adapter != GLOBAL_ADAPTER
    requires profile.sections[i].policy == POLICY_DENY && profile.sections[i].rules == []
    ensures !ProfileAllows(profile, session)
  {
    var s := profile.sections[i];
    PoliciesArePlain();
    assert Evaluate(s.rules, s.policy, session) == Deny;
    assert !ChainAllows(Some(s), GlobalSection(profile.sections), session);
  }

  /** A repeated adapter leaves room for a section nobody asked for, which shuts everyone out. */
  lemma RepeatedAdapterHidesAStranger(b: Profile, session: Session) returns (after: Profile)
    requires !DistinctAdapters(b) && ProfilesEqual(b, b)
    ensures ProfilesEqual(after, b) && !ProfileAllows(after, session)
  {
    var i, j :| 0 <= i < j < |b.sections| && Adapter(b.sections[i]) == Adapter(b.sections[j]);
    var n := LongerThanAll(b.sections);
    var stranger := Section(seq(n + |GLOBAL_ADAPTER| + 1, _ => 'x'), POLICY_DENY, []);
    StrangerIsHidden(b, i, j, stranger);
    after := b.(sections := b.sections[i := stranger]);
    DenyingSectionShutsOut(after, i, session);
  }

  /**
    Verification vouches for the session, whatever profile it has read, exactly when the planned profile
    names no adapter twice, or names one in two ways, so that nothing can ever be verified against it.
   */
  lemma VerificationVouchesIff(resulting: Profile, session: Session)
    requires ProfileAllows(resulting, session)
    ensures (forall after :: ProfilesEqual(after, resulting) ==> ProfileAllows(after, session)) <==>
            DistinctAdapters(resulting) || !ProfilesEqual(resulting, resulting)
  {
    if DistinctAdapters(resulting) {
      forall after | ProfilesEqual(after, resulting) ensures ProfileAllows(after, session) {
        EqualProfilesAllowTheSame(after, resulting, session);
      }
    } else if ProfilesEqual(resulting, resulting) {
      var after := RepeatedAdapterHidesAStranger(resulting, session);
    } else {
      forall after ensures !ProfilesEqual(after, resulting) {
        if ProfilesEqual(after, resulting) {
          EqualsItself(after, resulting);
        }
      }
    }
  }

  /** A session from the source passes under the profile on every interface, whatever the undecided rules match. */
  ghost predicate KeepsSession(parser: Parser, profile: Profile, tuple: ManagementTuple, matches: Matching) {
    && ReadableSource(parser, tuple.source)
    && SourceAllowed(parser, profile, tuple.source, tuple.port)
    && forall a :: FromSource(parser, tuple.source, a) && Consistent(Session(Some(a), tuple.port), matches) ==>
         PassesEverywhere(profile, matches)
  }

  lemma AllowedSourceKeepsSession(parser: Parser, profile: Profile, tuple: ManagementTuple, matches: Matching)
    requires ReadableSource(parser, tuple.source) && SourceAllowed(parser, profile, tuple.source, tuple.port)
    ensures KeepsSession(parser, profile, tuple, matches)
  {
    forall a | FromSource(parser, tuple.source, a) && Consistent(Session(Some(a), tuple.port), matches)
      ensures PassesEverywhere(profile, matches)
    {
      AllowedSessionPasses(profile, Session(Some(a), tuple.port), matches);
    }
  }

  lemma EqualProfilesAllowTheSource(parser: Parser, after: Profile, resulting: Profile, source: string, port: int)
    requires DistinctAdapters(resulting) && ProfilesEqual(after, resulting)
    requires SourceAllowed(parser, resulting, source, port)
    ensures SourceAllowed(parser, after, source, port)
  {
    forall a | FromSource(parser, source, a) ensures ProfileAllows(after, Session(Some(a), port)) {
      EqualProfilesAllowTheSame(after, resulting, Session(Some(a), port));
    }
  }

  /** A write takes effect at once: the request activates the profile, or the profile is the one in force. */
  ghost predicate WouldTakeEffect(status: Status, change: Change) {
    change.activate || (status.enabled && EqualFold(status.activeProfile, change.profile))
  }

  /**
    A plan is made exactly when there is something to do and, if it takes effect, the guard lets it pass; and
    it carries the guard's decision exactly when it takes effect.
   */
  lemma PlannedIff(parser: Parser, nas: NasState, change: Change)
    ensures Build(parser, nas, change).Some? <==>
      && nas.readable && nas.writable && nas.profile.Some?
      && var resulting, tuple := MergeProfile(nas.profile.value, change.sections), TupleOf(nas, change);
         && (change.activate || !ProfilesEqual(nas.profile.value, resulting))
         && (WouldTakeEffect(nas.status, change) ==>
               && Trim(tuple.source) != "" && ReadableSource(parser, tuple.source)
               && (SourceAllowed(parser, resulting, tuple.source, tuple.port) || change.allowConnectivityBreak))
    ensures Build(parser, nas, change).Some? ==>
      var body := Build(parser, nas, change).value;
      && body.status == nas.status && Some(body.observed) == nas.profile && body.tuple == TupleOf(nas, change)
      && body.resulting == MergeProfile(body.observed, change.sections)
      && (body.guard.Some? <==> WouldTakeEffect(nas.status, change))
      && (body.takesEffect <==> WouldTakeEffect(nas.status, change))
      && (body.guard.Some? ==>
            var allowed := SourceAllowed(parser, body.resulting, body.tuple.source, body.tuple.port);
            body.guard.value == Passed(allowed, !allowed))
  {
    if nas.profile.Some? {
      var resulting, tuple := MergeProfile(nas.profile.value, change.sections), TupleOf(nas, change);
      GuardResultIff(parser, tuple, resulting, change.allowConnectivityBreak);
    }
  }

  /**
    In every run, a write without override was planned to keep the session, if the request activates the
    profile or the re-read found it in force. If it is reported applied, and the planned profile names no
    adapter twice, then the profile that was read back from the NAS keeps it too.
   */
  lemma WrittenProfileKeepsTheSession(
    parser: Parser, hash: Contents<Change, Body> -> string, start: NasState, revision: nat,
    steps: seq<Step<NasState, Change, Body>>, id: nat, matches: Matching)
    requires InjectiveHash(Flow(parser, hash))
    requires var w := Run(Flow(parser, hash), World([start], revision, map[]), steps);
             && id in w.sessions && w.sessions[id].Wrote()
             && var e := w.sessions[id].evidence;
                && !e.plan.Request().allowConnectivityBreak
                && e.i < |w.trace| && WouldTakeEffect(w.trace[e.i].status, e.plan.Request())
    ensures var w := Run(Flow(parser, hash), World([start], revision, map[]), steps);
            var body := w.sessions[id].evidence.plan.Body();
            && body.guard == Some(Passed(true, false))
            && KeepsSession(parser, body.resulting, body.tuple, matches)
            && (w.sessions[id].Applied? && DistinctAdapters(body.resulting) ==>
                && w.sessions[id].evidence.k < w.sessions[id].r < |w.trace|
                && w.trace[w.sessions[id].r].profile.Some?
                && KeepsSession(parser, w.trace[w.sessions[id].r].profile.value, body.tuple, matches))
  {
    var f := Flow(parser, hash);
    var w := Run(f, World([start], revision, map[]), steps);
    EveryRunIsSound(f, start, revision, steps);
    WriteMeetsPlannedState(f, w, id);
    var e := w.sessions[id].evidence;
    assert Justified(f, w.trace, w.sessions[id]);
    var body := e.plan.Body();
    PlannedIff(parser, f.view(w.trace[e.i], w.trace[e.j]), e.plan.Request());
    AllowedSourceKeepsSession(parser, body.resulting, body.tuple, matches);
    if w.sessions[id].Applied? && DistinctAdapters(body.resulting) {
      var after := w.trace[w.sessions[id].r].profile.value;
      EqualProfilesAllowTheSource(parser, after, body.resulting, body.tuple.source, body.tuple.port);
      AllowedSourceKeepsSession(parser, after, body.tuple, matches);
    }
  }

  /** The requests that are turned away before anything is read. */
  lemma ValidShapeIff(parser: Parser, change: Change)
    ensures ValidShape(parser, change) <==>
      && Trim(change.profile) != "" && |change.sections| > 0
      && (forall s :: s in change.sections ==> Trim(s.adapter) != "" && KnownPolicies(s))
      && (Trim(change.keepReachable) != "" ==> ReadableSource(parser, change.keepReachable))
  {
    BlankIff(change.profile);
    BlankIff(change.keepReachable);
    ProbesAreFromSource(parser, Profile("", false, []), change.keepReachable, 0);
    forall s: Section ensures Blank(s.adapter) <==> Trim(s.adapter) == "" {
      BlankIff(s.adapter);
    }
    forall s ensures KnownPolicies(s) <==>
        && Normalize(s.policy) in {POLICY_ALLOW, POLICY_DENY, POLICY_DROP, POLICY_NONE, ""}
        && forall r :: r in s.rules ==> Normalize(r.policy) in {POLICY_ALLOW, POLICY_DENY, POLICY_DROP}
    {
      KnownPoliciesIff(s);
    }
  }

  lemma KnownPoliciesIff(s: Section)
    ensures KnownPolicies(s) <==>
      && Normalize(s.policy) in {POLICY_ALLOW, POLICY_DENY, POLICY_DROP, POLICY_NONE, ""}
      && forall r :: r in s.rules ==> Normalize(r.policy) in {POLICY_ALLOW, POLICY_DENY, POLICY_DROP}
  {
    PoliciesArePlain();
    assert |Normalize(s.policy)| == |Trim(s.policy)|;
  }

  /** A section allows, denies, drops or leaves it open; a rule allows, denies or drops. */
  ghost predicate KnownPolicies(s: Section) {
    && (|| Trim(s.policy) == "" || EqualFold(Trim(s.policy), "none") || EqualFold(Trim(s.policy), "allow")
        || EqualFold(Trim(s.policy), "deny") || EqualFold(Trim(s.policy), "drop"))
    && forall r :: r in s.rules ==>
         EqualFold(Trim(r.policy), "allow") || EqualFold(Trim(r.policy), "deny") || EqualFold(Trim(r.policy), "drop")
  }

  // ---- merging ----

  lemma {:induction false} NothingUnseen(current: seq<Section>, desired: seq<Section>)
    requires forall d :: d in desired ==> Named(current, d.adapter).Some?
    ensures Unseen(current, desired) == []
  {
    if desired != [] {
      NothingUnseen(current, desired[1..]);
    }
  }

  lemma EqualProfileHas(after: Profile, b: Profile, name: string)
    requires ProfilesEqual(after, b) && Named(b.sections, name).Some?
    ensures SameOrAbsent(Named(after.sections, name), Named(b.sections, name))
  {
    var i := NamedIsLast(b.sections, name);
  }

  lemma VerifiedHasDesired(after: Profile, planned: Profile, desired: seq<Section>, name: string)
    requires ProfilesEqual(after, MergeProfile(planned, desired)) && Named(desired, name).Some?
    ensures SameOrAbsent(Named(after.sections, name), Named(desired, name))
  {
    NamedMerge(planned, desired, name);
    EqualProfileHas(after, MergeProfile(planned, desired), name);
  }

  /**
    In every run, success means that the profile read back has every requested section, and every other
    section that the re-read showed, as they were.
   */
  lemma AppliedProfileHasRequest(
    parser: Parser, hash: Contents<Change, Body> -> string, start: NasState, revision: nat,
    steps: seq<Step<NasState, Change, Body>>, id: nat, name: string)
    requires InjectiveHash(Flow(parser, hash))
    requires var w := Run(Flow(parser, hash), World([start], revision, map[]), steps);
             id in w.sessions && w.sessions[id].Applied?
    ensures var w := Run(Flow(parser, hash), World([start], revision, map[]), steps);
            var Applied(e, r) := w.sessions[id];
            && e.i < e.k < r < |w.trace| && w.trace[e.i].profile.Some? && w.trace[r].profile.Some?
            && var desired := Named(e.plan.Request().sections, name);
               var before, after := Named(w.trace[e.i].profile.value.sections, name), Named(w.trace[r].profile.value.sections, name);
               && (desired.Some? ==> SameOrAbsent(after, desired))
               && (desired.None? && before.Some? ==> SameOrAbsent(after, before))
  {
    var f := Flow(parser, hash);
    var w := Run(f, World([start], revision, map[]), steps);
    EveryRunIsSound(f, start, revision, steps);
    var Applied(e, r) := w.sessions[id];
    assert Justified(f, w.trace, w.sessions[id]);
    PlannedIff(parser, f.view(w.trace[e.i], w.trace[e.j]), e.plan.Request());
    var planned := MergeProfile(w.trace[e.i].profile.value, e.plan.Request().sections);
    NamedMerge(w.trace[e.i].profile.value, e.plan.Request().sections, name);
    if Named(planned.sections, name).Some? {
      EqualProfileHas(w.trace[r].profile.value, planned, name);
    }
  }

  /** Merging the same sections into a verified profile changes nothing. */
  lemma MergeIsIdempotentOnceVerified(after: Profile, planned: Profile, desired: seq<Section>)
    requires DistinctAdapters(after) && ProfilesEqual(after, MergeProfile(planned, desired))
    ensures ProfilesEqual(after, MergeProfile(after, desired))
  {
    forall d | d in desired ensures Named(after.sections, d.adapter).Some? {
      var i :| 0 <= i < |desired| && desired[i] == d;
      VerifiedHasDesired(after, planned, desired, d.adapter);
    }
    NothingUnseen(after.sections, desired);
    var merged := MergeProfile(after, desired).sections;
    assert merged == Overlay(after.sections, desired);
    forall i | 0 <= i < |merged|
      ensures Named(after.sections, merged[i].adapter).Some?
      ensures SameSection(Named(after.sections, merged[i].adapter).value, merged[i])
    {
      var name := after.sections[i].adapter;
      NamedIsUnique(after.sections, i);
      if Named(desired, name).Some? {
        VerifiedHasDesired(after, planned, desired, name);
      }
    }
  }

  lemma {:induction false} NamedConcat(a: seq<Section>, b: seq<Section>, name: string)
    ensures Named(a + b, name) == if Named(b, name).Some? then Named(b, name) else Named(a, name)
  {
    if b == [] {
      assert a + b == a;
    } else {
      var n := |b| - 1;
      assert a + b == (a + b[..n]) + [b[n]] && b == b[..n] + [b[n]];
      NamedAppend(a + b[..n], b[n], name);
      NamedAppend(b[..n], b[n], name);
      NamedConcat(a, b[..n], name);
    }
  }

  lemma NamedAppend(sections: seq<Section>, last: Section, name: string)
    ensures Named(sections + [last], name) == if last.adapter == name then Some(last) else Named(sections, name)
  {
    assert (sections + [last])[..|sections|] == sections;
  }

  lemma {:induction false} NamedUnseen(current: seq<Section>, desired: seq<Section>, name: string)
    ensures Named(Unseen(current, desired), name) == if Named(current, name).Some? then None else Named(desired, name)
  {
    if desired != [] {
      var first, rest := desired[0], desired[1..];
      NamedUnseen(current, rest, name);
      NamedConcat(if Named(current, first.adapter).Some? then [] else [first], Unseen(current, rest), name);
      NamedConcat([first], rest, name);
      assert desired == [first] + rest;
      assert Named([first], name) == if first.adapter == name then Some(first) else None;
    }
  }

  lemma NamedOverlay(current: seq<Section>, desired: seq<Section>, name: string)
    ensures Named(Overlay(current, desired), name) ==
            if Named(current, name).Some? && Named(desired, name).Some? then Named(desired, name) else Named(current, name)
  {
    var merged := Overlay(current, desired);
    assert forall i :: 0 <= i < |current| ==> merged[i].adapter == current[i].adapter;
    if Named(current, name).Some? {
      var i := NamedIsLast(current, name);
      assert merged[i].adapter == name;
      var k := NamedIsLast(merged, name);
      assert k == i;
    }
  }

  /** Looking up an adapter in a merged profile finds its desired section if there is one, else the current one. */
  lemma NamedMerge(current: Profile, desired: seq<Section>, name: string)
    ensures Named(MergeProfile(current, desired).sections, name) ==
            if Named(desired, name).Some? then Named(desired, name) else Named(current.sections, name)
  {
    NamedOverlay(current.sections, desired, name);
    NamedUnseen(current.sections, desired, name);
    NamedConcat(Overlay(current.sections, desired), Unseen(current.sections, desired), name);
  }

  /** The request lists no adapter twice that the profile has no section for. */
  ghost predicate NewAdaptersOnce(current: seq<Section>, desired: seq<Section>) {
    forall i, j :: 0 <= i < j < |desired| && Adapter(desired[i]) == Adapter(desired[j]) ==>
      Named(current, desired[i].adapter).Some?
  }

  lemma {:induction false} UnseenIsUniqueIff(current: seq<Section>, desired: seq<Section>)
    ensures UniqueKeys(Unseen(current, desired), Adapter) <==> NewAdaptersOnce(current, desired)
  {
    if desired != [] {
      var first, rest := desired[0], desired[1..];
      assert forall i :: 0 <= i < |rest| ==> rest[i] == desired[i + 1];
      UnseenIsUniqueIff(current, rest);
      NewAdaptersOnceRest(current, desired);
      if Named(current, first.adapter).None? {
        UniquePrepend(first, Unseen(current, rest));
        NamedUnseen(current, rest, first.adapter);
      } else {
        assert [] + Unseen(current, rest) == Unseen(current, rest);
      }
    }
  }

  lemma NewAdaptersOnceRest(current: seq<Section>, desired: seq<Section>)
    requires desired != []
    ensures NewAdaptersOnce(current, desired) <==>
            && NewAdaptersOnce(current, desired[1..])
            && (Named(current, desired[0].adapter).Some? || Named(desired[1..], desired[0].adapter).None?)
  {
    var rest := desired[1..];
    assert forall i :: 0 < i < |desired| ==> desired[i] == rest[i - 1];
    assert forall i :: 0 <= i < |rest| ==> rest[i] == desired[i + 1];
  }

  lemma UniquePrepend(first: Section, rest: seq<Section>)
    ensures UniqueKeys([first] + rest, Adapter) <==> UniqueKeys(rest, Adapter) && Named(rest, first.adapter).None?
  {
    var all := [first] + rest;
    if UniqueKeys(rest, Adapter) && Named(rest, first.adapter).None? {
      forall i, j | 0 <= i < j < |all| ensures Adapter(all[i]) != Adapter(all[j]) {
        assert all[j] == rest[j - 1] && (i > 0 ==> all[i] == rest[i - 1]);
      }
    }
    if UniqueKeys(all, Adapter) {
      forall i | 0 <= i < |rest| ensures rest[i].adapter != first.adapter {
        assert Adapter(all[0]) != Adapter(all[i + 1]);
      }
      forall i, j | 0 <= i < j < |rest| ensures Adapter(rest[i]) != Adapter(rest[j]) {
        assert Adapter(all[i + 1]) != Adapter(all[j + 1]);
      }
    }
  }

  lemma UniqueConcat(a: seq<Section>, b: seq<Section>)
    requires forall i, j :: 0 <= i < |a| && 0 <= j < |b| ==> a[i].adapter != b[j].adapter
    ensures UniqueKeys(a + b, Adapter) <==> UniqueKeys(a, Adapter) && UniqueKeys(b, Adapter)
  {
    assert forall i :: 0 <= i < |a| ==> (a + b)[i] == a[i];
    assert forall i :: 0 <= i < |b| ==> (a + b)[|a| + i] == b[i];
  }

  /** A merged profile names no adapter twice exactly when the profile does not, and the request lists no new one twice. */
  lemma MergeIsDistinctIff(observed: Profile, desired: seq<Section>)
    ensures DistinctAdapters(MergeProfile(observed, desired)) <==>
            DistinctAdapters(observed) && NewAdaptersOnce(observed.sections, desired)
  {
    var overlay, unseen := Overlay(observed.sections, desired), Unseen(observed.sections, desired);
    assert forall i :: 0 <= i < |overlay| ==> overlay[i].adapter == observed.sections[i].adapter;
    forall i, j | 0 <= i < |overlay| && 0 <= j < |unseen| ensures overlay[i].adapter != unseen[j].adapter {
      NamedUnseen(observed.sections, desired, overlay[i].adapter);
    }
    UniqueConcat(overlay, unseen);
    UnseenIsUniqueIff(observed.sections, desired);
  }

  /** The sections that are not requested are as they were. */
  ghost predicate RestIsSame(met: seq<Section>, observed: seq<Section>, desired: seq<Section>) {
    forall name :: Named(desired, name).None? ==> SameOrAbsent(Named(met, name), Named(observed, name))
  }

  lemma MergesAgreeIff(observed: Profile, met: Profile, desired: seq<Section>)
    ensures SameByName(MergeProfile(met, desired).sections, MergeProfile(observed, desired).sections) <==>
            RestIsSame(met.sections, observed.sections, desired)
  {
    var written, planned := MergeProfile(met, desired).sections, MergeProfile(observed, desired).sections;
    forall name
      ensures SameOrAbsent(Named(written, name), Named(planned, name)) <==>
              (Named(desired, name).None? ==> SameOrAbsent(Named(met.sections, name), Named(observed.sections, name)))
    {
      NamedMerge(met, desired, name);
      NamedMerge(observed, desired, name);
    }
  }

  /** The request can be merged without listing an adapter twice. */
  ghost predicate Mergeable(profile: Profile, desired: seq<Section>) {
    DistinctAdapters(profile) && NewAdaptersOnce(profile.sections, desired)
  }

  /**
    The write merges the request into the profile as it is by then. What it writes passes verification
    against the planned profile exactly when no adapter is listed twice and every section that is not
    requested is as it was planned.
   */
  lemma FreshMergeVerifiesIff(observed: Profile, met: Profile, desired: seq<Section>)
    requires Mergeable(observed, desired)
    ensures ProfilesEqual(MergeProfile(met, desired), MergeProfile(observed, desired)) <==>
            Mergeable(met, desired) && RestIsSame(met.sections, observed.sections, desired)
  {
    MergeIsDistinctIff(observed, desired);
    MergeIsDistinctIff(met, desired);
    ProfilesEqualIff(MergeProfile(met, desired), MergeProfile(observed, desired));
    MergesAgreeIff(observed, met, desired);
  }

  /**
    So whether or not it is confirmed later, an effective write without override keeps the session in what
    it writes, as long as the profile it merges into is, outside the request, the one that was planned from.
   */
  lemma FreshMergeKeepsTheSession(
    parser: Parser, hash: Contents<Change, Body> -> string, w: World<NasState, Change, Body>, id: nat,
    met: Profile, matches: Matching)
    requires Sound(Flow(parser, hash), w) && id in w.sessions && w.sessions[id].Wrote()
    requires var e := w.sessions[id].evidence;
             && e.i < |w.trace| && e.k < |w.trace| && w.trace[e.k].profile == Some(met)
             && !e.plan.Request().allowConnectivityBreak && WouldTakeEffect(w.trace[e.i].status, e.plan.Request())
    requires var plan := w.sessions[id].evidence.plan;
             && Mergeable(plan.Body().observed, plan.Request().sections)
             && Mergeable(met, plan.Request().sections)
             && RestIsSame(met.sections, plan.Body().observed.sections, plan.Request().sections)
    ensures var plan := w.sessions[id].evidence.plan;
            KeepsSession(parser, MergeProfile(met, plan.Request().sections), plan.Body().tuple, matches)
  {
    var f, e := Flow(parser, hash), w.sessions[id].evidence;
    WriteMeetsPlannedState(f, w, id);
    var body, desired := e.plan.Body(), e.plan.Request().sections;
    PlannedIff(parser, f.view(w.trace[e.i], w.trace[e.j]), e.plan.Request());
    MergeIsDistinctIff(body.observed, desired);
    FreshMergeVerifiesIff(body.observed, met, desired);
    var written := MergeProfile(met, desired);
    EqualProfilesAllowTheSource(parser, written, body.resulting, body.tuple.source, body.tuple.port);
    AllowedSourceKeepsSession(parser, written, body.tuple, matches);
  }

  /**
    The write meets a state that the plan describes exactly when profile and status are as they were at the
    first read of the re-read, and the management tuple and the active sources as they were determined then.
   */
  lemma WriteMeetsPlannedProfileIff(
    parser: Parser, hash: Contents<Change, Body> -> string, w: World<NasState, Change, Body>, id: nat)
    requires Sound(Flow(parser, hash), w) && id in w.sessions && w.sessions[id].Wrote()
    ensures w.sessions[id].Written? ==> w.sessions[id].tries == 0
    ensures var e := w.sessions[id].evidence;
            && e.i <= e.j < e.k < |w.trace|
            && var met := w.trace[e.k];
               Build(parser, met, e.plan.Request()) == Some(e.plan.Body()) <==>
               && met.readable && met.writable
               && met.status == w.trace[e.i].status && met.profile == w.trace[e.i].profile
               && TupleOf(met, e.plan.Request()) == e.plan.Body().tuple
               && Sources(met.sessions) == Sources(w.trace[e.j].sessions)
  {
    var f := Flow(parser, hash);
    WriteMeetsPlannedState(f, w, id);
    var e := w.sessions[id].evidence;
    assert Build(parser, f.view(w.trace[e.i], w.trace[e.j]), e.plan.Request()) == Some(e.plan.Body());
    var met := w.trace[e.k];
    assert met.(sessions := met.sessions) == met;
  }

  /**
    After a verified write the same request is refused as a no-op exactly when it does not ask for
    activation; with activation only the guard can still refuse it.
   */
  lemma ReplanRefusedIff(parser: Parser, planned: NasState, after: NasState, change: Change)
    requires Build(parser, planned, change).Some? && Verified(after, Build(parser, planned, change).value)
    requires after.readable && after.writable && DistinctAdapters(after.profile.value)
    ensures !change.activate ==> Build(parser, after, change).None?
    ensures change.activate ==>
      (Build(parser, after, change).None? <==>
       !GuardResult(parser, TupleOf(after, change), MergeProfile(after.profile.value, change.sections),
                    change.allowConnectivityBreak).Passed?)
  {
    MergeIsIdempotentOnceVerified(after.profile.value, planned.profile.value, change.sections);
  }

  /**
    In every run, after a write without activation was verified against a profile that names no adapter twice,
    the same request is written again only after the NAS has changed.
   */
  lemma AppliedProfileStaysRefused(
    parser: Parser, hash: Contents<Change, Body> -> string, start: NasState, revision: nat,
    steps: seq<Step<NasState, Change, Body>>, done: nat, again: nat)
    requires InjectiveHash(Flow(parser, hash))
    requires var w := Run(Flow(parser, hash), World([start], revision, map[]), steps);
             && done in w.sessions && w.sessions[done].Applied?
             && again in w.sessions && w.sessions[again].Wrote()
             && w.sessions[again].evidence.plan.Request() == w.sessions[done].evidence.plan.Request()
             && !w.sessions[done].evidence.plan.Request().activate
             && DistinctAdapters(w.sessions[done].evidence.plan.Body().resulting)
             && w.sessions[done].r <= w.sessions[again].evidence.i
    ensures var w := Run(Flow(parser, hash), World([start], revision, map[]), steps);
            exists t :: w.sessions[done].r <= t <= w.sessions[again].evidence.j < |w.trace|
                        && w.trace[t] != w.trace[w.sessions[done].r]
  {
    var f := Flow(parser, hash);
    var w := Run(f, World([start], revision, map[]), steps);
    EveryRunIsSound(f, start, revision, steps);
    WriteMeetsPlannedState(f, w, done);
    WriteMeetsPlannedState(f, w, again);
    var Applied(e, r) := w.sessions[done];
    var e' := w.sessions[again].evidence;
    assert Justified(f, w.trace, w.sessions[done]);
    VerifiedIsNotReplanned(parser, f.view(w.trace[e.i], w.trace[e.j]), w.trace[r], e.plan.Request());
    assert f.view(w.trace[r], w.trace[r]) == w.trace[r];
    assert w.trace[e'.i] != w.trace[r] || w.trace[e'.j] != w.trace[r];
  }

  lemma VerifiedIsNotReplanned(parser: Parser, planned: NasState, after: NasState, change: Change)
    requires Build(parser, planned, change).Some? && Verified(after, Build(parser, planned, change).value)
    requires !change.activate && DistinctAdapters(Build(parser, planned, change).value.resulting)
    ensures Build(parser, after, change).None?
  {
    ProfilesEqualIff(after.profile.value, Build(parser, planned, change).value.resulting);
    if after.readable && after.writable {
      ReplanRefusedIff(parser, planned, after, change);
    }
  }

  /** An allow-everything profile. */
  function OpenProfile(): Profile {
    Profile("custom", false, [Section(GLOBAL_ADAPTER, POLICY_ALLOW, [])])
  }

  lemma OpenProfileMerges()
    ensures MergeProfile(OpenProfile(), OpenProfile().sections) == OpenProfile()
    ensures ProfilesEqual(OpenProfile(), OpenProfile())
  {
    var section := OpenProfile().sections[0];
    assert Named([section], GLOBAL_ADAPTER) == Some(section);
    assert Overlay([section], [section]) == [section];
    NothingUnseen([section], [section]);
    assert MergeProfile(OpenProfile(), [section]).sections == [section];
  }

  lemma OpenTwice(x: Section)
    requires x == Section("eth0", POLICY_ALLOW, [])
    ensures MergeProfile(OpenProfile(), [x, x]).sections == OpenProfile().sections + [x, x]
  {
    var g := OpenProfile().sections[0];
    assert "eth0" != GLOBAL_ADAPTER by { assert "eth0"[0] != GLOBAL_ADAPTER[0]; }
    assert Named([g], x.adapter).None? && Named([x, x], g.adapter).None?;
    assert Overlay([g], [x, x]) == [g];
    UnseenFirst([g], x, []);
    UnseenFirst([g], x, [x]);
    assert [x] + [] == [x] && [x] + [x] == [x, x];
  }

  lemma UnseenFirst(current: seq<Section>, first: Section, rest: seq<Section>)
    ensures Unseen(current, [first] + rest) ==
            (if Named(current, first.adapter).Some? then [] else [first]) + Unseen(current, rest)
  {
    assert ([first] + rest)[1..] == rest;
  }

  lemma RepeatedEqualsItself(profile: Profile, g: Section, x: Section)
    requires profile.sections == [g] + [x, x] && g.adapter != x.adapter
    ensures !DistinctAdapters(profile) && ProfilesEqual(profile, profile)
  {
    var sections := profile.sections;
    assert Adapter(sections[1]) == Adapter(sections[2]);
    NamedConcat([g], [x, x], g.adapter);
    NamedConcat([g], [x, x], x.adapter);
    forall i | 0 <= i < |sections| ensures Named(sections, sections[i].adapter) == Some(sections[i]) {
      assert sections[i] == if i == 0 then g else x;
    }
  }

  lemma PlainTexts()
    ensures !Blank("::1") && !Blank("custom") && !Blank("eth0") && !Blank(GLOBAL_ADAPTER)
    ensures Trim("::1") == "::1" && "eth0" != GLOBAL_ADAPTER
  {
    assert !IsSpace("::1"[0]) && !IsSpace("custom"[0]) && !IsSpace("eth0"[0]) && !IsSpace(GLOBAL_ADAPTER[0]);
    assert "eth0"[0] != GLOBAL_ADAPTER[0];
  }

  lemma TwiceIsValid(parser: Parser, change: Change, x: Section)
    requires x == Section("eth0", POLICY_ALLOW, []) && change == Change("custom", [x, x], false, false, "")
    ensures ValidShape(parser, change)
  {
    PlainTexts();
    PoliciesArePlain();
  }

  /** A request that lists a new adapter twice is valid and allowed, and can be verified over a stranger's denial. */
  lemma RepeatedAdapterIsAccepted(parser: Parser, session: Session) returns (change: Change, after: Profile)
    ensures ValidShape(parser, change)
    ensures ProfileAllows(MergeProfile(OpenProfile(), change.sections), session)
    ensures ProfilesEqual(after, MergeProfile(OpenProfile(), change.sections)) && !ProfileAllows(after, session)
  {
    var x := Section("eth0", POLICY_ALLOW, []);
    change := Change("custom", [x, x], false, false, "");
    TwiceIsValid(parser, change, x);
    PlainTexts();
    OpenTwice(x);
    var merged := MergeProfile(OpenProfile(), [x, x]);
    OpenSectionsAllow(merged, session);
    RepeatedEqualsItself(merged, OpenProfile().sections[0], x);
    after := RepeatedAdapterHidesAStranger(merged, session);
  }

  lemma OpenSectionsAllow(profile: Profile, session: Session)
    requires forall i :: 0 <= i < |profile.sections| ==>
      profile.sections[i].policy == POLICY_ALLOW && profile.sections[i].rules == []
    ensures Normalize(POLICY_ALLOW) == POLICY_ALLOW && ProfileAllows(profile, session)
  {
    GlobalSectionIsListed(profile.sections);
    PoliciesArePlain();
    assert Evaluate([], POLICY_ALLOW, session) == Allow;
  }

  /** A NAS with that profile, and the request to activate it as it is. */
  function OpenNas(): NasState {
    NasState(true, true, Status(false, "default"), Some(OpenProfile()), [], 5001)
  }

  function Activation(): Change {
    Change("custom", OpenProfile().sections, true, false, "::1")
  }

  lemma ActivationPasses(parser: Parser)
    requires parser.ip("::1").Some?
    ensures TupleOf(OpenNas(), Activation()) == ManagementTuple("::1", 5001, false)
    ensures GuardResult(parser, ManagementTuple("::1", 5001, false), OpenProfile(), false) == Passed(true, false)
  {
    PlainTexts();
    var address := parser.ip("::1").value;
    OpenSectionsAllow(OpenProfile(), Session(Some(address), 5001));
    assert AllAllowed(OpenProfile(), [address], 5001);
  }

  /** It is planned, and planned again from the same state, which verifies it. */
  lemma ActivationIsPlannedAgain(parser: Parser)
    requires parser.ip("::1").Some?
    ensures ValidShape(parser, Activation()) && Activation().activate && Build(parser, OpenNas(), Activation()).Some?
    ensures var body := Build(parser, OpenNas(), Activation()).value;
            && Verified(OpenNas(), body)
            && body.tuple == ManagementTuple("::1", 5001, false) && body.observed == OpenProfile()
  {
    ActivationIsValid(parser);
    ActivationPasses(parser);
    OpenProfileMerges();
  }

  lemma ActivationIsValid(parser: Parser)
    requires parser.ip("::1").Some?
    ensures ValidShape(parser, Activation())
  {
    PlainTexts();
    PoliciesArePlain();
  }

  /** The same profile, after others have added a section that denies everything on one interface. */
  function JoinedProfile(): Profile {
    OpenProfile().(sections := OpenProfile().sections + [Section("eth0", POLICY_DENY, [])])
  }

  /** What the guard evaluated lets everyone in, and what the write then merges lets nobody in. */
  lemma FreshMergeMayLockOut(session: Session)
    ensures ProfileAllows(MergeProfile(OpenProfile(), Activation().sections), session)
    ensures !ProfileAllows(MergeProfile(JoinedProfile(), Activation().sections), session)
  {
    PlainTexts();
    OpenProfileMerges();
    OpenSectionsAllow(OpenProfile(), session);
    var g, y := OpenProfile().sections[0], JoinedProfile().sections[1];
    assert Named([g], GLOBAL_ADAPTER) == Some(g) && Named([g], y.adapter).None?;
    NamedAppend([g], y, GLOBAL_ADAPTER);
    var merged := MergeProfile(JoinedProfile(), [g]);
    assert merged.sections[1] == y;
    DenyingSectionShutsOut(merged, 1, session);
  }

  /** The plan for that request. */
  ghost function ActivationPlan(parser: Parser, hash: Contents<Change, Body> -> string): Plan<Change, Body>
    requires Build(parser, OpenNas(), Activation()).Some?
  {
    var contents := Contents(Activation(), Build(parser, OpenNas(), Activation()).value, 0);
    Plan(contents, hash(contents))
  }

  lemma ActivationPlanIsGood(parser: Parser, hash: Contents<Change, Body> -> string)
    requires parser.ip("::1").Some? && forall c :: !Blank(hash(c))
    ensures Build(parser, OpenNas(), Activation()).Some?
    ensures Good(Flow(parser, hash), World([OpenNas()], 0, map[]), ActivationPlan(parser, hash))
    ensures Build(parser, OpenNas(), Activation()).value.resulting == MergeProfile(OpenProfile(), Activation().sections)
  {
    ActivationIsPlannedAgain(parser);
    assert Flow(parser, hash).view(OpenNas(), OpenNas()) == OpenNas();
  }

  /** A run in which an effective write, passed by the guard without override, merges into such a profile. */
  lemma WriteMayLockOut(parser: Parser, hash: Contents<Change, Body> -> string)
    returns (steps: seq<Step<NasState, Change, Body>>)
    requires parser.ip("::1").Some? && forall c :: !Blank(hash(c))
    ensures var w := Run(Flow(parser, hash), World([OpenNas()], 0, map[]), steps);
            && 0 in w.sessions && w.sessions[0].Wrote()
            && var e := w.sessions[0].evidence;
               && e.plan.Request().activate && !e.plan.Request().allowConnectivityBreak
               && e.k < |w.trace| && w.trace[e.k].profile.Some?
               && forall session ::
                    && ProfileAllows(e.plan.Body().resulting, session)
                    && !ProfileAllows(MergeProfile(w.trace[e.k].profile.value, e.plan.Request().sections), session)
  {
    ActivationPlanIsGood(parser, hash);
    var plan, met := ActivationPlan(parser, hash), OpenNas().(profile := Some(JoinedProfile()));
    steps := UpToWrite(0, plan, met, 0, met);
    GoodPlanIsWritten(Flow(parser, hash), World([OpenNas()], 0, map[]), 0, plan, met, met);
    forall session
      ensures ProfileAllows(plan.Body().resulting, session)
      ensures !ProfileAllows(MergeProfile(JoinedProfile(), Activation().sections), session)
    {
      FreshMergeMayLockOut(session);
    }
  }
}

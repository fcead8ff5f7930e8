/** The never-lockout guard: which session it protects, what it probes, and what that says about a range. */
module FirewallGuard {
  import opened Results
  import opened Text
  import opened Cidr
  import opened Addresses
  import opened Connections
  import opened FirewallRules

  datatype ManagementTuple = ManagementTuple(source: string, port: int, determined: bool)

  function CurrentSources(sessions: seq<Connection>): set<string> {
    set s | s in sessions && s.current && Trim(s.from) != "" :: Trim(s.from)
  }

  /** keep_reachable if it is given, else the one source DSM flags as current, else none. */
  ghost predicate IsTuple(tuple: ManagementTuple, port: int, sessions: seq<Connection>, keepReachable: string) {
    && tuple.port == port
    && if Trim(keepReachable) != "" then tuple.source == Trim(keepReachable) && !tuple.determined
       else if tuple.determined then CurrentSources(sessions) == {tuple.source}
       else tuple.source == "" && |CurrentSources(sessions)| != 1
  }

  method DetermineConnection(port: int, sessions: seq<Connection>, keepReachable: string)
    returns (tuple: ManagementTuple)
    ensures IsTuple(tuple, port, sessions, keepReachable)
  {
    if Trim(keepReachable) != "" {
      return ManagementTuple(Trim(keepReachable), port, false);
    }
    var currents: set<string> := {};
    for i := 0 to |sessions|
      invariant currents == CurrentSources(sessions[..i])
    {
      assert sessions[..i + 1] == sessions[..i] + [sessions[i]];
      if sessions[i].current {
        var ip := Trim(sessions[i].from);
        if ip != "" {
          currents := currents + {ip};
        }
      }
    }
    assert sessions[..|sessions|] == sessions;
    if |currents| == 1 {
      var ip :| ip in currents;
      assert |currents - {ip}| == 0;
      assert currents == {ip};
      return ManagementTuple(ip, port, true);
    }
    return ManagementTuple("", port, false);
  }

  /** The tuple depends on nothing but its inputs. */
  lemma TupleIsUnique(a: ManagementTuple, b: ManagementTuple, port: int, sessions: seq<Connection>, keepReachable: string)
    requires IsTuple(a, port, sessions, keepReachable) && IsTuple(b, port, sessions, keepReachable)
    ensures a == b
  {
    if Trim(keepReachable) == "" && a.determined && b.determined {
      assert a.source in {b.source};
    }
  }

  /** The current connections that show a source all show this one, and one does. */
  ghost predicate SoleCurrent(sessions: seq<Connection>, ip: string) {
    && (exists s :: s in sessions && s.current && Trim(s.from) == ip)
    && ip != ""
    && (forall s :: s in sessions && s.current && Trim(s.from) != "" ==> Trim(s.from) == ip)
  }

  lemma SoleCurrentIff(sessions: seq<Connection>, ip: string)
    ensures SoleCurrent(sessions, ip) <==> CurrentSources(sessions) == {ip}
  {
    var sources := CurrentSources(sessions);
    if sources == {ip} {
      assert ip in sources;
      forall s | s in sessions && s.current && Trim(s.from) != "" ensures Trim(s.from) == ip {
        assert Trim(s.from) in sources;
      }
    }
    if SoleCurrent(sessions, ip) {
      assert ip in sources;
      assert forall other :: other in sources ==> other == ip;
    }
  }

  /** Without keep_reachable, a tuple is determined exactly if there is one such source, and then shows it. */
  lemma DeterminedIff(tuple: ManagementTuple, port: int, sessions: seq<Connection>, keepReachable: string)
    requires IsTuple(tuple, port, sessions, keepReachable) && Trim(keepReachable) == ""
    ensures tuple.determined <==> exists ip :: SoleCurrent(sessions, ip)
    ensures if tuple.determined then SoleCurrent(sessions, tuple.source) else tuple.source == ""
  {
    if tuple.determined {
      SoleCurrentIff(sessions, tuple.source);
    } else {
      forall ip ensures !SoleCurrent(sessions, ip) {
        SoleCurrentIff(sessions, ip);
      }
    }
  }

  /** The addresses the guard tries: a single one, or the two ends of a subnet. */
  function Probes(parser: Parser, source: string): Option<seq<Address>> {
    var ip := parser.ip(Trim(source));
    if ip.Some? then Some([ip.value])
    else
      var subnet := parser.cidr(Trim(source));
      if subnet.Some? then Some([subnet.value.ip, subnet.value.Last()]) else None
  }

  method GuardProbeIPs(parser: Parser, source: string) returns (probes: Option<seq<Address>>)
    ensures probes == Probes(parser, source)
    ensures probes.None? <==> parser.ip(Trim(source)).None? && parser.cidr(Trim(source)).None?
    ensures parser.ip(Trim(source)).Some? ==> probes == Some([parser.ip(Trim(source)).value])
    ensures parser.ip(Trim(source)).None? && parser.cidr(Trim(source)).Some? ==>
      var subnet := parser.cidr(Trim(source)).value;
      |probes.value| == 2 && Value(probes.value[0]) == Lo(subnet) && Value(probes.value[1]) == Hi(subnet)
  {
    var ip := parser.ip(Trim(source));
    if ip.Some? {
      return Some([ip.value]);
    }
    var subnet := parser.cidr(Trim(source));
    if subnet.Some? {
      var first, last := CidrHostBounds(subnet.value.ip, subnet.value.mask);
      assert last == subnet.value.Last();
      return Some([first, last]);
    }
    return None;
  }

  datatype GuardOutcome = NoSource | BadSource | Refusal | Passed(allowed: bool, overridden: bool)

  predicate AllAllowed(profile: Profile, probes: seq<Address>, port: int) {
    forall i :: 0 <= i < |probes| ==> ProfileAllows(profile, Session(Some(probes[i]), port))
  }

  function GuardResult(parser: Parser, tuple: ManagementTuple, profile: Profile, allowBreak: bool): GuardOutcome {
    if Blank(tuple.source) then NoSource
    else
      match Probes(parser, tuple.source)
      case None => BadSource
      case Some(probes) =>
        if AllAllowed(profile, probes, tuple.port) then Passed(true, false)
        else if allowBreak then Passed(false, true)
        else Refusal
  }

  /** An address the source stands for: itself, or either end of the subnet. */
  ghost predicate FromSource(parser: Parser, source: string, a: Address) {
    match parser.ip(Trim(source))
    case Some(ip) => a == ip
    case None => parser.cidr(Trim(source)).Some? && var n := parser.cidr(Trim(source)).value; a == n.ip || a == n.Last()
  }

  ghost predicate ReadableSource(parser: Parser, source: string) {
    parser.ip(Trim(source)).Some? || parser.cidr(Trim(source)).Some?
  }

  /** The profile lets the source in. */
  ghost predicate SourceAllowed(parser: Parser, profile: Profile, source: string, port: int) {
    forall a :: FromSource(parser, source, a) ==> ProfileAllows(profile, Session(Some(a), port))
  }

  lemma ProbesAreFromSource(parser: Parser, profile: Profile, source: string, port: int)
    ensures Probes(parser, source).Some? <==> ReadableSource(parser, source)
    ensures Probes(parser, source).Some? ==>
      (AllAllowed(profile, Probes(parser, source).value, port) <==> SourceAllowed(parser, profile, source, port))
  {
    if Probes(parser, source).Some? {
      var probes := Probes(parser, source).value;
      forall a ensures FromSource(parser, source, a) <==> a in probes {
      }
      forall i | 0 <= i < |probes| ensures FromSource(parser, source, probes[i]) {
      }
    }
  }

  /** The guard fails closed without a readable source, and passes exactly if the source is let in or the break is allowed. */
  lemma GuardResultIff(parser: Parser, tuple: ManagementTuple, profile: Profile, allowBreak: bool)
    ensures var outcome := GuardResult(parser, tuple, profile, allowBreak);
            var readable := Trim(tuple.source) != "" && ReadableSource(parser, tuple.source);
            var allowed := SourceAllowed(parser, profile, tuple.source, tuple.port);
            && (outcome.NoSource? <==> Trim(tuple.source) == "")
            && (outcome.BadSource? <==> Trim(tuple.source) != "" && !readable)
            && (outcome == Passed(true, false) <==> readable && allowed)
            && (outcome == Passed(false, true) <==> readable && !allowed && allowBreak)
            && (outcome.Refusal? <==> readable && !allowed && !allowBreak)
            && (outcome.Passed? ==> outcome == Passed(true, false) || outcome == Passed(false, true))
  {
    BlankIff(tuple.source);
    ProbesAreFromSource(parser, profile, tuple.source, tuple.port);
  }

  /** The loop of the guard: it stops at the first probe that is refused. */
  method EvaluateProbes(profile: Profile, probes: seq<Address>, port: int) returns (allowed: bool)
    ensures allowed <==> AllAllowed(profile, probes, port)
  {
    for i := 0 to |probes|
      invariant forall k :: 0 <= k < i ==> ProfileAllows(profile, Session(Some(probes[k]), port))
    {
      if !ProfileAllows(profile, Session(Some(probes[i]), port)) {
        return false;
      }
    }
    return true;
  }

  method EvaluateGuard(parser: Parser, tuple: ManagementTuple, profile: Profile, allowBreak: bool)
    returns (outcome: GuardOutcome)
    ensures outcome == GuardResult(parser, tuple, profile, allowBreak)
    ensures outcome.NoSource? <==> Trim(tuple.source) == ""
    ensures outcome.BadSource? <==> Trim(tuple.source) != "" && !ReadableSource(parser, tuple.source)
    ensures outcome == Passed(true, false) <==>
      Trim(tuple.source) != "" && ReadableSource(parser, tuple.source)
      && SourceAllowed(parser, profile, tuple.source, tuple.port)
    ensures outcome == Passed(false, true) <==>
      Trim(tuple.source) != "" && ReadableSource(parser, tuple.source)
      && !SourceAllowed(parser, profile, tuple.source, tuple.port) && allowBreak
  {
    GuardResultIff(parser, tuple, profile, allowBreak);
    if Blank(tuple.source) {
      return NoSource;
    }
    var probes := GuardProbeIPs(parser, tuple.source);
    if probes.None? {
      return BadSource;
    }
    var allowed := EvaluateProbes(profile, probes.value, tuple.port);
    if !allowed {
      return if allowBreak then Passed(false, true) else Refusal;
    }
    return Passed(true, false);
  }

  // ---- what two probes say about a range ----

  ghost predicate RangeAllowed(profile: Profile, n: Network, port: int) {
    forall a: Address :: Contains(n, a) ==> ProfileAllows(profile, Session(Some(a), port))
  }

  /** Where a source's answer can change along the address line: from one value to the next listed one. */
  function Cuts(source: Source): set<nat> {
    match source
    case SingleSource(Some(ip)) => {Value(ip), Value(ip) + 1}
    case SubnetSource(Some(s)) => {Lo(s), Hi(s) + 1, MAPPED_FIRST, MAPPED_LAST + 1}
    case RangeSource(Some(bounds)) => {Value(bounds.0), Value(bounds.1) + 1}
    case _ => {}
  }

  function RuleCuts(rules: seq<Rule>): set<nat> {
    set i, c | 0 <= i < |rules| && rules[i].enabled && c in Cuts(rules[i].source) :: c
  }

  function ProfileCuts(profile: Profile): set<nat> {
    set i, c | 0 <= i < |profile.sections| && c in RuleCuts(profile.sections[i].rules) :: c
  }

  predicate Crosses(cut: nat, low: nat, high: nat) {
    low < cut <= high
  }

  ghost predicate NoCut(cuts: set<nat>, low: nat, high: nat) {
    forall c :: c in cuts ==> !Crosses(c, low, high)
  }

  lemma SingleIsSteady(ip: Address, a: Address, b: Address)
    requires Value(a) <= Value(b) && NoCut({Value(ip), Value(ip) + 1}, Value(a), Value(b))
    ensures To16(ip) == To16(a) <==> To16(ip) == To16(b)
  {
    assert Value(ip) in {Value(ip), Value(ip) + 1} && Value(ip) + 1 in {Value(ip), Value(ip) + 1};
    if Value(ip) == Value(a) {
      ValueIsInjective(ip, a);
    }
    if Value(ip) == Value(b) {
      ValueIsInjective(ip, b);
    }
  }

  lemma CoversIsSteady(s: Network, v: nat, u: nat)
    requires v <= u && !Crosses(Lo(s), v, u) && !Crosses(Hi(s) + 1, v, u)
    requires !Crosses(MAPPED_FIRST, v, u) && !Crosses(MAPPED_LAST + 1, v, u)
    ensures Covers(s, v) <==> Covers(s, u)
  {
    assert IsV4Value(v) <==> IsV4Value(u);
    assert Lo(s) <= v <= Hi(s) <==> Lo(s) <= u <= Hi(s);
  }

  lemma SubnetIsSteady(s: Network, a: Address, b: Address)
    requires Value(a) <= Value(b) && NoCut(Cuts(SubnetSource(Some(s))), Value(a), Value(b))
    ensures Contains(s, a) <==> Contains(s, b)
  {
    var cuts := Cuts(SubnetSource(Some(s)));
    assert Lo(s) in cuts && Hi(s) + 1 in cuts && MAPPED_FIRST in cuts && MAPPED_LAST + 1 in cuts;
    CoversIsSteady(s, Value(a), Value(b));
    ContainsIsCovers(s, a);
    ContainsIsCovers(s, b);
  }

  lemma SourceIsSteady(source: Source, a: Address, b: Address)
    requires Value(a) <= Value(b) && NoCut(Cuts(source), Value(a), Value(b))
    ensures SourceMatch(source, Some(a)) == SourceMatch(source, Some(b))
  {
    match source
    case SingleSource(Some(ip)) => SingleIsSteady(ip, a, b);
    case SubnetSource(Some(s)) => SubnetIsSteady(s, a, b);
    case RangeSource(Some(bounds)) =>
      assert Value(bounds.0) in Cuts(source) && Value(bounds.1) + 1 in Cuts(source);
    case _ =>
  }

  /** Every enabled rule answers the same for both addresses. */
  ghost predicate SameAnswers(rules: seq<Rule>, a: Address, b: Address) {
    forall i :: 0 <= i < |rules| && rules[i].enabled ==>
      SourceMatch(rules[i].source, Some(a)) == SourceMatch(rules[i].source, Some(b))
  }

  ghost predicate SameAnswersEverywhere(profile: Profile, a: Address, b: Address) {
    forall i :: 0 <= i < |profile.sections| ==> SameAnswers(profile.sections[i].rules, a, b)
  }

  lemma {:induction false} SameAnswersSameVerdict(rules: seq<Rule>, policy: string, a: Address, b: Address, port: int)
    requires SameAnswers(rules, a, b)
    ensures Evaluate(rules, policy, Session(Some(a), port)) == Evaluate(rules, policy, Session(Some(b), port))
  {
    if rules != [] {
      var rest := rules[1..];
      assert forall i :: 0 <= i < |rest| ==> rest[i] == rules[i + 1];
      SameAnswersSameVerdict(rest, policy, a, b, port);
      assert rules[0].enabled ==> RuleMatch(rules[0], Session(Some(a), port)) == RuleMatch(rules[0], Session(Some(b), port));
    }
  }

  lemma {:induction false} GlobalSectionIsListed(sections: seq<Section>)
    ensures GlobalSection(sections).Some? ==> GlobalSection(sections).value in sections
  {
    if sections != [] {
      GlobalSectionIsListed(sections[..|sections| - 1]);
    }
  }

  lemma SameAnswersSameProfileVerdict(profile: Profile, a: Address, b: Address, port: int)
    requires SameAnswersEverywhere(profile, a, b)
    ensures ProfileAllows(profile, Session(Some(a), port)) == ProfileAllows(profile, Session(Some(b), port))
  {
    GlobalSectionIsListed(profile.sections);
    forall s | s in profile.sections
      ensures Evaluate(s.rules, s.policy, Session(Some(a), port)) == Evaluate(s.rules, s.policy, Session(Some(b), port))
    {
      SameAnswersSameVerdict(s.rules, s.policy, a, b, port);
    }
  }

  lemma SteadyBetweenCuts(profile: Profile, a: Address, b: Address, port: int)
    requires Value(a) <= Value(b) && NoCut(ProfileCuts(profile), Value(a), Value(b))
    ensures ProfileAllows(profile, Session(Some(a), port)) == ProfileAllows(profile, Session(Some(b), port))
  {
    forall i, k | 0 <= i < |profile.sections| && 0 <= k < |profile.sections[i].rules| && profile.sections[i].rules[k].enabled
      ensures SourceMatch(profile.sections[i].rules[k].source, Some(a)) ==
              SourceMatch(profile.sections[i].rules[k].source, Some(b))
    {
      var rules := profile.sections[i].rules;
      forall c | c in Cuts(rules[k].source) ensures !Crosses(c, Value(a), Value(b)) {
        assert c in RuleCuts(rules);
        assert c in ProfileCuts(profile);
      }
      SourceIsSteady(rules[k].source, a, b);
    }
    SameAnswersSameProfileVerdict(profile, a, b, port);
  }

  /** The finitely many values that decide a whole subnet: its first address, and every cut inside it. */
  ghost function Representatives(profile: Profile, n: Network): set<nat> {
    set c | c in ProfileCuts(profile) + {Lo(n), MAPPED_LAST + 1} && Covers(n, c)
  }

  lemma {:induction false} GreatestBelow(s: set<nat>, v: nat) returns (m: nat)
    requires exists c :: c in s && c <= v
    ensures m in s && m <= v && forall c :: c in s && c <= v ==> c <= m
    decreases s
  {
    var x :| x in s && x <= v;
    m := x;
    if c :| c in s && x < c <= v {
      assert c in s - {x};
      m := GreatestBelow(s - {x}, v);
      assert x < c <= m;
      assert forall d :: d in s ==> d == x || d in s - {x};
    }
  }

  lemma LoIsCovered(n: Network)
    ensures Covers(n, Lo(n))
  {
    FamilyOfValue(n.ip);
    NetworkSize(n);
  }

  /**
    A profile allows a whole subnet exactly when it allows the representatives. So probing them
    instead of the two ends would make the guard exact.
   */
  lemma RangeAllowedIffRepresentatives(profile: Profile, n: Network, port: int)
    ensures RangeAllowed(profile, n, port) <==>
            forall c :: c in Representatives(profile, n) ==> ProfileAllows(profile, Session(Some(AddressAt(c)), port))
  {
    if RangeAllowed(profile, n, port) {
      forall c | c in Representatives(profile, n)
        ensures ProfileAllows(profile, Session(Some(AddressAt(c)), port))
      {
        AddressAtValue(c, n.Last());
        ContainsIsCovers(n, AddressAt(c));
      }
    }
    if forall c :: c in Representatives(profile, n) ==> ProfileAllows(profile, Session(Some(AddressAt(c)), port)) {
      forall a: Address | Contains(n, a) ensures ProfileAllows(profile, Session(Some(a), port)) {
        ContainsIsCovers(n, a);
        var c := NearestRepresentative(profile, n, a);
        AddressAtValue(c, a);
        SteadyBetweenCuts(profile, AddressAt(c), a, port);
      }
    }
  }

  lemma NearestRepresentative(profile: Profile, n: Network, a: Address) returns (c: nat)
    requires Covers(n, Value(a))
    ensures c in Representatives(profile, n) && c <= Value(a)
    ensures NoCut(ProfileCuts(profile), c, Value(a))
  {
    LoIsCovered(n);
    var candidates := ProfileCuts(profile) + {Lo(n), MAPPED_LAST + 1};
    assert Lo(n) in candidates;
    c := GreatestBelow(candidates, Value(a));
    assert MAPPED_LAST + 1 in candidates;
  }

  /** The guard's two probes of a subnet give the right answer exactly when no representative is refused behind them. */
  lemma TwoProbesSufficeIff(profile: Profile, n: Network, port: int)
    requires AllAllowed(profile, [n.ip, n.Last()], port)
    ensures RangeAllowed(profile, n, port) <==>
            forall c :: c in Representatives(profile, n) && c != Lo(n) ==>
              ProfileAllows(profile, Session(Some(AddressAt(c)), port))
  {
    RangeAllowedIffRepresentatives(profile, n, port);
    assert ProfileAllows(profile, Session(Some([n.ip, n.Last()][0]), port));
    FirstIsFirstRepresentative(profile, n, port);
  }

  lemma FirstIsFirstRepresentative(profile: Profile, n: Network, port: int)
    ensures ProfileAllows(profile, Session(Some(AddressAt(Lo(n))), port)) <==>
            ProfileAllows(profile, Session(Some(n.ip), port))
  {
    AddressAtValue(Lo(n), n.ip);
    SteadyBetweenCuts(profile, AddressAt(Lo(n)), n.ip, port);
  }

  /** A source that holds all of a subnet or none of it. */
  ghost predicate Unsplit(source: Source, n: Network) {
    forall a: Address, b: Address :: Contains(n, a) && Contains(n, b) ==>
      SourceMatch(source, Some(a)) == SourceMatch(source, Some(b))
  }

  ghost predicate RulesUnsplit(rules: seq<Rule>, n: Network) {
    forall k :: 0 <= k < |rules| && rules[k].enabled ==> Unsplit(rules[k].source, n)
  }

  /** When no enabled rule splits the probed subnet, two allowed probes mean the whole subnet is allowed. */
  lemma UnsplitRangeIsAllowed(profile: Profile, n: Network, port: int)
    requires AllAllowed(profile, [n.ip, n.Last()], port)
    requires forall s :: s in profile.sections ==> RulesUnsplit(s.rules, n)
    ensures RangeAllowed(profile, n, port)
  {
    LoIsCovered(n);
    ContainsIsCovers(n, n.ip);
    assert ProfileAllows(profile, Session(Some([n.ip, n.Last()][0]), port));
    forall a: Address | Contains(n, a) ensures ProfileAllows(profile, Session(Some(a), port)) {
      SameAnswersSameProfileVerdict(profile, n.ip, a, port);
    }
  }

  /** A subnet at least as wide as the probed one, whichever form either is in, never splits it. */
  lemma WideSubnetIsUnsplit(s: Network, n: Network)
    requires LongOnes(s) <= LongOnes(n)
    ensures Unsplit(SubnetSource(Some(s)), n)
  {
    LongFormIsSame(s);
    LongFormIsSame(n);
    forall a: Address, b: Address | Contains(n, a) && Contains(n, b) && Contains(s, a) ensures Contains(s, b) {
      WideLongFormHoldsBoth(LongForm(s), LongForm(n), a, b);
    }
  }

  lemma WideLongFormHoldsBoth(s: Network, n: Network, a: Address, b: Address)
    requires |s.ip| == |n.ip| == 16 && s.ones <= n.ones
    requires Contains(n, a) && Contains(n, b) && Contains(s, a)
    ensures Contains(s, b)
  {
    LongFormMatch(n, a);
    LongFormMatch(n, b);
    LongFormMatch(s, a);
    LongFormMatch(s, b);
    BlocksNest(s.ip, s.mask, s.ones, n.ip, n.mask, n.ones, To16(a), To16(b));
  }

  /** Membership in a subnet written with sixteen bytes, in terms of the sixteen-byte address. */
  lemma LongFormMatch(s: Network, a: Address)
    requires |s.ip| == 16
    ensures Contains(s, a) <==> Match(s.ip, s.mask, To16(a)) && (IsV4(a) <==> IsV4(s.ip))
  {
    if IsV4(s.ip) && IsV4(a) {
      assert Canonical(a) == To16(a)[12..];
      MappedMatch(s, To16(a));
    }
  }

  /** A profile whose global section allows by default and has the one rule given. */
  function OneRuleProfile(rule: Rule): Profile {
    Profile("custom", true, [Section(GLOBAL_ADAPTER, POLICY_ALLOW, [rule])])
  }

  lemma OneRuleVerdict(rule: Rule, session: Session)
    requires rule.enabled && RuleMatch(rule, session) != Maybe && Normalize(POLICY_ALLOW) == POLICY_ALLOW
    requires !PolicyAllows(rule.policy)
    ensures ProfileAllows(OneRuleProfile(rule), session) <==> RuleMatch(rule, session).No?
  {
    var section := OneRuleProfile(rule).sections[0];
    assert GlobalSection([section]) == Some(section);
    var rules := section.rules;
    assert rules[1..] == [];
    assert Evaluate([], section.policy, session) == Allow;
    assert Evaluate(rules, section.policy, session) == if RuleMatch(rule, session).Yes? then Deny else Allow;
  }

  /** 10.0.0.0/24. */
  function SampleSubnet(): Subnet {
    Subnet([10, 0, 0, 0], [0xff, 0xff, 0xff, 0x00], 24)
  }

  const SAMPLE_INSIDE: Bytes := [10, 0, 0, 7]

  lemma SampleAddresses()
    ensures SampleSubnet().Valid() && SampleSubnet().Last() == [10, 0, 0, 0xff]
    ensures Contains(SampleSubnet(), SAMPLE_INSIDE)
    ensures To16(SAMPLE_INSIDE) != To16(SampleSubnet().ip) && To16(SAMPLE_INSIDE) != To16(SampleSubnet().Last())
  {
    var last: Bytes := [10, 0, 0, 0xff];
    assert SampleSubnet().Last() == last;
    assert To16(SampleSubnet().ip)[15] == 0 && To16(SAMPLE_INSIDE)[15] == 7 && To16(last)[15] == 0xff;
  }

  function DenyOne(ip: Address): Rule {
    Rule(true, POLICY_DENY, "", AnyPort, SingleSource(Some(ip)), false, "")
  }

  lemma DenyOneVerdict(ip: Address, a: Address, port: int)
    ensures ProfileAllows(OneRuleProfile(DenyOne(ip)), Session(Some(a), port)) <==> To16(a) != To16(ip)
  {
    PoliciesArePlain();
    OneRuleVerdict(DenyOne(ip), Session(Some(a), port));
  }

  lemma TwoAllowed(profile: Profile, first: Address, last: Address, port: int)
    requires ProfileAllows(profile, Session(Some(first), port)) && ProfileAllows(profile, Session(Some(last), port))
    ensures AllAllowed(profile, [first, last], port)
  {
  }

  /** A narrower rule inside the range is missed: both ends are allowed and an address between them is not. */
  lemma NarrowRuleIsMissed() returns (profile: Profile, n: Network, inside: Address)
    ensures AllAllowed(profile, [n.ip, n.Last()], 5001)
    ensures Contains(n, inside) && !ProfileAllows(profile, Session(Some(inside), 5001))
  {
    SampleAddresses();
    n, inside := SampleSubnet(), SAMPLE_INSIDE;
    profile := OneRuleProfile(DenyOne(inside));
    DenyOneVerdict(inside, n.ip, 5001);
    DenyOneVerdict(inside, n.Last(), 5001);
    DenyOneVerdict(inside, inside, 5001);
    TwoAllowed(profile, n.ip, n.Last(), 5001);
  }
}

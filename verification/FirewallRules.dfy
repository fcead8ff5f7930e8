/** The local evaluator of a firewall profile: first match, then the adapter's default, then the global section. */
module FirewallRules {
  import opened Results
  import opened Text
  import opened Addresses

  datatype PortToken = Span(lo: int, hi: int) | Unreadable

  /** A rule's port field, as the port group and the parsed tokens give it. */
  datatype Ports =
    | AnyPort
    | Listed(toDestination: bool, tokens: seq<PortToken>)
    | ListedAny(toDestination: bool)
    | Unresolved

  datatype Source =
    | AnySource
    | SingleSource(ip: Option<Address>)
    | SubnetSource(subnet: Option<Network>)
    | RangeSource(bounds: Option<(Address, Address)>)
    | OtherSource

  datatype Rule = Rule(enabled: bool, policy: string, protocol: string, ports: Ports, source: Source,
                       log: bool, name: string)

  datatype Section = Section(adapter: string, policy: string, rules: seq<Rule>)

  datatype Profile = Profile(name: string, isActive: bool, sections: seq<Section>)

  /** The management tuple; its protocol is always tcp. */
  datatype Session = Session(source: Option<Address>, port: int)

  const GLOBAL_ADAPTER := "global"
  const POLICY_ALLOW := "allow"
  const POLICY_DENY := "deny"
  const POLICY_DROP := "drop"
  const POLICY_NONE := "none"

  datatype MatchState = No | Maybe | Yes

  datatype Verdict = Allow | Deny | Defer

  function Normalize(text: string): string {
    Lower(Trim(text))
  }

  lemma PoliciesArePlain()
    ensures Normalize(POLICY_ALLOW) == Lower(POLICY_ALLOW) == POLICY_ALLOW
    ensures Normalize(POLICY_DENY) == Lower(POLICY_DENY) == POLICY_DENY
    ensures Normalize(POLICY_DROP) == Lower(POLICY_DROP) == POLICY_DROP
    ensures Normalize(POLICY_NONE) == Lower(POLICY_NONE) == POLICY_NONE && Normalize("") == ""
  {
    PlainStays(POLICY_ALLOW);
    PlainStays(POLICY_DENY);
    PlainStays(POLICY_DROP);
    PlainStays(POLICY_NONE);
    PlainStays("");
  }

  predicate PolicyAllows(policy: string) {
    Normalize(policy) == POLICY_ALLOW
  }

  function Combine(a: MatchState, b: MatchState, c: MatchState): MatchState {
    if a.No? || b.No? || c.No? then No
    else if a.Maybe? || b.Maybe? || c.Maybe? then Maybe
    else Yes
  }

  function ProtocolMatch(protocol: string): MatchState {
    var p := Normalize(protocol);
    if p == "" || p == "all" || p == "tcp" then Yes else No
  }

  function PortsCover(tokens: seq<PortToken>, port: int): MatchState {
    if tokens == [] then No
    else if tokens[0].Unreadable? then Maybe
    else if tokens[0].lo <= port <= tokens[0].hi then Yes
    else PortsCover(tokens[1..], port)
  }

  function PortMatch(ports: Ports, port: int): MatchState {
    match ports
    case AnyPort => Yes
    case Listed(toDestination, tokens) =>
      if !toDestination || tokens == [] then Maybe else PortsCover(tokens, port)
    case ListedAny(toDestination) => if toDestination then Yes else Maybe
    case Unresolved => Maybe
  }

  function Decided(matches: bool): MatchState {
    if matches then Yes else No
  }

  function SourceMatch(source: Source, ip: Option<Address>): MatchState {
    match source
    case AnySource => Yes
    case SingleSource(target) =>
      if ip.None? || target.None? then Maybe else Decided(To16(target.value) == To16(ip.value))
    case SubnetSource(subnet) =>
      if ip.None? || subnet.None? then Maybe else Decided(Contains(subnet.value, ip.value))
    case RangeSource(bounds) =>
      if ip.None? || bounds.None? then Maybe
      else Decided(Value(bounds.value.0) <= Value(ip.value) <= Value(bounds.value.1))
    case OtherSource => Maybe
  }

  function RuleMatch(rule: Rule, session: Session): MatchState {
    Combine(ProtocolMatch(rule.protocol), PortMatch(rule.ports, session.port), SourceMatch(rule.source, session.source))
  }

  function Action(policy: string): Verdict {
    if PolicyAllows(policy) then Allow else Deny
  }

  function Default(policy: string): Verdict {
    var p := Normalize(policy);
    if p == POLICY_ALLOW then Allow else if p == POLICY_DENY || p == POLICY_DROP then Deny else Defer
  }

  /** The evaluator: a rule that may match blocks if it denies, and is not relied on if it allows. */
  function Evaluate(rules: seq<Rule>, policy: string, session: Session): Verdict {
    if rules == [] then Default(policy)
    else
      var rule := rules[0];
      var state := RuleMatch(rule, session);
      if rule.enabled && (state.Yes? || (state.Maybe? && !PolicyAllows(rule.policy))) then Action(rule.policy)
      else Evaluate(rules[1..], policy, session)
  }

  predicate ChainAllows(primary: Option<Section>, global: Option<Section>, session: Session) {
    var first := if primary.Some? then Evaluate(primary.value.rules, primary.value.policy, session) else Defer;
    var second := if global.Some? then Evaluate(global.value.rules, global.value.policy, session) else Defer;
    first.Allow? || (first.Defer? && !second.Deny?)
  }

  /** The last section named for all interfaces. */
  function GlobalSection(sections: seq<Section>): Option<Section> {
    if sections == [] then None
    else if sections[|sections| - 1].adapter == GLOBAL_ADAPTER then Some(sections[|sections| - 1])
    else GlobalSection(sections[..|sections| - 1])
  }

  predicate Configured(section: Section) {
    section.rules != [] || (Normalize(section.policy) != POLICY_NONE && Normalize(section.policy) != "")
  }

  /** Allowed on every chain the session might come in on. */
  predicate ProfileAllows(profile: Profile, session: Session) {
    var global := GlobalSection(profile.sections);
    && (forall i :: 0 <= i < |profile.sections| ==>
          var s := profile.sections[i];
          s.adapter != GLOBAL_ADAPTER && Configured(s) ==> ChainAllows(Some(s), global, session))
    && ChainAllows(None, global, session)
  }

  // ---- what the evaluator's parts decide ----

  predicate CoversPort(token: PortToken, port: int) {
    token.Span? && token.lo <= port <= token.hi
  }

  /** A port is covered if some range holds it that no unreadable token precedes, and excluded if no token is in doubt. */
  lemma {:induction false} PortsCoverIff(tokens: seq<PortToken>, port: int)
    ensures PortsCover(tokens, port).Yes? <==>
      exists i :: 0 <= i < |tokens| && CoversPort(tokens[i], port) && forall j :: 0 <= j < i ==> tokens[j].Span?
    ensures PortsCover(tokens, port).No? <==>
      forall i :: 0 <= i < |tokens| ==> tokens[i].Span? && !CoversPort(tokens[i], port)
  {
    if tokens != [] {
      var rest := tokens[1..];
      PortsCoverIff(rest, port);
      assert forall i :: 0 < i < |tokens| ==> tokens[i] == rest[i - 1];
      assert forall i :: 0 <= i < |rest| ==> rest[i] == tokens[i + 1];
      if i :| 0 <= i < |rest| && CoversPort(rest[i], port) && forall j :: 0 <= j < i ==> rest[j].Span? {
        assert tokens[0].Span? ==> CoversPort(tokens[i + 1], port) && forall j :: 0 <= j < i + 1 ==> tokens[j].Span?;
      }
      if i :| 0 <= i < |tokens| && CoversPort(tokens[i], port) && forall j :: 0 <= j < i ==> tokens[j].Span? {
        assert i > 0 ==> CoversPort(rest[i - 1], port) && forall j :: 0 <= j < i - 1 ==> rest[j].Span?;
      }
    }
  }

  /** A rule's ports are in doubt when they are the client's, unresolved, or listed without a token. */
  lemma PortMatchIff(ports: Ports, port: int)
    ensures PortMatch(ports, port).Yes? <==>
      || ports.AnyPort?
      || ports == ListedAny(true)
      || (ports.Listed? && ports.toDestination && PortsCover(ports.tokens, port).Yes?)
    ensures PortMatch(ports, port).No? <==>
      ports.Listed? && ports.toDestination && ports.tokens != [] && PortsCover(ports.tokens, port).No?
  {
  }

  /** A rule holds for a source, or excludes it, by the number that the source address stands for. */
  lemma SourceMatchIff(source: Source, a: Address)
    ensures SourceMatch(source, Some(a)).Yes? <==>
      match source
      case AnySource => true
      case SingleSource(target) => target.Some? && Value(target.value) == Value(a)
      case SubnetSource(subnet) => subnet.Some? && Covers(subnet.value, Value(a))
      case RangeSource(bounds) => bounds.Some? && Value(bounds.value.0) <= Value(a) <= Value(bounds.value.1)
      case OtherSource => false
    ensures SourceMatch(source, Some(a)).Maybe? <==>
      match source
      case AnySource => false
      case SingleSource(target) => target.None?
      case SubnetSource(subnet) => subnet.None?
      case RangeSource(bounds) => bounds.None?
      case OtherSource => true
    ensures SourceMatch(source, None).Yes? <==> source.AnySource?
    ensures !SourceMatch(source, None).No?
  {
    match source
    case SingleSource(Some(target)) =>
      if Value(target) == Value(a) {
        ValueIsInjective(target, a);
      }
    case SubnetSource(Some(subnet)) => ContainsIsCovers(subnet, a);
    case _ =>
  }

  /** A rule matches if protocol, port and source all do, and does not if one of them does not. */
  lemma RuleMatchIff(rule: Rule, session: Session)
    ensures RuleMatch(rule, session).Yes? <==>
      && (Normalize(rule.protocol) == "" || Normalize(rule.protocol) == "all" || Normalize(rule.protocol) == "tcp")
      && PortMatch(rule.ports, session.port).Yes? && SourceMatch(rule.source, session.source).Yes?
    ensures RuleMatch(rule, session).No? <==>
      || (Normalize(rule.protocol) != "" && Normalize(rule.protocol) != "all" && Normalize(rule.protocol) != "tcp")
      || PortMatch(rule.ports, session.port).No? || SourceMatch(rule.source, session.source).No?
  {
  }

  /** The rule decides: it is in force, and matches, or denies and may match. */
  predicate Decides(rule: Rule, session: Session) {
    rule.enabled && (RuleMatch(rule, session).Yes? || (RuleMatch(rule, session).Maybe? && Normalize(rule.policy) != "allow"))
  }

  /** The first rule that decides gives its action; without one the section's own policy is left. */
  lemma {:induction false} FirstDecidingRule(rules: seq<Rule>, policy: string, session: Session, i: nat)
    requires i <= |rules| && forall j :: 0 <= j < i ==> !Decides(rules[j], session)
    ensures i < |rules| && Decides(rules[i], session) ==>
      Evaluate(rules, policy, session) == if Normalize(rules[i].policy) == "allow" then Allow else Deny
    ensures i == |rules| ==>
      && (Evaluate(rules, policy, session).Allow? <==> Normalize(policy) == "allow")
      && (Evaluate(rules, policy, session).Deny? <==> Normalize(policy) == "deny" || Normalize(policy) == "drop")
  {
    if i > 0 {
      var rest := rules[1..];
      assert forall j :: 0 <= j < |rest| ==> rest[j] == rules[j + 1];
      FirstDecidingRule(rest, policy, session, i - 1);
      assert !Decides(rules[0], session);
    } else if rules == [] {
      AllowIsNoDenial();
    }
  }

  lemma AllowIsNoDenial()
    ensures "allow" != "deny" && "allow" != "drop"
  {
    assert "allow"[0] != "deny"[0] && "allow"[0] != "drop"[0];
  }

  /** On an interface its own section decides, if it does; then the global section; and otherwise the session passes. */
  lemma ChainAllowsIff(primary: Option<Section>, global: Option<Section>, session: Session)
    ensures primary.Some? && !Evaluate(primary.value.rules, primary.value.policy, session).Defer? ==>
      (ChainAllows(primary, global, session) <==> Evaluate(primary.value.rules, primary.value.policy, session).Allow?)
    ensures primary.Some? && Evaluate(primary.value.rules, primary.value.policy, session).Defer? ==>
      (ChainAllows(primary, global, session) <==> ChainAllows(None, global, session))
    ensures ChainAllows(None, None, session)
    ensures global.Some? ==>
      (ChainAllows(None, global, session) <==> !Evaluate(global.value.rules, global.value.policy, session).Deny?)
  {
  }

  /** A section counts unless it has no rules and its policy is none or empty. */
  lemma ConfiguredIff(section: Section)
    ensures !Configured(section) <==>
      |section.rules| == 0 && (Normalize(section.policy) == "none" || Trim(section.policy) == "")
  {
    assert |Normalize(section.policy)| == |Trim(section.policy)|;
  }

  // What the firewall does once it is known which rules match the session.
  type Matching = Rule -> bool

  /** The matching agrees with every rule the evaluator can decide. */
  ghost predicate Consistent(session: Session, matches: Matching) {
    forall r: Rule :: (RuleMatch(r, session).Yes? ==> matches(r)) && (RuleMatch(r, session).No? ==> !matches(r))
  }

  ghost function FirstMatch(rules: seq<Rule>, policy: string, matches: Matching): Verdict {
    if rules == [] then Default(policy)
    else if rules[0].enabled && matches(rules[0]) then Action(rules[0].policy)
    else FirstMatch(rules[1..], policy, matches)
  }

  /** Traffic arriving on an interface: its own section if it has one, then the global one, then allow. */
  ghost predicate Passes(ingress: Option<Section>, global: Option<Section>, matches: Matching) {
    var first := if ingress.Some? then FirstMatch(ingress.value.rules, ingress.value.policy, matches) else Defer;
    var second := if global.Some? then FirstMatch(global.value.rules, global.value.policy, matches) else Defer;
    first.Allow? || (first.Defer? && !second.Deny?)
  }

  /** An interface of the NAS: one that the profile has a section for, or one that it has not. */
  ghost predicate Ingress(profile: Profile, ingress: Option<Section>) {
    ingress.Some? ==> ingress.value in profile.sections && ingress.value.adapter != GLOBAL_ADAPTER
  }

  ghost predicate PassesEverywhere(profile: Profile, matches: Matching) {
    forall ingress :: Ingress(profile, ingress) ==> Passes(ingress, GlobalSection(profile.sections), matches)
  }

  /** Undecided rules turned against the session. */
  ghost function WorstCase(session: Session): Matching {
    (r: Rule) => RuleMatch(r, session).Yes? || (RuleMatch(r, session).Maybe? && !PolicyAllows(r.policy))
  }

  lemma {:induction false} EvaluateIsWorstCase(rules: seq<Rule>, policy: string, session: Session)
    ensures Evaluate(rules, policy, session) == FirstMatch(rules, policy, WorstCase(session))
  {
    if rules != [] {
      EvaluateIsWorstCase(rules[1..], policy, session);
    }
  }

  lemma {:induction false} EvaluateIsCautious(rules: seq<Rule>, policy: string, session: Session, matches: Matching)
    requires Consistent(session, matches)
    ensures Evaluate(rules, policy, session).Allow? ==> FirstMatch(rules, policy, matches).Allow?
    ensures Evaluate(rules, policy, session).Defer? ==> !FirstMatch(rules, policy, matches).Deny?
  {
    if rules != [] {
      EvaluateIsCautious(rules[1..], policy, session, matches);
    }
  }

  lemma ChainIsCautious(primary: Option<Section>, global: Option<Section>, session: Session, matches: Matching)
    requires Consistent(session, matches) && ChainAllows(primary, global, session)
    ensures Passes(primary, global, matches)
  {
    if primary.Some? {
      EvaluateIsCautious(primary.value.rules, primary.value.policy, session, matches);
    }
    if global.Some? {
      EvaluateIsCautious(global.value.rules, global.value.policy, session, matches);
    }
  }

  /** An allowed session passes whatever the undecided rules turn out to match, on whichever interface. */
  lemma AllowedSessionPasses(profile: Profile, session: Session, matches: Matching)
    requires ProfileAllows(profile, session) && Consistent(session, matches)
    ensures PassesEverywhere(profile, matches)
  {
    var global := GlobalSection(profile.sections);
    forall ingress | Ingress(profile, ingress) ensures Passes(ingress, global, matches) {
      ChainIsCautious(None, global, session, matches);
      if ingress.Some? && Configured(ingress.value) {
        var i :| 0 <= i < |profile.sections| && profile.sections[i] == ingress.value;
        ChainIsCautious(ingress, global, session, matches);
      }
    }
  }

  lemma ChainInWorstCase(primary: Option<Section>, global: Option<Section>, session: Session)
    ensures ChainAllows(primary, global, session) <==> Passes(primary, global, WorstCase(session))
  {
    if primary.Some? {
      EvaluateIsWorstCase(primary.value.rules, primary.value.policy, session);
    }
    if global.Some? {
      EvaluateIsWorstCase(global.value.rules, global.value.policy, session);
    }
  }

  /** The evaluator refuses no more than it must: it allows exactly the sessions that pass in every case. */
  lemma AllowedIffAlwaysPasses(profile: Profile, session: Session)
    ensures ProfileAllows(profile, session) <==>
            forall matches: Matching :: Consistent(session, matches) ==> PassesEverywhere(profile, matches)
  {
    if ProfileAllows(profile, session) {
      forall matches: Matching | Consistent(session, matches) ensures PassesEverywhere(profile, matches) {
        AllowedSessionPasses(profile, session, matches);
      }
    }
    if forall matches: Matching :: Consistent(session, matches) ==> PassesEverywhere(profile, matches) {
      var worst := WorstCase(session);
      assert Consistent(session, worst);
      var global := GlobalSection(profile.sections);
      assert Ingress(profile, None);
      ChainInWorstCase(None, global, session);
      forall i | 0 <= i < |profile.sections| && profile.sections[i].adapter != GLOBAL_ADAPTER
        ensures ChainAllows(Some(profile.sections[i]), global, session)
      {
        assert Ingress(profile, Some(profile.sections[i]));
        ChainInWorstCase(Some(profile.sections[i]), global, session);
      }
    }
  }
}

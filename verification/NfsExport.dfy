/** The guarded replacement of one shared folder's NFS export rules. */
module NfsExport {
  import opened Results
  import opened Text
  import opened KeyedRows
  import opened PlanApply

  const READ_WRITE := "read_write"
  const READ_ONLY := "read_only"
  const SECURITY_SYS := "sys"

  datatype Rule = Rule(client: string, privilege: string, squash: string, security: string,
                       async: bool, allowNonprivilegedPorts: bool, allowSubfolderAccess: bool)

  datatype Request = Request(share: string, rules: seq<Rule>)

  /** The identity of a rule within a shared folder. */
  function Key(rule: Rule): string {
    Lower(Trim(rule.client))
  }

  method IndexRules(rules: seq<Rule>) returns (byClient: map<string, Rule>)
    ensures byClient == IndexOf(rules, Key)
  {
    byClient := map[];
    for i := 0 to |rules|
      invariant byClient == IndexOf(rules[..i], Key)
    {
      assert rules[..i + 1][..i] == rules[..i];
      byClient := byClient[Key(rules[i]) := rules[i]];
    }
    assert rules[..|rules|] == rules;
  }

  /** Whether two rule sets are the same rules by client; the clients are visited in any order. */
  method ExportRulesMatch(left: seq<Rule>, right: seq<Rule>) returns (same: bool)
    ensures same <==> Matches(left, right, Key)
  {
    if |left| != |right| {
      return false;
    }
    var leftByClient := IndexRules(left);
    var rightByClient := IndexRules(right);
    if |leftByClient| != |rightByClient| {
      return false;
    }
    var remaining := leftByClient.Keys;
    while remaining != {}
      invariant remaining <= leftByClient.Keys
      invariant forall c :: c in leftByClient && c !in remaining ==>
        c in rightByClient && rightByClient[c] == leftByClient[c]
      decreases |remaining|
    {
      var client :| client in remaining;
      if client !in rightByClient || rightByClient[client] != leftByClient[client] {
        return false;
      }
      remaining := remaining - {client};
    }
    SubsetOfSameSize(leftByClient.Keys, rightByClient.Keys);
    return true;
  }

  // ---- validation ----

  predicate ValidClient(client: string) {
    1 <= |client| <= 255 && forall i :: 0 <= i < |client| ==> '!' <= client[i] <= '~'
  }

  predicate ValidRule(rule: Rule) {
    && ValidClient(Trim(rule.client))
    && rule.privilege in {READ_WRITE, READ_ONLY}
    && rule.squash in {"no_mapping", "map_root_to_admin", "map_root_to_guest", "map_all_to_admin", "map_all_to_guest"}
    && rule.security in {SECURITY_SYS, "kerberos", "kerberos_integrity", "kerberos_privacy"}
  }

  ghost predicate ValidRules(rules: seq<Rule>) {
    UniqueKeys(rules, Key) && forall i :: 0 <= i < |rules| ==> ValidRule(rules[i])
  }

  /** Two rules are for the same client exactly if their clients agree up to case and spaces around them. */
  lemma SameClientIff(a: Rule, b: Rule)
    ensures Key(a) == Key(b) <==> EqualFold(Trim(a.client), Trim(b.client))
    ensures a.client == b.client ==> Key(a) == Key(b)
  {
  }

  /** What a rule has to be: a visible client name of 1 to 255 characters, and known settings. */
  lemma ValidRuleIff(rule: Rule)
    ensures ValidRule(rule) <==>
      && 0 < |Trim(rule.client)| < 256
      && (forall i :: 0 <= i < |Trim(rule.client)| ==> 33 <= Trim(rule.client)[i] as int <= 126)
      && (rule.privilege == "read_write" || rule.privilege == "read_only")
      && (|| rule.squash == "no_mapping" || rule.squash == "map_root_to_admin" || rule.squash == "map_root_to_guest"
          || rule.squash == "map_all_to_admin" || rule.squash == "map_all_to_guest")
      && (|| rule.security == "sys" || rule.security == "kerberos" || rule.security == "kerberos_integrity"
          || rule.security == "kerberos_privacy")
  {
    assert '!' as int == 33 && '~' as int == 126;
  }

  datatype RequestError = NoShare | BadRule(index: nat)

  lemma ValidRulesAppend(rules: seq<Rule>, rule: Rule)
    ensures ValidRules(rules + [rule]) <==> ValidRules(rules) && ValidRule(rule) && !HasKey(rules, Key, Key(rule))
  {
    UniqueAppend(rules, rule, Key);
    assert forall i :: 0 <= i < |rules| ==> (rules + [rule])[i] == rules[i];
    assert (rules + [rule])[|rules|] == rule;
  }

  lemma ValidPrefix(rules: seq<Rule>, n: nat)
    requires n <= |rules| && ValidRules(rules)
    ensures ValidRules(rules[..n])
  {
    forall i, j | 0 <= i < j < n ensures Key(rules[..n][i]) != Key(rules[..n][j]) {
      assert Key(rules[i]) != Key(rules[j]);
    }
  }

  /** Accepts exactly the valid requests, and otherwise names the first rule that spoils the list. */
  method ValidateRequest(request: Request) returns (error: Option<RequestError>)
    ensures error.None? <==> !Blank(request.share) && ValidRules(request.rules)
    ensures error == Some(NoShare) <==> Blank(request.share)
    ensures error.Some? && error.value.BadRule? ==>
      && error.value.index < |request.rules|
      && ValidRules(request.rules[..error.value.index])
      && !ValidRules(request.rules[..error.value.index + 1])
  {
    var rules := request.rules;
    if Blank(request.share) {
      return Some(NoShare);
    }
    var seen: set<string> := {};
    for i := 0 to |rules|
      invariant ValidRules(rules[..i])
      invariant forall k :: k in seen <==> HasKey(rules[..i], Key, k)
    {
      var rule := rules[i];
      assert rules[..i + 1] == rules[..i] + [rule];
      ValidRulesAppend(rules[..i], rule);
      if !ValidRule(rule) || Key(rule) in seen {
        if ValidRules(rules) {
          ValidPrefix(rules, i + 1);
        }
        return Some(BadRule(i));
      }
      forall k ensures HasKey(rules[..i + 1], Key, k) <==> HasKey(rules[..i], Key, k) || k == Key(rule) {
        HasKeyAppend(rules[..i], rule, Key, k);
      }
      seen := seen + {Key(rule)};
    }
    assert rules[..|rules|] == rules;
    return None;
  }

  // ---- what a plan announces ----

  datatype Warning =
    | AnyHostMayWrite(client: string)
    | AnyHostMayRead(client: string)
    | BroadenedToWrite(client: string)
    | LoweredSecurity(client: string)
    | AccessStops(client: string)

  predicate Wildcard(client: string) {
    '*' in client || '?' in client || client == "0.0.0.0/0"
  }

  function Exposure(rule: Rule, prior: Option<Rule>): seq<Warning> {
    var client := Trim(rule.client);
    (if Wildcard(client) then [if rule.privilege == READ_WRITE then AnyHostMayWrite(client) else AnyHostMayRead(client)] else []) +
    (if prior.Some? && prior.value.privilege == READ_ONLY && rule.privilege == READ_WRITE then [BroadenedToWrite(client)] else []) +
    (if prior.Some? && rule.security == SECURITY_SYS && prior.value.security != SECURITY_SYS then [LoweredSecurity(client)] else [])
  }

  /** Which rule gives which warning; `prior` is the rule that it replaces, if any. */
  lemma ExposureIff(rule: Rule, prior: Option<Rule>, w: Warning)
    ensures w in Exposure(rule, prior) <==>
      && w.client == Trim(rule.client)
      && match w
         case AnyHostMayWrite(client) => OpenToMany(client) && rule.privilege == "read_write"
         case AnyHostMayRead(client) => OpenToMany(client) && rule.privilege != "read_write"
         case BroadenedToWrite(_) =>
           prior.Some? && prior.value.privilege == "read_only" && rule.privilege == "read_write"
         case LoweredSecurity(_) => prior.Some? && prior.value.security != "sys" && rule.security == "sys"
         case AccessStops(_) => false
  {
    var client := Trim(rule.client);
    assert Wildcard(client) <==> OpenToMany(client) by {
      assert forall c :: c in client <==> exists i :: 0 <= i < |client| && client[i] == c;
    }
  }

  /** A pattern, or all addresses. */
  predicate OpenToMany(client: string) {
    client == "0.0.0.0/0" || exists i :: 0 <= i < |client| && (client[i] == '*' || client[i] == '?')
  }

  /** The rule is new, or differs from the one that it replaces. */
  predicate Changed(observed: map<string, Rule>, rule: Rule) {
    Key(rule) in observed ==> observed[Key(rule)] != rule
  }

  function Prior(observed: map<string, Rule>, rule: Rule): Option<Rule> {
    if Key(rule) in observed then Some(observed[Key(rule)]) else None
  }

  function ChangeWarnings(observed: map<string, Rule>, desired: seq<Rule>): seq<Warning> {
    if desired == [] then []
    else
      var rule := desired[|desired| - 1];
      ChangeWarnings(observed, desired[..|desired| - 1]) +
      (if Key(rule) !in observed then Exposure(rule, None)
       else if observed[Key(rule)] != rule then Exposure(rule, Some(observed[Key(rule)]))
       else [])
  }

  function RemovalWarnings(observed: seq<Rule>, desired: map<string, Rule>): seq<Warning> {
    if observed == [] then []
    else
      var rule := observed[|observed| - 1];
      RemovalWarnings(observed[..|observed| - 1], desired) +
      (if Key(rule) in desired then [] else [AccessStops(Trim(rule.client))])
  }

  /** The warnings about wanted rules are those of the changed ones. */
  lemma {:induction false} ChangeWarningsIff(observed: map<string, Rule>, desired: seq<Rule>, w: Warning)
    ensures w in ChangeWarnings(observed, desired) <==>
      exists rule :: rule in desired && Changed(observed, rule) && w in Exposure(rule, Prior(observed, rule))
  {
    if desired != [] {
      var n := |desired| - 1;
      ChangeWarningsIff(observed, desired[..n], w);
      var last := desired[n];
      assert forall rule :: rule in desired <==> rule in desired[..n] || rule == last;
      assert w in ChangeWarnings(observed, desired) <==>
             w in ChangeWarnings(observed, desired[..n]) || (Changed(observed, last) && w in Exposure(last, Prior(observed, last)));
    }
  }

  /** The warnings about rules that go are one for every dropped rule. */
  lemma {:induction false} RemovalWarningsIff(observed: seq<Rule>, desired: map<string, Rule>, w: Warning)
    ensures w in RemovalWarnings(observed, desired) <==>
      exists rule :: rule in observed && Key(rule) !in desired && w == AccessStops(Trim(rule.client))
  {
    if observed != [] {
      var n := |observed| - 1;
      RemovalWarningsIff(observed[..n], desired, w);
      assert forall rule :: rule in observed <==> rule in observed[..n] || rule == observed[n];
    }
  }

  function Warnings(observed: seq<Rule>, desired: seq<Rule>): seq<Warning> {
    ChangeWarnings(IndexOf(observed, Key), desired) + RemovalWarnings(observed, IndexOf(desired, Key))
  }

  /** The announced entries are the diff, and the plan is destructive exactly when it drops a client. */
  method NfsExportPlanEffects(observed: seq<Rule>, desired: seq<Rule>)
    returns (destructive: bool, warnings: seq<Warning>, entries: seq<Entry<Rule>>)
    ensures destructive <==> DropsSome(observed, IndexOf(desired, Key), Key)
    ensures entries == Diff(observed, desired, Key)
    ensures warnings == Warnings(observed, desired)
  {
    var observedByClient := IndexRules(observed);
    var desiredByClient := IndexRules(desired);
    warnings, entries := AnnounceChanges(observedByClient, desired);
    var stops, removals;
    destructive, stops, removals := AnnounceRemovals(observed, desiredByClient);
    warnings, entries := warnings + stops, entries + removals;
  }

  /** The loop over the desired rules. */
  method AnnounceChanges(observedByClient: map<string, Rule>, desired: seq<Rule>)
    returns (warnings: seq<Warning>, entries: seq<Entry<Rule>>)
    ensures entries == Changes(observedByClient, desired, Key)
    ensures warnings == ChangeWarnings(observedByClient, desired)
  {
    warnings, entries := [], [];
    for i := 0 to |desired|
      invariant entries == Changes(observedByClient, desired[..i], Key)
      invariant warnings == ChangeWarnings(observedByClient, desired[..i])
    {
      assert desired[..i + 1][..i] == desired[..i];
      var rule := desired[i];
      if Key(rule) !in observedByClient {
        entries := entries + [Add(rule)];
        warnings := warnings + Exposure(rule, None);
      } else if observedByClient[Key(rule)] != rule {
        entries := entries + [Modify(rule)];
        warnings := warnings + Exposure(rule, Some(observedByClient[Key(rule)]));
      }
    }
    assert desired[..|desired|] == desired;
  }

  /** The loop over the observed rules. */
  method AnnounceRemovals(observed: seq<Rule>, desiredByClient: map<string, Rule>)
    returns (destructive: bool, warnings: seq<Warning>, entries: seq<Entry<Rule>>)
    ensures destructive <==> DropsSome(observed, desiredByClient, Key)
    ensures entries == Removals(observed, desiredByClient, Key)
    ensures warnings == RemovalWarnings(observed, desiredByClient)
  {
    destructive, warnings, entries := false, [], [];
    for i := 0 to |observed|
      invariant destructive <==> DropsSome(observed[..i], desiredByClient, Key)
      invariant entries == Removals(observed[..i], desiredByClient, Key)
      invariant warnings == RemovalWarnings(observed[..i], desiredByClient)
    {
      assert observed[..i + 1][..i] == observed[..i];
      assert observed[..i + 1] == observed[..i] + [observed[i]];
      DropsSomeAppend(observed[..i], observed[i], desiredByClient, Key);
      if Key(observed[i]) !in desiredByClient {
        entries := entries + [Remove(observed[i])];
        destructive := true;
        warnings := warnings + [AccessStops(Trim(observed[i].client))];
      }
    }
    assert observed[..|observed|] == observed;
  }

  /** A repeated client makes a plan that announces nothing and yet is not a match. */
  lemma RepeatedClientMakesAnEmptyPlan(rule: Rule)
    ensures !Matches([rule, rule], [rule], Key) && Diff([rule, rule], [rule], Key) == []
  {
    EmptyDiffIff([rule, rule], [rule], Key);
    assert [rule, rule][..1] == [rule] && [rule][..0] == [];
    assert IndexOf([rule], Key) == map[Key(rule) := rule];
    assert IndexOf([rule, rule], Key) == map[Key(rule) := rule];
  }

  // ---- the guarded write ----

  datatype NasState = NasState(readable: bool, settable: bool, rules: seq<Rule>)

  datatype Body = Body(observed: seq<Rule>, destructive: bool, risk: string, warnings: seq<Warning>,
                       entries: seq<Entry<Rule>>)

  ghost function Build(nas: NasState, request: Request): Option<Body> {
    if !nas.readable || !nas.settable || Matches(nas.rules, request.rules, Key) then None
    else
      var destructive := DropsSome(nas.rules, IndexOf(request.rules, Key), Key);
      var warnings := Warnings(nas.rules, request.rules);
      Some(Body(nas.rules, destructive, if destructive || warnings != [] then "high" else "medium", warnings,
                Diff(nas.rules, request.rules, Key)))
  }

  ghost function Flow(hash: Contents<Request, Body> -> string): Workflow<NasState, Request, Body> {
    Workflow(
      (request: Request) => !Blank(request.share) && ValidRules(request.rules),
      (nas: NasState, request: Request) => Build(nas, request),
      (first: NasState, second: NasState) => second,
      (nas: NasState, request: Request, body: Body) => Matches(nas.rules, request.rules, Key),
      1,
      hash)
  }

  /** In every run, an apply reports success only after reading back a permutation of the requested rules. */
  lemma AppliedExportIsExact(
    hash: Contents<Request, Body> -> string, start: NasState, revision: nat,
    steps: seq<Step<NasState, Request, Body>>, id: nat)
    requires InjectiveHash(Flow(hash))
    requires var w := Run(Flow(hash), World([start], revision, map[]), steps);
             id in w.sessions && w.sessions[id].Applied?
    ensures var w := Run(Flow(hash), World([start], revision, map[]), steps);
            var Applied(e, r) := w.sessions[id];
            && e.k < r < |w.trace|
            && multiset(w.trace[r].rules) == multiset(e.plan.Request().rules)
  {
    var f := Flow(hash);
    var w := Run(f, World([start], revision, map[]), steps);
    EveryRunIsSound(f, start, revision, steps);
    var Applied(e, r) := w.sessions[id];
    assert Justified(f, w.trace, w.sessions[id]);
    MatchIsPermutation(w.trace[r].rules, e.plan.Request().rules, Key);
  }

  /** The write meets a state that the plan describes exactly when the NAS is as it was at the re-read. */
  lemma WriteMeetsPlannedRulesIff(
    hash: Contents<Request, Body> -> string, w: World<NasState, Request, Body>, id: nat)
    requires Sound(Flow(hash), w) && id in w.sessions && w.sessions[id].Wrote()
    ensures w.sessions[id].Written? ==> w.sessions[id].tries == 0
    ensures var e := w.sessions[id].evidence;
            && e.j < e.k < |w.trace|
            && (Build(w.trace[e.k], e.plan.Request()) == Some(e.plan.Body()) <==> w.trace[e.k] == w.trace[e.j])
  {
    WriteMeetsPlannedState(Flow(hash), w, id);
    var e := w.sessions[id].evidence;
    assert Build(w.trace[e.j], e.plan.Request()) == Some(e.plan.Body());
  }

  /** A valid request is planned exactly if the rules can be set and are no permutation of the requested ones. */
  lemma PlannedIff(nas: NasState, request: Request)
    requires ValidRules(request.rules)
    ensures Build(nas, request).Some? <==> nas.readable && nas.settable && multiset(nas.rules) != multiset(request.rules)
    ensures Build(nas, request).Some? ==>
      var body := Build(nas, request).value;
      && body.observed == nas.rules
      && (body.risk == "high" <==> body.destructive || body.warnings != [])
      && (body.risk == "high" || body.risk == "medium")
  {
    MatchIsPermutation(nas.rules, request.rules, Key);
    assert "high" != "medium" by { assert "high"[0] != "medium"[0]; }
  }

  /** A plan warns of what each new or changed rule exposes, and of each client that loses its access. */
  lemma PlannedWarningsIff(nas: NasState, request: Request, w: Warning)
    requires Build(nas, request).Some?
    ensures w in Build(nas, request).value.warnings <==>
      || (exists rule :: rule in request.rules && Changed(IndexOf(nas.rules, Key), rule)
                         && w in Exposure(rule, Prior(IndexOf(nas.rules, Key), rule)))
      || (exists rule :: rule in nas.rules && Key(rule) !in IndexOf(request.rules, Key) && w == AccessStops(Trim(rule.client)))
  {
    ChangeWarningsIff(IndexOf(nas.rules, Key), request.rules, w);
    RemovalWarningsIff(nas.rules, IndexOf(request.rules, Key), w);
  }

  lemma AppliedExportIsNotReplanned(hash: Contents<Request, Body> -> string)
    ensures VerifiedIsNoOp(Flow(hash))
  {
    var f := Flow(hash);
    forall planned, after, request, body | Plans(f, planned, request, body) && f.verified(after, request, body)
      ensures Refuses(f, after, request)
    {
      assert Build(after, request).None?;
    }
  }

  /**
    What a plan announces, carried out on the observed rules, gives the requested rules client by
    client; it removes a rule exactly when it is marked destructive, and it announces nothing only if
    the observed list repeats a client.
   */
  lemma PlannedEntriesAreTheChange(nas: NasState, request: Request)
    requires ValidRules(request.rules) && Build(nas, request).Some?
    ensures var body := Build(nas, request).value;
            && CarryOut(IndexOf(nas.rules, Key), body.entries, Key) == IndexOf(request.rules, Key)
            && (body.destructive <==> Removes(body.entries))
            && (body.entries == [] ==> !UniqueKeys(nas.rules, Key))
  {
    DiffTurnsObservedIntoDesired(nas.rules, request.rules, Key);
    DiffRemovesIff(nas.rules, request.rules, Key);
    EmptyDiffIff(nas.rules, request.rules, Key);
  }
}

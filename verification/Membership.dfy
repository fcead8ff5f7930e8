/** Setting the groups of one local user: validation, comparison, and the delta that a plan announces. */
module Membership {
  import opened Results
  import opened Text
  import opened KeyedRows
  import opened Sorting
  import opened PlanApply

  const USERS := "users"
  const ADMINISTRATORS := "administrators"

  function Fold(group: string): string {
    Lower(group)
  }

  ghost function Keys(groups: seq<string>): set<string> {
    set i | 0 <= i < |groups| :: Fold(groups[i])
  }

  lemma KeysAreIndexed(groups: seq<string>)
    ensures IndexOf(groups, Fold).Keys == Keys(groups)
  {
    forall k ensures k in IndexOf(groups, Fold) <==> k in Keys(groups) {
      IndexKeys(groups, Fold, k);
    }
  }

  // ---- validation ----

  predicate IsNameStart(c: char) {
    'A' <= c <= 'Z' || 'a' <= c <= 'z' || '0' <= c <= '9'
  }

  predicate ManagedName(name: string) {
    var n := Trim(name);
    && 1 <= |n| <= 64
    && IsNameStart(n[0])
    && forall i :: 1 <= i < |n| ==> IsNameStart(n[i]) || n[i] in {'_', '.', '-'}
  }

  predicate ProtectedUser(name: string) {
    EqualFold(name, "admin") || EqualFold(name, "guest") || EqualFold(name, "root")
  }

  /** The three built-in users are reserved, however their names are written. */
  lemma ReservedIff(name: string)
    ensures ProtectedUser(name) <==> Lower(name) == "admin" || Lower(name) == "guest" || Lower(name) == "root"
  {
    PlainStays("admin");
    PlainStays("guest");
    PlainStays("root");
  }

  /** A name is 1 to 64 letters, digits, dots, dashes and underscores, and starts with a letter or digit. */
  lemma ManagedNameIff(name: string)
    ensures ManagedName(name) <==>
      && 0 < |Trim(name)| < 65
      && (forall i :: 0 <= i < |Trim(name)| ==> NameChar(Trim(name)[i] as int))
      && Trim(name)[0] as int !in {45, 46, 95}
  {
  }

  predicate NameChar(code: int) {
    48 <= code <= 57 || 65 <= code <= 90 || 97 <= code <= 122 || code in {45, 46, 95}
  }

  datatype Change = Change(user: string, groups: seq<string>)

  ghost predicate Valid(change: Change) {
    && ManagedName(change.user) && !ProtectedUser(change.user)
    && (forall i :: 0 <= i < |change.groups| ==> ManagedName(change.groups[i]))
    && UniqueKeys(change.groups, Fold)
    && USERS in Keys(change.groups)
  }

  datatype ChangeError = BadUser | ReservedUser | NoGroups | BadGroup(index: nat) | RepeatedGroup(index: nat) | UsersMissing

  lemma KeysAppend(groups: seq<string>, group: string)
    ensures Keys(groups + [group]) == Keys(groups) + {Fold(group)}
  {
    var more := groups + [group];
    assert more[|groups|] == group;
    forall k | k in Keys(groups) ensures k in Keys(more) {
      var i :| 0 <= i < |groups| && Fold(groups[i]) == k;
      assert Fold(more[i]) == k;
    }
  }

  lemma UsersIsLower()
    ensures Lower(USERS) == USERS
  {
    PlainStays(USERS);
  }

  method ValidateMembership(change: Change) returns (error: Option<ChangeError>)
    ensures error.None? <==> Valid(change)
    ensures error == Some(BadUser) <==> !ManagedName(change.user)
    ensures error == Some(ReservedUser) <==> ManagedName(change.user) && ProtectedUser(change.user)
    ensures error == Some(NoGroups) <==> ManagedName(change.user) && !ProtectedUser(change.user) && change.groups == []
    ensures error.Some? && error.value.BadGroup? ==>
      error.value.index < |change.groups| && !ManagedName(change.groups[error.value.index])
    ensures error == Some(UsersMissing) ==> USERS !in Keys(change.groups)
    ensures error.Some? && error.value.RepeatedGroup? ==>
      error.value.index < |change.groups|
      && Fold(change.groups[error.value.index]) in Keys(change.groups[..error.value.index])
  {
    var groups := change.groups;
    if !ManagedName(change.user) {
      return Some(BadUser);
    }
    if ProtectedUser(change.user) {
      return Some(ReservedUser);
    }
    if |groups| == 0 {
      return Some(NoGroups);
    }
    UsersIsLower();
    var seen: set<string> := {};
    var includesUsers := false;
    for i := 0 to |groups|
      invariant seen == Keys(groups[..i])
      invariant forall k :: 0 <= k < i ==> ManagedName(groups[k])
      invariant UniqueKeys(groups[..i], Fold)
      invariant includesUsers <==> USERS in seen
    {
      var group := groups[i];
      assert groups[..i + 1] == groups[..i] + [group];
      KeysAppend(groups[..i], group);
      UniqueAppend(groups[..i], group, Fold);
      if !ManagedName(group) {
        return Some(BadGroup(i));
      }
      if Fold(group) in seen {
        var k :| 0 <= k < i && Fold(groups[..i][k]) == Fold(group);
        assert Fold(groups[k]) == Fold(groups[i]);
        return Some(RepeatedGroup(i));
      }
      seen := seen + {Fold(group)};
      if EqualFold(group, USERS) {
        includesUsers := true;
      }
    }
    assert groups[..|groups|] == groups;
    if !includesUsers {
      return Some(UsersMissing);
    }
    return None;
  }

  // ---- comparison ----

  /** As long as each other, and every group on the right also on the left. */
  ghost predicate SameLengthAndIncluded(left: seq<string>, right: seq<string>) {
    |left| == |right| && Keys(right) <= Keys(left)
  }

  method SameStringSet(left: seq<string>, right: seq<string>) returns (same: bool)
    ensures same <==> SameLengthAndIncluded(left, right)
  {
    if |left| != |right| {
      return false;
    }
    var leftSet: set<string> := {};
    for i := 0 to |left|
      invariant leftSet == Keys(left[..i])
    {
      assert left[..i + 1] == left[..i] + [left[i]];
      KeysAppend(left[..i], left[i]);
      leftSet := leftSet + {Lower(left[i])};
    }
    assert left[..|left|] == left;
    for i := 0 to |right|
      invariant forall k :: 0 <= k < i ==> Fold(right[k]) in leftSet
    {
      if Lower(right[i]) !in leftSet {
        return false;
      }
    }
    return true;
  }

  lemma KeysSize(groups: seq<string>)
    ensures |Keys(groups)| <= |groups|
    ensures |Keys(groups)| == |groups| <==> UniqueKeys(groups, Fold)
  {
    KeysAreIndexed(groups);
    IndexSize(groups, Fold);
  }

  /**
    Against a validated request, the one-way test is equality of the folded sets, by pigeonhole; it
    also finds that the other side repeats no group.
   */
  lemma InclusionIsEquality(observed: seq<string>, requested: seq<string>)
    requires UniqueKeys(requested, Fold)
    ensures SameLengthAndIncluded(observed, requested) <==>
            Keys(observed) == Keys(requested) && UniqueKeys(observed, Fold)
  {
    KeysSize(observed);
    KeysSize(requested);
    if SameLengthAndIncluded(observed, requested) {
      SubsetIsSmaller(Keys(requested), Keys(observed));
      SubsetOfSameSize(Keys(requested), Keys(observed));
    }
  }

  /** Without validation the test would accept a different set. */
  lemma InclusionNeedsDistinctRequest()
    ensures SameLengthAndIncluded(["users", "http"], ["users", "users"])
    ensures Keys(["users", "http"]) != Keys(["users", "users"])
  {
    var left, right := ["users", "http"], ["users", "users"];
    assert Fold(left[0]) == Fold(right[0]) == Fold(right[1]);
    assert Fold(left[1])[0] == 'h' && Fold(left[0])[0] == 'u';
    assert Fold(left[1]) in Keys(left);
  }

  // ---- the delta ----

  /** The requested spellings of groups the user is not in. */
  ghost predicate Adds(current: seq<string>, desired: seq<string>, group: string) {
    exists k :: k in IndexOf(desired, Fold) && k !in IndexOf(current, Fold) && IndexOf(desired, Fold)[k] == group
  }

  /** The current spellings of groups that are not wanted, except the mandatory one. */
  ghost predicate Drops(current: seq<string>, desired: seq<string>, group: string) {
    exists k :: k in IndexOf(current, Fold) && k !in IndexOf(desired, Fold) && IndexOf(current, Fold)[k] == group
                && !EqualFold(group, USERS)
  }

  lemma LessIsTotalOrder()
    ensures StrictWeakOrder(Less, (x: string) => true)
    ensures forall x, y :: Less(x, y) || x == y || Less(y, x)
  {
    forall a, b, c: string
      ensures !Less(a, a)
      ensures Less(a, b) && Less(b, c) ==> Less(a, c)
      ensures Less(a, c) ==> Less(a, b) || Less(b, c)
      ensures Less(a, b) || a == b || Less(b, a)
    {
      LessIsIrreflexive(a);
      LessIsTotal(a, b);
      LessIsTotal(b, c);
      if Less(a, b) && Less(b, c) {
        LessIsTransitive(a, b, c);
      }
      if Less(b, a) && Less(a, c) {
        LessIsTransitive(b, a, c);
      }
    }
  }

  method IndexGroups(groups: seq<string>) returns (index: map<string, string>)
    ensures index == IndexOf(groups, Fold)
  {
    index := map[];
    for i := 0 to |groups|
      invariant index == IndexOf(groups[..i], Fold)
    {
      assert groups[..i + 1][..i] == groups[..i];
      index := index[Lower(groups[i]) := groups[i]];
    }
    assert groups[..|groups|] == groups;
  }

  ghost predicate KeyedByFold(index: map<string, string>) {
    forall k :: k in index ==> Fold(index[k]) == k
  }

  lemma IndexIsKeyed(groups: seq<string>)
    ensures KeyedByFold(IndexOf(groups, Fold))
  {
    forall k | k in IndexOf(groups, Fold) ensures Fold(IndexOf(groups, Fold)[k]) == k {
      IndexKeys(groups, Fold, k);
    }
  }

  /** Collects, in any order, the values under keys that `other` has not got, without the mandatory group if asked. */
  method CollectMissing(index: map<string, string>, other: map<string, string>, spareUsers: bool)
    returns (missing: seq<string>)
    requires KeyedByFold(index)
    ensures Distinct(missing)
    ensures forall v :: v in missing <==>
      exists k :: k in index && k !in other && index[k] == v && (spareUsers ==> !EqualFold(v, USERS))
  {
    missing := [];
    var remaining := index.Keys;
    while remaining != {}
      invariant remaining <= index.Keys
      invariant Distinct(missing)
      invariant forall v :: v in missing ==>
        && Fold(v) in index && Fold(v) !in remaining && index[Fold(v)] == v
        && Fold(v) !in other && (spareUsers ==> !EqualFold(v, USERS))
      invariant forall k :: k in index && k !in remaining && k !in other && (spareUsers ==> !EqualFold(index[k], USERS)) ==>
        index[k] in missing
      decreases |remaining|
    {
      var key :| key in remaining;
      if key !in other && !(spareUsers && EqualFold(index[key], USERS)) {
        assert index[key] !in missing;
        missing := missing + [index[key]];
      }
      remaining := remaining - {key};
    }
  }

  /** The groups to add and to remove, each sorted. */
  method MembershipDelta(current: seq<string>, desired: seq<string>) returns (add: seq<string>, remove: seq<string>)
    ensures StrictlySorted(Less, add) && StrictlySorted(Less, remove)
    ensures forall v :: v in add <==> Adds(current, desired, v)
    ensures forall v :: v in remove <==> Drops(current, desired, v)
  {
    var currentSet := IndexGroups(current);
    var desiredSet := IndexGroups(desired);
    IndexIsKeyed(current);
    IndexIsKeyed(desired);
    add := CollectMissing(desiredSet, currentSet, false);
    remove := CollectMissing(currentSet, desiredSet, true);
    LessIsTotalOrder();
    SortIsCanonical(Less, add);
    SortIsCanonical(Less, remove);
    add := Sort(Less, add);
    remove := Sort(Less, remove);
  }

  lemma StrictIsDistinct(s: seq<string>)
    requires StrictlySorted(Less, s)
    ensures Distinct(s)
  {
    forall i, j | 0 <= i < j < |s| ensures s[i] != s[j] {
      LessIsIrreflexive(s[i]);
      assert Less(s[i], s[j]);
    }
  }

  /** The delta does not depend on the order the sets were visited in: its contract has one solution. */
  lemma DeltaIsDeterministic(a: seq<string>, b: seq<string>)
    requires StrictlySorted(Less, a) && StrictlySorted(Less, b)
    requires forall v :: v in a <==> v in b
    ensures a == b
  {
    LessIsTotalOrder();
    StrictIsDistinct(a);
    StrictIsDistinct(b);
    DistinctSize(a);
    DistinctSize(b);
    assert (set v | v in a) == (set v | v in b);
    StrictSortingIsUnique(Less, a, b);
  }

  /**
    Removing and adding the delta turns the current groups into the desired ones exactly when the
    mandatory group is not to be lost, which is what validation makes sure of.
   */
  lemma DeltaReachesDesiredIff(current: seq<string>, desired: seq<string>, add: seq<string>, remove: seq<string>)
    requires forall v :: v in add <==> Adds(current, desired, v)
    requires forall v :: v in remove <==> Drops(current, desired, v)
    ensures (Keys(current) - Keys(remove)) + Keys(add) == Keys(desired) <==>
            (USERS in Keys(current) ==> USERS in Keys(desired))
  {
    KeysAreIndexed(current);
    KeysAreIndexed(desired);
    IndexIsKeyed(current);
    IndexIsKeyed(desired);
    UsersIsLower();
    forall k ensures k in Keys(add) <==> k in Keys(desired) && k !in Keys(current) {
      AddedKey(current, desired, add, k);
    }
    forall k ensures k in Keys(remove) <==> k in Keys(current) && k !in Keys(desired) && k != USERS {
      RemovedKey(current, desired, remove, k);
    }
  }

  lemma AddedKey(current: seq<string>, desired: seq<string>, add: seq<string>, k: string)
    requires forall v :: v in add <==> Adds(current, desired, v)
    ensures k in Keys(add) <==> k in Keys(desired) && k !in Keys(current)
  {
    KeysAreIndexed(current);
    KeysAreIndexed(desired);
    IndexIsKeyed(desired);
    if k in Keys(add) {
      var i :| 0 <= i < |add| && Fold(add[i]) == k;
      assert Adds(current, desired, add[i]);
    }
    if k in Keys(desired) && k !in Keys(current) {
      var v := IndexOf(desired, Fold)[k];
      assert Adds(current, desired, v);
      var i :| 0 <= i < |add| && add[i] == v;
    }
  }

  lemma RemovedKey(current: seq<string>, desired: seq<string>, remove: seq<string>, k: string)
    requires forall v :: v in remove <==> Drops(current, desired, v)
    ensures k in Keys(remove) <==> k in Keys(current) && k !in Keys(desired) && k != USERS
  {
    KeysAreIndexed(current);
    KeysAreIndexed(desired);
    IndexIsKeyed(current);
    UsersIsLower();
    if k in Keys(remove) {
      var i :| 0 <= i < |remove| && Fold(remove[i]) == k;
      assert Drops(current, desired, remove[i]);
    }
    if k in Keys(current) && k !in Keys(desired) && k != USERS {
      var v := IndexOf(current, Fold)[k];
      assert Drops(current, desired, v);
      var i :| 0 <= i < |remove| && remove[i] == v;
    }
  }

  method ContainsFold(values: seq<string>, desired: string) returns (found: bool)
    ensures found <==> Fold(desired) in Keys(values)
  {
    for i := 0 to |values|
      invariant forall k :: 0 <= k < i ==> Fold(values[k]) != Fold(desired)
    {
      if EqualFold(values[i], desired) {
        return true;
      }
    }
    return false;
  }

  /** Destructive exactly when a group is lost or administrator rights are set. */
  method ChangeIsDestructive(current: seq<string>, change: Change) returns (destructive: bool)
    requires Valid(change)
    ensures destructive <==> Destructive(current, change)
  {
    var add, remove := MembershipDelta(current, change.groups);
    var admin := ContainsFold(change.groups, ADMINISTRATORS);
    forall k ensures k in Keys(remove) <==> k in Keys(current) && k !in Keys(change.groups) && k != USERS {
      RemovedKey(current, change.groups, remove, k);
    }
    if |remove| > 0 {
      assert Fold(remove[0]) in Keys(remove);
    }
    return |remove| > 0 || admin;
  }

  // ---- the guarded change ----

  datatype NasState = NasState(userId: Option<string>, groups: seq<string>, membership: Option<seq<string>>)

  /** What the plan binds to: the user's id and the whole observed membership. */
  datatype Precondition = Precondition(userId: string, membership: seq<string>)

  datatype Body = Body(precondition: Precondition, destructive: bool)

  ghost predicate Destructive(current: seq<string>, change: Change) {
    !(Keys(current) <= Keys(change.groups)) || Fold(ADMINISTRATORS) in Keys(change.groups)
  }

  /** The user and all requested groups have to exist; there is no test for having nothing to do. */
  ghost function Build(nas: NasState, change: Change): Option<Body> {
    if nas.userId.None? || nas.membership.None? || !(Keys(change.groups) <= Keys(nas.groups)) then None
    else Some(Body(Precondition(nas.userId.value, nas.membership.value), Destructive(nas.membership.value, change)))
  }

  ghost predicate Verified(nas: NasState, change: Change) {
    nas.membership.Some? && SameLengthAndIncluded(nas.membership.value, change.groups)
  }

  ghost function Flow(hash: Contents<Change, Body> -> string): Workflow<NasState, Change, Body> {
    Workflow(
      (change: Change) => Valid(change),
      (nas: NasState, change: Change) => Build(nas, change),
      (first: NasState, second: NasState) => second,
      (nas: NasState, change: Change, body: Body) => Verified(nas, change),
      1,
      hash)
  }

  /** The plan asks for the groups that the user has anyway. */
  ghost predicate IsNoOp(change: Change, body: Body) {
    Keys(body.precondition.membership) == Keys(change.groups) && UniqueKeys(body.precondition.membership, Fold)
  }

  /** In every run, what is written is a named, unreserved user's set of distinct, named groups with the mandatory one. */
  lemma WrittenMembershipIsValid(
    hash: Contents<Change, Body> -> string, start: NasState, revision: nat,
    steps: seq<Step<NasState, Change, Body>>, id: nat)
    requires var w := Run(Flow(hash), World([start], revision, map[]), steps);
             id in w.sessions && w.sessions[id].Wrote()
    ensures var w := Run(Flow(hash), World([start], revision, map[]), steps);
            var change := w.sessions[id].evidence.plan.Request();
            && ManagedName(change.user) && !ProtectedUser(change.user)
            && (forall g :: g in change.groups ==> ManagedName(g))
            && (forall i, j :: 0 <= i < j < |change.groups| ==> !EqualFold(change.groups[i], change.groups[j]))
            && exists g :: g in change.groups && EqualFold(g, "users")
  {
    var w := Run(Flow(hash), World([start], revision, map[]), steps);
    var k := EveryPlanWasApproved(Flow(hash), start, revision, steps, id);
    var change := w.sessions[id].evidence.plan.Request();
    assert Valid(change);
    UsersIsLower();
    var u :| 0 <= u < |change.groups| && Fold(change.groups[u]) == USERS;
    assert change.groups[u] in change.groups && EqualFold(change.groups[u], "users");
    forall i, j | 0 <= i < j < |change.groups| ensures !EqualFold(change.groups[i], change.groups[j]) {
      assert Fold(change.groups[i]) != Fold(change.groups[j]);
    }
  }

  /** A plan is made exactly if user, membership and all requested groups are there. */
  lemma PlannedIff(nas: NasState, change: Change)
    ensures Build(nas, change).Some? <==>
      && nas.userId.Some? && nas.membership.Some?
      && forall g :: g in change.groups ==> exists known :: known in nas.groups && EqualFold(known, g)
    ensures Build(nas, change).Some? ==>
      && Build(nas, change).value.precondition == Precondition(nas.userId.value, nas.membership.value)
      && (Build(nas, change).value.destructive <==>
            || (exists g :: g in nas.membership.value && forall wanted :: wanted in change.groups ==> !EqualFold(wanted, g))
            || (exists g :: g in change.groups && EqualFold(g, "administrators")))
  {
    KeysAreMembers(change.groups, nas.groups);
    if nas.membership.Some? {
      KeysAreMembers(nas.membership.value, change.groups);
    }
    KeyIsMember(change.groups, "administrators");
  }

  lemma KeyIsMember(groups: seq<string>, name: string)
    ensures Fold(name) in Keys(groups) <==> exists g :: g in groups && EqualFold(g, name)
  {
    if Fold(name) in Keys(groups) {
      var i :| 0 <= i < |groups| && Fold(groups[i]) == Fold(name);
      assert groups[i] in groups && EqualFold(groups[i], name);
    }
    if g :| g in groups && EqualFold(g, name) {
      var i :| 0 <= i < |groups| && groups[i] == g;
      assert Fold(groups[i]) == Fold(name);
    }
  }

  lemma KeysAreMembers(a: seq<string>, b: seq<string>)
    ensures Keys(a) <= Keys(b) <==> forall g :: g in a ==> exists h :: h in b && EqualFold(h, g)
  {
    if Keys(a) <= Keys(b) {
      forall g | g in a ensures exists h :: h in b && EqualFold(h, g) {
        var i :| 0 <= i < |a| && a[i] == g;
        assert Fold(a[i]) in Keys(b);
        var j :| 0 <= j < |b| && Fold(b[j]) == Fold(g);
        assert b[j] in b && EqualFold(b[j], g);
      }
    }
    if forall g :: g in a ==> exists h :: h in b && EqualFold(h, g) {
      forall k | k in Keys(a) ensures k in Keys(b) {
        var i :| 0 <= i < |a| && Fold(a[i]) == k;
        assert a[i] in a;
        var h :| h in b && EqualFold(h, a[i]);
        var j :| 0 <= j < |b| && b[j] == h;
        assert Fold(b[j]) == k;
      }
    }
  }

  /** Some state passes verification and gives the same plan once more, exactly when the plan has nothing to do. */
  lemma ReplayableIffNoOp(planned: NasState, change: Change)
    requires Valid(change) && Build(planned, change).Some?
    ensures (exists after :: Verified(after, change) && Build(after, change) == Build(planned, change)) <==>
            IsNoOp(change, Build(planned, change).value)
  {
    InclusionIsEquality(planned.membership.value, change.groups);
    if IsNoOp(change, Build(planned, change).value) {
      assert Verified(planned, change) && Build(planned, change) == Build(planned, change);
    }
  }

  /** The write meets a state that the plan describes exactly when user, membership and the wanted groups are still there. */
  lemma WriteMeetsPlannedMembershipIff(
    hash: Contents<Change, Body> -> string, w: World<NasState, Change, Body>, id: nat)
    requires Sound(Flow(hash), w) && id in w.sessions && w.sessions[id].Wrote()
    ensures w.sessions[id].Written? ==> w.sessions[id].tries == 0
    ensures var e := w.sessions[id].evidence;
            && e.j < e.k < |w.trace|
            && var met := w.trace[e.k];
               Build(met, e.plan.Request()) == Some(e.plan.Body()) <==>
               && met.userId == w.trace[e.j].userId && met.membership == w.trace[e.j].membership
               && Keys(e.plan.Request().groups) <= Keys(met.groups)
  {
    WriteMeetsPlannedState(Flow(hash), w, id);
    var e := w.sessions[id].evidence;
    assert Build(w.trace[e.j], e.plan.Request()) == Some(e.plan.Body());
  }

  /** In every run, success means that exactly the requested groups were read back, once each. */
  lemma AppliedMembershipIsExact(
    hash: Contents<Change, Body> -> string, start: NasState, revision: nat,
    steps: seq<Step<NasState, Change, Body>>, id: nat)
    requires InjectiveHash(Flow(hash))
    requires var w := Run(Flow(hash), World([start], revision, map[]), steps);
             id in w.sessions && w.sessions[id].Applied?
    ensures var w := Run(Flow(hash), World([start], revision, map[]), steps);
            var Applied(e, r) := w.sessions[id];
            && e.k < r < |w.trace| && w.trace[r].membership.Some?
            && Keys(w.trace[r].membership.value) == Keys(e.plan.Request().groups)
            && UniqueKeys(w.trace[r].membership.value, Fold)
  {
    var f := Flow(hash);
    var w := Run(f, World([start], revision, map[]), steps);
    EveryRunIsSound(f, start, revision, steps);
    var Applied(e, r) := w.sessions[id];
    assert Justified(f, w.trace, w.sessions[id]);
    InclusionIsEquality(w.trace[r].membership.value, e.plan.Request().groups);
  }

  /**
    In every run: when a plan that has something to do was applied, the same plan is written again only
    after the NAS has changed.
   */
  lemma AppliedPlanNeedsAChange(
    hash: Contents<Change, Body> -> string, start: NasState, revision: nat,
    steps: seq<Step<NasState, Change, Body>>, done: nat, again: nat)
    requires InjectiveHash(Flow(hash))
    requires var w := Run(Flow(hash), World([start], revision, map[]), steps);
             && done in w.sessions && w.sessions[done].Applied?
             && again in w.sessions && w.sessions[again].Wrote()
             && w.sessions[again].evidence.plan == w.sessions[done].evidence.plan
             && !IsNoOp(w.sessions[done].evidence.plan.Request(), w.sessions[done].evidence.plan.Body())
             && w.sessions[done].r <= w.sessions[again].evidence.j
    ensures var w := Run(Flow(hash), World([start], revision, map[]), steps);
            exists t :: w.sessions[done].r <= t <= w.sessions[again].evidence.j < |w.trace|
                        && w.trace[t] != w.trace[w.sessions[done].r]
  {
    var f := Flow(hash);
    var w := Run(f, World([start], revision, map[]), steps);
    EveryRunIsSound(f, start, revision, steps);
    var Applied(e, r) := w.sessions[done];
    var e' := w.sessions[again].evidence;
    assert Justified(f, w.trace, w.sessions[done]) && WroteAfterReread(f, w.trace, e');
    var change := e.plan.Request();
    assert Build(w.trace[e'.j], change) == Some(e.plan.Body()) == Build(w.trace[e.j], change);
    if w.trace[e'.j] == w.trace[r] {
      assert Verified(w.trace[r], change) && Build(w.trace[r], change) == Build(w.trace[e.j], change);
      ReplayableIffNoOp(w.trace[e.j], change);
    }
  }

  /** A plan that has nothing to do goes through again and again: here twice, while the NAS stays as it is. */
  lemma NoOpPlanIsAppliedTwice(hash: Contents<Change, Body> -> string, start: NasState, plan: Plan<Change, Body>)
    returns (steps: seq<Step<NasState, Change, Body>>)
    requires Good(Flow(hash), World([start], plan.contents.revision, map[]), plan)
    requires IsNoOp(plan.Request(), plan.Body())
    ensures var w := Run(Flow(hash), World([start], plan.contents.revision, map[]), steps);
            && Still(w, start)
            && 0 in w.sessions && w.sessions[0].Applied? && w.sessions[0].evidence.plan == plan
            && 1 in w.sessions && w.sessions[1].Applied? && w.sessions[1].evidence.plan == plan
            && w.sessions[0].r <= w.sessions[1].evidence.i
  {
    InclusionIsEquality(start.membership.value, plan.Request().groups);
    steps := QuietApplyRepeats(Flow(hash), start, plan);
  }

  /** Such a plan: a user who is in group users, asked to be in it. */
  lemma NoOpPlanExists(hash: Contents<Change, Body> -> string) returns (start: NasState, plan: Plan<Change, Body>)
    requires forall c :: !Blank(hash(c))
    ensures Good(Flow(hash), World([start], plan.contents.revision, map[]), plan)
    ensures IsNoOp(plan.Request(), plan.Body())
  {
    var groups := [USERS];
    start := NasState(Some("1026"), groups, Some(groups));
    var change := Change("a", groups);
    UsersIsLower();
    assert Fold(groups[0]) == USERS;
    assert Trim("a") == "a" && Trim(USERS) == USERS;
    assert |Lower("a")| == 1 && |Lower("admin")| == |Lower("guest")| == 5 && |Lower("root")| == 4;
    var contents := Contents(change, Build(start, change).value, 0);
    plan := Plan(contents, hash(contents));
  }
}

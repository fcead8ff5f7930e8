/** Lists of rows compared and diffed through a key, as the planners do with rule sets. */
module KeyedRows {

  /** The rows by key; of several rows with one key the last one counts. */
  function IndexOf<K, V>(rows: seq<V>, key: V -> K): map<K, V> {
    if rows == [] then map[]
    else
      var last := rows[|rows| - 1];
      IndexOf(rows[..|rows| - 1], key)[key(last) := last]
  }

  ghost predicate UniqueKeys<K, V>(rows: seq<V>, key: V -> K) {
    forall i, j :: 0 <= i < j < |rows| ==> key(rows[i]) != key(rows[j])
  }

  ghost predicate HasKey<K, V>(rows: seq<V>, key: V -> K, k: K) {
    exists i :: 0 <= i < |rows| && key(rows[i]) == k
  }

  predicate Matches<K(==), V(==)>(left: seq<V>, right: seq<V>, key: V -> K) {
    |left| == |right| && IndexOf(left, key) == IndexOf(right, key)
  }

  lemma HasKeyAppend<K(!new), V(!new)>(rows: seq<V>, row: V, key: V -> K, k: K)
    ensures HasKey(rows + [row], key, k) <==> HasKey(rows, key, k) || key(row) == k
  {
    var more := rows + [row];
    assert more[|rows|] == row;
    if HasKey(rows, key, k) {
      var i :| 0 <= i < |rows| && key(rows[i]) == k;
      assert key(more[i]) == k;
    }
  }

  lemma {:induction false} IndexKeys<K(!new), V(!new)>(rows: seq<V>, key: V -> K, k: K)
    ensures k in IndexOf(rows, key) <==> HasKey(rows, key, k)
    ensures k in IndexOf(rows, key) ==> IndexOf(rows, key)[k] in rows && key(IndexOf(rows, key)[k]) == k
  {
    if rows != [] {
      var n := |rows| - 1;
      IndexKeys(rows[..n], key, k);
      HasKeyAppend(rows[..n], rows[n], key, k);
      assert rows == rows[..n] + [rows[n]];
    }
  }

  lemma UniqueAppend<K(!new), V(!new)>(rows: seq<V>, row: V, key: V -> K)
    ensures UniqueKeys(rows + [row], key) <==> UniqueKeys(rows, key) && !HasKey(rows, key, key(row))
  {
    var more := rows + [row];
    assert forall i :: 0 <= i < |rows| ==> more[i] == rows[i];
    assert more[|rows|] == row;
  }

  /** The pigeonhole: an index is as large as its list exactly when no key is listed twice. */
  lemma {:induction false} IndexSize<K(!new), V(!new)>(rows: seq<V>, key: V -> K)
    ensures |IndexOf(rows, key)| <= |rows|
    ensures |IndexOf(rows, key)| == |rows| <==> UniqueKeys(rows, key)
  {
    if rows != [] {
      var n := |rows| - 1;
      IndexSize(rows[..n], key);
      IndexKeys(rows[..n], key, key(rows[n]));
      UniqueAppend(rows[..n], rows[n], key);
      assert rows == rows[..n] + [rows[n]];
      assert IndexOf(rows, key).Keys == IndexOf(rows[..n], key).Keys + {key(rows[n])};
    }
  }

  lemma {:induction false} UniqueIndexFindsAll<K(!new), V(!new)>(rows: seq<V>, key: V -> K, row: V)
    requires UniqueKeys(rows, key) && row in rows
    ensures key(row) in IndexOf(rows, key) && IndexOf(rows, key)[key(row)] == row
  {
    var n := |rows| - 1;
    if row != rows[n] {
      UniqueIndexFindsAll(rows[..n], key, row);
      var i :| 0 <= i < n && rows[i] == row;
    }
  }

  lemma {:induction false} UniqueMultiplicity<K(!new), V(!new)>(rows: seq<V>, key: V -> K, row: V)
    requires UniqueKeys(rows, key)
    ensures multiset(rows)[row] == if row in rows then 1 else 0
  {
    if rows != [] {
      var n := |rows| - 1;
      UniqueMultiplicity(rows[..n], key, row);
      assert rows == rows[..n] + [rows[n]];
      if row in rows[..n] {
        var i :| 0 <= i < n && rows[..n][i] == row;
        assert key(rows[i]) != key(rows[n]);
      }
    }
  }

  lemma MatchHasSameRows<K(!new), V(!new)>(left: seq<V>, right: seq<V>, key: V -> K, row: V)
    requires UniqueKeys(left, key) && UniqueKeys(right, key)
    requires IndexOf(left, key) == IndexOf(right, key)
    ensures row in left <==> row in right
  {
    if row in left {
      UniqueIndexFindsAll(left, key, row);
      IndexKeys(right, key, key(row));
    }
    if row in right {
      UniqueIndexFindsAll(right, key, row);
      IndexKeys(left, key, key(row));
    }
  }

  /**
    Against rows with unique keys, comparing length and index finds exactly the permutations, even
    when the other rows repeat a key.
   */
  lemma MatchIsPermutation<K(!new), V(!new)>(left: seq<V>, right: seq<V>, key: V -> K)
    requires UniqueKeys(right, key)
    ensures Matches(left, right, key) <==> multiset(left) == multiset(right)
  {
    if Matches(left, right, key) {
      IndexSize(left, key);
      IndexSize(right, key);
      forall row ensures multiset(left)[row] == multiset(right)[row] {
        UniqueMultiplicity(left, key, row);
        UniqueMultiplicity(right, key, row);
        MatchHasSameRows(left, right, key, row);
      }
    }
    if multiset(left) == multiset(right) {
      assert |multiset(left)| == |left| && |multiset(right)| == |right|;
      forall k ensures k in IndexOf(left, key) <==> k in IndexOf(right, key) {
        PermutationAgrees(left, right, key, k);
      }
      forall k | k in IndexOf(left, key) ensures IndexOf(left, key)[k] == IndexOf(right, key)[k] {
        PermutationAgrees(left, right, key, k);
      }
    }
  }

  lemma PermutationAgrees<K(!new), V(!new)>(left: seq<V>, right: seq<V>, key: V -> K, k: K)
    requires UniqueKeys(right, key) && multiset(left) == multiset(right)
    ensures k in IndexOf(left, key) <==> k in IndexOf(right, key)
    ensures k in IndexOf(left, key) ==> IndexOf(left, key)[k] == IndexOf(right, key)[k]
  {
    IndexKeys(left, key, k);
    IndexKeys(right, key, k);
    if k in IndexOf(left, key) {
      var row := IndexOf(left, key)[k];
      assert row in multiset(left) && row in right;
      UniqueIndexFindsAll(right, key, row);
    }
    if k in IndexOf(right, key) {
      var row := IndexOf(right, key)[k];
      assert row in multiset(right) && row in left;
      var i :| 0 <= i < |left| && left[i] == row;
      assert HasKey(left, key, k);
    }
  }

  // ---- diffs ----

  datatype Entry<V> = Add(row: V) | Modify(row: V) | Remove(row: V)

  function ChangeOf<K, V(==)>(observed: map<K, V>, row: V, key: V -> K): seq<Entry<V>> {
    if key(row) !in observed then [Add(row)]
    else if observed[key(row)] != row then [Modify(row)]
    else []
  }

  function Changes<K, V(==)>(observed: map<K, V>, desired: seq<V>, key: V -> K): seq<Entry<V>> {
    if desired == [] then []
    else Changes(observed, desired[..|desired| - 1], key) + ChangeOf(observed, desired[|desired| - 1], key)
  }

  function RemovalOf<K, V>(desired: map<K, V>, row: V, key: V -> K): seq<Entry<V>> {
    if key(row) in desired then [] else [Remove(row)]
  }

  function Removals<K, V>(observed: seq<V>, desired: map<K, V>, key: V -> K): seq<Entry<V>> {
    if observed == [] then []
    else Removals(observed[..|observed| - 1], desired, key) + RemovalOf(desired, observed[|observed| - 1], key)
  }

  /** What has to be done to get from the observed rows to the desired ones. */
  function Diff<K(==), V(==)>(observed: seq<V>, desired: seq<V>, key: V -> K): seq<Entry<V>> {
    Changes(IndexOf(observed, key), desired, key) + Removals(observed, IndexOf(desired, key), key)
  }

  function Carry<K, V>(index: map<K, V>, entry: Entry<V>, key: V -> K): map<K, V> {
    match entry
    case Add(row) => index[key(row) := row]
    case Modify(row) => index[key(row) := row]
    case Remove(row) => index - {key(row)}
  }

  function CarryOut<K, V>(index: map<K, V>, entries: seq<Entry<V>>, key: V -> K): map<K, V> {
    if entries == [] then index
    else Carry(CarryOut(index, entries[..|entries| - 1], key), entries[|entries| - 1], key)
  }

  lemma CarryOutOne<K(!new), V(!new)>(index: map<K, V>, entry: Entry<V>, key: V -> K)
    ensures CarryOut(index, [entry], key) == Carry(index, entry, key)
  {
    assert [entry][..0] == [];
  }

  lemma {:induction false} CarryOutConcat<K(!new), V(!new)>(index: map<K, V>, a: seq<Entry<V>>, b: seq<Entry<V>>, key: V -> K)
    ensures CarryOut(index, a + b, key) == CarryOut(CarryOut(index, a, key), b, key)
  {
    if b == [] {
      assert a + b == a;
    } else {
      var n := |b| - 1;
      assert (a + b)[..|a| + n] == a + b[..n];
      CarryOutConcat(index, a, b[..n], key);
    }
  }

  lemma ChangeBringsRow<K(!new), V(!new)>(there: map<K, V>, observed: map<K, V>, row: V, key: V -> K)
    requires key(row) in observed ==> key(row) in there && there[key(row)] == observed[key(row)]
    ensures CarryOut(there, ChangeOf(observed, row, key), key) == there[key(row) := row]
  {
    var change := ChangeOf(observed, row, key);
    if change == [] {
      assert there[key(row) := row] == there;
    } else {
      CarryOutOne(there, change[0], key);
    }
  }

  lemma {:induction false} ChangesBringDesired<K(!new), V(!new)>(observed: map<K, V>, desired: seq<V>, key: V -> K)
    requires UniqueKeys(desired, key)
    ensures CarryOut(observed, Changes(observed, desired, key), key) == observed + IndexOf(desired, key)
  {
    if desired != [] {
      var n := |desired| - 1;
      var front, row := desired[..n], desired[n];
      assert desired == front + [row];
      UniqueAppend(front, row, key);
      ChangesBringDesired(observed, front, key);
      IndexKeys(front, key, key(row));
      var there := observed + IndexOf(front, key);
      ChangeBringsRow(there, observed, row, key);
      CarryOutConcat(observed, Changes(observed, front, key), ChangeOf(observed, row, key), key);
      UpdateLast(observed, IndexOf(front, key), key(row), row);
    }
  }

  lemma UpdateLast<K(!new), V(!new)>(a: map<K, V>, b: map<K, V>, k: K, v: V)
    ensures (a + b)[k := v] == a + b[k := v]
  {
  }

  /** The keys that only the observed rows have. */
  ghost predicate Dropped<K, V>(observed: seq<V>, desired: map<K, V>, key: V -> K, k: K) {
    HasKey(observed, key, k) && k !in desired
  }

  lemma {:induction false} RemovalsDropTheRest<K(!new), V(!new)>(
    index: map<K, V>, observed: seq<V>, desired: map<K, V>, key: V -> K, k: K)
    ensures var after := CarryOut(index, Removals(observed, desired, key), key);
            && (k in after <==> k in index && !Dropped(observed, desired, key, k))
            && (k in after ==> after[k] == index[k])
  {
    if observed != [] {
      var n := |observed| - 1;
      var front, row := observed[..n], observed[n];
      assert observed == front + [row];
      RemovalsDropTheRest(index, front, desired, key, k);
      HasKeyAppend(front, row, key, k);
      CarryOutConcat(index, Removals(front, desired, key), RemovalOf(desired, row, key), key);
      if key(row) !in desired {
        CarryOutOne(CarryOut(index, Removals(front, desired, key), key), Remove(row), key);
      }
    }
  }

  /** Carrying out the diff turns the observed rows into the desired ones, exactly. */
  lemma DiffTurnsObservedIntoDesired<K(!new), V(!new)>(observed: seq<V>, desired: seq<V>, key: V -> K)
    requires UniqueKeys(desired, key)
    ensures CarryOut(IndexOf(observed, key), Diff(observed, desired, key), key) == IndexOf(desired, key)
  {
    var o, d := IndexOf(observed, key), IndexOf(desired, key);
    CarryOutConcat(o, Changes(o, desired, key), Removals(observed, d, key), key);
    ChangesBringDesired(o, desired, key);
    var after := CarryOut(o + d, Removals(observed, d, key), key);
    forall k ensures (k in after <==> k in d) && (k in after ==> after[k] == d[k]) {
      RemovalsDropTheRest(o + d, observed, d, key, k);
      IndexKeys(observed, key, k);
    }
  }

  ghost predicate Removes<V>(entries: seq<Entry<V>>) {
    exists i :: 0 <= i < |entries| && entries[i].Remove?
  }

  lemma RemovesConcat<V(!new)>(a: seq<Entry<V>>, b: seq<Entry<V>>)
    ensures Removes(a + b) <==> Removes(a) || Removes(b)
  {
    assert forall i :: 0 <= i < |a| ==> (a + b)[i] == a[i];
    assert forall i :: 0 <= i < |b| ==> (a + b)[|a| + i] == b[i];
  }

  lemma {:induction false} ChangesRemoveNothing<K(!new), V(!new)>(observed: map<K, V>, desired: seq<V>, key: V -> K)
    ensures !Removes(Changes(observed, desired, key))
  {
    if desired != [] {
      ChangesRemoveNothing(observed, desired[..|desired| - 1], key);
    }
  }

  ghost predicate DropsSome<K(!new), V>(observed: seq<V>, desired: map<K, V>, key: V -> K) {
    exists k :: Dropped(observed, desired, key, k)
  }

  lemma DropsSomeAppend<K(!new), V(!new)>(observed: seq<V>, row: V, desired: map<K, V>, key: V -> K)
    ensures DropsSome(observed + [row], desired, key) <==> DropsSome(observed, desired, key) || key(row) !in desired
  {
    if DropsSome(observed + [row], desired, key) {
      var k :| Dropped(observed + [row], desired, key, k);
      HasKeyAppend(observed, row, key, k);
      assert k == key(row) || Dropped(observed, desired, key, k);
    }
    if DropsSome(observed, desired, key) {
      var k :| Dropped(observed, desired, key, k);
      HasKeyAppend(observed, row, key, k);
      assert Dropped(observed + [row], desired, key, k);
    }
    if key(row) !in desired {
      HasKeyAppend(observed, row, key, key(row));
      assert Dropped(observed + [row], desired, key, key(row));
    }
  }

  lemma {:induction false} RemovalsRemove<K(!new), V(!new)>(observed: seq<V>, desired: map<K, V>, key: V -> K)
    ensures Removes(Removals(observed, desired, key)) <==> DropsSome(observed, desired, key)
    ensures Removals(observed, desired, key) == [] <==> !Removes(Removals(observed, desired, key))
  {
    if observed != [] {
      var n := |observed| - 1;
      var front, row := observed[..n], observed[n];
      assert observed == front + [row];
      RemovalsRemove(front, desired, key);
      DropsSomeAppend(front, row, desired, key);
      RemovesConcat(Removals(front, desired, key), RemovalOf(desired, row, key));
      if key(row) !in desired {
        assert RemovalOf(desired, row, key)[0].Remove?;
        assert Removes(RemovalOf(desired, row, key));
      }
    }
  }

  /** A diff removes something exactly when some observed key is not wanted any more. */
  lemma DiffRemovesIff<K(!new), V(!new)>(observed: seq<V>, desired: seq<V>, key: V -> K)
    ensures Removes(Diff(observed, desired, key)) <==>
            DropsSome(observed, IndexOf(desired, key), key)
  {
    var o, d := IndexOf(observed, key), IndexOf(desired, key);
    RemovesConcat(Changes(o, desired, key), Removals(observed, d, key));
    ChangesRemoveNothing(o, desired, key);
    RemovalsRemove(observed, d, key);
  }

  lemma {:induction false} NoChanges<K(!new), V(!new)>(observed: map<K, V>, desired: seq<V>, key: V -> K)
    requires forall row :: row in desired ==> key(row) in observed && observed[key(row)] == row
    ensures Changes(observed, desired, key) == []
  {
    if desired != [] {
      NoChanges(observed, desired[..|desired| - 1], key);
    }
  }

  /**
    A diff is empty exactly when the rows agree key by key. That is the same as a match only if the
    observed rows repeat no key.
   */
  lemma EmptyDiffIff<K(!new), V(!new)>(observed: seq<V>, desired: seq<V>, key: V -> K)
    requires UniqueKeys(desired, key)
    ensures Diff(observed, desired, key) == [] <==> IndexOf(observed, key) == IndexOf(desired, key)
    ensures Matches(observed, desired, key) <==> Diff(observed, desired, key) == [] && UniqueKeys(observed, key)
  {
    var o, d := IndexOf(observed, key), IndexOf(desired, key);
    DiffTurnsObservedIntoDesired(observed, desired, key);
    if o == d {
      forall row | row in desired ensures key(row) in o && o[key(row)] == row {
        UniqueIndexFindsAll(desired, key, row);
      }
      NoChanges(o, desired, key);
      forall k ensures !Dropped(observed, d, key, k) {
        IndexKeys(observed, key, k);
      }
      RemovalsRemove(observed, d, key);
    }
    IndexSize(observed, key);
    IndexSize(desired, key);
  }

  lemma SubsetOfSameSize<T>(a: set<T>, b: set<T>)
    requires a <= b && |a| == |b|
    ensures a == b
  {
    if x :| x in b && x !in a {
      SubsetIsSmaller(a, b - {x});
    }
  }

  lemma {:induction false} SubsetIsSmaller<T>(a: set<T>, b: set<T>)
    requires a <= b
    ensures |a| <= |b|
  {
    if x :| x in a {
      SubsetIsSmaller(a - {x}, b - {x});
    }
  }
}

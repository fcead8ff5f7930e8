/** The saved set of discovered devices, merged across sweeps. */
module DiscoveryStore {
  import opened Results
  import opened Text
  import opened KeyedRows
  import opened Sorting

  datatype Device = Device(hostname: string, serial: string, macAddress: string, ipAddress: string,
                           ipv4Addresses: seq<string>)

  datatype SavedDevice = SavedDevice(device: Device, firstSeen: int, lastSeen: int)

  datatype SavedSet = SavedSet(updatedAt: int, devices: seq<SavedDevice>)

  // The zero time of an empty set.
  const ZERO_TIME := 0

  // net.ParseIP, as the number that the sixteen-byte address spells.
  type ParseIP = string -> Option<nat>

  /** The stable identity of a device: serial, then MAC, then address, then hostname. */
  function DeviceKey(device: Device): string {
    if device.serial != "" then "serial:" + Lower(device.serial)
    else if device.macAddress != "" then "mac:" + Lower(device.macAddress)
    else if device.ipv4Addresses != [] then "ip:" + device.ipv4Addresses[0]
    else if device.ipAddress != "" then "ip:" + device.ipAddress
    else "host:" + Lower(device.hostname)
  }

  /** The address a device goes by when it has neither serial nor MAC. */
  function FirstAddress(device: Device): Option<string> {
    if device.ipv4Addresses != [] then Some(device.ipv4Addresses[0])
    else if device.ipAddress != "" then Some(device.ipAddress)
    else None
  }

  /** What makes two sightings one device: the best identification that both have, and neither has a better one. */
  ghost predicate SameDevice(a: Device, b: Device) {
    || (a.serial != "" && b.serial != "" && EqualFold(a.serial, b.serial))
    || (a.serial == b.serial == "" && a.macAddress != "" && b.macAddress != "" && EqualFold(a.macAddress, b.macAddress))
    || (&& a.serial == b.serial == a.macAddress == b.macAddress == ""
        && FirstAddress(a).Some? && FirstAddress(a) == FirstAddress(b))
    || (&& a.serial == b.serial == a.macAddress == b.macAddress == ""
        && FirstAddress(a).None? && FirstAddress(b).None? && EqualFold(a.hostname, b.hostname))
  }

  lemma PrefixCancels(prefix: string, x: string, y: string)
    ensures prefix + x == prefix + y <==> x == y
  {
    assert (prefix + x)[|prefix|..] == x && (prefix + y)[|prefix|..] == y;
  }

  lemma PrefixesDiffer(x: string, y: string)
    ensures "serial:" + x != "mac:" + y && "serial:" + x != "ip:" + y && "serial:" + x != "host:" + y
    ensures "mac:" + x != "ip:" + y && "mac:" + x != "host:" + y && "ip:" + x != "host:" + y
  {
    assert ("serial:" + x)[0] == 's' && ("mac:" + x)[0] == 'm' && ("ip:" + x)[0] == 'i';
    assert ("mac:" + y)[0] == 'm' && ("ip:" + y)[0] == 'i' && ("host:" + y)[0] == 'h';
  }

  /** The text of a key after its prefix. */
  function Identification(device: Device): string {
    if device.serial != "" then Lower(device.serial)
    else if device.macAddress != "" then Lower(device.macAddress)
    else if FirstAddress(device).Some? then FirstAddress(device).value
    else Lower(device.hostname)
  }

  /** Keys agree exactly for sightings of one device. */
  lemma SameKeyIff(a: Device, b: Device)
    ensures DeviceKey(a) == DeviceKey(b) <==> SameDevice(a, b)
  {
    var x, y := Identification(a), Identification(b);
    PrefixCancels("serial:", x, y);
    PrefixCancels("mac:", x, y);
    PrefixCancels("ip:", x, y);
    PrefixCancels("host:", x, y);
    PrefixesDiffer(x, y);
    PrefixesDiffer(y, x);
  }

  function RecordKey(record: SavedDevice): string {
    DeviceKey(record.device)
  }

  // ---- the order of the records ----

  datatype Compared = Undecided | Decided(less: bool)

  function IpLess(parse: ParseIP, a: string, b: string): Compared {
    var x, y := parse(a), parse(b);
    if x.None? || y.None? then
      if a == b then Undecided else Decided(Less(a, b))
    else if x.value == y.value then Undecided
    else Decided(x.value < y.value)
  }

  function RecordLess(parse: ParseIP): (SavedDevice, SavedDevice) -> bool {
    (a: SavedDevice, b: SavedDevice) =>
      match IpLess(parse, a.device.ipAddress, b.device.ipAddress)
      case Decided(less) => less
      case Undecided => Less(a.device.hostname, b.device.hostname)
  }

  /** An unreadable address that lies, as text, between two readable ones whose numbers do not follow their texts. */
  ghost predicate Tangle(parse: ParseIP, x: string, y: string, u: string) {
    && parse(x).Some? && parse(y).Some? && parse(u).None?
    && parse(x).value <= parse(y).value
    && Less(y, u) && Less(u, x)
  }

  ghost predicate Comparable(parse: ParseIP, among: string -> bool) {
    forall x, y, u :: among(x) && among(y) && among(u) ==> !Tangle(parse, x, y, u)
  }

  ghost function HasAddress(among: string -> bool): SavedDevice -> bool {
    (r: SavedDevice) => among(r.device.ipAddress)
  }

  /** The address alone puts one record before the other. */
  predicate Before(parse: ParseIP, a: string, b: string) {
    if parse(a).Some? && parse(b).Some? then parse(a).value < parse(b).value else Less(a, b)
  }

  predicate SamePlace(parse: ParseIP, a: string, b: string) {
    if parse(a).Some? && parse(b).Some? then parse(a).value == parse(b).value else a == b
  }

  lemma AddressThenHostname(parse: ParseIP, a: SavedDevice, b: SavedDevice)
    ensures var x, y := a.device.ipAddress, b.device.ipAddress;
            RecordLess(parse)(a, b) <==>
            Before(parse, x, y) || (SamePlace(parse, x, y) && Less(a.device.hostname, b.device.hostname))
  {
    LessIsIrreflexive(a.device.ipAddress);
  }

  lemma ThreeTexts(x: string, y: string, z: string)
    ensures !Less(x, x)
    ensures Less(x, y) || x == y || Less(y, x)
    ensures Less(x, y) ==> !Less(y, x)
    ensures Less(x, y) && Less(y, z) ==> Less(x, z)
    ensures Less(x, z) ==> Less(x, y) || Less(y, z)
  {
    LessIsIrreflexive(x);
    LessIsTotal(x, y);
    LessIsTotal(y, z);
    if Less(x, y) && Less(y, x) {
      LessIsTransitive(x, y, x);
    }
    if Less(x, y) && Less(y, z) {
      LessIsTransitive(x, y, z);
    }
    if Less(y, x) && Less(x, z) {
      LessIsTransitive(y, x, z);
    }
  }

  /** Without a tangle the addresses are in line: places are shared or in order, and order carries over. */
  lemma ThreeAddresses(parse: ParseIP, among: string -> bool, x: string, y: string, z: string)
    requires Comparable(parse, among) && among(x) && among(y) && among(z)
    ensures !Before(parse, x, x) && SamePlace(parse, x, x)
    ensures Before(parse, x, y) || SamePlace(parse, x, y) || Before(parse, y, x)
    ensures Before(parse, x, y) ==> !SamePlace(parse, x, y) && !Before(parse, y, x)
    ensures Before(parse, x, y) && Before(parse, y, z) ==> Before(parse, x, z)
    ensures SamePlace(parse, x, y) && SamePlace(parse, y, z) ==> SamePlace(parse, x, z)
    ensures SamePlace(parse, x, y) && Before(parse, y, z) ==> Before(parse, x, z)
    ensures Before(parse, x, y) && SamePlace(parse, y, z) ==> Before(parse, x, z)
  {
    ThreeTexts(x, y, z);
    ThreeTexts(x, z, y);
    ThreeTexts(y, x, z);
    assert !Tangle(parse, x, y, z) && !Tangle(parse, y, x, z) && !Tangle(parse, x, z, y);
    assert !Tangle(parse, z, x, y) && !Tangle(parse, y, z, x) && !Tangle(parse, z, y, x);
  }

  lemma ThreeRecords(parse: ParseIP, among: string -> bool, a: SavedDevice, b: SavedDevice, c: SavedDevice)
    requires Comparable(parse, among) && HasAddress(among)(a) && HasAddress(among)(b) && HasAddress(among)(c)
    ensures !RecordLess(parse)(a, a)
    ensures RecordLess(parse)(a, b) && RecordLess(parse)(b, c) ==> RecordLess(parse)(a, c)
    ensures RecordLess(parse)(a, c) ==> RecordLess(parse)(a, b) || RecordLess(parse)(b, c)
  {
    var x, y, z := a.device.ipAddress, b.device.ipAddress, c.device.ipAddress;
    AddressThenHostname(parse, a, a);
    AddressThenHostname(parse, a, b);
    AddressThenHostname(parse, b, c);
    AddressThenHostname(parse, a, c);
    ThreeAddresses(parse, among, x, y, z);
    ThreeAddresses(parse, among, x, z, y);
    ThreeAddresses(parse, among, y, x, z);
    ThreeTexts(a.device.hostname, b.device.hostname, c.device.hostname);
  }

  function Named(ip: string, hostname: string): SavedDevice {
    SavedDevice(Device(hostname, "", "", ip, []), 0, 0)
  }

  /** A tangle makes the comparator run in a circle, given hostnames that decide between equal addresses. */
  lemma TangleIsACircle(parse: ParseIP, x: string, y: string, u: string)
    requires Tangle(parse, x, y, u)
    ensures var less := RecordLess(parse);
            less(Named(x, ""), Named(y, "a")) && less(Named(y, "a"), Named(u, "")) && less(Named(u, ""), Named(x, ""))
  {
    LessIsIrreflexive(u);
  }

  /** The comparator is a strict weak order exactly when the addresses that may occur have no tangle. */
  lemma RecordsAreOrderedIff(parse: ParseIP, among: string -> bool)
    ensures StrictWeakOrder(RecordLess(parse), HasAddress(among)) <==> Comparable(parse, among)
  {
    var less := RecordLess(parse);
    var admitted := HasAddress(among);
    if Comparable(parse, among) {
      forall a, b, c | admitted(a) && admitted(b) && admitted(c)
        ensures !less(a, a)
        ensures less(a, b) && less(b, c) ==> less(a, c)
        ensures less(a, c) ==> less(a, b) || less(b, c)
      {
        ThreeRecords(parse, among, a, b, c);
      }
    } else {
      var x, y, u :| among(x) && among(y) && among(u) && Tangle(parse, x, y, u);
      TangleIsACircle(parse, x, y, u);
      CircleIsNoOrder(less, admitted, Named(x, ""), Named(y, "a"), Named(u, ""));
    }
  }

  /** Where there is a tangle, three records have no sorted arrangement at all. */
  lemma TangledRecordsCannotBeSorted(parse: ParseIP, x: string, y: string, u: string, file: seq<SavedDevice>)
    requires Tangle(parse, x, y, u)
    requires multiset(file) == multiset{Named(x, ""), Named(y, "a"), Named(u, "")}
    ensures !Sorted(RecordLess(parse), file)
  {
    var less := RecordLess(parse);
    var a, b, c := Named(x, ""), Named(y, "a"), Named(u, "");
    TangleIsACircle(parse, x, y, u);
    assert a in multiset(file) && b in multiset(file) && c in multiset(file);
    var i :| 0 <= i < |file| && file[i] == a;
    var j :| 0 <= j < |file| && file[j] == b;
    var k :| 0 <= k < |file| && file[k] == c;
  }

  /** So a sort serves every file exactly when the addresses that may occur have no tangle. */
  lemma EveryFileSortsIff(parse: ParseIP, among: string -> bool)
    ensures (forall file: seq<SavedDevice> :: AllAmong(file, HasAddress(among)) ==> Sorted(RecordLess(parse), Sort(RecordLess(parse), file)))
            <==> Comparable(parse, among)
  {
    var less := RecordLess(parse);
    if Comparable(parse, among) {
      RecordsAreOrderedIff(parse, among);
      forall file: seq<SavedDevice> | AllAmong(file, HasAddress(among)) ensures Sorted(less, Sort(less, file)) {
        SortSorts(less, HasAddress(among), file);
      }
    } else {
      var x, y, u :| among(x) && among(y) && among(u) && Tangle(parse, x, y, u);
      var file := [Named(x, ""), Named(y, "a"), Named(u, "")];
      assert AllAmong(file, HasAddress(among));
      SortIsPermutation(less, file);
      TangledRecordsCannotBeSorted(parse, x, y, u, Sort(less, file));
    }
  }

  /** Addresses as a sweep reports them, readable or missing, have no tangle. */
  lemma ReadableAddressesCompare(parse: ParseIP, among: string -> bool)
    requires forall ip :: among(ip) ==> ip == "" || parse(ip).Some?
    ensures Comparable(parse, among)
  {
  }

  /** A file edited by hand can hold one: for instance with an address cut short. */
  lemma UnreadableAddressBreaksTheOrder(parse: ParseIP, among: string -> bool)
    requires among("9.0.0.1") && parse("9.0.0.1") == Some(0xffff_0900_0001)
    requires among("10.0.0.1") && parse("10.0.0.1") == Some(0xffff_0a00_0001)
    requires among("1x") && parse("1x").None?
    ensures !Comparable(parse, among)
  {
    assert "10.0.0.1"[1..][0] == '0' && "1x"[1..][0] == 'x';
    assert Less("10.0.0.1", "1x") && Less("1x", "9.0.0.1");
    assert Tangle(parse, "9.0.0.1", "10.0.0.1", "1x");
  }

  // ---- merging ----

  /** The last position of a key, or -1. */
  function LastIndex(records: seq<SavedDevice>, key: string): (i: int)
    ensures -1 <= i < |records|
    ensures i >= 0 ==> RecordKey(records[i]) == key
    ensures forall j :: i < j < |records| ==> RecordKey(records[j]) != key
  {
    if records == [] then -1
    else if RecordKey(records[|records| - 1]) == key then |records| - 1
    else LastIndex(records[..|records| - 1], key)
  }

  function Upsert(records: seq<SavedDevice>, device: Device, now: int): seq<SavedDevice> {
    var i := LastIndex(records, DeviceKey(device));
    if i >= 0 then records[i := SavedDevice(device, records[i].firstSeen, now)]
    else records + [SavedDevice(device, now, now)]
  }

  function UpsertAll(records: seq<SavedDevice>, devices: seq<Device>, now: int): seq<SavedDevice> {
    if devices == [] then records
    else Upsert(UpsertAll(records, devices[..|devices| - 1], now), devices[|devices| - 1], now)
  }

  function MergedSet(parse: ParseIP, before: SavedSet, devices: seq<Device>, now: int): SavedSet {
    if devices == [] then before
    else SavedSet(now, Sort(RecordLess(parse), UpsertAll(before.devices, devices, now)))
  }

  ghost predicate IsIndex(index: map<string, int>, records: seq<SavedDevice>) {
    && (forall k :: k in index <==> LastIndex(records, k) >= 0)
    && (forall k :: k in index ==> index[k] == LastIndex(records, k))
  }

  lemma {:induction false} LastIndexAfterUpdate(records: seq<SavedDevice>, i: nat, record: SavedDevice, key: string)
    requires i < |records| && RecordKey(record) == RecordKey(records[i])
    ensures LastIndex(records[i := record], key) == LastIndex(records, key)
  {
    var n := |records| - 1;
    if i < n {
      assert records[i := record][..n] == records[..n][i := record];
      LastIndexAfterUpdate(records[..n], i, record, key);
    } else {
      assert records[i := record][..n] == records[..n];
    }
  }

  lemma LastIndexAfterAppend(records: seq<SavedDevice>, record: SavedDevice, key: string)
    ensures LastIndex(records + [record], key) == if RecordKey(record) == key then |records| else LastIndex(records, key)
  {
    assert (records + [record])[..|records|] == records;
  }

  /** The file behind the store; absent until the first merge. */
  class Store {
    const parse: ParseIP
    var file: Option<SavedSet>

    constructor (parse: ParseIP)
      ensures this.parse == parse && file.None?
    {
      this.parse := parse;
      file := None;
    }

    function Load(): SavedSet
      reads this
    {
      if file.Some? then file.value else SavedSet(ZERO_TIME, [])
    }

    /** Folds one sweep into the file; an empty sweep leaves it as it is. */
    method Merge(devices: seq<Device>, now: int) returns (result: SavedSet)
      modifies this
      ensures result == MergedSet(parse, old(Load()), devices, now)
      ensures file == if devices == [] then old(file) else Some(result)
    {
      result := Load();
      if |devices| == 0 {
        return;
      }
      var records := result.devices;
      var index := IndexRecords(records);
      for d := 0 to |devices|
        invariant IsIndex(index, records)
        invariant records == UpsertAll(result.devices, devices[..d], now)
      {
        assert devices[..d + 1][..d] == devices[..d];
        records, index := UpsertIndexed(records, index, devices[d], now);
      }
      assert devices[..|devices|] == devices;
      records := Sort(RecordLess(parse), records);
      result := SavedSet(now, records);
      file := Some(result);
    }

    method Clear()
      modifies this
      ensures file.None?
    {
      file := None;
    }
  }

  /** One turn of the merge loop: replace the record the index points to, or append one. */
  method UpsertIndexed(records: seq<SavedDevice>, index: map<string, int>, device: Device, now: int)
    returns (records': seq<SavedDevice>, index': map<string, int>)
    requires IsIndex(index, records)
    ensures records' == Upsert(records, device, now) && IsIndex(index', records')
  {
    var key := DeviceKey(device);
    if key in index {
      var i := index[key];
      var record := SavedDevice(device, records[i].firstSeen, now);
      forall k ensures LastIndex(records[i := record], k) == LastIndex(records, k) {
        LastIndexAfterUpdate(records, i, record, k);
      }
      return records[i := record], index;
    }
    var record := SavedDevice(device, now, now);
    forall k ensures LastIndex(records + [record], k) == if key == k then |records| else LastIndex(records, k) {
      LastIndexAfterAppend(records, record, k);
    }
    return records + [record], index[key := |records|];
  }

  method IndexRecords(records: seq<SavedDevice>) returns (index: map<string, int>)
    ensures IsIndex(index, records)
  {
    index := map[];
    for i := 0 to |records|
      invariant IsIndex(index, records[..i])
    {
      assert records[..i + 1] == records[..i] + [records[i]];
      forall k ensures LastIndex(records[..i + 1], k) == if RecordKey(records[i]) == k then i else LastIndex(records[..i], k) {
        LastIndexAfterAppend(records[..i], records[i], k);
      }
      index := index[RecordKey(records[i]) := i];
    }
    assert records[..|records|] == records;
  }

  // ---- the store as a map, over whole runs ----

  type Saved = map<string, SavedDevice>

  /** The simple form: one record per key. */
  function Put(saved: Saved, device: Device, now: int): Saved {
    var key := DeviceKey(device);
    saved[key := SavedDevice(device, if key in saved then saved[key].firstSeen else now, now)]
  }

  function PutAll(saved: Saved, devices: seq<Device>, now: int): Saved {
    if devices == [] then saved else Put(PutAll(saved, devices[..|devices| - 1], now), devices[|devices| - 1], now)
  }

  datatype Op = Sweep(devices: seq<Device>, now: int) | Clear

  function MapStep(saved: Saved, op: Op): Saved {
    match op
    case Sweep(devices, now) => PutAll(saved, devices, now)
    case Clear => map[]
  }

  function MapAfter(ops: seq<Op>): Saved {
    if ops == [] then map[] else MapStep(MapAfter(ops[..|ops| - 1]), ops[|ops| - 1])
  }

  /** What the store's methods make of the file. */
  function FileStep(parse: ParseIP, file: Option<SavedSet>, op: Op): Option<SavedSet> {
    match op
    case Clear => None
    case Sweep(devices, now) =>
      if devices == [] then file
      else Some(MergedSet(parse, if file.Some? then file.value else SavedSet(ZERO_TIME, []), devices, now))
  }

  function FileAfter(parse: ParseIP, ops: seq<Op>): Option<SavedSet> {
    if ops == [] then None else FileStep(parse, FileAfter(parse, ops[..|ops| - 1]), ops[|ops| - 1])
  }

  function RecordsAfter(parse: ParseIP, ops: seq<Op>): seq<SavedDevice> {
    var file := FileAfter(parse, ops);
    if file.Some? then file.value.devices else []
  }

  lemma FileAfterOneMore(parse: ParseIP, ops: seq<Op>, i: nat)
    requires i < |ops|
    ensures FileAfter(parse, ops[..i + 1]) == FileStep(parse, FileAfter(parse, ops[..i]), ops[i])
  {
    assert ops[..i + 1][..i] == ops[..i];
  }

  /** A store used any number of times is where the run of its operations leads. */
  method RunStore(parse: ParseIP, ops: seq<Op>) returns (store: Store)
    ensures fresh(store) && store.parse == parse
    ensures store.file == FileAfter(parse, ops)
  {
    store := new Store(parse);
    for i := 0 to |ops|
      invariant fresh(store) && store.parse == parse
      invariant store.file == FileAfter(parse, ops[..i])
    {
      ghost var before := store.file;
      match ops[i]
      case Clear => store.Clear();
      case Sweep(devices, now) => var _ := store.Merge(devices, now);
      assert store.file == FileStep(parse, before, ops[i]);
      FileAfterOneMore(parse, ops, i);
    }
    assert ops[..|ops|] == ops;
  }

  ghost predicate Refines(records: seq<SavedDevice>, saved: Saved) {
    UniqueKeys(records, RecordKey) && IndexOf(records, RecordKey) == saved
  }

  lemma UpsertRefines(records: seq<SavedDevice>, saved: Saved, device: Device, now: int)
    requires Refines(records, saved)
    ensures Refines(Upsert(records, device, now), Put(saved, device, now))
  {
    var key := DeviceKey(device);
    var i := LastIndex(records, key);
    IndexKeys(records, RecordKey, key);
    if i >= 0 {
      UniqueIndexFindsAll(records, RecordKey, records[i]);
      UpdateRefines(records, i, SavedDevice(device, records[i].firstSeen, now));
    } else {
      var record := SavedDevice(device, now, now);
      UniqueAppend(records, record, RecordKey);
      assert (records + [record])[..|records|] == records;
    }
  }

  lemma {:induction false} UpdateRefines(records: seq<SavedDevice>, i: nat, record: SavedDevice)
    requires i < |records| && UniqueKeys(records, RecordKey) && RecordKey(record) == RecordKey(records[i])
    ensures UniqueKeys(records[i := record], RecordKey)
    ensures IndexOf(records[i := record], RecordKey) == IndexOf(records, RecordKey)[RecordKey(record) := record]
  {
    var n := |records| - 1;
    if i < n {
      assert records[i := record][..n] == records[..n][i := record];
      UpdateRefines(records[..n], i, record);
    } else {
      assert records[i := record][..n] == records[..n];
    }
  }

  lemma {:induction false} UpsertAllRefines(records: seq<SavedDevice>, saved: Saved, devices: seq<Device>, now: int)
    requires Refines(records, saved)
    ensures Refines(UpsertAll(records, devices, now), PutAll(saved, devices, now))
  {
    if devices != [] {
      var n := |devices| - 1;
      UpsertAllRefines(records, saved, devices[..n], now);
      UpsertRefines(UpsertAll(records, devices[..n], now), PutAll(saved, devices[..n], now), devices[n], now);
    }
  }

  lemma SortRefines(less: (SavedDevice, SavedDevice) -> bool, records: seq<SavedDevice>, saved: Saved)
    requires Refines(records, saved)
    ensures Refines(Sort(less, records), saved)
  {
    var sorted := Sort(less, records);
    SortIsPermutation(less, records);
    MatchIsPermutation(sorted, records, RecordKey);
    IndexSize(records, RecordKey);
    IndexSize(sorted, RecordKey);
  }

  /** After any run of merges and clears from an empty store, the file holds exactly the map's records, one per key. */
  lemma {:induction false} StoreRefinesMap(parse: ParseIP, ops: seq<Op>)
    ensures Refines(RecordsAfter(parse, ops), MapAfter(ops))
  {
    if ops != [] {
      var n := |ops| - 1;
      StoreRefinesMap(parse, ops[..n]);
      if ops[n].Sweep? && ops[n].devices != [] {
        var before := RecordsAfter(parse, ops[..n]);
        UpsertAllRefines(before, MapAfter(ops[..n]), ops[n].devices, ops[n].now);
        SortRefines(RecordLess(parse), UpsertAll(before, ops[n].devices, ops[n].now), MapAfter(ops));
      }
    }
  }

  // ---- what the map remembers ----

  ghost predicate SeenIn(devices: seq<Device>, probe: Device) {
    exists i :: 0 <= i < |devices| && SameDevice(devices[i], probe)
  }

  ghost predicate Sees(op: Op, probe: Device) {
    op.Sweep? && SeenIn(op.devices, probe)
  }

  /** The last device of that DeviceKey(probe) in one sweep. */
  ghost predicate LastOf(devices: seq<Device>, probe: Device, device: Device) {
    exists i :: 0 <= i < |devices| && devices[i] == device && SameDevice(device, probe)
                && forall j :: i < j < |devices| ==> !SameDevice(devices[j], probe)
  }

  lemma SeenInOneMore(devices: seq<Device>, more: Device, probe: Device, device: Device)
    ensures SeenIn(devices + [more], probe) <==> SeenIn(devices, probe) || SameDevice(more, probe)
    ensures SameDevice(more, probe) ==> LastOf(devices + [more], probe, more)
    ensures !SameDevice(more, probe) && LastOf(devices, probe, device) ==> LastOf(devices + [more], probe, device)
  {
    var all := devices + [more];
    assert all[|devices|] == more;
    if SeenIn(devices, probe) {
      var i :| 0 <= i < |devices| && SameDevice(devices[i], probe);
      assert SameDevice(all[i], probe);
    }
    if !SameDevice(more, probe) && LastOf(devices, probe, device) {
      var i :| 0 <= i < |devices| && devices[i] == device && SameDevice(device, probe)
               && forall j :: i < j < |devices| ==> !SameDevice(devices[j], probe);
      assert all[i] == device;
    }
  }

  lemma {:induction false} PutAllRecord(saved: Saved, devices: seq<Device>, now: int, probe: Device)
    ensures var after := PutAll(saved, devices, now);
            SeenIn(devices, probe) ==>
              && DeviceKey(probe) in after
              && LastOf(devices, probe, after[DeviceKey(probe)].device)
              && after[DeviceKey(probe)].firstSeen == (if DeviceKey(probe) in saved then saved[DeviceKey(probe)].firstSeen else now)
              && after[DeviceKey(probe)].lastSeen == now
    ensures var after := PutAll(saved, devices, now);
            !SeenIn(devices, probe) ==>
              (DeviceKey(probe) in after <==> DeviceKey(probe) in saved) && (DeviceKey(probe) in saved ==> after[DeviceKey(probe)] == saved[DeviceKey(probe)])
  {
    if devices != [] {
      var n := |devices| - 1;
      var front, more := devices[..n], devices[n];
      assert devices == front + [more];
      PutAllRecord(saved, front, now, probe);
      SameKeyIff(more, probe);
      var before := PutAll(saved, front, now);
      SeenInOneMore(front, more, probe, if DeviceKey(probe) in before then before[DeviceKey(probe)].device else more);
    }
  }

  /** Whatever saw the device before operation `f` had been cleared away by then. */
  ghost predicate StartsAfresh(ops: seq<Op>, probe: Device, f: nat)
    requires f <= |ops|
  {
    forall j :: 0 <= j < f && Sees(ops[j], probe) ==> exists c :: j < c < f && ops[c].Clear?
  }

  /** Sweep `f` is the first and sweep `l` the last to see the device since the last clear. */
  ghost predicate SeenFromTo(ops: seq<Op>, probe: Device, f: nat, l: nat) {
    && f <= l < |ops| && Sees(ops[f], probe) && Sees(ops[l], probe)
    && (forall j :: f <= j < |ops| ==> !ops[j].Clear?)
    && (forall j :: l < j < |ops| ==> !Sees(ops[j], probe))
    && StartsAfresh(ops, probe, f)
  }

  ghost predicate Forgotten(ops: seq<Op>, probe: Device) {
    forall j :: 0 <= j < |ops| && Sees(ops[j], probe) ==> exists c :: j < c < |ops| && ops[c].Clear?
  }

  /**
    A device has a record exactly when some sweep since the last clear saw it. The record then carries the
    device as the last such sweep showed it, the time of the first such sweep, and the time of the last.
   */
  lemma {:induction false} RecordTellsItsHistory(ops: seq<Op>, probe: Device) returns (f: nat, l: nat)
    ensures DeviceKey(probe) !in MapAfter(ops) <==> Forgotten(ops, probe)
    ensures DeviceKey(probe) in MapAfter(ops) ==>
      && SeenFromTo(ops, probe, f, l)
      && ops[f].Sweep? && ops[l].Sweep?
      && LastOf(ops[l].devices, probe, MapAfter(ops)[DeviceKey(probe)].device)
      && MapAfter(ops)[DeviceKey(probe)].firstSeen == ops[f].now
      && MapAfter(ops)[DeviceKey(probe)].lastSeen == ops[l].now
  {
    f, l := 0, 0;
    if ops != [] {
      var n := |ops| - 1;
      f, l := RecordTellsItsHistory(ops[..n], probe);
      ForgottenGrows(ops, probe);
      if ops[n].Sweep? {
        PutAllRecord(MapAfter(ops[..n]), ops[n].devices, ops[n].now, probe);
        if !Sees(ops[n], probe) {
          if DeviceKey(probe) in MapAfter(ops) {
            NotSeen(ops, probe, f, l);
          }
        } else if DeviceKey(probe) in MapAfter(ops[..n]) {
          SeenAgain(ops, probe, f, l);
          l := n;
        } else {
          SeenFirst(ops, probe);
          f, l := n, n;
        }
      }
    }
  }

  /** A clear somewhere between two operations is there in any longer run. */
  lemma ClearedBetween(ops: seq<Op>, n: nat, j: nat, f: nat)
    requires n <= |ops| && f <= n
    ensures (exists c :: j < c < f && ops[..n][c].Clear?) <==> (exists c :: j < c < f && ops[c].Clear?)
  {
    assert forall c :: 0 <= c < n ==> ops[..n][c] == ops[c];
    if c :| j < c < f && ops[..n][c].Clear? {
      assert ops[c].Clear?;
    }
    if c :| j < c < f && ops[c].Clear? {
      assert ops[..n][c].Clear?;
    }
  }

  lemma ForgottenGrows(ops: seq<Op>, probe: Device)
    requires ops != []
    ensures var n := |ops| - 1;
            Forgotten(ops, probe) <==> ops[n].Clear? || (Forgotten(ops[..n], probe) && !Sees(ops[n], probe))
  {
    var n := |ops| - 1;
    if Forgotten(ops[..n], probe) {
      forall j | 0 <= j < n && Sees(ops[j], probe) ensures exists c :: j < c < |ops| && ops[c].Clear? {
        assert ops[..n][j] == ops[j];
        ClearedBetween(ops, n, j, n);
      }
    }
    if Forgotten(ops, probe) && !ops[n].Clear? {
      forall j | 0 <= j < n && Sees(ops[..n][j], probe) ensures exists c :: j < c < n && ops[..n][c].Clear? {
        assert ops[..n][j] == ops[j];
        var c :| j < c < |ops| && ops[c].Clear?;
        ClearedBetween(ops, n, j, n);
      }
    }
  }

  lemma StartsAfreshGrows(ops: seq<Op>, n: nat, probe: Device, f: nat)
    requires f <= n <= |ops| && StartsAfresh(ops[..n], probe, f)
    ensures StartsAfresh(ops, probe, f)
  {
    forall j | 0 <= j < f && Sees(ops[j], probe) ensures exists c :: j < c < f && ops[c].Clear? {
      assert ops[..n][j] == ops[j];
      ClearedBetween(ops, n, j, f);
    }
  }

  /** A sweep that sees the device ends its record, and a device without a record starts one there. */
  lemma SeenAgain(ops: seq<Op>, probe: Device, f: nat, m: nat)
    requires ops != [] && Sees(ops[|ops| - 1], probe)
    requires f < |ops| - 1 && SeenFromTo(ops[..|ops| - 1], probe, f, m)
    ensures SeenFromTo(ops, probe, f, |ops| - 1)
  {
    StartsAfreshGrows(ops, |ops| - 1, probe, f);
    assert forall j :: 0 <= j < |ops| - 1 ==> ops[..|ops| - 1][j] == ops[j];
  }

  lemma SeenFirst(ops: seq<Op>, probe: Device)
    requires ops != [] && Sees(ops[|ops| - 1], probe) && Forgotten(ops[..|ops| - 1], probe)
    ensures SeenFromTo(ops, probe, |ops| - 1, |ops| - 1)
  {
    var n := |ops| - 1;
    assert StartsAfresh(ops[..n], probe, n);
    StartsAfreshGrows(ops, n, probe, n);
  }

  lemma NotSeen(ops: seq<Op>, probe: Device, f: nat, l: nat)
    requires ops != [] && ops[|ops| - 1].Sweep? && !Sees(ops[|ops| - 1], probe)
    requires SeenFromTo(ops[..|ops| - 1], probe, f, l)
    ensures SeenFromTo(ops, probe, f, l)
  {
    StartsAfreshGrows(ops, |ops| - 1, probe, f);
    assert forall j :: 0 <= j < |ops| - 1 ==> ops[..|ops| - 1][j] == ops[j];
  }

  ghost predicate IsRecordOf(records: seq<SavedDevice>, i: int, probe: Device) {
    0 <= i < |records| && SameDevice(records[i].device, probe)
  }

  /**
    The same of the file, after any run: it has a record of a device exactly when some sweep since the last
    clear saw it; then it has one, with the device as it was last seen, and the first and the last time.
   */
  lemma FileTellsHistory(parse: ParseIP, ops: seq<Op>, probe: Device) returns (i: nat, f: nat, l: nat)
    ensures (exists k :: IsRecordOf(RecordsAfter(parse, ops), k, probe)) <==> !Forgotten(ops, probe)
    ensures !Forgotten(ops, probe) ==>
      var records := RecordsAfter(parse, ops);
      && (forall k :: IsRecordOf(records, k, probe) <==> k == i)
      && SeenFromTo(ops, probe, f, l) && ops[f].Sweep? && ops[l].Sweep?
      && i < |records| && LastOf(ops[l].devices, probe, records[i].device)
      && records[i].firstSeen == ops[f].now && records[i].lastSeen == ops[l].now
  {
    var records, key := RecordsAfter(parse, ops), DeviceKey(probe);
    StoreRefinesMap(parse, ops);
    IndexKeys(records, RecordKey, key);
    f, l := RecordTellsItsHistory(ops, probe);
    i := 0;
    forall k | 0 <= k < |records| ensures IsRecordOf(records, k, probe) <==> RecordKey(records[k]) == key {
      SameKeyIff(records[k].device, probe);
    }
    if key in MapAfter(ops) {
      var record := MapAfter(ops)[key];
      i :| i < |records| && records[i] == record;
      assert IsRecordOf(records, i, probe);
    }
  }

  // ---- order in space and time ----

  /** Some sweep reported the address. */
  ghost predicate Swept(ops: seq<Op>, ip: string) {
    exists i, d :: 0 <= i < |ops| && ops[i].Sweep? && d in ops[i].devices && d.ipAddress == ip
  }

  /** A merge sorts any file, however it came about, whose records and sweep have no tangle. */
  lemma MergedRecordsAreSorted(parse: ParseIP, among: string -> bool, before: SavedSet, devices: seq<Device>, now: int)
    requires Comparable(parse, among) && devices != []
    requires AllAmong(before.devices, HasAddress(among)) && forall d :: d in devices ==> among(d.ipAddress)
    ensures Sorted(RecordLess(parse), MergedSet(parse, before, devices, now).devices)
    ensures AllAmong(MergedSet(parse, before, devices, now).devices, HasAddress(among))
  {
    UpsertAllAmong(among, before.devices, devices, now);
    RecordsAreOrderedIff(parse, among);
    SortSorts(RecordLess(parse), HasAddress(among), UpsertAll(before.devices, devices, now));
  }

  lemma {:induction false} UpsertAllAmong(among: string -> bool, records: seq<SavedDevice>, devices: seq<Device>, now: int)
    requires AllAmong(records, HasAddress(among)) && forall d :: d in devices ==> among(d.ipAddress)
    ensures AllAmong(UpsertAll(records, devices, now), HasAddress(among))
  {
    if devices != [] {
      UpsertAllAmong(among, records, devices[..|devices| - 1], now);
    }
  }

  /** After any run over sweeps without a tangle the file is sorted. */
  lemma {:induction false} RecordsAreSorted(parse: ParseIP, among: string -> bool, ops: seq<Op>)
    requires Comparable(parse, among) && forall ip :: Swept(ops, ip) ==> among(ip)
    ensures Sorted(RecordLess(parse), RecordsAfter(parse, ops))
    ensures AllAmong(RecordsAfter(parse, ops), HasAddress(among))
  {
    if ops != [] {
      var n := |ops| - 1;
      forall ip | Swept(ops[..n], ip) ensures among(ip) {
        var i, d :| 0 <= i < n && ops[..n][i].Sweep? && d in ops[..n][i].devices && d.ipAddress == ip;
        assert ops[i].Sweep? && d in ops[i].devices;
      }
      RecordsAreSorted(parse, among, ops[..n]);
      if ops[n].Sweep? && ops[n].devices != [] {
        forall d | d in ops[n].devices ensures among(d.ipAddress) {
          assert Swept(ops, d.ipAddress);
        }
        var file := FileAfter(parse, ops[..n]);
        MergedRecordsAreSorted(parse, among, if file.Some? then file.value else SavedSet(ZERO_TIME, []),
                               ops[n].devices, ops[n].now);
      }
    }
  }

  /** What sorted means: numbers ascend where both addresses are readable, texts where not, and hostnames at one place. */
  lemma SortedAscends(parse: ParseIP, file: seq<SavedDevice>, i: nat, j: nat)
    requires Sorted(RecordLess(parse), file) && i < j < |file|
    ensures var a, b := file[i].device, file[j].device;
            var x, y := parse(a.ipAddress), parse(b.ipAddress);
            && (x.Some? && y.Some? ==> x.value < y.value || (x.value == y.value && !Less(b.hostname, a.hostname)))
            && (x.None? || y.None? ==>
                  Less(a.ipAddress, b.ipAddress) || (a.ipAddress == b.ipAddress && !Less(b.hostname, a.hostname)))
  {
    LessIsTotal(file[i].device.ipAddress, file[j].device.ipAddress);
    assert !RecordLess(parse)(file[j], file[i]);
  }

  /** The merged order does not depend on the sorting algorithm: any stable sort by this comparator gives it. */
  lemma AnyStableSortAgrees(parse: ParseIP, among: string -> bool, records: seq<SavedDevice>, sorted: seq<SavedDevice>)
    requires Comparable(parse, among) && AllAmong(records, HasAddress(among)) && UniqueKeys(records, RecordKey)
    requires multiset(sorted) == multiset(records) && StablySorted(RecordLess(parse), records, sorted)
    ensures sorted == Sort(RecordLess(parse), records)
  {
    RecordsAreOrderedIff(parse, among);
    StableSortIsUnique(RecordLess(parse), HasAddress(among), records, sorted);
  }

  ghost predicate ClockNeverRunsBack(ops: seq<Op>) {
    forall i, j :: 0 <= i <= j < |ops| && ops[i].Sweep? && ops[j].Sweep? ==> ops[i].now <= ops[j].now
  }

  ghost predicate ClearedAfter(ops: seq<Op>, i: nat) {
    exists j :: i < j < |ops| && ops[j].Clear?
  }

  /** The file's update time is no earlier than any sweep since the last clear that found something. */
  lemma {:induction false} UpdatedAtLastSweep(parse: ParseIP, ops: seq<Op>, i: nat)
    requires ClockNeverRunsBack(ops)
    requires i < |ops| && ops[i].Sweep? && ops[i].devices != [] && !ClearedAfter(ops, i)
    ensures FileAfter(parse, ops).Some? && ops[i].now <= FileAfter(parse, ops).value.updatedAt
  {
    var n := |ops| - 1;
    if i < n {
      assert forall j :: 0 <= j < n ==> ops[..n][j] == ops[j];
      assert !ops[n].Clear?;
      UpdatedAtLastSweep(parse, ops[..n], i);
    }
  }

  /** The file was updated at the last sweep that found something, and there is none without one since the last clear. */
  lemma {:induction false} UpdatedAtIsLastSweep(parse: ParseIP, ops: seq<Op>) returns (l: nat)
    ensures FileAfter(parse, ops).Some? ==>
      && l < |ops| && ops[l].Sweep? && ops[l].devices != [] && ops[l].now == FileAfter(parse, ops).value.updatedAt
      && forall j :: l < j < |ops| ==> ops[j].Sweep? && ops[j].devices == []
    ensures FileAfter(parse, ops).None? ==> forall j :: 0 <= j < |ops| && ops[j].Sweep? && ops[j].devices != [] ==> ClearedAfter(ops, j)
  {
    l := 0;
    if ops != [] {
      var n := |ops| - 1;
      l := UpdatedAtIsLastSweep(parse, ops[..n]);
      assert forall j :: 0 <= j < n ==> ops[..n][j] == ops[j];
      if ops[n].Sweep? && ops[n].devices != [] {
        l := n;
      } else if FileAfter(parse, ops).None? {
        forall j | 0 <= j < |ops| && ops[j].Sweep? && ops[j].devices != [] ensures ClearedAfter(ops, j) {
          if ops[n].Clear? {
            assert j < n;
          } else {
            assert ClearedAfter(ops[..n], j);
            var c :| j < c < n && ops[..n][c].Clear?;
            assert ops[c].Clear?;
          }
        }
      }
    }
  }

  /** If the clock never runs back, every record's times are in order and within the file's own. */
  lemma TimesAreOrdered(parse: ParseIP, ops: seq<Op>, record: SavedDevice)
    requires ClockNeverRunsBack(ops) && record in RecordsAfter(parse, ops)
    ensures record.firstSeen <= record.lastSeen <= FileAfter(parse, ops).value.updatedAt
  {
    StoreRefinesMap(parse, ops);
    UniqueIndexFindsAll(RecordsAfter(parse, ops), RecordKey, record);
    var f, l := RecordTellsItsHistory(ops, record.device);
    UpdatedAtLastSweep(parse, ops, l);
  }
}

/** Storage vMotion: which disk or disks of a VM are moved, and to which datastore. */
module StorageVmotion {
  import opened Wrappers

  // ----- 64-bit arithmetic -----

  const MaxInt64 := 0x7fff_ffff_ffff_ffff

  /** Two's complement wrap-around of a 64-bit sum, difference or product. */
  function Wrap(x: int): int {
    (x + 0x8000_0000_0000_0000) % 0x1_0000_0000_0000_0000 - 0x8000_0000_0000_0000
  }

  ghost predicate InRange(x: int) {
    -MaxInt64 - 1 <= x <= MaxInt64
  }

  lemma WrapInRange(x: int)
    requires InRange(x)
    ensures Wrap(x) == x
  {
  }

  /** Division by a positive number, truncating toward zero. */
  function Quo(x: int, d: int): int
    requires d > 0
  {
    if x >= 0 then x / d else -(-x / d)
  }

  // ----- vCenter's answers -----

  /** Capacity and free space in bytes. */
  datatype Summary = Summary(capacity: int, free: int)

  /** A datastore with what each of the reads of it returns; `None` is a read that fails. `cluster` is
      the storage pod it is in, if any; `later` is the summary at the time the target is chosen. */
  datatype Datastore = Datastore(
    ref: string,
    name: string,
    cluster: Option<Option<string>>,
    summary: Option<Summary>,
    later: Option<Summary>)

  /** A disk has a key, a capacity, and the datastore of its backing if that is a flat one. */
  datatype Device = Disk(key: int, capacityInKB: int, backing: Option<string>) | OtherDevice

  datatype Locator = Locator(diskId: int, datastore: string)

  ghost predicate Sane(s: Summary) {
    0 <= s.capacity <= MaxInt64 && 0 <= s.free <= MaxInt64
  }

  // ----- the space test -----

  /** The space test as written: in KB, with truncating divisions, in 64 bits. */
  predicate HasRoom(s: Summary, totalKB: int) {
    var availableSpace := Quo(s.free, 1024);
    var spaceAfterMove := Wrap(availableSpace - totalKB);
    var maxAllowedUsage := Quo(Wrap(Quo(s.capacity, 1024) * 90), 100);
    var usedSpace := Wrap(Quo(s.capacity, 1024) - availableSpace);
    !(spaceAfterMove < 0 || Wrap(usedSpace + totalKB) > maxAllowedUsage)
  }

  /** No step of the space test overflows, and rounding down does no more than this. */
  lemma HasRoomExactly(s: Summary, totalKB: int)
    requires Sane(s) && 0 <= totalKB <= MaxInt64
    ensures HasRoom(s, totalKB) <==>
            totalKB <= s.free / 1024 && 10 * (s.capacity / 1024 - s.free / 1024 + totalKB) <= 9 * (s.capacity / 1024)
  {
    var a, c := s.free / 1024, s.capacity / 1024;
    assert 0 <= a <= MaxInt64 / 1024 && 0 <= c <= MaxInt64 / 1024;
    WrapInRange(a - totalKB);
    WrapInRange(c * 90);
    WrapInRange(c - a);
    if totalKB <= a {
      WrapInRange(c - a + totalKB);
    }
  }

  /** In bytes: a datastore that passes has room for the disks, and with them it is at most 90 percent
      full, up to 1023 bytes. */
  lemma HasRoomBound(s: Summary, totalKB: int)
    requires Sane(s) && 0 <= totalKB <= MaxInt64 && HasRoom(s, totalKB)
    ensures s.free >= 1024 * totalKB
    ensures 10 * (s.capacity - s.free + 1024 * totalKB) <= 9 * s.capacity + 10230
  {
    HasRoomExactly(s, totalKB);
  }

  /** Conversely, a datastore is turned away only within 1944 bytes of that limit. */
  lemma HasRoomConverse(s: Summary, totalKB: int)
    requires Sane(s) && 0 <= totalKB <= MaxInt64
    requires s.free >= 1024 * totalKB
    requires 10 * (s.capacity - s.free + 1024 * totalKB) + 19437 <= 9 * s.capacity
    ensures HasRoom(s, totalKB)
  {
    HasRoomExactly(s, totalKB);
  }

  // ----- total size -----

  function TotalKB(devices: seq<Device>): int {
    if devices == [] then 0
    else
      var last := devices[|devices| - 1];
      TotalKB(devices[..|devices| - 1]) + (if last.Disk? then last.capacityInKB else 0)
  }

  ghost predicate NonNegative(devices: seq<Device>) {
    forall i | 0 <= i < |devices| && devices[i].Disk? :: devices[i].capacityInKB >= 0
  }

  /** The disk sizes are those of a real VM: none negative, and the sum fits in 64 bits. */
  ghost predicate SaneDisks(devices: seq<Device>) {
    NonNegative(devices) && TotalKB(devices) <= MaxInt64
  }

  lemma {:induction false} TotalMonotone(devices: seq<Device>, n: nat)
    requires n <= |devices| && NonNegative(devices)
    ensures 0 <= TotalKB(devices[..n]) <= TotalKB(devices)
    decreases |devices|
  {
    if n == |devices| {
      assert devices[..n] == devices;
      if n > 0 {
        TotalMonotone(devices[..n - 1], n - 1);
      }
    } else {
      var init := devices[..|devices| - 1];
      TotalMonotone(init, n);
      assert init[..n] == devices[..n];
    }
  }

  /** The total is the sum of the capacities of the disks. */
  lemma {:induction false} TotalAdds(a: seq<Device>, b: seq<Device>)
    ensures TotalKB(a + b) == TotalKB(a) + TotalKB(b)
    ensures |a| == 1 ==> TotalKB(a) == if a[0].Disk? then a[0].capacityInKB else 0
    decreases |b|
  {
    if b == [] {
      assert a + b == a;
    } else {
      var n := |b| - 1;
      TotalAdds(a, b[..n]);
      assert (a + b)[..|a + b| - 1] == a + b[..n];
    }
  }

  /** The running total of the filter, in 64 bits. */
  function WrappedTotal(devices: seq<Device>): int {
    if devices == [] then 0
    else
      var before, last := WrappedTotal(devices[..|devices| - 1]), devices[|devices| - 1];
      if last.Disk? then Wrap(before + last.capacityInKB) else before
  }

  lemma {:induction false} WrappedIsTotal(devices: seq<Device>, n: nat)
    requires SaneDisks(devices) && n <= |devices|
    ensures WrappedTotal(devices[..n]) == TotalKB(devices[..n])
  {
    TotalMonotone(devices, n);
    if n > 0 {
      WrappedIsTotal(devices, n - 1);
      assert devices[..n][..n - 1] == devices[..n - 1];
      if devices[n - 1].Disk? {
        WrapInRange(TotalKB(devices[..n]));
      }
    }
  }

  /** A datastore that passes for the running total really has room for the disks if and only if their
      sum fits in 64 bits. */
  lemma RoomIffFits(s: Summary, devices: seq<Device>)
    requires Sane(s) && NonNegative(devices) && HasRoom(s, WrappedTotal(devices))
    ensures s.free >= 1024 * TotalKB(devices) <==> TotalKB(devices) <= MaxInt64
  {
    hide HasRoom, WrappedTotal, TotalKB;
    assert devices[..|devices|] == devices;
    TotalMonotone(devices, |devices|);
    if TotalKB(devices) <= MaxInt64 {
      WrappedIsTotal(devices, |devices|);
      HasRoomBound(s, TotalKB(devices));
    }
  }

  method SumDisks(devices: seq<Device>) returns (total: int)
    ensures total == WrappedTotal(devices)
  {
    total := 0;
    var i := 0;
    while i < |devices|
      invariant 0 <= i <= |devices|
      invariant total == WrappedTotal(devices[..i])
    {
      assert devices[..i + 1][..i] == devices[..i];
      if devices[i].Disk? {
        total := Wrap(total + devices[i].capacityInKB);
      }
      i := i + 1;
    }
    assert devices[..i] == devices;
  }

  /** Sums that do not fit are accepted: four disks of 2^62 KB add up to
      0 in 64 bits, and an almost empty datastore of 1 GB is accepted for them. */
  lemma OverflowIsAccepted()
    ensures var d := Disk(1, 0x4000_0000_0000_0000, None);
            && TotalKB([d, d, d, d]) > MaxInt64
            && HasRoom(Summary(0x4000_0000, 0x3fff_0000), WrappedTotal([d, d, d, d]))
  {
    var d := Disk(1, 0x4000_0000_0000_0000, None);
    var ds := [d, d, d, d];
    assert ds[..3] == [d, d, d] && ds[..3][..2] == [d, d] && ds[..3][..2][..1] == [d] && [d][..0] == [];
    assert TotalKB([d]) == 0x4000_0000_0000_0000 == WrappedTotal([d]);
    assert TotalKB([d, d]) == 0x8000_0000_0000_0000 && WrappedTotal([d, d]) == -0x8000_0000_0000_0000;
    assert TotalKB([d, d, d]) == 0xC000_0000_0000_0000 && WrappedTotal([d, d, d]) == -0x4000_0000_0000_0000;
    assert WrappedTotal(ds) == 0;
  }

  // ----- candidates -----

  /** Whether the filter keeps a datastore, given the source and its cluster. */
  predicate Keeps(source: string, sourceCluster: Option<string>, totalKB: int, ds: Datastore) {
    && ds.ref != source
    && ds.cluster.Some? && ds.summary.Some?
    && HasRoom(ds.summary.value, totalKB)
    && (sourceCluster.None? || ds.cluster.value.None? || sourceCluster != ds.cluster.value)
  }

  function Kept(source: string, sourceCluster: Option<string>, totalKB: int, all: seq<Datastore>): seq<Datastore> {
    if all == [] then []
    else
      var last := all[|all| - 1];
      Kept(source, sourceCluster, totalKB, all[..|all| - 1])
      + (if Keeps(source, sourceCluster, totalKB, last) then [last] else [])
  }

  lemma {:induction false} KeptMembers(source: string, sourceCluster: Option<string>, totalKB: int,
                                       all: seq<Datastore>, ds: Datastore)
    ensures ds in Kept(source, sourceCluster, totalKB, all) <==> ds in all && Keeps(source, sourceCluster, totalKB, ds)
  {
    hide Keeps;
    if all != [] {
      var n := |all| - 1;
      KeptMembers(source, sourceCluster, totalKB, all[..n], ds);
      assert all == all[..n] + [all[n]];
    }
  }

  /** A datastore passes if and only if it is another one than the source, its cluster and summary can be
      read, the disks fit into its free space and leave it at most 90 percent full, both in whole KB, and
      it is not in the source's cluster. */
  lemma KeepsIff(source: string, sourceCluster: Option<string>, totalKB: int, ds: Datastore)
    requires ds.summary.Some? ==> Sane(ds.summary.value)
    requires 0 <= totalKB <= MaxInt64
    ensures Keeps(source, sourceCluster, totalKB, ds) <==>
            && ds.ref != source && ds.cluster.Some? && ds.summary.Some?
            && (var s := ds.summary.value;
                && totalKB <= s.free / 1024
                && 10 * (s.capacity / 1024 - s.free / 1024 + totalKB) <= 9 * (s.capacity / 1024))
            && !(sourceCluster.Some? && ds.cluster.value == sourceCluster)
  {
    hide HasRoom;
    if ds.summary.Some? {
      HasRoomExactly(ds.summary.value, totalKB);
    }
  }

  /** Those that pass are kept in their order: the filter goes through a list piece by piece. */
  lemma {:induction false} KeptAdds(source: string, sourceCluster: Option<string>, totalKB: int,
                                    a: seq<Datastore>, b: seq<Datastore>)
    ensures Kept(source, sourceCluster, totalKB, a + b) ==
            Kept(source, sourceCluster, totalKB, a) + Kept(source, sourceCluster, totalKB, b)
    ensures |a| == 1 ==>
              Kept(source, sourceCluster, totalKB, a) == if Keeps(source, sourceCluster, totalKB, a[0]) then a else []
    decreases |b|
  {
    hide Keeps;
    if b == [] {
      assert a + b == a;
    } else {
      var n := |b| - 1;
      KeptAdds(source, sourceCluster, totalKB, a, b[..n]);
      assert (a + b)[..|a + b| - 1] == a + b[..n];
    }
  }

  /** `filterTargetDatastores`: an error if the source's cluster cannot be read or nothing is left. */
  method FilterTargetDatastores(source: string, sourceCluster: Option<Option<string>>, all: seq<Datastore>,
                                devices: seq<Device>)
    returns (r: Option<seq<Datastore>>)
    ensures r == if sourceCluster.None? then None
                 else
                   var kept := Kept(source, sourceCluster.value, WrappedTotal(devices), all);
                   if kept == [] then None else Some(kept)
  {
    hide HasRoom;
    if sourceCluster.None? {
      return None;
    }
    var filtered: seq<Datastore> := [];
    var total := SumDisks(devices);
    var i := 0;
    while i < |all|
      invariant 0 <= i <= |all|
      invariant filtered == Kept(source, sourceCluster.value, total, all[..i])
    {
      assert all[..i + 1][..i] == all[..i];
      var ds := all[i];
      if ds.ref != source && ds.cluster.Some? && ds.summary.Some? {
        if HasRoom(ds.summary.value, total) {
          if sourceCluster.value.None? || ds.cluster.value.None? || sourceCluster.value != ds.cluster.value {
            filtered := filtered + [ds];
          }
        }
      }
      i := i + 1;
    }
    assert all[..i] == all;
    r := if filtered == [] then None else Some(filtered);
  }

  // ----- the target -----

  function FreeLater(ds: Datastore): int {
    if ds.later.Some? then ds.later.value.free else -1
  }

  /** Index of the first datastore with the most free space among those that can be read. */
  ghost predicate Emptiest(targets: seq<Datastore>, k: nat) {
    && k < |targets| && targets[k].later.Some? && targets[k].later.value.free >= 0
    && (forall i | 0 <= i < |targets| :: FreeLater(targets[i]) <= FreeLater(targets[k]))
    && (forall i | 0 <= i < k :: FreeLater(targets[i]) < FreeLater(targets[k]))
  }

  /** The only candidate is taken unread; among several, the emptiest. */
  ghost predicate Chosen(targets: seq<Datastore>, target: Datastore) {
    targets == [target] || (|targets| > 1 && exists k: nat :: Emptiest(targets, k) && targets[k] == target)
  }

  method ChooseTarget(targets: seq<Datastore>) returns (r: Option<Datastore>)
    requires targets != []
    ensures r.Some? ==> Chosen(targets, r.value)
    ensures r.None? <==>
            && |targets| > 1
            && forall i | 0 <= i < |targets| :: targets[i].later.Some? ==> targets[i].later.value.free < 0
  {
    ghost var k := 0;
    if |targets| == 1 {
      return Some(targets[0]);
    }
    r := None;
    var maxAvailableSpace := -1;
    var i := 0;
    while i < |targets|
      invariant 0 <= i <= |targets|
      invariant maxAvailableSpace >= -1
      invariant r.None? <==> maxAvailableSpace == -1
      invariant forall j | 0 <= j < i :: FreeLater(targets[j]) <= maxAvailableSpace
      invariant r.Some? ==> k < i && r.value == targets[k] && FreeLater(targets[k]) == maxAvailableSpace
      invariant r.Some? ==> forall j | 0 <= j < k :: FreeLater(targets[j]) < maxAvailableSpace
    {
      if targets[i].later.Some? {
        var available := targets[i].later.value.free;
        if available > maxAvailableSpace {
          maxAvailableSpace := available;
          r, k := Some(targets[i]), i;
        }
      }
      i := i + 1;
    }
  }

  /** On the data: a target chosen among several can be read, no other is known to have more free space,
      and none in front of it is known to have as much. */
  lemma ChosenMeans(targets: seq<Datastore>, target: Datastore) returns (k: nat)
    requires Chosen(targets, target)
    ensures k < |targets| && targets[k] == target
    ensures forall i | 0 <= i < |targets| && targets[i].later.Some? ::
              target.later.Some? && targets[i].later.value.free <= target.later.value.free
    ensures forall i | 0 <= i < k && targets[i].later.Some? ::
              target.later.Some? && targets[i].later.value.free < target.later.value.free
    ensures |targets| > 1 ==> target.later.Some? && target.later.value.free >= 0
  {
    if targets == [target] {
      k := 0;
    } else {
      k :| Emptiest(targets, k) && targets[k] == target;
      forall i | 0 <= i < |targets| && targets[i].later.Some? ensures FreeLater(targets[i]) <= FreeLater(target) {
      }
    }
  }

  // ----- the largest disks -----

  predicate OnOneOf(d: Device, refs: set<string>) {
    d.Disk? && d.backing.Some? && d.backing.value in refs
  }

  function Backed(devices: seq<Device>, refs: set<string>): seq<Device> {
    if devices == [] then []
    else
      var last := devices[|devices| - 1];
      Backed(devices[..|devices| - 1], refs) + (if OnOneOf(last, refs) then [last] else [])
  }

  lemma {:induction false} BackedMembers(devices: seq<Device>, refs: set<string>, d: Device)
    ensures d in Backed(devices, refs) <==> d in devices && d.Disk? && d.backing.Some? && d.backing.value in refs
  {
    if devices != [] {
      var n := |devices| - 1;
      BackedMembers(devices[..n], refs, d);
      assert devices == devices[..n] + [devices[n]];
    }
  }

  lemma {:induction false} BackedCount(devices: seq<Device>, refs: set<string>, d: Device)
    ensures multiset(Backed(devices, refs))[d] ==
            if d.Disk? && d.backing.Some? && d.backing.value in refs then multiset(devices)[d] else 0
  {
    if devices != [] {
      var n := |devices| - 1;
      BackedCount(devices[..n], refs, d);
      assert devices == devices[..n] + [devices[n]];
    }
  }

  ghost predicate AllDisks(ds: seq<Device>) {
    forall i | 0 <= i < |ds| :: ds[i].Disk? && ds[i].backing.Some?
  }

  ghost predicate Descending(ds: seq<Device>)
    requires AllDisks(ds)
  {
    forall i, j | 0 <= i < j < |ds| :: ds[i].capacityInKB >= ds[j].capacityInKB
  }

  /** `sort.Slice` by descending capacity: some ordering of equal capacities. */
  method SortByCapacity(disks: seq<Device>) returns (sorted: seq<Device>)
    requires AllDisks(disks)
    ensures multiset(sorted) == multiset(disks)
    ensures AllDisks(sorted) && Descending(sorted)
  {
    sorted := [];
    var i := 0;
    while i < |disks|
      invariant 0 <= i <= |disks|
      invariant multiset(sorted) == multiset(disks[..i])
      invariant AllDisks(sorted) && Descending(sorted)
    {
      var d, k := disks[i], 0;
      while k < |sorted| && sorted[k].capacityInKB >= d.capacityInKB
        invariant 0 <= k <= |sorted|
        invariant k > 0 ==> sorted[k - 1].capacityInKB >= d.capacityInKB
      {
        k := k + 1;
      }
      InsertKeeps(sorted, k, d);
      sorted := Inserted(sorted, k, d);
      assert disks[..i + 1] == disks[..i] + [d];
      i := i + 1;
    }
    assert disks[..i] == disks;
  }

  function Inserted(s: seq<Device>, k: nat, d: Device): (t: seq<Device>)
    requires k <= |s|
    ensures |t| == |s| + 1
  {
    s[..k] + [d] + s[k..]
  }

  lemma InsertedAt(s: seq<Device>, k: nat, d: Device, i: nat)
    requires k <= |s| && i <= |s|
    ensures Inserted(s, k, d)[i] == if i < k then s[i] else if i == k then d else s[i - 1]
  {
  }

  lemma InsertedAllDisks(s: seq<Device>, k: nat, d: Device)
    requires k <= |s| && AllDisks(s) && d.Disk? && d.backing.Some?
    ensures AllDisks(Inserted(s, k, d)) && multiset(Inserted(s, k, d)) == multiset(s) + multiset{d}
  {
    assert s == s[..k] + s[k..];
  }

  /** Capacity as a number for every device, for comparisons. */
  function Size(d: Device): int {
    if d.Disk? then d.capacityInKB else 0
  }

  lemma InsertedPair(s: seq<Device>, k: nat, d: Device, i: nat, j: nat)
    requires k <= |s| && i < j <= |s|
    requires forall a, b | 0 <= a < b < |s| :: Size(s[a]) >= Size(s[b])
    requires k > 0 ==> Size(s[k - 1]) >= Size(d)
    requires k < |s| ==> Size(s[k]) < Size(d)
    ensures Size(Inserted(s, k, d)[i]) >= Size(Inserted(s, k, d)[j])
  {
    hide Inserted, Size;
    InsertedAt(s, k, d, i);
    InsertedAt(s, k, d, j);
    assert i < k - 1 ==> Size(s[i]) >= Size(s[k - 1]);
    assert j - 1 > k ==> Size(s[k]) >= Size(s[j - 1]);
  }

  lemma InsertKeeps(s: seq<Device>, k: nat, d: Device)
    requires k <= |s| && AllDisks(s) && Descending(s) && d.Disk? && d.backing.Some?
    requires k > 0 ==> s[k - 1].capacityInKB >= d.capacityInKB
    requires k < |s| ==> s[k].capacityInKB < d.capacityInKB
    ensures AllDisks(Inserted(s, k, d)) && Descending(Inserted(s, k, d))
    ensures multiset(Inserted(s, k, d)) == multiset(s) + multiset{d}
  {
    hide Inserted;
    InsertedAllDisks(s, k, d);
    var t := Inserted(s, k, d);
    forall i, j | 0 <= i < j < |t| ensures t[i].capacityInKB >= t[j].capacityInKB {
      InsertedPair(s, k, d, i, j);
    }
  }

  function Locators(disks: seq<Device>): (r: seq<Locator>)
    requires AllDisks(disks)
    ensures |r| == |disks|
  {
    seq(|disks|, i requires 0 <= i < |disks| => Locator(disks[i].key, disks[i].backing.value))
  }

  lemma {:induction false} BackedAreDisks(devices: seq<Device>, refs: set<string>)
    ensures AllDisks(Backed(devices, refs))
  {
    if devices != [] {
      BackedAreDisks(devices[..|devices| - 1], refs);
    }
  }

  function Refs(datastores: seq<Datastore>): set<string> {
    set ds | ds in datastores :: ds.ref
  }

  /** `order` lists exactly the disks on the given datastores, largest first. */
  ghost predicate LargestFirst(order: seq<Device>, devices: seq<Device>, refs: set<string>) {
    AllDisks(order) && Descending(order) && multiset(order) == multiset(Backed(devices, refs))
  }

  /** `findLargestDisksOnDatastores`. */
  method FindLargestDisks(devices: seq<Device>, datastores: seq<Datastore>) returns (locators: seq<Locator>)
    ensures exists order: seq<Device> ::
              && LargestFirst(order, devices, Refs(datastores)) && locators == Locators(order)
              && forall i | 0 <= i < |order| :: locators[i] == Locator(order[i].key, order[i].backing.value)
  {
    hide OnOneOf;
    var refs := Refs(datastores);
    var disks: seq<Device> := [];
    var i := 0;
    while i < |devices|
      invariant 0 <= i <= |devices|
      invariant disks == Backed(devices[..i], refs)
    {
      assert devices[..i + 1][..i] == devices[..i];
      if OnOneOf(devices[i], refs) {
        disks := disks + [devices[i]];
      }
      i := i + 1;
    }
    assert devices[..i] == devices;
    BackedAreDisks(devices, refs);
    var sorted := SortByCapacity(disks);
    assert LargestFirst(sorted, devices, refs);
    locators := [];
    i := 0;
    while i < |sorted|
      invariant 0 <= i <= |sorted|
      invariant locators == Locators(sorted)[..i]
    {
      locators := locators + [Locator(sorted[i].key, sorted[i].backing.value)];
      i := i + 1;
    }
  }

  // ----- the relocation -----

  function Retargeted(locators: seq<Locator>, target: string): (r: seq<Locator>)
    ensures |r| == |locators|
  {
    seq(|locators|, i requires 0 <= i < |locators| => locators[i].(datastore := target))
  }

  /** `initiateStorageVmotion` on the first `n` locators: overwrites their datastore in place, then
      sends them. `accepted` is the outcome of the relocation. */
  method InitiateStorageVmotion(diskLocators: array<Locator>, n: nat, target: Datastore, accepted: bool)
    returns (request: seq<Locator>, ok: bool)
    requires n <= diskLocators.Length
    modifies diskLocators
    ensures request == diskLocators[..n] == Retargeted(old(diskLocators[..n]), target.ref)
    ensures forall i | 0 <= i < n :: request[i] == Locator(old(diskLocators[i]).diskId, target.ref)
    ensures diskLocators[n..] == old(diskLocators[n..])
    ensures ok == accepted
  {
    var i := 0;
    while i < n
      invariant 0 <= i <= n
      invariant forall j | 0 <= j < i :: diskLocators[j] == old(diskLocators[j]).(datastore := target.ref)
      invariant forall j | i <= j < diskLocators.Length :: diskLocators[j] == old(diskLocators[j])
    {
      diskLocators[i] := diskLocators[i].(datastore := target.ref);
      i := i + 1;
    }
    request, ok := diskLocators[..n], accepted;
  }

  /** The locators of all disks, for now naming the first candidate. */
  function AllLocators(devices: seq<Device>, target: string): seq<Locator> {
    if devices == [] then []
    else
      var last := devices[|devices| - 1];
      AllLocators(devices[..|devices| - 1], target) + (if last.Disk? then [Locator(last.key, target)] else [])
  }

  /** The locators name exactly the disks of the VM, and all of them name the target. */
  lemma {:induction false} AllLocatorsMembers(devices: seq<Device>, target: string, l: Locator)
    ensures l in AllLocators(devices, target) <==>
            l.datastore == target && exists d | d in devices :: d.Disk? && d.key == l.diskId
  {
    if devices != [] {
      var n := |devices| - 1;
      AllLocatorsMembers(devices[..n], target, l);
      assert devices == devices[..n] + [devices[n]];
    }
  }

  lemma {:induction false} AllLocatorsAdds(a: seq<Device>, b: seq<Device>, target: string)
    ensures AllLocators(a + b, target) == AllLocators(a, target) + AllLocators(b, target)
    ensures |a| == 1 ==> AllLocators(a, target) == if a[0].Disk? then [Locator(a[0].key, target)] else []
    decreases |b|
  {
    if b == [] {
      assert a + b == a;
    } else {
      var n := |b| - 1;
      AllLocatorsAdds(a, b[..n], target);
      assert (a + b)[..|a + b| - 1] == a + b[..n];
    }
  }

  /** They come in the order of the disks: the locator of a disk stands behind those of the disks in front
      of it, and in front of those of the disks behind it. */
  lemma AllLocatorsInOrder(devices: seq<Device>, target: string, j: nat)
    requires j < |devices|
    ensures AllLocators(devices, target) ==
            AllLocators(devices[..j], target)
            + (if devices[j].Disk? then [Locator(devices[j].key, target)] else [])
            + AllLocators(devices[j + 1..], target)
  {
    hide AllLocators;
    assert devices == devices[..j] + [devices[j]] + devices[j + 1..];
    AllLocatorsAdds(devices[..j] + [devices[j]], devices[j + 1..], target);
    AllLocatorsAdds(devices[..j], [devices[j]], target);
    AllLocatorsAdds([devices[j]], [], target);
  }

  lemma {:induction false} RetargetAll(devices: seq<Device>, first: string, target: string)
    ensures Retargeted(AllLocators(devices, first), target) == AllLocators(devices, target)
  {
    if devices != [] {
      var init, last := devices[..|devices| - 1], devices[|devices| - 1];
      RetargetAll(init, first, target);
      if last.Disk? {
        RetargetConcat(AllLocators(init, first), [Locator(last.key, first)], target);
      }
    }
  }

  lemma RetargetConcat(a: seq<Locator>, b: seq<Locator>, target: string)
    ensures Retargeted(a + b, target) == Retargeted(a, target) + Retargeted(b, target)
  {
  }

  /** The datastores whose name begins with the prefix. */
  function Compatible(prefix: string, all: seq<Datastore>): seq<Datastore> {
    if all == [] then []
    else
      var last := all[|all| - 1];
      Compatible(prefix, all[..|all| - 1]) + (if prefix <= last.name then [last] else [])
  }

  /** They are kept in their order: the selection goes through a list piece by piece. */
  lemma {:induction false} CompatibleAdds(prefix: string, a: seq<Datastore>, b: seq<Datastore>)
    ensures Compatible(prefix, a + b) == Compatible(prefix, a) + Compatible(prefix, b)
    ensures |a| == 1 ==> Compatible(prefix, a) == if prefix <= a[0].name then a else []
    decreases |b|
  {
    if b == [] {
      assert a + b == a;
    } else {
      var n := |b| - 1;
      CompatibleAdds(prefix, a, b[..n]);
      assert (a + b)[..|a + b| - 1] == a + b[..n];
    }
  }

  /** `GetCompatibleDatastores`: an error without a prefix or without a match. */
  method GetCompatibleDatastores(prefix: string, all: seq<Datastore>) returns (r: Option<seq<Datastore>>)
    ensures r == if prefix == "" || Compatible(prefix, all) == [] then None else Some(Compatible(prefix, all))
  {
    if prefix == "" {
      return None;
    }
    var selected: seq<Datastore> := [];
    var i := 0;
    while i < |all|
      invariant 0 <= i <= |all|
      invariant selected == Compatible(prefix, all[..i])
    {
      assert all[..i + 1][..i] == all[..i];
      if prefix <= all[i].name {
        selected := selected + [all[i]];
      }
      i := i + 1;
    }
    assert all[..i] == all;
    r := if selected == [] then None else Some(selected);
  }

  /** `Requested`: a relocation was sent; `ok` is its outcome. */
  datatype Motion = Refused | Requested(target: Datastore, request: seq<Locator>, ok: bool)

  /** `d` is a largest disk on the given datastores. */
  ghost predicate Largest(devices: seq<Device>, refs: set<string>, d: Device) {
    && d in Backed(devices, refs) && d.Disk? && d.backing.Some?
    && forall e | e in Backed(devices, refs) :: e.Disk? && e.capacityInKB <= d.capacityInKB
  }

  /** The target passes the filter and is chosen among those that do. */
  ghost predicate GoodTarget(source: string, sourceCluster: Option<string>, totalKB: int, stores: seq<Datastore>,
                             target: Datastore) {
    && target in stores && Keeps(source, sourceCluster, totalKB, target)
    && Chosen(Kept(source, sourceCluster, totalKB, stores), target)
  }

  /** The source has no target: its cluster cannot be read, nothing passes the filter, or several
      datastores pass and none of them can be read. */
  ghost predicate NoTarget(source: string, cluster: Option<Option<string>>, totalKB: int, stores: seq<Datastore>) {
    || cluster.None?
    || var kept := Kept(source, cluster.value, totalKB, stores);
       kept == [] || (|kept| > 1 && forall i | 0 <= i < |kept| :: FreeLater(kept[i]) < 0)
  }

  /** The last part: the locators of the largest disk or of all disks are sent to the target. */
  method Relocate(devices: seq<Device>, largestDisks: seq<Locator>, first: string, target: Datastore,
                  moveAllDisks: bool, accepted: bool)
    returns (r: Motion)
    requires largestDisks != []
    ensures var request := if moveAllDisks then AllLocators(devices, target.ref)
                           else [Locator(largestDisks[0].diskId, target.ref)];
            r == if request == [] then Refused else Requested(target, request, accepted)
  {
    var request, ok;
    if !moveAllDisks {
      var locators := new Locator[|largestDisks|](i requires 0 <= i < |largestDisks| => largestDisks[i]);
      request, ok := InitiateStorageVmotion(locators, 1, target, accepted);
      assert request == [Locator(largestDisks[0].diskId, target.ref)];
    } else {
      var diskLocators := CollectLocators(devices, first);
      RetargetAll(devices, first, target.ref);
      if |diskLocators| == 0 {
        return Refused;
      }
      var locators := new Locator[|diskLocators|](i requires 0 <= i < |diskLocators| => diskLocators[i]);
      assert locators[..] == diskLocators;
      request, ok := InitiateStorageVmotion(locators, |diskLocators|, target, accepted);
      assert request == AllLocators(devices, target.ref);
    }
    r := Requested(target, request, ok);
  }

  /** A request that moves `biggest`, a largest disk, or all disks off its datastore. */
  ghost predicate RequestFor(biggest: Device, devices: seq<Device>, stores: seq<Datastore>,
                             clusterOf: string -> Option<Option<string>>, moveAllDisks: bool,
                             target: Datastore, request: seq<Locator>) {
    && Largest(devices, Refs(stores), biggest)
    && clusterOf(biggest.backing.value).Some?
    && GoodTarget(biggest.backing.value, clusterOf(biggest.backing.value).value, WrappedTotal(devices), stores, target)
    && request == if moveAllDisks then AllLocators(devices, target.ref) else [Locator(biggest.key, target.ref)]
  }

  /** There is no target for `biggest`, a largest disk. */
  ghost predicate RefusalFor(biggest: Device, devices: seq<Device>, stores: seq<Datastore>,
                             clusterOf: string -> Option<Option<string>>) {
    && Largest(devices, Refs(stores), biggest)
    && NoTarget(biggest.backing.value, clusterOf(biggest.backing.value), WrappedTotal(devices), stores)
  }

  /** `StorageVmotion`, from the VM's devices and vCenter's datastores on. `clusterOf` answers the read
      of the source's cluster. */
  method StorageVmotion(devices: seq<Device>, all: seq<Datastore>, prefix: string,
                        clusterOf: string -> Option<Option<string>>, moveAllDisks: bool, accepted: bool)
    returns (r: Motion)
    ensures r.Requested? ==>
              var stores := Compatible(prefix, all);
              && r.ok == accepted
              && exists biggest :: RequestFor(biggest, devices, stores, clusterOf, moveAllDisks, r.target, r.request)
    ensures r.Refused? ==>
              || prefix == "" || Backed(devices, Refs(Compatible(prefix, all))) == []
              || exists biggest :: RefusalFor(biggest, devices, Compatible(prefix, all), clusterOf)
  {
    hide Keeps, OnOneOf, Kept, Backed, Compatible, WrappedTotal, AllLocators, Chosen;
    var stores := GetCompatibleDatastores(prefix, all);
    if stores.None? {
      NothingBacked(devices);
      assert prefix != "" ==> Refs(Compatible(prefix, all)) == {};
      return Refused;
    }
    var largestDisks := FindLargestDisks(devices, stores.value);
    ghost var order :| LargestFirst(order, devices, Refs(stores.value)) && largestDisks == Locators(order);
    if |largestDisks| == 0 {
      return Refused;
    }
    ghost var biggest := order[0];
    FirstIsLargest(devices, Refs(stores.value), order);
    var source := largestDisks[0].datastore;
    var targets := FilterTargetDatastores(source, clusterOf(source), stores.value, devices);
    if targets.None? {
      assert RefusalFor(biggest, devices, stores.value, clusterOf);
      return Refused;
    }
    var target := ChooseTarget(targets.value);
    if target.None? {
      assert RefusalFor(biggest, devices, stores.value, clusterOf);
      return Refused;
    }
    ChosenIsGood(source, clusterOf(source).value, WrappedTotal(devices), stores.value, target.value);
    LargestIsLocated(devices, Refs(stores.value), biggest, target.value.ref);
    r := Relocate(devices, largestDisks, targets.value[0].ref, target.value, moveAllDisks, accepted);
    assert RequestFor(biggest, devices, stores.value, clusterOf, moveAllDisks, r.target, r.request);
  }

  lemma {:induction false} NothingBacked(devices: seq<Device>)
    ensures Backed(devices, {}) == []
  {
    if devices != [] {
      NothingBacked(devices[..|devices| - 1]);
    }
  }

  lemma LargestIsLocated(devices: seq<Device>, refs: set<string>, d: Device, target: string)
    requires Largest(devices, refs, d)
    ensures AllLocators(devices, target) != []
  {
    BackedMembers(devices, refs, d);
    DiskIsLocated(devices, d, target);
  }

  lemma {:induction false} DiskIsLocated(devices: seq<Device>, d: Device, target: string)
    requires d in devices && d.Disk?
    ensures AllLocators(devices, target) != []
  {
    var n := |devices| - 1;
    if devices[n] != d {
      assert devices == devices[..n] + [devices[n]];
      DiskIsLocated(devices[..n], d, target);
    }
  }

  method CollectLocators(devices: seq<Device>, ref: string) returns (locators: seq<Locator>)
    ensures locators == AllLocators(devices, ref)
  {
    locators := [];
    var i := 0;
    while i < |devices|
      invariant 0 <= i <= |devices|
      invariant locators == AllLocators(devices[..i], ref)
    {
      assert devices[..i + 1][..i] == devices[..i];
      if devices[i].Disk? {
        locators := locators + [Locator(devices[i].key, ref)];
      }
      i := i + 1;
    }
    assert devices[..i] == devices;
  }

  lemma FirstIsLargest(devices: seq<Device>, refs: set<string>, order: seq<Device>)
    requires order != [] && LargestFirst(order, devices, refs)
    ensures Largest(devices, refs, order[0])
  {
    hide Backed;
    var backed := Backed(devices, refs);
    assert order[0] in multiset(order) && order[0] in multiset(backed);
    forall e | e in backed ensures e.Disk? && e.capacityInKB <= order[0].capacityInKB {
      assert e in multiset(backed) && e in multiset(order);
      var i :| 0 <= i < |order| && order[i] == e;
    }
  }

  lemma ChosenIsGood(source: string, sourceCluster: Option<string>, totalKB: int, stores: seq<Datastore>,
                     target: Datastore)
    requires Chosen(Kept(source, sourceCluster, totalKB, stores), target)
    ensures GoodTarget(source, sourceCluster, totalKB, stores, target)
  {
    hide Keeps, Kept;
    KeptMembers(source, sourceCluster, totalKB, stores, target);
  }

  /** No datastore that passes the filter is known to have more free space than the target. */
  lemma TargetIsEmptiest(source: string, sourceCluster: Option<string>, totalKB: int, stores: seq<Datastore>,
                         target: Datastore, ds: Datastore)
    requires GoodTarget(source, sourceCluster, totalKB, stores, target)
    requires ds in stores && Keeps(source, sourceCluster, totalKB, ds)
    ensures ds.later.Some? ==> target.later.Some? && ds.later.value.free <= target.later.value.free
  {
    hide Keeps, Kept, Chosen;
    KeptMembers(source, sourceCluster, totalKB, stores, ds);
    var kept := Kept(source, sourceCluster, totalKB, stores);
    var i :| 0 <= i < |kept| && kept[i] == ds;
    var k := ChosenMeans(kept, target);
  }

  // ----- what the plan guarantees -----

  lemma {:induction false} DiskWithinTotal(devices: seq<Device>, d: Device)
    requires NonNegative(devices) && d in devices && d.Disk?
    ensures 0 <= d.capacityInKB <= TotalKB(devices)
  {
    var n := |devices| - 1;
    assert devices == devices[..n] + [devices[n]];
    TotalMonotone(devices, n);
    if d in devices[..n] {
      DiskWithinTotal(devices[..n], d);
    }
  }

  /** In both modes the target is neither the source nor in the source's cluster, has room for what is
      moved, and is at most 90 percent full afterwards, up to 1023 bytes. `movedKB` is the capacity of
      all disks, or of one of them. */
  lemma NoOvercommit(devices: seq<Device>, source: string, sourceCluster: Option<string>, stores: seq<Datastore>,
                     target: Datastore, movedKB: int)
    requires SaneDisks(devices) && GoodTarget(source, sourceCluster, WrappedTotal(devices), stores, target)
    requires Sane(target.summary.value)
    requires movedKB == TotalKB(devices) || exists d | d in devices :: d.Disk? && movedKB == d.capacityInKB
    ensures target.ref != source
    ensures sourceCluster.Some? && target.cluster.value.Some? ==> sourceCluster != target.cluster.value
    ensures 1024 * movedKB <= target.summary.value.free
    ensures var s := target.summary.value; 10 * (s.capacity - s.free + 1024 * movedKB) <= 9 * s.capacity + 10230
  {
    hide Kept, HasRoom;
    WrappedIsTotal(devices, |devices|);
    assert devices[..|devices|] == devices;
    TotalMonotone(devices, 0);
    HasRoomBound(target.summary.value, TotalKB(devices));
    if movedKB != TotalKB(devices) {
      var d :| d in devices && d.Disk? && movedKB == d.capacityInKB;
      DiskWithinTotal(devices, d);
    }
  }
}

/** Moving the disks of one VM to another: first every non-root disk is detached, then every one is
    attached, and any of these calls can fail. */
module DiskMove {
  import opened Wrappers

  /** A disk has a key and a unit number; a disk without one makes the loops dereference nil. */
  datatype Device = Disk(key: int, unit: Option<int>) | OtherDevice(key: int)

  /** What becomes of a reconfiguration and the wait for it: applied; refused, with no effect; or
      applied, but reported as an error because the wait for it failed. */
  datatype Reply = Applied | Refused | Lost

  datatype Result = Done | Failed | Crashed

  /** The devices of each VM, and the disks that are attached to no VM. */
  datatype World = World(attached: map<string, multiset<Device>>, loose: multiset<Device>)

  // ----- which disks move -----

  predicate NonRoot(d: Device) {
    d.Disk? && d.unit.Some? && d.unit.value != 0
  }

  predicate NoUnit(d: Device) {
    d.Disk? && d.unit.None?
  }

  /** The devices in front of the first disk without a unit number. */
  function Readable(devices: seq<Device>): (n: nat)
    ensures n <= |devices|
    ensures forall i | 0 <= i < n :: devices[i].Disk? ==> devices[i].unit.Some?
    ensures n < |devices| ==> devices[n].Disk? && devices[n].unit.None?
  {
    if devices == [] || NoUnit(devices[0]) then 0
    else
      assert forall i | 1 <= i < |devices| :: devices[i] == devices[1..][i - 1];
      1 + Readable(devices[1..])
  }

  function NonRoots(devices: seq<Device>): seq<Device> {
    if devices == [] then []
    else
      var last := devices[|devices| - 1];
      NonRoots(devices[..|devices| - 1]) + (if NonRoot(last) then [last] else [])
  }

  /** The disks the loops get to see. */
  function Movable(devices: seq<Device>): seq<Device> {
    NonRoots(devices[..Readable(devices)])
  }

  lemma {:induction false} NonRootsCount(devices: seq<Device>, d: Device)
    ensures multiset(NonRoots(devices))[d] ==
            if d.Disk? && d.unit.Some? && d.unit.value != 0 then multiset(devices)[d] else 0
  {
    if devices != [] {
      var n := |devices| - 1;
      NonRootsCount(devices[..n], d);
      assert devices == devices[..n] + [devices[n]];
    }
  }

  /** What moves, on the data: of the devices in front of the first disk without a unit number, every
      disk whose unit number is not 0, and nothing else. */
  lemma MovableCount(devices: seq<Device>, d: Device)
    ensures multiset(Movable(devices))[d] ==
            if d.Disk? && d.unit.Some? && d.unit.value != 0 then multiset(devices[..Readable(devices)])[d] else 0
  {
    NonRootsCount(devices[..Readable(devices)], d);
  }

  lemma {:induction false} NonRootsAdds(a: seq<Device>, b: seq<Device>)
    ensures NonRoots(a + b) == NonRoots(a) + NonRoots(b)
    ensures |a| == 1 ==> NonRoots(a) == if a[0].Disk? && a[0].unit.Some? && a[0].unit.value != 0 then a else []
    decreases |b|
  {
    if b == [] {
      assert a + b == a;
    } else {
      var n := |b| - 1;
      NonRootsAdds(a, b[..n]);
      assert (a + b)[..|a + b| - 1] == a + b[..n];
    }
  }

  /** They move in the order in which they are listed: device number `j` moves, if it is a disk whose unit
      number is not 0, behind those in front of it. */
  lemma MovableInOrder(devices: seq<Device>, j: nat)
    requires j < Readable(devices)
    ensures Movable(devices) ==
            NonRoots(devices[..j]) + (if devices[j].Disk? && devices[j].unit != Some(0) then [devices[j]] else [])
            + NonRoots(devices[j + 1..Readable(devices)])
  {
    hide NonRoots, Readable;
    var n := Readable(devices);
    assert devices[..n] == devices[..j] + [devices[j]] + devices[j + 1..n];
    NonRootsAdds(devices[..j] + [devices[j]], devices[j + 1..n]);
    NonRootsAdds(devices[..j], [devices[j]]);
    NonRootsAdds([devices[j]], []);
  }

  /** The disks that move are among the devices listed, and none of them is a root disk. */
  lemma MovableWithin(devices: seq<Device>)
    ensures multiset(Movable(devices)) <= multiset(devices)
    ensures forall d | d in Movable(devices) :: d.Disk? && d.unit.Some? && d.unit.value != 0
  {
    hide Readable, Movable;
    var n, moved := Readable(devices), Movable(devices);
    assert devices == devices[..n] + devices[n..];
    forall d ensures multiset(moved)[d] <= multiset(devices)[d] {
      MovableCount(devices, d);
    }
    forall d | d in moved ensures d.Disk? && d.unit.Some? && d.unit.value != 0 {
      MovableCount(devices, d);
      assert d in multiset(moved);
    }
  }

  lemma {:induction false} NonRootsPrefix(devices: seq<Device>, i: nat)
    requires i <= |devices|
    ensures NonRoots(devices[..i]) <= NonRoots(devices)
    decreases |devices| - i
  {
    if i == |devices| {
      assert devices[..i] == devices;
    } else {
      NonRootsPrefix(devices, i + 1);
      assert devices[..i + 1][..i] == devices[..i];
    }
  }

  // ----- the states of a move -----

  function Detached(w: World, vm: string, d: Device): World
    requires vm in w.attached
  {
    World(w.attached[vm := w.attached[vm] - multiset{d}], w.loose + multiset{d})
  }

  function Attached(w: World, vm: string, d: Device): World
    requires vm in w.attached
  {
    World(w.attached[vm := w.attached[vm] + multiset{d}], w.loose - multiset{d})
  }

  /** The world after `n` calls that took effect: first the detachments, then the attachments. */
  function Progress(w: World, source: string, target: string, moved: seq<Device>, n: nat): (r: World)
    requires source in w.attached && target in w.attached
    requires n <= 2 * |moved|
    ensures source in r.attached && target in r.attached
  {
    if n == 0 then w
    else if n <= |moved| then Detached(Progress(w, source, target, moved, n - 1), source, moved[n - 1])
    else Attached(Progress(w, source, target, moved, n - 1), target, moved[n - 1 - |moved|])
  }

  /** The first call that is not answered with success, or `limit`. */
  function FirstBad(reply: nat -> Reply, from: nat, limit: nat): (c: nat)
    requires from <= limit
    ensures from <= c <= limit
    ensures forall i: nat | from <= i < c :: reply(i) == Applied
    ensures c < limit ==> reply(c) != Applied
    decreases limit - from
  {
    if from == limit || reply(from) != Applied then from else FirstBad(reply, from + 1, limit)
  }

  /** How many calls are made at most: the attachments are not reached after a crash. */
  function Limit(devices: seq<Device>): nat {
    if Readable(devices) < |devices| then |Movable(devices)| else 2 * |Movable(devices)|
  }

  function Effective(reply: nat -> Reply, limit: nat): (n: nat)
    ensures n <= limit
  {
    var c := FirstBad(reply, 0, limit);
    if c < limit && reply(c) == Lost then c + 1 else c
  }

  function ResultOf(reply: nat -> Reply, devices: seq<Device>): Result {
    if FirstBad(reply, 0, Limit(devices)) < Limit(devices) then Failed
    else if Readable(devices) < |devices| then Crashed
    else Done
  }

  lemma FirstBadIs(reply: nat -> Reply, from: nat, limit: nat, c: nat)
    requires from <= c <= limit
    requires forall i: nat | from <= i < c :: reply(i) == Applied
    requires c < limit ==> reply(c) != Applied
    ensures FirstBad(reply, from, limit) == c
  {
    hide FirstBad;
  }

  lemma ProgressNone(w: World, source: string, target: string, moved: seq<Device>)
    requires source in w.attached && target in w.attached
    ensures Progress(w, source, target, moved, 0) == w
  {
  }

  lemma ProgressNext(w: World, source: string, target: string, moved: seq<Device>, n: nat)
    requires source in w.attached && target in w.attached && n < 2 * |moved|
    ensures var p := Progress(w, source, target, moved, n);
            Progress(w, source, target, moved, n + 1) ==
               if n < |moved| then Detached(p, source, moved[n]) else Attached(p, target, moved[n - |moved|])
  {
  }

  // ----- where every disk is, at every step -----

  lemma TakePush<T>(s: seq<T>, k: nat)
    requires k < |s|
    ensures multiset(s[..k + 1]) == multiset(s[..k]) + multiset{s[k]}
  {
    assert s[..k + 1] == s[..k] + [s[k]];
  }

  lemma DropPop<T>(s: seq<T>, j: nat)
    requires j < |s|
    ensures multiset(s[j..]) == multiset(s[j + 1..]) + multiset{s[j]}
  {
    assert s[j..] == [s[j]] + s[j + 1..];
  }

  /** The disks detached and not attached after `n` effective calls. */
  function InFlight(moved: seq<Device>, n: nat): seq<Device>
    requires n <= 2 * |moved|
  {
    if n <= |moved| then moved[..n] else moved[n - |moved|..]
  }

  /** The disks detached after `n` effective calls. */
  function Gone(moved: seq<Device>, n: nat): seq<Device>
    requires n <= 2 * |moved|
  {
    if n <= |moved| then moved[..n] else moved
  }

  /** The disks attached after `n` effective calls. */
  function Arrived(moved: seq<Device>, n: nat): seq<Device>
    requires n <= 2 * |moved|
  {
    if n <= |moved| then [] else moved[..n - |moved|]
  }

  lemma InFlightNext(moved: seq<Device>, n: nat)
    requires n < 2 * |moved|
    ensures n < |moved| ==> multiset(InFlight(moved, n + 1)) == multiset(InFlight(moved, n)) + multiset{moved[n]}
    ensures n >= |moved| ==>
              multiset(InFlight(moved, n)) == multiset(InFlight(moved, n + 1)) + multiset{moved[n - |moved|]}
  {
    if n < |moved| {
      TakePush(moved, n);
    } else {
      DropPop(moved, n - |moved|);
      assert moved[..|moved|] == moved && moved[0..] == moved;
    }
  }

  lemma GoneNext(moved: seq<Device>, n: nat)
    requires n < 2 * |moved|
    ensures multiset(Gone(moved, n + 1)) ==
            multiset(Gone(moved, n)) + if n < |moved| then multiset{moved[n]} else multiset{}
  {
    if n < |moved| {
      TakePush(moved, n);
    } else {
      assert moved[..|moved|] == moved;
    }
  }

  lemma ArrivedNext(moved: seq<Device>, n: nat)
    requires n < 2 * |moved|
    ensures multiset(Arrived(moved, n + 1)) ==
            multiset(Arrived(moved, n)) + if n < |moved| then multiset{} else multiset{moved[n - |moved|]}
  {
    if n >= |moved| {
      TakePush(moved, n - |moved|);
    }
  }

  lemma InFlightGrows(p: multiset<Device>, loose: multiset<Device>, moved: seq<Device>, n: nat)
    requires n < |moved| && p == loose + multiset(InFlight(moved, n))
    ensures p + multiset{moved[n]} == loose + multiset(InFlight(moved, n + 1))
  {
    hide InFlight;
    InFlightNext(moved, n);
  }

  lemma InFlightShrinks(p: multiset<Device>, loose: multiset<Device>, moved: seq<Device>, n: nat)
    requires |moved| <= n < 2 * |moved| && p == loose + multiset(InFlight(moved, n))
    ensures p - multiset{moved[n - |moved|]} == loose + multiset(InFlight(moved, n + 1))
  {
    hide InFlight;
    InFlightNext(moved, n);
  }

  lemma LooseNext(w: World, source: string, target: string, moved: seq<Device>, n: nat)
    requires source in w.attached && target in w.attached && n < 2 * |moved|
    requires Progress(w, source, target, moved, n).loose == w.loose + multiset(InFlight(moved, n))
    ensures Progress(w, source, target, moved, n + 1).loose == w.loose + multiset(InFlight(moved, n + 1))
  {
    hide InFlight;
    var p := Progress(w, source, target, moved, n).loose;
    if n < |moved| {
      assert Progress(w, source, target, moved, n + 1).loose == p + multiset{moved[n]};
      InFlightGrows(p, w.loose, moved, n);
    } else {
      assert Progress(w, source, target, moved, n + 1).loose == p - multiset{moved[n - |moved|]};
      InFlightShrinks(p, w.loose, moved, n);
    }
  }

  lemma {:induction false} LooseIs(w: World, source: string, target: string, moved: seq<Device>, n: nat)
    requires source in w.attached && target in w.attached && n <= 2 * |moved|
    ensures Progress(w, source, target, moved, n).loose == w.loose + multiset(InFlight(moved, n))
  {
    hide InFlight, Progress, Attached, Detached;
    if n == 0 {
      NoneYet(moved);
      ProgressNone(w, source, target, moved);
    } else {
      LooseIs(w, source, target, moved, n - 1);
      LooseNext(w, source, target, moved, n - 1);
    }
  }

  lemma NoneYet(moved: seq<Device>)
    ensures InFlight(moved, 0) == Gone(moved, 0) == Arrived(moved, 0) == []
  {
  }

  /** What a VM holds: what it held, less the detached disks if it is the source, and with the
      attached disks if it is the target. */
  function Holds(all: multiset<Device>, isSource: bool, isTarget: bool, moved: seq<Device>, n: nat): multiset<Device>
    requires n <= 2 * |moved|
  {
    all - (if isSource then multiset(Gone(moved, n)) else multiset{})
    + (if isTarget then multiset(Arrived(moved, n)) else multiset{})
  }

  lemma HoldsLess(all: multiset<Device>, isSource: bool, isTarget: bool, moved: seq<Device>, n: nat)
    requires n < |moved|
    ensures Holds(all, isSource, isTarget, moved, n + 1) ==
            var h := Holds(all, isSource, isTarget, moved, n); if isSource then h - multiset{moved[n]} else h
  {
    hide Gone, Arrived;
    GoneNext(moved, n);
    NothingArrivesEarly(moved, n);
    NothingArrivesEarly(moved, n + 1);
    MinusMinus(all, multiset(Gone(moved, n)), multiset{moved[n]});
  }

  lemma HoldsMore(all: multiset<Device>, isSource: bool, isTarget: bool, moved: seq<Device>, n: nat)
    requires |moved| <= n < 2 * |moved|
    ensures Holds(all, isSource, isTarget, moved, n + 1) ==
            var h := Holds(all, isSource, isTarget, moved, n); if isTarget then h + multiset{moved[n - |moved|]} else h
  {
    hide Gone, Arrived;
    GoneNext(moved, n);
    ArrivedNext(moved, n);
    var left := all - (if isSource then multiset(Gone(moved, n)) else multiset{});
    PlusPlus(left, multiset(Arrived(moved, n)), multiset{moved[n - |moved|]});
  }

  lemma AttachedNext(w: World, source: string, target: string, moved: seq<Device>, n: nat, vm: string)
    requires source in w.attached && target in w.attached && vm in w.attached && n < 2 * |moved|
    requires vm in Progress(w, source, target, moved, n).attached
    requires Progress(w, source, target, moved, n).attached[vm] ==
             Holds(w.attached[vm], vm == source, vm == target, moved, n)
    ensures vm in Progress(w, source, target, moved, n + 1).attached
    ensures Progress(w, source, target, moved, n + 1).attached[vm] ==
            Holds(w.attached[vm], vm == source, vm == target, moved, n + 1)
  {
    hide Holds;
    if n < |moved| {
      HoldsLess(w.attached[vm], vm == source, vm == target, moved, n);
    } else {
      HoldsMore(w.attached[vm], vm == source, vm == target, moved, n);
    }
  }

  lemma {:induction false} AttachedIs(w: World, source: string, target: string, moved: seq<Device>, n: nat, vm: string)
    requires source in w.attached && target in w.attached && vm in w.attached && n <= 2 * |moved|
    ensures vm in Progress(w, source, target, moved, n).attached
    ensures Progress(w, source, target, moved, n).attached[vm] ==
            Holds(w.attached[vm], vm == source, vm == target, moved, n)
  {
    hide Progress, Holds;
    if n == 0 {
      ProgressNone(w, source, target, moved);
      HoldsAll(w.attached[vm], vm == source, vm == target, moved);
    } else {
      AttachedIs(w, source, target, moved, n - 1, vm);
      AttachedNext(w, source, target, moved, n - 1, vm);
    }
  }

  lemma HoldsAll(all: multiset<Device>, isSource: bool, isTarget: bool, moved: seq<Device>)
    ensures Holds(all, isSource, isTarget, moved, 0) == all
  {
  }

  lemma NothingArrivesEarly(moved: seq<Device>, n: nat)
    requires n <= 2 * |moved|
    ensures n <= |moved| ==> Arrived(moved, n) == []
  {
  }

  lemma PlusPlus<T>(a: multiset<T>, b: multiset<T>, c: multiset<T>)
    ensures a + b + c == a + (b + c)
  {
  }

  lemma MinusMinus<T>(a: multiset<T>, b: multiset<T>, c: multiset<T>)
    ensures a - b - c == a - (b + c)
  {
  }

  /** At every step of a move, the moved disks are divided in three: those not yet detached, those
      detached and not attached, and those attached. */
  lemma ThreePlaces(moved: seq<Device>, n: nat)
    requires n <= 2 * |moved|
    ensures moved == Gone(moved, n) + moved[|Gone(moved, n)|..]
    ensures Gone(moved, n) == Arrived(moved, n) + InFlight(moved, n)
  {
  }

  /** The first are still on the source VM, the second are attached nowhere, the third are on the
      target VM. Nothing else changes on any VM, in particular no root disk. The two VMs may be the
      same. */
  lemma EveryStep(w: World, source: string, target: string, moved: seq<Device>, n: nat, vm: string)
    requires source in w.attached && target in w.attached && vm in w.attached && n <= 2 * |moved|
    requires multiset(moved) <= w.attached[source]
    ensures var p := Progress(w, source, target, moved, n);
            && p.loose == w.loose + multiset(InFlight(moved, n))
            && vm in p.attached
            && p.attached[vm] ==
               (if vm == source then (w.attached[vm] - multiset(moved)) + multiset(moved[|Gone(moved, n)|..])
                else w.attached[vm])
               + (if vm == target then multiset(Arrived(moved, n)) else multiset{})
  {
    hide Progress, Gone, InFlight, Arrived;
    LooseIs(w, source, target, moved, n);
    AttachedIs(w, source, target, moved, n, vm);
    ThreePlaces(moved, n);
    SplitMoved(w.attached[source], moved, Gone(moved, n), moved[|Gone(moved, n)|..]);
  }

  lemma SplitMoved(all: multiset<Device>, moved: seq<Device>, gone: seq<Device>, left: seq<Device>)
    requires moved == gone + left && multiset(moved) <= all
    ensures all - multiset(gone) == (all - multiset(moved)) + multiset(left)
  {
    assert multiset(moved) == multiset(gone) + multiset(left);
  }

  /** At no step is a root disk, or a device that is no disk, anywhere but where it was. */
  lemma RootsStay(w: World, source: string, target: string, devices: seq<Device>, n: nat, vm: string, d: Device)
    requires source in w.attached && target in w.attached && vm in w.attached
    requires multiset(devices) <= w.attached[source] && n <= 2 * |Movable(devices)|
    requires d.OtherDevice? || d.unit.None? || d.unit == Some(0)
    ensures var p := Progress(w, source, target, Movable(devices), n);
            vm in p.attached && p.attached[vm][d] == w.attached[vm][d] && p.loose[d] == w.loose[d]
  {
    hide Progress, Gone, InFlight, Arrived, Movable, Readable;
    var moved := Movable(devices);
    MovableWithin(devices);
    EveryStep(w, source, target, moved, n, vm);
    ThreePlaces(moved, n);
    var gone, left := Gone(moved, n), moved[|Gone(moved, n)|..];
    assert multiset(moved) == multiset(gone) + multiset(left);
    assert multiset(gone) == multiset(Arrived(moved, n)) + multiset(InFlight(moved, n));
    assert multiset(moved)[d] == 0 by {
      assert d !in moved;
    }
  }

  /** A move that ends with success has moved every disk and left none loose. */
  lemma SuccessMovesAll(w: World, source: string, target: string, moved: seq<Device>)
    requires source in w.attached && target in w.attached
    requires multiset(moved) <= w.attached[source]
    ensures var p := Progress(w, source, target, moved, 2 * |moved|);
            && p.loose == w.loose
            && (source == target ==> p.attached[source] == w.attached[source])
            && (source != target ==>
                  && p.attached[source] == w.attached[source] - multiset(moved)
                  && p.attached[target] == w.attached[target] + multiset(moved))
  {
    hide Progress, Gone, InFlight, Arrived;
    EveryStep(w, source, target, moved, 2 * |moved|, source);
    EveryStep(w, source, target, moved, 2 * |moved|, target);
    AtTheEnd(moved);
    PutBack(w.attached[source], multiset(moved));
    PlusNothing(w.loose);
    PlusNothing(w.attached[target] + multiset(moved));
  }

  /** In terms of the devices listed: the target gains, and the source loses, every disk whose unit number
      is not 0, and no other device. */
  lemma DoneMovesDataDisks(w: World, source: string, target: string, devices: seq<Device>, reply: nat -> Reply,
                           d: Device)
    requires source in w.attached && target in w.attached && source != target
    requires multiset(devices) <= w.attached[source] && ResultOf(reply, devices) == Done
    ensures var p := Progress(w, source, target, Movable(devices), Effective(reply, Limit(devices)));
            var share := if d.Disk? && d.unit != Some(0) then multiset(devices)[d] else 0;
            && p.attached[source][d] + share == w.attached[source][d]
            && p.attached[target][d] == w.attached[target][d] + share
            && p.loose == w.loose
  {
    hide Progress, ResultOf, Effective, Limit, Readable, Movable;
    var moved := Movable(devices);
    MovableWithin(devices);
    DoneIsAll(reply, devices);
    SuccessMovesAll(w, source, target, moved);
    DataShare(devices, d);
    TakenFrom(w.attached[source], multiset(moved), d);
  }

  lemma TakenFrom<T>(a: multiset<T>, b: multiset<T>, x: T)
    requires b <= a
    ensures (a - b)[x] + b[x] == a[x]
  {
  }

  lemma DoneIsAll(reply: nat -> Reply, devices: seq<Device>)
    requires ResultOf(reply, devices) == Done
    ensures Readable(devices) == |devices| && Effective(reply, Limit(devices)) == 2 * |Movable(devices)|
  {
    hide FirstBad, Readable, Movable;
  }

  lemma DataShare(devices: seq<Device>, d: Device)
    requires Readable(devices) == |devices|
    ensures multiset(Movable(devices))[d] == if d.Disk? && d.unit != Some(0) then multiset(devices)[d] else 0
  {
    hide Readable, Movable;
    MovableCount(devices, d);
    assert devices[..|devices|] == devices;
    if d.Disk? && d.unit.None? {
      assert d !in devices;
      assert d !in multiset(devices);
    }
  }

  /** How a move ends: done if and only if every disk has a unit number and all calls, a detachment and an
      attachment for each disk that moves, are applied; failed if and only if one of the calls made is not. */
  lemma ResultMeans(reply: nat -> Reply, devices: seq<Device>)
    ensures ResultOf(reply, devices) == Done <==>
            && (forall d | d in devices :: d.Disk? ==> d.unit.Some?)
            && forall i: nat | i < 2 * |Movable(devices)| :: reply(i) == Applied
    ensures ResultOf(reply, devices) == Crashed <==>
            && (exists d | d in devices :: d.Disk? && d.unit.None?)
            && forall i: nat | i < |Movable(devices)| :: reply(i) == Applied
  {
    hide Movable, Readable, FirstBad;
    var n := Readable(devices);
    if n < |devices| {
      assert devices[n] in devices;
    }
  }

  lemma PutBack<T>(a: multiset<T>, b: multiset<T>)
    requires b <= a
    ensures (a - b) + multiset{} + b == a && (a - b) + multiset{} + multiset{} == a - b
  {
  }

  lemma PlusNothing<T>(a: multiset<T>)
    ensures a + multiset{} == a
  {
  }

  lemma AtTheEnd(moved: seq<Device>)
    ensures var n := 2 * |moved|;
            InFlight(moved, n) == [] && Arrived(moved, n) == moved && moved[|Gone(moved, n)|..] == []
  {
  }

  /** A move that fails at call number `c` strands exactly the disks that were detached and not
      attached: those in front of the failing detachment, or those from the failing attachment on. A
      call whose effect took place although it was reported as an error counts as done. */
  lemma FailureStrands(w: World, source: string, target: string, devices: seq<Device>, reply: nat -> Reply)
    requires source in w.attached && target in w.attached
    requires ResultOf(reply, devices) == Failed
    ensures var moved, c := Movable(devices), FirstBad(reply, 0, Limit(devices));
            var lost := if reply(c) == Lost then 1 else 0;
            Progress(w, source, target, moved, Effective(reply, Limit(devices))).loose ==
            w.loose + if c < |moved| then multiset(moved[..c + lost]) else multiset(moved[c - |moved| + lost..])
  {
    hide Progress, FirstBad, Readable, Movable, InFlight;
    var moved, c := Movable(devices), FirstBad(reply, 0, Limit(devices));
    LooseIs(w, source, target, moved, Effective(reply, Limit(devices)));
    InFlightAt(moved, c, if reply(c) == Lost then 1 else 0);
  }

  lemma InFlightAt(moved: seq<Device>, c: nat, lost: nat)
    requires c < 2 * |moved| && lost <= 1
    ensures InFlight(moved, c + lost) == if c < |moved| then moved[..c + lost] else moved[c - |moved| + lost..]
  {
    assert moved[..|moved|] == moved && moved[0..] == moved;
  }

  /** A move that crashes at a disk without a unit number strands all the disks in front of it. */
  lemma CrashStrands(w: World, source: string, target: string, devices: seq<Device>, reply: nat -> Reply)
    requires source in w.attached && target in w.attached
    requires ResultOf(reply, devices) == Crashed
    ensures Progress(w, source, target, Movable(devices), Effective(reply, Limit(devices))).loose ==
            w.loose + multiset(Movable(devices))
  {
    hide Progress, FirstBad, Readable, Movable;
    var moved := Movable(devices);
    LooseIs(w, source, target, moved, Effective(reply, Limit(devices)));
    assert moved[..|moved|] == moved && moved[0..] == moved;
  }

  /** The devices on the two VMs, counted once if they are the same, and those on no VM. */
  function Together(w: World, source: string, target: string): multiset<Device>
    requires source in w.attached && target in w.attached
  {
    w.attached[source] + (if source == target then multiset{} else w.attached[target]) + w.loose
  }

  /** Devices are neither created nor destroyed by a move. */
  lemma MoveConserves(w: World, source: string, target: string, moved: seq<Device>, n: nat)
    requires source in w.attached && target in w.attached && n <= 2 * |moved|
    requires multiset(moved) <= w.attached[source]
    ensures Together(Progress(w, source, target, moved, n), source, target) == Together(w, source, target)
  {
    hide Progress, Gone, InFlight, Arrived;
    EveryStep(w, source, target, moved, n, source);
    EveryStep(w, source, target, moved, n, target);
    ThreePlaces(moved, n);
    var gone, left := Gone(moved, n), moved[|Gone(moved, n)|..];
    assert multiset(moved) == multiset(gone) + multiset(left);
    assert multiset(gone) == multiset(Arrived(moved, n)) + multiset(InFlight(moved, n));
    var kept := w.attached[source] - multiset(moved);
    assert w.attached[source] == kept + multiset(moved);
  }

  // ----- vCenter and the loops -----

  class VCenter {
    var world: World

    constructor (world: World)
      ensures this.world == world
    {
      this.world := world;
    }

    /** Submits the removal of a disk and waits for it. */
    method Detach(vm: string, d: Device, reply: Reply) returns (ok: bool)
      requires vm in world.attached
      modifies this
      ensures ok == (reply == Applied)
      ensures world == if reply == Refused then old(world) else Detached(old(world), vm, d)
    {
      if reply != Refused {
        world := Detached(world, vm, d);
      }
      ok := reply == Applied;
    }

    method Attach(vm: string, d: Device, reply: Reply) returns (ok: bool)
      requires vm in world.attached
      modifies this
      ensures ok == (reply == Applied)
      ensures world == if reply == Refused then old(world) else Attached(old(world), vm, d)
    {
      if reply != Refused {
        world := Attached(world, vm, d);
      }
      ok := reply == Applied;
    }

    /** The first loop: detaches every non-root disk, collecting them. */
    method DetachAll(devices: seq<Device>, source: string, ghost target: string, reply: nat -> Reply)
      returns (r: Result, disks: seq<Device>)
      requires source in world.attached && target in world.attached
      modifies this
      ensures var moved := Movable(devices);
              && world == Progress(old(world), source, target, moved, Effective(reply, |moved|))
              && (r == Failed <==> FirstBad(reply, 0, |moved|) < |moved|)
              && (r == Crashed ==> Readable(devices) < |devices|)
              && (r == Done ==> Readable(devices) == |devices| && disks == moved)
    {
      hide Progress, FirstBad, NonRoots, Readable, Attached, Detached;
      ghost var moved := Movable(devices);
      Begin(devices);
      ProgressNone(world, source, target, moved);
      disks := [];
      var i := 0;
      while i < |devices|
        invariant 0 <= i <= Readable(devices)
        invariant disks == NonRoots(devices[..i])
        invariant |disks| <= |moved| && disks == moved[..|disks|]
        invariant forall c: nat | c < |disks| :: reply(c) == Applied
        invariant world == Progress(old(world), source, target, moved, |disks|)
      {
        var device := devices[i];
        if device.Disk? {
          if device.unit.None? {
            StopsHere(devices, i);
            FirstBadIs(reply, 0, |moved|, |moved|);
            return Crashed, disks;
          }
          if device.unit.value != 0 {
            var k := |disks|;
            NextMovable(devices, i);
            ProgressNext(old(world), source, target, moved, k);
            disks := disks + [device];
            var ok := Detach(source, device, reply(k));
            if !ok {
              FirstBadIs(reply, 0, |moved|, k);
              return Failed, disks;
            }
          }
        }
        NextDevice(devices, i);
        i := i + 1;
      }
      StopsHere(devices, i);
      FirstBadIs(reply, 0, |moved|, |moved|);
      r := Done;
    }

    /** The second loop: attaches the collected disks; its calls are numbered after the first loop's. */
    method AttachAll(disks: seq<Device>, target: string, reply: nat -> Reply, ghost w: World, ghost source: string)
      returns (ok: bool)
      requires source in w.attached && target in w.attached
      requires world == Progress(w, source, target, disks, |disks|)
      modifies this
      ensures var m := |disks|;
              var c := FirstBad(reply, m, 2 * m);
              && ok == (c == 2 * m)
              && world == Progress(w, source, target, disks, if c < 2 * m && reply(c) == Lost then c + 1 else c)
    {
      hide Progress, FirstBad, Attached, Detached;
      var m, j := |disks|, 0;
      while j < m
        invariant 0 <= j <= m
        invariant forall c: nat | m <= c < m + j :: reply(c) == Applied
        invariant world == Progress(w, source, target, disks, m + j)
      {
        ProgressNext(w, source, target, disks, m + j);
        ok := Attach(target, disks[j], reply(m + j));
        if !ok {
          FirstBadIs(reply, m, 2 * m, m + j);
          return;
        }
        j := j + 1;
      }
      FirstBadIs(reply, m, 2 * m, 2 * m);
      ok := true;
    }

    /** `MoveDisks`, once the two VMs and the devices of the source are looked up. */
    method MoveDisks(devices: seq<Device>, source: string, target: string, reply: nat -> Reply) returns (r: Result)
      requires source in world.attached && target in world.attached
      modifies this
      ensures r == ResultOf(reply, devices)
      ensures world == Progress(old(world), source, target, Movable(devices), Effective(reply, Limit(devices)))
    {
      hide Progress, FirstBad, NonRoots, Readable;
      var disks;
      r, disks := DetachAll(devices, source, target, reply);
      FirstBadSplits(reply, |Movable(devices)|);
      if r == Done {
        var ok := AttachAll(disks, target, reply, old(world), source);
        if !ok {
          r := Failed;
        }
      }
    }

    /** `RemoveNonRootDisks`: destroys every non-root disk, stopping at the first error. */
    method RemoveNonRootDisks(devices: seq<Device>, vm: string, reply: nat -> Reply) returns (r: Result)
      requires vm in world.attached
      modifies this
      ensures var moved := Movable(devices);
              && world == Destroyed(old(world), vm, moved, Effective(reply, |moved|))
              && (r == Failed <==> FirstBad(reply, 0, |moved|) < |moved|)
              && (r == Done ==> Readable(devices) == |devices|)
              && (r == Crashed ==> Readable(devices) < |devices|)
    {
      hide FirstBad, NonRoots, Readable, Destroyed;
      ghost var moved, w := Movable(devices), world;
      Begin(devices);
      DestroyedNone(w, vm, moved);
      var i, calls := 0, 0;
      while i < |devices|
        invariant 0 <= i <= Readable(devices)
        invariant calls == |NonRoots(devices[..i])| <= |moved|
        invariant NonRoots(devices[..i]) == moved[..calls]
        invariant forall c: nat | c < calls :: reply(c) == Applied
        invariant world == Destroyed(w, vm, moved, calls)
      {
        var device := devices[i];
        if device.Disk? {
          if device.unit.None? {
            StopsHere(devices, i);
            FirstBadIs(reply, 0, |moved|, |moved|);
            return Crashed;
          }
          if device.unit.value != 0 {
            NextMovable(devices, i);
            DestroyedNext(w, vm, moved, calls);
            if reply(calls) != Refused {
              world := world.(attached := world.attached[vm := world.attached[vm] - multiset{device}]);
            }
            if reply(calls) != Applied {
              FirstBadIs(reply, 0, |moved|, calls);
              return Failed;
            }
            calls := calls + 1;
          }
        }
        NextDevice(devices, i);
        i := i + 1;
      }
      StopsHere(devices, i);
      FirstBadIs(reply, 0, |moved|, |moved|);
      r := Done;
    }
  }

  /** The world after the first `k` of the disks were destroyed. */
  function Destroyed(w: World, vm: string, disks: seq<Device>, k: nat): (r: World)
    requires vm in w.attached && k <= |disks|
    ensures vm in r.attached
  {
    w.(attached := w.attached[vm := w.attached[vm] - multiset(disks[..k])])
  }

  /** Removal touches no other VM and no loose disk; from the VM it takes, of the disks it gets to, every
      one whose unit number is not 0, and once it is done it has taken all of them. */
  lemma RemovalTakes(w: World, vm: string, devices: seq<Device>, k: nat, d: Device)
    requires vm in w.attached && multiset(devices) <= w.attached[vm] && k <= |Movable(devices)|
    ensures var r := Destroyed(w, vm, Movable(devices), k);
            && r.loose == w.loose
            && (forall other | other in w.attached && other != vm ::
                  other in r.attached && r.attached[other] == w.attached[other])
            && (d.OtherDevice? || d.unit.None? || d.unit == Some(0) ==> r.attached[vm][d] == w.attached[vm][d])
            && (k == |Movable(devices)| && d.Disk? && d.unit.Some? && d.unit != Some(0) ==>
                  r.attached[vm][d] + multiset(devices[..Readable(devices)])[d] == w.attached[vm][d])
  {
    hide Movable, Readable;
    var moved := Movable(devices);
    MovableWithin(devices);
    MovableCount(devices, d);
    assert moved == moved[..k] + moved[k..];
    assert multiset(moved) == multiset(moved[..k]) + multiset(moved[k..]);
    assert k == |moved| ==> moved[..k] == moved;
  }

  lemma DestroyedNone(w: World, vm: string, disks: seq<Device>)
    requires vm in w.attached
    ensures Destroyed(w, vm, disks, 0) == w
  {
    assert w.attached[vm] - multiset(disks[..0]) == w.attached[vm];
  }

  lemma DestroyedNext(w: World, vm: string, disks: seq<Device>, k: nat)
    requires vm in w.attached && k < |disks|
    ensures var before := Destroyed(w, vm, disks, k);
            Destroyed(w, vm, disks, k + 1) ==
            before.(attached := before.attached[vm := before.attached[vm] - multiset{disks[k]}])
  {
    TakePush(disks, k);
    var all := w.attached[vm];
    MinusMinus(all, multiset(disks[..k]), multiset{disks[k]});
    Overwrite(w.attached, vm, all - multiset(disks[..k]), all - multiset(disks[..k + 1]));
  }

  lemma Begin(devices: seq<Device>)
    ensures NonRoots(devices[..0]) == []
  {
  }

  lemma NextDevice(devices: seq<Device>, i: nat)
    requires i < |devices|
    ensures NonRoots(devices[..i + 1]) == NonRoots(devices[..i]) + if NonRoot(devices[i]) then [devices[i]] else []
    ensures i < Readable(devices) <==> i + 1 <= Readable(devices)
  {
    assert devices[..i + 1][..i] == devices[..i];
  }

  /** The loop ends at a disk without a unit number, or behind the last device. */
  lemma StopsHere(devices: seq<Device>, i: nat)
    requires i <= Readable(devices) && (i == |devices| || NoUnit(devices[i]))
    ensures i == Readable(devices) && NonRoots(devices[..i]) == Movable(devices)
  {
  }

  lemma {:induction false} FirstBadFrom(reply: nat -> Reply, from: nat, mid: nat, limit: nat)
    requires from <= mid <= limit
    ensures FirstBad(reply, from, limit) ==
            if FirstBad(reply, from, mid) < mid then FirstBad(reply, from, mid) else FirstBad(reply, mid, limit)
    decreases mid - from
  {
    if from < mid && reply(from) == Applied {
      FirstBadFrom(reply, from + 1, mid, limit);
    }
  }

  lemma FirstBadSplits(reply: nat -> Reply, m: nat)
    ensures FirstBad(reply, 0, 2 * m) ==
            if FirstBad(reply, 0, m) < m then FirstBad(reply, 0, m) else FirstBad(reply, m, 2 * m)
  {
    FirstBadFrom(reply, 0, m, 2 * m);
  }

  lemma NextMovable(devices: seq<Device>, i: nat)
    requires i < Readable(devices) && NonRoot(devices[i])
    ensures var k, moved := |NonRoots(devices[..i])|, Movable(devices); k < |moved| && moved[k] == devices[i]
  {
    var seen := devices[..Readable(devices)];
    NonRootsPrefix(seen, i + 1);
    assert seen[..i + 1] == devices[..i + 1] && devices[..i + 1][..i] == devices[..i];
  }
}

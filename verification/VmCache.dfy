/** The vSphere driver's cache of virtual machines by host name, rebuilt from vCenter's inventory and
    the node registry before most operations. */
module VmCache {
  import opened Wrappers
  import opened Text

  /** What reading the guest properties of a VM gives: its host name, an error saying that the VM is
      deleted or not completely created, or some other error. */
  datatype Guest = HostName(name: string) | Gone | ReadError

  datatype Vm = Vm(id: string, guest: Guest)

  /** vCenter at one moment: it can refuse the login or the listing. */
  datatype Inventory = NoLogin | NoListing | Listing(vms: seq<Vm>)

  type Cache = map<string, Vm>

  // ----- rebuilding the cache -----

  /** The first VM with the given host name; an empty host name counts as none. */
  function FirstNamed(vms: seq<Vm>, name: string): (r: Option<Vm>)
    ensures r.Some? ==> r.value in vms && r.value.guest == HostName(name) && name != ""
    ensures r.None? ==> name == "" || forall vm | vm in vms :: vm.guest != HostName(name)
  {
    if vms == [] then None
    else
      var n := |vms| - 1;
      var before := FirstNamed(vms[..n], name);
      assert vms == vms[..n] + [vms[n]];
      if before.Some? then before
      else if name != "" && vms[n].guest == HostName(name) then Some(vms[n])
      else None
  }

  /** The VMs in front of the first one whose properties cannot be read. */
  function Readable(vms: seq<Vm>): (n: nat)
    ensures n <= |vms|
    ensures forall i | 0 <= i < n :: !vms[i].guest.ReadError?
    ensures n < |vms| ==> vms[n].guest.ReadError?
  {
    if vms == [] || vms[0].guest.ReadError? then 0
    else
      assert forall i | 1 <= i < |vms| :: vms[i] == vms[1..][i - 1];
      1 + Readable(vms[1..])
  }

  /** The cache that maps each node name to the first VM with that host name. */
  ghost predicate Indexes(cache: Cache, vms: seq<Vm>, names: seq<string>) {
    forall name :: Lookup(cache, name) == if name in names then FirstNamed(vms, name) else None
  }

  function Lookup(cache: Cache, name: string): Option<Vm> {
    if name in cache then Some(cache[name]) else None
  }

  lemma IndexUnique(a: Cache, b: Cache, vms: seq<Vm>, names: seq<string>)
    requires Indexes(a, vms, names) && Indexes(b, vms, names)
    ensures a == b
  {
    forall name ensures name in a <==> name in b {
      assert Lookup(a, name) == Lookup(b, name);
    }
    forall name | name in a && name in b ensures a[name] == b[name] {
      assert Lookup(a, name) == Lookup(b, name);
    }
  }

  /** Whether `connect` returns `nil`. */
  predicate Connects(inv: Inventory, names: seq<string>) {
    inv.Listing? && names != [] && Readable(inv.vms) == |inv.vms|
  }

  lemma FirstNamedNext(vms: seq<Vm>, i: nat, name: string)
    requires i < |vms|
    ensures FirstNamed(vms[..i + 1], name) ==
            if FirstNamed(vms[..i], name).Some? then FirstNamed(vms[..i], name)
            else if name != "" && vms[i].guest == HostName(name) then Some(vms[i])
            else None
  {
    assert vms[..i + 1][..i] == vms[..i];
  }

  lemma IndexesSkip(cache: Cache, vms: seq<Vm>, i: nat, names: seq<string>)
    requires i < |vms| && Indexes(cache, vms[..i], names)
    requires vms[i].guest.HostName? ==>
               vms[i].guest.name == "" || vms[i].guest.name !in names || vms[i].guest.name in cache
    ensures Indexes(cache, vms[..i + 1], names)
  {
    hide FirstNamed;
    forall name ensures Lookup(cache, name) == if name in names then FirstNamed(vms[..i + 1], name) else None {
      FirstNamedNext(vms, i, name);
      assert Lookup(cache, name) == if name in names then FirstNamed(vms[..i], name) else None;
    }
  }

  lemma IndexesAdd(cache: Cache, vms: seq<Vm>, i: nat, names: seq<string>)
    requires i < |vms| && Indexes(cache, vms[..i], names)
    requires vms[i].guest.HostName? && vms[i].guest.name != ""
    requires vms[i].guest.name in names && vms[i].guest.name !in cache
    ensures Indexes(cache[vms[i].guest.name := vms[i]], vms[..i + 1], names)
  {
    hide FirstNamed;
    var cache' := cache[vms[i].guest.name := vms[i]];
    forall name ensures Lookup(cache', name) == if name in names then FirstNamed(vms[..i + 1], name) else None {
      FirstNamedNext(vms, i, name);
      assert Lookup(cache, name) == if name in names then FirstNamed(vms[..i], name) else None;
    }
  }

  predicate HasHostName(machine: Option<Vm>) {
    machine.Some? && machine.value.guest.HostName? && machine.value.guest.name != ""
  }

  // ----- what is asked of vCenter -----

  datatype Kind = RebootGuest | PowerOn | PowerOff | Destroy | ShutdownGuest

  /** A request sent to vCenter: an action on a VM, or the removal of one of its devices. */
  datatype Request = Action(kind: Kind, vm: Vm) | Removal(vm: Vm, key: int)

  /** vCenter's answers: whether the VM is powered on, if that can be read, and whether the request and
      the wait for it succeed. */
  datatype Answers = Answers(isOn: Option<bool>, accepted: bool)

  // ----- which device is detached -----

  /** A virtual disk with the file name of its flat backing, or any other device. */
  datatype Device = FlatDisk(key: int, fileName: string) | OtherDevice(key: int)

  /** A path without its extension: `filepath.Ext` is the part from the last dot of the last element. */
  function Stem(path: string): string {
    var dot := LastIndex(path, '.');
    if dot > LastIndex(path, '/') then path[..dot] else path
  }

  /** `matchVirtualDiskAndVolPath`. */
  predicate Matches(d: Device, path: string) {
    d.FlatDisk? && Stem(d.fileName) == Stem(path)
  }

  /** With extensions on both sides, exactly the rest of the paths is compared. */
  lemma MatchesBase(key: int, base: string, ext: string, base': string, ext': string)
    requires '.' !in ext && '/' !in ext && '.' !in ext' && '/' !in ext'
    ensures Matches(FlatDisk(key, base + "." + ext), base' + "." + ext') <==> base == base'
  {
    hide LastIndex, Stem;
    StemOf(base, ext);
    StemOf(base', ext');
  }

  lemma StemOf(base: string, ext: string)
    requires '.' !in ext && '/' !in ext
    ensures Stem(base + "." + ext) == base
  {
    hide LastIndex;
    var path := base + "." + ext;
    forall j | |base| < j < |path| ensures path[j] != '.' && path[j] != '/' {
      assert path[j] == ext[j - |base| - 1];
    }
    LastIndexIs(path, '.', |base|);
    assert LastIndex(path, '/') < |base|;
    assert path[..|base|] == base;
  }

  /** A path whose last element has no dot is compared as it is. */
  lemma StemPlain(directory: string, file: string)
    requires '.' !in file && '/' !in file
    ensures Stem(directory + "/" + file) == directory + "/" + file && Stem(file) == file
  {
    hide LastIndex;
    var path := directory + "/" + file;
    forall j | |directory| < j < |path| ensures path[j] != '.' && path[j] != '/' {
      assert path[j] == file[j - |directory| - 1];
    }
    LastIndexIs(path, '/', |directory|);
    assert path[|directory|] == '/';
    assert LastIndex(path, '.') < |directory|;
  }

  function FirstWithUuid(vms: seq<Vm>, uuid: string, uuidOf: Vm -> string): (r: Option<Vm>)
    ensures r.Some? ==> r.value in vms && uuidOf(r.value) == uuid
    ensures r.None? <==> forall vm | vm in vms :: uuidOf(vm) != uuid
  {
    if vms == [] then None else if uuidOf(vms[0]) == uuid then Some(vms[0]) else FirstWithUuid(vms[1..], uuid, uuidOf)
  }

  function LastMatch(devices: seq<Device>, path: string): (r: Option<Device>)
    ensures r.Some? ==> r.value in devices && Matches(r.value, path)
    ensures r.None? <==> forall d | d in devices :: !Matches(d, path)
  {
    if devices == [] then None
    else
      var n := |devices| - 1;
      assert devices == devices[..n] + [devices[n]];
      if Matches(devices[n], path) then Some(devices[n]) else LastMatch(devices[..n], path)
  }

  /** What `DetachDisk` removes: from the first VM with the uuid, the last disk that matches the path. */
  function ToRemove(inv: Inventory, uuid: string, path: string, uuidOf: Vm -> string,
                    devicesOf: Vm -> Option<seq<Device>>): Option<Request> {
    if !inv.Listing? then None
    else
      var vm := FirstWithUuid(inv.vms, uuid, uuidOf);
      if vm.None? || devicesOf(vm.value).None? then None
      else
        var d := LastMatch(devicesOf(vm.value).value, path);
        if d.None? then None else Some(Removal(vm.value, d.value.key))
  }

  /** On the data: what is removed is device `j` of VM `i`, if that is the first VM with the uuid and the
      last disk whose file name agrees with the path up to the extensions. */
  lemma RemovesAt(vms: seq<Vm>, uuid: string, path: string, uuidOf: Vm -> string,
                  devicesOf: Vm -> Option<seq<Device>>, i: nat, j: nat)
    requires i < |vms| && uuidOf(vms[i]) == uuid && forall k | 0 <= k < i :: uuidOf(vms[k]) != uuid
    requires var devices := devicesOf(vms[i]);
             && devices.Some? && j < |devices.value| && Matches(devices.value[j], path)
             && forall k | j < k < |devices.value| :: !Matches(devices.value[k], path)
    ensures ToRemove(Listing(vms), uuid, path, uuidOf, devicesOf) ==
            Some(Removal(vms[i], devicesOf(vms[i]).value[j].key))
  {
    hide Matches, FirstWithUuid, LastMatch;
    FirstWithUuidAt(vms, uuid, uuidOf, i);
    LastMatchAt(devicesOf(vms[i]).value, path, j);
  }

  /** Nothing is removed without a listing, without a VM with the uuid, if its devices cannot be read, or if
      no disk matches. */
  lemma RemovesNothing(inv: Inventory, uuid: string, path: string, uuidOf: Vm -> string,
                       devicesOf: Vm -> Option<seq<Device>>)
    requires inv.Listing? ==> forall vm | vm in inv.vms && uuidOf(vm) == uuid ::
               devicesOf(vm).None? || forall d | d in devicesOf(vm).value :: !Matches(d, path)
    ensures ToRemove(inv, uuid, path, uuidOf, devicesOf) == None
  {
    hide Matches, FirstWithUuid, LastMatch;
  }

  lemma {:induction false} FirstWithUuidAt(vms: seq<Vm>, uuid: string, uuidOf: Vm -> string, i: nat)
    requires i < |vms| && uuidOf(vms[i]) == uuid && forall k | 0 <= k < i :: uuidOf(vms[k]) != uuid
    ensures FirstWithUuid(vms, uuid, uuidOf) == Some(vms[i])
  {
    if i > 0 {
      FirstWithUuidAt(vms[1..], uuid, uuidOf, i - 1);
    }
  }

  lemma {:induction false} LastMatchAt(devices: seq<Device>, path: string, j: nat)
    requires j < |devices| && Matches(devices[j], path)
    requires forall k | j < k < |devices| :: !Matches(devices[k], path)
    ensures LastMatch(devices, path) == Some(devices[j])
    decreases |devices|
  {
    hide Matches;
    var n := |devices| - 1;
    if j < n {
      LastMatchAt(devices[..n], path, j);
    }
  }

  // ----- the driver -----

  class Driver {
    var vmMap: Cache
    var requests: seq<Request>  // everything sent to vCenter

    constructor ()
      ensures vmMap == map[] && requests == []
    {
      vmMap, requests := map[], [];
    }

    /** `connect`. On success the cache indexes the inventory by the names in the registry. A refused
        login leaves it as it was; later errors leave it empty or filled up to the unreadable VM. */
    method Connect(inv: Inventory, names: seq<string>) returns (ok: bool)
      modifies this`vmMap
      ensures ok == Connects(inv, names)
      ensures ok <==> inv.Listing? && names != [] && forall j | 0 <= j < |inv.vms| :: !inv.vms[j].guest.ReadError?
      ensures match inv
              case NoLogin => vmMap == old(vmMap)
              case NoListing => vmMap == map[]
              case Listing(vms) => if names == [] then vmMap == map[] else Indexes(vmMap, vms[..Readable(vms)], names)
    {
      hide FirstNamed, Readable;
      ConnectsMeans(inv, names);
      if inv.NoLogin? {
        return false;
      }
      vmMap := map[];
      if inv.NoListing? || names == [] {
        return false;
      }
      var vms := inv.vms;
      NothingIndexed(names);
      assert vms[..0] == [];
      var i := 0;
      while i < |vms|
        invariant 0 <= i <= Readable(vms)
        invariant Indexes(vmMap, vms[..i], names)
      {
        match vms[i].guest {
          case ReadError => return false;
          case Gone => IndexesSkip(vmMap, vms, i, names);
          case HostName(hostname) =>
            if hostname in names && hostname != "" && hostname !in vmMap {
              IndexesAdd(vmMap, vms, i, names);
            } else {
              IndexesSkip(vmMap, vms, i, names);
            }
            if hostname != "" {
              AddIfNamed(hostname, vms[i], names);
            }
        }
        i := i + 1;
      }
      ok := true;
    }

    /** The inner loop: adds the VM if a node has its host name and there is no entry yet. */
    method AddIfNamed(hostname: string, vm: Vm, names: seq<string>)
      modifies this`vmMap
      ensures vmMap == if hostname in names && hostname !in old(vmMap) then old(vmMap)[hostname := vm] else old(vmMap)
    {
      var j := 0;
      while j < |names|
        invariant 0 <= j <= |names|
        invariant vmMap ==
                  if hostname in names[..j] && hostname !in old(vmMap) then old(vmMap)[hostname := vm] else old(vmMap)
      {
        assert names[..j + 1] == names[..j] + [names[j]];
        if hostname == names[j] {
          if hostname !in vmMap {
            vmMap := vmMap[hostname := vm];
          }
        }
        j := j + 1;
      }
      assert names[..j] == names;
    }

    /** Reconnects and looks the VM of a node up. */
    method FindNode(node: string, inv: Inventory, names: seq<string>) returns (vm: Option<Vm>)
      modifies this`vmMap
      ensures vm == Selected(Use(node), Env(inv, names, None))
      ensures Follows(old(vmMap), vmMap, Env(inv, names, None))
    {
      hide FirstNamed, Readable;
      var ok := Connect(inv, names);
      if ok {
        Complete(inv.vms);
        assert Lookup(vmMap, node) == if node in names then FirstNamed(inv.vms, node) else None;
      }
      vm := if ok then Lookup(vmMap, node) else None;
    }

    /** Acts on a VM; `powerOnVM` for powering on. */
    method Perform(kind: Kind, vm: Vm, a: Answers) returns (ok: bool)
      modifies this`requests
      ensures kind.PowerOn? ==>
                && (ok <==> a.isOn == Some(true) || (a.isOn == Some(false) && a.accepted))
                && requests == if a.isOn == Some(false) then old(requests) + [Action(PowerOn, vm)] else old(requests)
      ensures !kind.PowerOn? ==> (ok <==> a.accepted) && requests == old(requests) + [Action(kind, vm)]
    {
      if kind.PowerOn? {
        if a.isOn.None? {
          return false;
        }
        if a.isOn.value {
          return true;
        }
      }
      requests := requests + [Action(kind, vm)];
      ok := a.accepted;
    }

    /** The operations that reconnect and then act on the VM of a node: reboot, power on and off,
        destroy, shut down. */
    method UseNode(kind: Kind, node: string, inv: Inventory, names: seq<string>, a: Answers) returns (ok: bool)
      modifies this
      ensures Follows(old(vmMap), vmMap, Env(inv, names, None))
      ensures var vm := Selected(Use(node), Env(inv, names, None));
              if vm.None? then !ok && requests == old(requests)
              else if kind.PowerOn? then
                && (ok <==> a.isOn == Some(true) || (a.isOn == Some(false) && a.accepted))
                && requests ==
                   if a.isOn == Some(false) then old(requests) + [Action(PowerOn, vm.value)] else old(requests)
              else (ok <==> a.accepted) && requests == old(requests) + [Action(kind, vm.value)]
      ensures requests == old(requests) ||
              exists vm: Vm :: vm.guest == HostName(node) && requests == old(requests) + [Action(kind, vm)]
    {
      hide Selected, Follows;
      RightMachine(Use(node), Env(inv, names, None));
      var vm := FindNode(node, inv, names);
      ok := false;
      if vm.Some? {
        ok := Perform(kind, vm.value, a);
      }
    }

    /** `DetachDisk` empties the cache once it is logged in, and never uses it. */
    method DetachDisk(uuid: string, path: string, inv: Inventory, uuidOf: Vm -> string,
                      devicesOf: Vm -> Option<seq<Device>>, accepted: bool) returns (ok: bool)
      modifies this
      ensures vmMap == if inv.NoLogin? then old(vmMap) else map[]
      ensures var removal := ToRemove(inv, uuid, path, uuidOf, devicesOf);
              && ok == (removal.Some? && accepted)
              && requests == old(requests) + if removal.Some? then [removal.value] else []
    {
      hide Matches;
      if inv.NoLogin? {
        return false;
      }
      vmMap := map[];
      if inv.NoListing? {
        return false;
      }
      var vm := FindByUuid(inv.vms, uuid, uuidOf);
      if vm.None? || devicesOf(vm.value).None? {
        return false;
      }
      var device := SelectDevice(devicesOf(vm.value).value, path);
      if device.None? {
        return false;
      }
      requests := requests + [Removal(vm.value, device.value.key)];
      ok := accepted;
    }

    /** `AddMachine`: enters a VM, found by its VM name, under its host name. */
    method AddMachine(machine: Option<Vm>) returns (ok: bool)
      modifies this`vmMap
      ensures ok == HasHostName(machine)
      ensures ok <==> machine.Some? && machine.value.guest.HostName? && machine.value.guest.name != ""
      ensures vmMap == if ok then old(vmMap)[machine.value.guest.name := machine.value] else old(vmMap)
    {
      ok := HasHostName(machine);
      if ok {
        vmMap := vmMap[machine.value.guest.name := machine.value];
      }
    }

    /** Reconnects and looks a VM up by name; a name that is not in the cache is added first. `machine`
        is the VM that has this VM name, if there is one, and `connected` the cache that `connect` left. */
    method FindByName(vmName: string, inv: Inventory, names: seq<string>, machine: Option<Vm>)
      returns (vm: Option<Vm>, ghost connected: Cache)
      modifies this`vmMap
      ensures vm == Selected(UseByName(vmName), Env(inv, names, machine))
      ensures Follows(old(vmMap), connected, Env(inv, names, machine))
      ensures vmMap == WithMachine(connected, vmName, Env(inv, names, machine))
    {
      hide FirstNamed, Readable;
      var ok := Connect(inv, names);
      connected := vmMap;
      if !ok {
        return None, connected;
      }
      Complete(inv.vms);
      assert Lookup(vmMap, vmName) == if vmName in names then FirstNamed(inv.vms, vmName) else None;
      if vmName !in vmMap {
        var added := AddMachine(machine);
        if !added {
          return None, connected;
        }
      }
      vm := Lookup(vmMap, vmName);
    }

    /** `PowerOnVMByName`. */
    method PowerOnVMByName(vmName: string, inv: Inventory, names: seq<string>, machine: Option<Vm>, a: Answers)
      returns (ok: bool, ghost connected: Cache)
      modifies this
      ensures Follows(old(vmMap), connected, Env(inv, names, machine))
      ensures vmMap == WithMachine(connected, vmName, Env(inv, names, machine))
      ensures var vm := Selected(UseByName(vmName), Env(inv, names, machine));
              && (ok <==> vm.Some? && (a.isOn == Some(true) || (a.isOn == Some(false) && a.accepted)))
              && requests == if vm.Some? && a.isOn == Some(false) then old(requests) + [Action(PowerOn, vm.value)]
                             else old(requests)
      ensures requests == old(requests) ||
              exists vm: Vm :: vm.guest == HostName(vmName) && requests == old(requests) + [Action(PowerOn, vm)]
    {
      hide Selected, Follows, WithMachine;
      RightMachine(UseByName(vmName), Env(inv, names, machine));
      var vm;
      vm, connected := FindByName(vmName, inv, names, machine);
      ok := false;
      if vm.Some? {
        ok := Perform(PowerOn, vm.value, a);
      }
    }
  }

  method FindByUuid(vms: seq<Vm>, uuid: string, uuidOf: Vm -> string) returns (r: Option<Vm>)
    ensures r == FirstWithUuid(vms, uuid, uuidOf)
  {
    var i := 0;
    assert vms[0..] == vms;
    while i < |vms|
      invariant 0 <= i <= |vms|
      invariant FirstWithUuid(vms, uuid, uuidOf) == FirstWithUuid(vms[i..], uuid, uuidOf)
    {
      assert vms[i..][1..] == vms[i + 1..];
      if uuidOf(vms[i]) == uuid {
        return Some(vms[i]);
      }
      i := i + 1;
    }
    r := None;
  }

  /** The loop over the devices has no break: a later match replaces an earlier one. */
  method SelectDevice(devices: seq<Device>, path: string) returns (r: Option<Device>)
    ensures r == LastMatch(devices, path)
  {
    hide Matches;
    r := None;
    var i := 0;
    while i < |devices|
      invariant 0 <= i <= |devices|
      invariant r == LastMatch(devices[..i], path)
    {
      assert devices[..i + 1][..i] == devices[..i];
      if Matches(devices[i], path) {
        r := Some(devices[i]);
      }
      i := i + 1;
    }
    assert devices[..i] == devices;
  }

  lemma NothingIndexed(names: seq<string>)
    ensures Indexes(map[], [], names)
  {
  }

  lemma Complete(vms: seq<Vm>)
    ensures Readable(vms) == |vms| ==> vms[..Readable(vms)] == vms
  {
  }

  // ----- the cache never matters -----

  datatype Op = Use(node: string) | UseByName(vmName: string)

  /** What the outside world answers during one operation. */
  datatype Env = Env(inv: Inventory, names: seq<string>, machine: Option<Vm>)

  /** The VM an operation acts on, told from the inventory and the registry alone. For a lookup by
      name that fails, the machine found instead is used if its host name is the same as its VM name. */
  function Selected(op: Op, env: Env): Option<Vm> {
    if !Connects(env.inv, env.names) then None
    else
      match op
      case Use(node) => if node in env.names then FirstNamed(env.inv.vms, node) else None
      case UseByName(vmName) =>
        if vmName in env.names && FirstNamed(env.inv.vms, vmName).Some? then FirstNamed(env.inv.vms, vmName)
        else if env.machine.Some? && env.machine.value.guest == HostName(vmName) && vmName != "" then env.machine
        else None
  }

  /** Whatever is acted on has the host name that was asked for. */
  lemma RightMachine(op: Op, env: Env)
    ensures var vm := Selected(op, env);
            vm.Some? ==> vm.value.guest == HostName(if op.Use? then op.node else op.vmName)
  {
    hide FirstNamed, Readable;
  }

  /** On the data: a node's VM is number `i` of the inventory if and only if all VMs can be read, the node
      is registered, and number `i` is the first with the host name. */
  lemma SelectedAt(node: string, vms: seq<Vm>, names: seq<string>, i: nat)
    requires i < |vms| && node != "" && vms[i].guest == HostName(node)
    requires forall j | 0 <= j < i :: vms[j].guest != HostName(node)
    ensures Selected(Use(node), Env(Listing(vms), names, None)) == Some(vms[i]) <==>
            node in names && forall j | 0 <= j < |vms| :: !vms[j].guest.ReadError?
  {
    hide FirstNamed, Readable;
    FirstNamedAt(vms, node, i);
    ConnectsMeans(Listing(vms), names);
  }

  /** A name under which no node's VM is found is taken for the VM name of a machine, which is used if its
      host name is the same. */
  lemma SelectedByName(vmName: string, vms: seq<Vm>, names: seq<string>, machine: Option<Vm>)
    requires names != [] && forall j | 0 <= j < |vms| :: !vms[j].guest.ReadError?
    requires vmName !in names || forall j | 0 <= j < |vms| :: vms[j].guest != HostName(vmName)
    ensures Selected(UseByName(vmName), Env(Listing(vms), names, machine)) ==
            if vmName != "" && machine.Some? && machine.value.guest == HostName(vmName) then machine else None
  {
    hide FirstNamed, Readable;
    ConnectsMeans(Listing(vms), names);
    assert forall vm | vm in vms :: vmName in names ==> vm.guest != HostName(vmName);
  }

  lemma {:induction false} FirstNamedAt(vms: seq<Vm>, name: string, i: nat)
    requires i < |vms| && name != "" && vms[i].guest == HostName(name)
    requires forall j | 0 <= j < i :: vms[j].guest != HostName(name)
    ensures FirstNamed(vms, name) == Some(vms[i])
    decreases |vms|
  {
    var n := |vms| - 1;
    if i < n {
      FirstNamedAt(vms[..n], name, i);
    }
  }

  lemma ConnectsMeans(inv: Inventory, names: seq<string>)
    ensures Connects(inv, names) <==>
            inv.Listing? && names != [] && forall j | 0 <= j < |inv.vms| :: !inv.vms[j].guest.ReadError?
  {
    hide Readable;
  }

  /** The cache after a lookup by name that found it as `connected`. */
  function WithMachine(connected: Cache, vmName: string, env: Env): Cache {
    if Connects(env.inv, env.names) && vmName !in connected && HasHostName(env.machine)
    then connected[env.machine.value.guest.name := env.machine.value] else connected
  }

  /** The cache that `connect` may leave behind. */
  ghost predicate Follows(before: Cache, after: Cache, env: Env) {
    match env.inv
    case NoLogin => after == before
    case NoListing => after == map[]
    case Listing(vms) =>
      if env.names == [] then after == map[] else Indexes(after, vms[..Readable(vms)], env.names)
  }

  /** Once logged in, what the cache was before makes no difference: two drivers with any two histories
      end with the same cache. */
  lemma HistoryForgotten(before1: Cache, before2: Cache, after1: Cache, after2: Cache, env: Env)
    requires !env.inv.NoLogin?
    requires Follows(before1, after1, env) && Follows(before2, after2, env)
    ensures after1 == after2
  {
    if env.inv.Listing? && env.names != [] {
      IndexUnique(after1, after2, env.inv.vms[..Readable(env.inv.vms)], env.names);
    }
  }

  /** In particular a machine that was added to the cache by hand is still there after the next
      operation that logs in if and only if a node is registered under its host name and it is the first
      VM with that host name among those that could be read. */
  lemma AddedMachineForgotten(before: Cache, after: Cache, host: string, machine: Vm, env: Env)
    requires Follows(before[host := machine], after, env) && !env.inv.NoLogin?
    ensures Lookup(after, host) == Some(machine) <==>
            && env.inv.Listing? && host in env.names
            && FirstNamed(env.inv.vms[..Readable(env.inv.vms)], host) == Some(machine)
  {
    hide FirstNamed, Readable;
  }

  /** For example, a machine whose node is not registered yet is lost, although the inventory shows it. */
  lemma UnregisteredIsLost(after: Cache)
    requires var vm := Vm("vm-1", HostName("new"));
             Follows(map["new" := vm], after, Env(Listing([vm]), ["old"], None))
    ensures after == map[]
  {
    var vm := Vm("vm-1", HostName("new"));
    assert [vm][..Readable([vm])] == [vm];
    assert FirstNamed([vm], "old") == None;
    forall name ensures name !in after {
      assert Lookup(after, name) == if name in ["old"] then FirstNamed([vm], name) else None;
    }
  }
}

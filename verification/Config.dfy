/** The VM description and `pkg/config/parser.go`: defaults and command-line overrides. */
module Config {
  import opened Prelude

  datatype CPUSpec = CPUSpec(cores: nat, sockets: nat, threads: nat)          // uint32 each
  datatype DiskSource = DiskSource(image: string, containerImage: string)
  datatype DiskSpec = DiskSpec(name: string, source: DiskSource, size: string, bus: string)
  datatype PortForward = PortForward(hostPort: int, vmPort: int, protocol: string)
  datatype NetworkSpec = NetworkSpec(name: string, kind: string, portForwards: seq<PortForward>)
  datatype BootSpec = BootSpec(kernel: string, initrd: string, cmdline: string)
  datatype ConsoleSpec = ConsoleSpec(kind: string, port: int)
  datatype CloudInitSpec = CloudInitSpec(user: string, password: string, sshKeys: seq<string>)

  /** The value of a `VirtualMachine` at one moment. */
  datatype Machine = Machine(apiVersion: string, kind: string, name: string, labels: map<string, string>,
                             cpu: CPUSpec, memory: string, disks: seq<DiskSpec>, networks: seq<NetworkSpec>,
                             boot: Option<BootSpec>, console: Option<ConsoleSpec>, cloudInit: Option<CloudInitSpec>)

  const DEFAULT_USER: string := "podvirt"
  const DEFAULT_PASSWORD: string := "podvirt"
  const API_VERSION: string := "podvirt.io/v1alpha1"
  const KIND: string := "VirtualMachine"
  const DEFAULT_NETWORK: NetworkSpec := NetworkSpec("default", "masquerade", [])

  /** The object that the create pipeline passes from stage to stage and updates in place. */
  class VirtualMachine {
    var apiVersion: string
    var kind: string
    var name: string
    var labels: map<string, string>
    var cpu: CPUSpec
    var memory: string
    var disks: seq<DiskSpec>
    var networks: seq<NetworkSpec>
    var boot: Option<BootSpec>
    var console: Option<ConsoleSpec>
    var cloudInit: Option<CloudInitSpec>

    constructor (m: Machine)
      ensures Value() == m
    {
      apiVersion, kind, name, labels := m.apiVersion, m.kind, m.name, m.labels;
      cpu, memory, disks, networks := m.cpu, m.memory, m.disks, m.networks;
      boot, console, cloudInit := m.boot, m.console, m.cloudInit;
    }

    function Value(): Machine
      reads this
    {
      Machine(apiVersion, kind, name, labels, cpu, memory, disks, networks, boot, console, cloudInit)
    }
  }

  predicate NamesDiffer(disks: seq<DiskSpec>) {
    forall i, j :: 0 <= i < j < |disks| ==> disks[i].name != disks[j].name
  }

  /** Go's `uint32(x)` of an int. */
  function U32(x: int): (r: nat)
    ensures r < 0x1_0000_0000
  {
    x % 0x1_0000_0000
  }

  // ----- setLocalDisk and setContainerDisk -----

  function LocalDisk(path: string, size: string): DiskSpec {
    DiskSpec("disk0", DiskSource(path, ""), size, "virtio")
  }

  function ContainerDisk(image: string, size: string): DiskSpec {
    DiskSpec("containerdisk", DiskSource("", image), size, "virtio")
  }

  predicate IsContainer(d: DiskSpec) {
    d.name == "containerdisk" || d.source.containerImage != ""
  }

  /** Index of the first disk with a local image, or the length of the list. */
  function LocalIndex(disks: seq<DiskSpec>): (k: nat)
    ensures k <= |disks| && (k < |disks| ==> disks[k].source.image != "")
    ensures forall i :: 0 <= i < k ==> disks[i].source.image == ""
  {
    if disks == [] || disks[0].source.image != "" then 0 else 1 + LocalIndex(disks[1..])
  }

  /** Index of the first container disk, or the length of the list. */
  function ContainerIndex(disks: seq<DiskSpec>): (k: nat)
    ensures k <= |disks| && (k < |disks| ==> IsContainer(disks[k]))
    ensures forall i :: 0 <= i < k ==> !IsContainer(disks[i])
  {
    if disks == [] || IsContainer(disks[0]) then 0 else 1 + ContainerIndex(disks[1..])
  }

  /** The first disk with a local image becomes disk0, or disk0 is appended. */
  function WithLocal(disks: seq<DiskSpec>, path: string): seq<DiskSpec> {
    var k := LocalIndex(disks);
    if k == |disks| then disks + [LocalDisk(path, "")] else disks[k := LocalDisk(path, disks[k].size)]
  }

  function WithContainer(disks: seq<DiskSpec>, image: string): seq<DiskSpec> {
    var k := ContainerIndex(disks);
    if k == |disks| then disks + [ContainerDisk(image, "")] else disks[k := ContainerDisk(image, disks[k].size)]
  }

  function SetLocal(disks: seq<DiskSpec>, path: string): seq<DiskSpec> {
    if path == "" then disks else WithLocal(disks, path)
  }

  function SetContainer(disks: seq<DiskSpec>, image: string): seq<DiskSpec> {
    if image == "" then disks else WithContainer(disks, image)
  }

  method SetLocalDisk(vm: VirtualMachine, path: string)
    modifies vm`disks
    ensures vm.disks == SetLocal(old(vm.disks), path)
  {
    if path == "" {
      return;
    }
    for i := 0 to |vm.disks|
      invariant vm.disks == old(vm.disks)
      invariant forall k :: 0 <= k < i ==> vm.disks[k].source.image == ""
    {
      if vm.disks[i].source.image != "" {
        assert LocalIndex(vm.disks) == i;
        vm.disks := vm.disks[i := vm.disks[i].(name := "disk0")];
        vm.disks := vm.disks[i := vm.disks[i].(source := DiskSource(path, ""))];
        vm.disks := vm.disks[i := vm.disks[i].(bus := "virtio")];
        return;
      }
    }
    vm.disks := vm.disks + [LocalDisk(path, "")];
  }

  method SetContainerDisk(vm: VirtualMachine, image: string)
    modifies vm`disks
    ensures vm.disks == SetContainer(old(vm.disks), image)
  {
    if image == "" {
      return;
    }
    for i := 0 to |vm.disks|
      invariant vm.disks == old(vm.disks)
      invariant forall k :: 0 <= k < i ==> !IsContainer(vm.disks[k])
    {
      if vm.disks[i].name == "containerdisk" || vm.disks[i].source.containerImage != "" {
        assert ContainerIndex(vm.disks) == i;
        vm.disks := vm.disks[i := vm.disks[i].(name := "containerdisk")];
        vm.disks := vm.disks[i := vm.disks[i].(source := DiskSource("", image))];
        vm.disks := vm.disks[i := vm.disks[i].(bus := "virtio")];
        return;
      }
    }
    vm.disks := vm.disks + [ContainerDisk(image, "")];
  }

  // ----- MergeFlags -----

  datatype Flags = Flags(name: string, memory: string, cpus: int, disk: string, image: string)

  const NO_FLAGS: Flags := Flags("", "", 0, "", "")

  function Merged(m: Machine, f: Flags): Machine {
    Machine(
      m.apiVersion, m.kind,
      if f.name != "" then f.name else m.name,
      m.labels,
      if f.cpus > 0 then m.cpu.(cores := U32(f.cpus)) else m.cpu,
      if f.memory != "" then f.memory else m.memory,
      SetContainer(SetLocal(m.disks, f.disk), f.image),
      m.networks, m.boot, m.console, m.cloudInit)
  }

  method MergeScalars(vm: VirtualMachine, f: Flags)
    modifies vm`name, vm`memory, vm`cpu
    ensures vm.name == if f.name != "" then f.name else old(vm.name)
    ensures vm.memory == if f.memory != "" then f.memory else old(vm.memory)
    ensures vm.cpu == if f.cpus > 0 then old(vm.cpu).(cores := U32(f.cpus)) else old(vm.cpu)
  {
    if f.name != "" {
      vm.name := f.name;
    }
    if f.memory != "" {
      vm.memory := f.memory;
    }
    if f.cpus > 0 {
      vm.cpu := vm.cpu.(cores := U32(f.cpus));
    }
  }

  method MergeFlags(vm: VirtualMachine, f: Flags)
    modifies vm
    ensures vm.Value() == Merged(old(vm.Value()), f)
  {
    MergeScalars(vm, f);
    SetLocalDisk(vm, f.disk);
    SetContainerDisk(vm, f.image);
  }

  // ----- applyDefaults -----

  function WithBus(d: DiskSpec): DiskSpec {
    if d.bus == "" then d.(bus := "virtio") else d
  }

  function WithBuses(disks: seq<DiskSpec>): (r: seq<DiskSpec>)
    ensures |r| == |disks| && forall i :: 0 <= i < |disks| ==> r[i] == WithBus(disks[i])
  {
    seq(|disks|, i requires 0 <= i < |disks| => WithBus(disks[i]))
  }

  function DefaultedCloudInit(ci: CloudInitSpec): CloudInitSpec {
    ci.(user := if ci.user == "" then DEFAULT_USER else ci.user,
        password := if ci.password == "" then DEFAULT_PASSWORD else ci.password)
  }

  function Defaulted(m: Machine): Machine {
    Machine(
      if m.apiVersion == "" then API_VERSION else m.apiVersion,
      if m.kind == "" then KIND else m.kind,
      m.name,
      m.labels,
      if m.cpu.cores == 0 then m.cpu.(cores := 1) else m.cpu,
      if m.memory == "" then "1Gi" else m.memory,
      WithBuses(m.disks),
      if m.networks == [] then [DEFAULT_NETWORK] else m.networks,
      m.boot,
      if m.console.None? then Some(ConsoleSpec("vnc", 5900)) else m.console,
      if m.cloudInit.None? then None else Some(DefaultedCloudInit(m.cloudInit.value)))
  }

  method DefaultBuses(vm: VirtualMachine)
    modifies vm`disks
    ensures vm.disks == WithBuses(old(vm.disks))
  {
    for i := 0 to |vm.disks|
      invariant |vm.disks| == |old(vm.disks)|
      invariant forall k :: 0 <= k < i ==> vm.disks[k] == WithBus(old(vm.disks)[k])
      invariant forall k :: i <= k < |vm.disks| ==> vm.disks[k] == old(vm.disks)[k]
    {
      if vm.disks[i].bus == "" {
        vm.disks := vm.disks[i := vm.disks[i].(bus := "virtio")];
      }
    }
  }

  method DefaultCredentials(vm: VirtualMachine)
    modifies vm`cloudInit
    ensures vm.cloudInit == if old(vm.cloudInit).None? then None else Some(DefaultedCloudInit(old(vm.cloudInit).value))
  {
    if vm.cloudInit.Some? {
      if vm.cloudInit.value.user == "" {
        vm.cloudInit := Some(vm.cloudInit.value.(user := DEFAULT_USER));
      }
      if vm.cloudInit.value.password == "" {
        vm.cloudInit := Some(vm.cloudInit.value.(password := DEFAULT_PASSWORD));
      }
    }
  }

  method DefaultScalars(vm: VirtualMachine)
    modifies vm`apiVersion, vm`kind, vm`cpu, vm`memory
    ensures vm.apiVersion == if old(vm.apiVersion) == "" then API_VERSION else old(vm.apiVersion)
    ensures vm.kind == if old(vm.kind) == "" then KIND else old(vm.kind)
    ensures vm.cpu == if old(vm.cpu).cores == 0 then old(vm.cpu).(cores := 1) else old(vm.cpu)
    ensures vm.memory == if old(vm.memory) == "" then "1Gi" else old(vm.memory)
  {
    if vm.apiVersion == "" {
      vm.apiVersion := API_VERSION;
    }
    if vm.kind == "" {
      vm.kind := KIND;
    }
    if vm.cpu.cores == 0 {
      vm.cpu := vm.cpu.(cores := 1);
    }
    if vm.memory == "" {
      vm.memory := "1Gi";
    }
  }

  method DefaultNetworkAndConsole(vm: VirtualMachine)
    modifies vm`networks, vm`console
    ensures vm.networks == if old(vm.networks) == [] then [DEFAULT_NETWORK] else old(vm.networks)
    ensures vm.console == if old(vm.console).None? then Some(ConsoleSpec("vnc", 5900)) else old(vm.console)
  {
    if |vm.networks| == 0 {
      vm.networks := [DEFAULT_NETWORK];
    }
    if vm.console.None? {
      vm.console := Some(ConsoleSpec("vnc", 5900));
    }
  }

  method ApplyDefaults(vm: VirtualMachine)
    modifies vm
    ensures vm.Value() == Defaulted(old(vm.Value()))
  {
    DefaultScalars(vm);
    DefaultBuses(vm);
    DefaultNetworkAndConsole(vm);
    DefaultCredentials(vm);
  }

  // ----- LoadFromFlags -----

  function FromFlags(f: Flags): Machine {
    Defaulted(Machine(API_VERSION, KIND, f.name, map[], CPUSpec(U32(f.cpus), 0, 0), f.memory,
                      SetContainer(SetLocal([], f.disk), f.image), [DEFAULT_NETWORK], None, None, None))
  }

  method LoadFromFlags(f: Flags) returns (vm: VirtualMachine?)
    ensures vm == null <==> f.name == ""
    ensures vm != null ==> fresh(vm) && vm.Value() == FromFlags(f)
  {
    if f.name == "" {
      return null;
    }
    var v := new VirtualMachine(Machine(API_VERSION, KIND, f.name, map[], CPUSpec(U32(f.cpus), 0, 0), f.memory,
                                        [], [], None, None, None));
    SetLocalDisk(v, f.disk);
    SetContainerDisk(v, f.image);
    v.networks := [DEFAULT_NETWORK];
    ApplyDefaults(v);
    vm := v;
  }

  // ----- Algebra of merging -----

  /** The first local disk is exactly what --disk asks for. */
  predicate LocalIsSet(disks: seq<DiskSpec>, path: string) {
    var k := LocalIndex(disks);
    k < |disks| && disks[k] == LocalDisk(path, disks[k].size)
  }

  predicate ContainerIsSet(disks: seq<DiskSpec>, image: string) {
    var k := ContainerIndex(disks);
    k < |disks| && disks[k] == ContainerDisk(image, disks[k].size)
  }

  lemma LocalIndexIs(disks: seq<DiskSpec>, k: nat)
    requires k < |disks| && disks[k].source.image != ""
    requires forall i :: 0 <= i < k ==> disks[i].source.image == ""
    ensures LocalIndex(disks) == k
  {
  }

  lemma ContainerIndexIs(disks: seq<DiskSpec>, k: nat)
    requires k < |disks| && IsContainer(disks[k])
    requires forall i :: 0 <= i < k ==> !IsContainer(disks[i])
    ensures ContainerIndex(disks) == k
  {
  }

  lemma LocalSet(disks: seq<DiskSpec>, path: string)
    requires path != ""
    ensures LocalIsSet(WithLocal(disks, path), path)
    ensures LocalIsSet(disks, path) ==> WithLocal(disks, path) == disks
  {
    LocalIndexIs(WithLocal(disks, path), LocalIndex(disks));
  }

  lemma ContainerSet(disks: seq<DiskSpec>, image: string)
    requires image != ""
    ensures ContainerIsSet(WithContainer(disks, image), image)
    ensures ContainerIsSet(disks, image) ==> WithContainer(disks, image) == disks
  {
    ContainerIndexIs(WithContainer(disks, image), ContainerIndex(disks));
  }

  /** Setting the container disk never takes the disk just set by --disk. */
  lemma ContainerKeepsLocal(disks: seq<DiskSpec>, path: string, image: string)
    requires path != "" && LocalIsSet(disks, path)
    ensures LocalIsSet(WithContainer(disks, image), path)
  {
    LocalIndexIs(WithContainer(disks, image), LocalIndex(disks));
  }

  lemma MergeIsIdempotent(m: Machine, f: Flags)
    ensures Merged(Merged(m, f), f) == Merged(m, f)
  {
    var d1 := SetLocal(m.disks, f.disk);
    var d2 := SetContainer(d1, f.image);
    if f.disk != "" {
      LocalSet(m.disks, f.disk);
      if f.image != "" {
        ContainerKeepsLocal(d1, f.disk, f.image);
      }
      LocalSet(d2, f.disk);
    }
    if f.image != "" {
      ContainerSet(d1, f.image);
      ContainerSet(d2, f.image);
    }
  }

  /** The flags take effect: name, memory and cores are the flags' where given, the first local
      disk is the one of --disk and the first container disk the one of --image, also when both
      are given; everything else is kept. */
  lemma MergeTakesEffect(m: Machine, f: Flags)
    ensures var r := Merged(m, f);
      && r.name == (if f.name != "" then f.name else m.name)
      && r.memory == (if f.memory != "" then f.memory else m.memory)
      && (0 < f.cpus < 0x1_0000_0000 ==> r.cpu.cores == f.cpus) && (f.cpus <= 0 ==> r.cpu == m.cpu)
      && (f.disk != "" ==> LocalIsSet(r.disks, f.disk))
      && (f.image != "" ==> ContainerIsSet(r.disks, f.image))
      && |m.disks| <= |r.disks| <= |m.disks| + 2
  {
    var d1 := SetLocal(m.disks, f.disk);
    if f.disk != "" {
      LocalSet(m.disks, f.disk);
      if f.image != "" {
        ContainerKeepsLocal(d1, f.disk, f.image);
      }
    }
    if f.image != "" {
      ContainerSet(d1, f.image);
    }
  }

  /** One disk of the list is replaced, keeping its size, or one is appended. */
  predicate OneDisk(before: seq<DiskSpec>, after: seq<DiskSpec>, added: string -> DiskSpec) {
    || after == before + [added("")]
    || exists k :: 0 <= k < |before| && after == before[k := added(before[k].size)]
  }

  /** Merging without flags changes nothing; each disk flag changes or appends one disk. */
  lemma MergeIsMinimal(m: Machine, f: Flags)
    ensures Merged(m, NO_FLAGS) == m
    ensures Merged(m, f) == m.(name := Merged(m, f).name, memory := Merged(m, f).memory,
                               cpu := Merged(m, f).cpu, disks := Merged(m, f).disks)
    ensures f.disk == "" && f.image == "" ==> Merged(m, f).disks == m.disks
    ensures f.disk != "" && f.image == "" ==> OneDisk(m.disks, Merged(m, f).disks, s => LocalDisk(f.disk, s))
    ensures f.disk == "" && f.image != "" ==> OneDisk(m.disks, Merged(m, f).disks, s => ContainerDisk(f.image, s))
    ensures f.disk != "" && f.image != "" ==>
      var mid := WithLocal(m.disks, f.disk);
      OneDisk(m.disks, mid, s => LocalDisk(f.disk, s)) && OneDisk(mid, Merged(m, f).disks, s => ContainerDisk(f.image, s))
  {
    assert OneDisk(m.disks, WithLocal(m.disks, f.disk), s => LocalDisk(f.disk, s));
    assert OneDisk(SetLocal(m.disks, f.disk), WithContainer(SetLocal(m.disks, f.disk), f.image), s => ContainerDisk(f.image, s));
  }

  // ----- Defaults are a fixpoint -----

  predicate IsDefaulted(m: Machine) {
    Defaulted(m) == m
  }

  lemma BusesFixpoint(disks: seq<DiskSpec>)
    ensures WithBuses(disks) == disks <==> forall i :: 0 <= i < |disks| ==> disks[i].bus != ""
  {
    if WithBuses(disks) == disks {
      assert forall i :: 0 <= i < |disks| ==> WithBuses(disks)[i] == disks[i];
    }
  }

  /** Being defaulted, field by field. */
  lemma DefaultedFields(m: Machine)
    ensures IsDefaulted(m) <==>
      && m.apiVersion != "" && m.kind != "" && m.cpu.cores != 0 && m.memory != ""
      && (forall i :: 0 <= i < |m.disks| ==> m.disks[i].bus != "")
      && m.networks != [] && m.console.Some?
      && (m.cloudInit.Some? ==> m.cloudInit.value.user != "" && m.cloudInit.value.password != "")
  {
    BusesFixpoint(m.disks);
    if IsDefaulted(m) {
      assert Defaulted(m).disks == m.disks && Defaulted(m).cpu == m.cpu && Defaulted(m).networks == m.networks;
      assert Defaulted(m).cloudInit == m.cloudInit && Defaulted(m).console == m.console;
      assert Defaulted(m).apiVersion == m.apiVersion && Defaulted(m).kind == m.kind && Defaulted(m).memory == m.memory;
    }
  }

  /** Defaulting fills every gap once and for all, and keeps every value that was set. */
  lemma DefaultingIsIdempotent(m: Machine)
    ensures IsDefaulted(Defaulted(m))
    ensures var r := Defaulted(m);
      && r.name == m.name && r.labels == m.labels && r.boot == m.boot && |r.disks| == |m.disks|
      && (m.apiVersion != "" ==> r.apiVersion == m.apiVersion) && (m.kind != "" ==> r.kind == m.kind)
      && (m.memory != "" ==> r.memory == m.memory)
      && (m.cpu.cores != 0 ==> r.cpu == m.cpu) && r.cpu.sockets == m.cpu.sockets && r.cpu.threads == m.cpu.threads
      && (m.networks != [] ==> r.networks == m.networks) && (m.console.Some? ==> r.console == m.console)
      && (forall i :: 0 <= i < |m.disks| ==> r.disks[i] == m.disks[i].(bus := r.disks[i].bus))
      && (forall i :: 0 <= i < |m.disks| && m.disks[i].bus != "" ==> r.disks[i] == m.disks[i])
      && (m.cloudInit.None? ==> r.cloudInit.None?)
      && (m.cloudInit.Some? ==>
            && r.cloudInit.Some? && r.cloudInit.value.sshKeys == m.cloudInit.value.sshKeys
            && (m.cloudInit.value.user != "" ==> r.cloudInit.value.user == m.cloudInit.value.user)
            && (m.cloudInit.value.password != "" ==> r.cloudInit.value.password == m.cloudInit.value.password))
  {
    BusesFixpoint(m.disks);
    DefaultedFields(Defaulted(m));
  }

  lemma SettingDisksKeepsBuses(disks: seq<DiskSpec>, path: string, image: string)
    requires forall i :: 0 <= i < |disks| ==> disks[i].bus != ""
    ensures forall i :: 0 <= i < |WithLocal(disks, path)| ==> WithLocal(disks, path)[i].bus != ""
    ensures forall i :: 0 <= i < |WithContainer(disks, image)| ==> WithContainer(disks, image)[i].bus != ""
  {
  }

  /** Merging keeps the defaults exactly when the CPU flag does not truncate to zero cores; in
      particular for every flag of magnitude below 2^31. */
  lemma MergeKeepsDefaults(m: Machine, f: Flags)
    requires IsDefaulted(m)
    ensures IsDefaulted(Merged(m, f)) <==> !(f.cpus > 0 && f.cpus % 0x1_0000_0000 == 0)
    ensures -0x8000_0000 < f.cpus < 0x8000_0000 ==> IsDefaulted(Merged(m, f))
  {
    DefaultedFields(m);
    DefaultedFields(Merged(m, f));
    SettingDisksKeepsBuses(m.disks, f.disk, f.image);
    SettingDisksKeepsBuses(SetLocal(m.disks, f.disk), f.disk, f.image);
  }

  /** The failing family has a member: 2^32 cores are stored as none. */
  lemma MergeCanDropCores(m: Machine)
    ensures Merged(m, NO_FLAGS.(cpus := 0x1_0000_0000)).cpu.cores == 0
  {
  }

  // ----- The values themselves -----

  /** The first disk with a local image is replaced by one that takes its size, or one is appended. */
  predicate TakesLocal(before: seq<DiskSpec>, after: seq<DiskSpec>, path: string) {
    || (exists k :: 0 <= k < |before| && before[k].source.image != "" && (forall i :: 0 <= i < k ==> before[i].source.image == "")
          && after == before[k := DiskSpec("disk0", DiskSource(path, ""), before[k].size, "virtio")])
    || ((forall i :: 0 <= i < |before| ==> before[i].source.image == "")
          && after == before + [DiskSpec("disk0", DiskSource(path, ""), "", "virtio")])
  }

  /** The same for the first disk that has a container image or is called containerdisk. */
  predicate TakesContainer(before: seq<DiskSpec>, after: seq<DiskSpec>, image: string) {
    || (exists k :: 0 <= k < |before| && (before[k].name == "containerdisk" || before[k].source.containerImage != "")
          && (forall i :: 0 <= i < k ==> before[i].name != "containerdisk" && before[i].source.containerImage == "")
          && after == before[k := DiskSpec("containerdisk", DiskSource("", image), before[k].size, "virtio")])
    || ((forall i :: 0 <= i < |before| ==> before[i].name != "containerdisk" && before[i].source.containerImage == "")
          && after == before + [DiskSpec("containerdisk", DiskSource("", image), "", "virtio")])
  }

  /** What the two disk flags do to a list, one after the other. */
  lemma DiskFlags(disks: seq<DiskSpec>, f: Flags) returns (mid: seq<DiskSpec>)
    ensures if f.disk == "" then mid == disks else TakesLocal(disks, mid, f.disk)
    ensures var after := SetContainer(SetLocal(disks, f.disk), f.image);
      if f.image == "" then after == mid else TakesContainer(mid, after, f.image)
  {
    mid := SetLocal(disks, f.disk);
  }

  /** Every gap is filled with its documented value. */
  lemma DefaultsFillGaps(m: Machine)
    ensures var r := Defaulted(m);
      && (m.apiVersion == "" ==> r.apiVersion == "podvirt.io/v1alpha1") && (m.kind == "" ==> r.kind == "VirtualMachine")
      && (m.cpu.cores == 0 ==> r.cpu.cores == 1) && (m.memory == "" ==> r.memory == "1Gi")
      && (forall i :: 0 <= i < |m.disks| && m.disks[i].bus == "" ==> r.disks[i].bus == "virtio")
      && (m.networks == [] ==> r.networks == [NetworkSpec("default", "masquerade", [])])
      && (m.console.None? ==> r.console == Some(ConsoleSpec("vnc", 5900)))
      && (m.cloudInit.Some? ==>
            && (m.cloudInit.value.user == "" ==> r.cloudInit.value.user == "podvirt")
            && (m.cloudInit.value.password == "" ==> r.cloudInit.value.password == "podvirt"))
  {
  }
}

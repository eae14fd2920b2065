/** `pkg/converter/vmi.go`: from the VM description to the VMI object and the image mounts. */
module Vmi {
  import opened Prelude
  import opened Text
  import opened Config
  import opened CreateFlags
  import opened DiskImage

  const DISK_BASE: AbsPath := ["var", "run", "kubevirt-private", "vmi-disks"]
  const DISK_BASE_PATH: string := "/var/run/kubevirt-private/vmi-disks"

  // ----- filepath.Join under the launcher's disk directory -----

  /** `filepath.Join(virtLauncherDiskBase, name, file)`. */
  function ContainerPath(name: string, file: string): string {
    Rooted(JoinPath(JoinPath(DISK_BASE, name), file))
  }

  lemma PlainPath(name: string, file: string)
    requires Plain(name) && Plain(file)
    ensures ContainerPath(name, file) == DISK_BASE_PATH + "/" + (name + "/" + file)
    ensures DISK_BASE_PATH == "/var/run/kubevirt-private/vmi-disks"
  {
    SplitFree(name, '/');
    SplitFree(file, '/');
    CleanPlain(DISK_BASE, [name]);
    CleanPlain(DISK_BASE + [name], [file]);
    BaseJoined();
    JoinConcat(DISK_BASE, [name] + [file], '/');
    JoinConcat([name], [file], '/');
    assert DISK_BASE + [name] + [file] == DISK_BASE + ([name] + [file]);
  }

  lemma JoinMore(head: string, rest: seq<string>)
    requires rest != []
    ensures Join([head] + rest, '/') == head + "/" + Join(rest, '/')
  {
    assert ([head] + rest)[1..] == rest;
  }

  lemma BaseJoined()
    ensures "/" + Join(DISK_BASE, '/') == DISK_BASE_PATH
  {
    var d := ["vmi-disks"];
    var c := ["kubevirt-private"] + d;
    var b := ["run"] + c;
    JoinMore("kubevirt-private", d);
    JoinMore("run", c);
    JoinMore("var", b);
    assert Join(d, '/') == "vmi-disks";
    hide Join;
    assert ["var"] + b == DISK_BASE;
    BaseText();
  }

  lemma BaseText()
    ensures "/" + ("var" + "/" + ("run" + "/" + ("kubevirt-private" + "/" + "vmi-disks"))) == DISK_BASE_PATH
  {
  }

  /** A disk with a plain name stays in its own directory, whatever its file is called. */
  lemma PathUnderName(name: string, file: string)
    requires Plain(name) && ".." !in Split(file, '/')
    ensures DISK_BASE + [name] <= Clean([], ContainerPath(name, file))
  {
    hide CleanOnto, Split;
    SplitFree(name, '/');
    CleanPlain(DISK_BASE, [name]);
    JoinSplit(file, '/');
    CleanStaysInside(DISK_BASE + [name], Split(file, '/'));
    CleanRooted([], JoinPath(JoinPath(DISK_BASE, name), file));
  }

  lemma PathsDiffer(n1: string, f1: string, n2: string, f2: string)
    requires Plain(n1) && Plain(n2) && n1 != n2 && ".." !in Split(f1, '/') && ".." !in Split(f2, '/')
    ensures ContainerPath(n1, f1) != ContainerPath(n2, f2)
  {
    hide ContainerPath, Clean, Split;
    PathUnderName(n1, f1);
    PathUnderName(n2, f2);
    var p1, p2 := Clean([], ContainerPath(n1, f1)), Clean([], ContainerPath(n2, f2));
    assert p1[|DISK_BASE|] == n1 && p2[|DISK_BASE|] == n2;
  }

  // ----- buildVMI -----

  datatype VmiDisk = VmiDisk(name: string, bus: string)
  datatype UserData = UserData(user: string, password: string, sshKeys: seq<string>)
  datatype Volume = HostDisk(name: string, path: string) | CloudInit(name: string, userData: UserData)
  datatype VmiPort = VmiPort(port: int, protocol: string)
  datatype Interface = Interface(name: string, ports: seq<VmiPort>)

  datatype VmiObject = VmiObject(name: string, cpu: CPUSpec, memory: string, disks: seq<VmiDisk>, volumes: seq<Volume>,
                                 interfaces: seq<Interface>, networks: seq<string>, firmware: Option<BootSpec>)

  datatype VmiResult = VmiResult(vmi: VmiObject, mounts: map<string, string>, portForwards: seq<PortForward>,
                                 sshUser: string, sshKeysConfigured: bool)

  function DiskPath(files: Files, d: DiskSpec): string {
    ContainerPath(d.name, ContainerFilename(files, d.source.image))
  }

  function VmiDisks(disks: seq<DiskSpec>): (r: seq<VmiDisk>)
    ensures |r| == |disks|
  {
    seq(|disks|, i requires 0 <= i < |disks| => VmiDisk(disks[i].name, if disks[i].bus == "" then "virtio" else disks[i].bus))
  }

  function HostVolumes(files: Files, disks: seq<DiskSpec>): (r: seq<Volume>)
    ensures |r| == |disks|
    ensures forall i :: 0 <= i < |disks| ==> r[i] == HostDisk(disks[i].name, DiskPath(files, disks[i]))
  {
    seq(|disks|, i requires 0 <= i < |disks| => HostDisk(disks[i].name, DiskPath(files, disks[i])))
  }

  /** `mounts[image] = path` for each disk in turn: the last disk of an image decides. */
  function HostMounts(files: Files, disks: seq<DiskSpec>): map<string, string> {
    if disks == [] then map[]
    else
      var last := disks[|disks| - 1];
      HostMounts(files, disks[..|disks| - 1])[last.source.image := DiskPath(files, last)]
  }

  predicate AllLocal(disks: seq<DiskSpec>) {
    forall i :: 0 <= i < |disks| ==> disks[i].source.image != ""
  }

  function VmiPorts(pfs: seq<PortForward>): (r: seq<VmiPort>)
    ensures |r| == |pfs|
  {
    seq(|pfs|, i requires 0 <= i < |pfs| =>
      VmiPort(pfs[i].vmPort, ToUpper(if pfs[i].protocol == "" then "TCP" else pfs[i].protocol)))
  }

  function Interfaces(nets: seq<NetworkSpec>): (r: seq<Interface>)
    ensures |r| == |nets|
  {
    seq(|nets|, i requires 0 <= i < |nets| => Interface(nets[i].name, VmiPorts(nets[i].portForwards)))
  }

  function NetworkNames(nets: seq<NetworkSpec>): (r: seq<string>)
    ensures |r| == |nets|
  {
    seq(|nets|, i requires 0 <= i < |nets| => nets[i].name)
  }

  function UserDataOf(ci: CloudInitSpec): UserData {
    UserData(if ci.user != "" then ci.user else DEFAULT_USER, if ci.password != "" then ci.password else DEFAULT_PASSWORD, ci.sshKeys)
  }

  function Firmware(boot: Option<BootSpec>): Option<BootSpec> {
    if boot == Some(BootSpec("", "", "")) then None else boot
  }

  function Convert(files: Files, m: Machine): Result<VmiResult> {
    if !AllLocal(m.disks) then Err
    else
      var ci := if m.cloudInit.Some? then [CloudInit("cloudinitdisk", UserDataOf(m.cloudInit.value))] else [];
      var ciDisk := if m.cloudInit.Some? then [VmiDisk("cloudinitdisk", "virtio")] else [];
      Ok(VmiResult(
        VmiObject(m.name, m.cpu, m.memory, VmiDisks(m.disks) + ciDisk, HostVolumes(files, m.disks) + ci,
                  Interfaces(m.networks), NetworkNames(m.networks), Firmware(m.boot)),
        HostMounts(files, m.disks), AllForwards(m.networks),
        if m.cloudInit.Some? then UserDataOf(m.cloudInit.value).user else "",
        m.cloudInit.Some? && m.cloudInit.value.sshKeys != []))
  }

  /** The disk loop; it stops at the first disk without a local image. */
  method BuildDisks(files: Files, specs: seq<DiskSpec>)
    returns (ok: bool, disks: seq<VmiDisk>, volumes: seq<Volume>, mounts: map<string, string>)
    ensures ok <==> AllLocal(specs)
    ensures ok ==> disks == VmiDisks(specs) && volumes == HostVolumes(files, specs) && mounts == HostMounts(files, specs)
  {
    hide DiskPath, IsQcow2Image, ContainerFilename, ContainerPath;
    ok, disks, volumes, mounts := true, [], [], map[];
    for i := 0 to |specs|
      invariant AllLocal(specs[..i])
      invariant disks == VmiDisks(specs)[..i] && volumes == HostVolumes(files, specs)[..i]
      invariant mounts == HostMounts(files, specs[..i])
    {
      var d := specs[i];
      assert specs[..i + 1][..i] == specs[..i] && specs[..i + 1][i] == d;
      disks := disks + [VmiDisk(d.name, if d.bus == "" then "virtio" else d.bus)];
      if d.source.image == "" {
        return false, disks, volumes, mounts;
      }
      var path := DiskPath(files, d);
      mounts := mounts[d.source.image := path];
      volumes := volumes + [HostDisk(d.name, path)];
    }
    assert specs[..|specs|] == specs;
  }

  /** The network loops. */
  method BuildNetworks(nets: seq<NetworkSpec>)
    returns (interfaces: seq<Interface>, names: seq<string>, forwards: seq<PortForward>)
    ensures interfaces == Interfaces(nets) && names == NetworkNames(nets) && forwards == AllForwards(nets)
  {
    hide AllForwards, VmiPorts, Interfaces, NetworkNames;
    interfaces, names, forwards := [], [], [];
    NetworksUpTo(nets, 0);
    for i := 0 to |nets|
      invariant interfaces == Interfaces(nets)[..i] && names == NetworkNames(nets)[..i]
      invariant forwards + AllForwards(nets[i..]) == AllForwards(nets)
    {
      NetworksUpTo(nets, i);
      var ports, own := BuildPorts(nets[i].portForwards);
      forwards := forwards + own;
      interfaces := interfaces + [Interface(nets[i].name, ports)];
      names := names + [nets[i].name];
    }
    NetworksUpTo(nets, |nets|);
  }

  /** One step of the network loops. */
  lemma NetworksUpTo(nets: seq<NetworkSpec>, i: nat)
    requires i <= |nets|
    ensures i < |nets| ==>
      && Interfaces(nets)[..i + 1] == Interfaces(nets)[..i] + [Interface(nets[i].name, VmiPorts(nets[i].portForwards))]
      && NetworkNames(nets)[..i + 1] == NetworkNames(nets)[..i] + [nets[i].name]
      && AllForwards(nets[i..]) == nets[i].portForwards + AllForwards(nets[i + 1..])
    ensures nets[0..] == nets && (i == |nets| ==> AllForwards(nets[i..]) == [])
  {
    hide VmiPorts;
    if i < |nets| {
      assert nets[i..][0] == nets[i] && nets[i..][1..] == nets[i + 1..];
    } else {
      assert nets[i..] == [];
    }
  }

  method BuildPorts(pfs: seq<PortForward>) returns (ports: seq<VmiPort>, forwards: seq<PortForward>)
    ensures ports == VmiPorts(pfs) && forwards == pfs
  {
    ports, forwards := [], [];
    for j := 0 to |pfs|
      invariant ports == VmiPorts(pfs)[..j] && forwards == pfs[..j]
    {
      var proto := pfs[j].protocol;
      if proto == "" {
        proto := "TCP";
      }
      ports := ports + [VmiPort(pfs[j].vmPort, ToUpper(proto))];
      forwards := forwards + [pfs[j]];
    }
  }

  method ToVMI(files: Files, vm: VirtualMachine) returns (r: Result<VmiResult>)
    ensures r == Convert(files, vm.Value())
  {
    hide DiskPath, IsQcow2Image, ContainerFilename, ContainerPath;
    var ok, disks, volumes, mounts := BuildDisks(files, vm.disks);
    if !ok {
      return Err;
    }
    var sshUser, sshKeys := "", false;
    if vm.cloudInit.Some? {
      var userData := UserDataOf(vm.cloudInit.value);
      disks := disks + [VmiDisk("cloudinitdisk", "virtio")];
      volumes := volumes + [CloudInit("cloudinitdisk", userData)];
      sshUser := userData.user;
      sshKeys := |vm.cloudInit.value.sshKeys| > 0;
    }
    assert vm.cloudInit.None? ==> disks == VmiDisks(vm.disks) + [] && volumes == HostVolumes(files, vm.disks) + [];
    var interfaces, names, forwards := BuildNetworks(vm.networks);
    r := Ok(VmiResult(VmiObject(vm.name, vm.cpu, vm.memory, disks, volumes, interfaces, names, Firmware(vm.boot)),
                      mounts, forwards, sshUser, sshKeys));
  }

  // ----- The converted VMI, part by part -----

  /** What a disk becomes: its device and its volume. */
  predicate DiskOfVmi(files: Files, d: DiskSpec, disk: VmiDisk, volume: Volume) {
    && disk == VmiDisk(d.name, if d.bus == "" then "virtio" else d.bus)
    && volume == HostDisk(d.name, ContainerPath(d.name, ContainerFilename(files, d.source.image)))
  }

  /** What a network becomes: an interface with one port per forward, the VM's, with its protocol
      in upper case, TCP when none is given. */
  predicate InterfaceOfVmi(n: NetworkSpec, i: Interface) {
    && i.name == n.name && |i.ports| == |n.portForwards|
    && forall k :: 0 <= k < |i.ports| ==>
         i.ports[k] == VmiPort(n.portForwards[k].vmPort, if n.portForwards[k].protocol == "" then "TCP" else ToUpper(n.portForwards[k].protocol))
  }

  lemma TcpIsUpper()
    ensures ToUpper("TCP") == "TCP"
  {
  }

  /**
   The conversion succeeds exactly when every disk has a local image.  Then name, CPU and memory
   are the description's; the disks come first, in order, and after them the cloud-init disk
   exactly when there is a cloud-init section; interfaces and networks have the networks' names,
   in order; and the boot section is kept as firmware unless all its fields are empty.
   */
  lemma ConvertExactly(files: Files, m: Machine)
    ensures Convert(files, m).Ok? <==> forall i :: 0 <= i < |m.disks| ==> m.disks[i].source.image != ""
    ensures Convert(files, m).Ok? ==>
      var r, n := Convert(files, m).value, |m.disks|;
      && r.vmi.name == m.name && r.vmi.cpu == m.cpu && r.vmi.memory == m.memory
      && |r.vmi.disks| == |r.vmi.volumes| == (if m.cloudInit.Some? then n + 1 else n)
      && (forall i :: 0 <= i < n ==> DiskOfVmi(files, m.disks[i], r.vmi.disks[i], r.vmi.volumes[i]))
      && (m.cloudInit.Some? ==> r.vmi.disks[n] == VmiDisk("cloudinitdisk", "virtio") && r.vmi.volumes[n].CloudInit? && r.vmi.volumes[n].name == "cloudinitdisk")
      && |r.vmi.interfaces| == |m.networks| && r.vmi.networks == NetworkNames(m.networks)
      && (forall i :: 0 <= i < |m.networks| ==> InterfaceOfVmi(m.networks[i], r.vmi.interfaces[i]) && r.vmi.networks[i] == m.networks[i].name)
      && (r.vmi.firmware.Some? <==> m.boot.Some? && (m.boot.value.kernel != "" || m.boot.value.initrd != "" || m.boot.value.cmdline != ""))
      && (r.vmi.firmware.Some? ==> r.vmi.firmware == m.boot)
  {
    hide HostMounts, AllForwards, ContainerPath, ContainerFilename, ToUpper;
    TcpIsUpper();
  }

  /**
   Credentials from flags and description to the guest.  The VMI has a cloud-init volume exactly
   when the description has the section or the flags give keys or a password.  It holds the
   description's keys followed by the flags' keys; the password is the flag's if given, else the
   description's, else the default; so is the user, whose flag counts only next to keys or a
   password.  ssh uses the same user, and keys count as configured exactly when there are some.
   No other part of the description is changed.
   */
  lemma CredentialsReachGuest(files: Files, m: Machine, c: Credentials)
    requires AllLocal(m.disks)
    ensures var m1 := WithCredentials(m, c);
      var had, given := m.cloudInit.Some?, c.sshKeys != [] || c.password != "";
      var r := Convert(files, m1);
      && m1 == m.(cloudInit := m1.cloudInit) && r.Ok?
      && if !had && !given then
           && |r.value.vmi.volumes| == |m.disks| && (forall i :: 0 <= i < |m.disks| ==> r.value.vmi.volumes[i].HostDisk?)
           && r.value.sshUser == "" && !r.value.sshKeysConfigured
         else
           var ci := if had then m.cloudInit.value else CloudInitSpec("", "", []);
           var user := if given && c.user != "" then c.user else if ci.user != "" then ci.user else "podvirt";
           var password := if c.password != "" then c.password else if ci.password != "" then ci.password else "podvirt";
           && |r.value.vmi.volumes| == |m.disks| + 1 && (forall i :: 0 <= i < |m.disks| ==> r.value.vmi.volumes[i].HostDisk?)
           && r.value.vmi.volumes[|m.disks|] == CloudInit("cloudinitdisk", UserData(user, password, ci.sshKeys + c.sshKeys))
           && r.value.sshUser == user && (r.value.sshKeysConfigured <==> ci.sshKeys + c.sshKeys != [])
  {
    hide HostMounts, AllForwards, Interfaces, NetworkNames, Firmware, DiskPath, VmiDisks;
    if m.cloudInit.Some? {
      assert m.cloudInit.value.sshKeys + [] == m.cloudInit.value.sshKeys;
    }
  }
}

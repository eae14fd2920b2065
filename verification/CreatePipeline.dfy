/** `runCreate`: the stages in order, on one VM object and one file system. */
module CreatePipeline {
  import opened Prelude
  import opened Text
  import opened Config
  import opened CreateFlags
  import Quantity
  import opened Validator
  import opened DiskImage
  import opened Extraction
  import opened SizedDisks
  import opened Vmi
  import opened ContainerSpec
  import opened MountAgreement

  datatype Options = Options(flags: Flags, cpusChanged: bool, memoryChanged: bool, ports: seq<string>,
                             password: string, user: string, diskSize: string)

  datatype ConfigFile = NoFile | Unreadable | Parsed(machine: Machine)

  /** Everything else that the command meets: keys found, pulls, unreadable paths, Podman's
      answers, directories and qemu-img runs. */
  datatype World = World(keys: Option<seq<string>>, cacheBase: AbsPath, extract: nat -> PullEnv, blocked: set<string>,
                         connected: bool, vmExists: Option<bool>, imageReady: bool,
                         resizedBase: AbsPath, mkdirOk: bool, size: nat -> SizeEnv)

  // ----- loadCreateVM -----

  function Overrides(o: Options): Flags {
    o.flags.(memory := if o.memoryChanged then o.flags.memory else "", cpus := if o.cpusChanged then o.flags.cpus else 0)
  }

  function Loaded(c: ConfigFile, o: Options): Result<Machine> {
    match c
    case NoFile => if o.flags.name == "" then Err else Ok(FromFlags(o.flags))
    case Unreadable => Err
    case Parsed(m) => Ok(Merged(Defaulted(m), Overrides(o)))
  }

  method LoadCreateVM(c: ConfigFile, o: Options) returns (vm: VirtualMachine?)
    ensures vm == null <==> Loaded(c, o).Err?
    ensures vm != null ==> fresh(vm) && Ok(vm.Value()) == Loaded(c, o)
  {
    match c
    case Unreadable => vm := null;
    case NoFile => vm := LoadFromFlags(o.flags);
    case Parsed(m) =>
      var v := new VirtualMachine(m);
      ApplyDefaults(v);
      MergeFlags(v, Overrides(o));
      vm := v;
  }

  // ----- The stages up to the image copies -----

  function WithPorts(m: Machine, ports: seq<string>): Result<Machine> {
    if ports == [] then Ok(m)
    else
      match ParseForwards(ports)
      case None => Err
      case Some(pfs) => Ok(m.(networks := WithForwards(m.networks, pfs)))
  }

  function Configured(m: Machine, o: Options, keys: Option<seq<string>>): Result<Machine> {
    match WithPorts(m, o.ports)
    case Err => Err
    case Ok(m1) => if keys.None? then Err else WithDiskSize(WithCredentials(m1, Credentials(keys.value, o.password, o.user)), o.diskSize)
  }

  /** What `os.Stat` reports as missing: no file there, and no other reason to fail (a directory, a
      path through a file, a directory that may not be searched). */
  function MissingIn(files: Files, blocked: set<string>): Missing {
    p => Lookup(files, p).None? && p !in blocked
  }

  function ResizedDir(w: World, name: string): AbsPath {
    JoinPath(w.resizedBase, name)
  }

  /** Extraction, then validation, then Podman's checks, then the sized copies. */
  function Materialised(files: Files, m: Machine, w: World): (Files, Result<Machine>) {
    var (f1, disks1, ok1) := ExtractFrom(files, w.cacheBase, m.disks, 0, w.extract);
    var m1 := m.(disks := disks1);
    if !ok1 || Issues(m1, MissingIn(f1, w.blocked)) != [] then (f1, Err)
    else if !w.connected || w.vmExists != Some(false) || !w.imageReady || !w.mkdirOk then (f1, Err)
    else
      var (f2, disks2, ok2) := SizeFrom(f1, ResizedDir(w, m1.name), disks1, 0, w.size);
      (f2, if ok2 then Ok(m1.(disks := disks2)) else Err)
  }

  function Prepare(files: Files, m: Machine, o: Options, w: World): (Files, Result<Machine>) {
    match Configured(m, o, w.keys)
    case Err => (files, Err)
    case Ok(m1) => Materialised(files, m1, w)
  }

  /** The whole command up to the converted result: the files it leaves, and what it reports. */
  function Created(files: Files, c: ConfigFile, o: Options, w: World): (Files, Result<VmiResult>) {
    match Loaded(c, o)
    case Err => (files, Err)
    case Ok(m) =>
      var (after, prepared) := Prepare(files, m, o, w);
      (after, if prepared.Err? then Err else Convert(after, prepared.value))
  }

  method Configure(vm: VirtualMachine, o: Options, keys: Option<seq<string>>) returns (ok: bool)
    modifies vm
    ensures if ok then Configured(old(vm.Value()), o, keys) == Ok(vm.Value()) else Configured(old(vm.Value()), o, keys).Err?
  {
    hide ParseForwards, WithForwards, WithCredentials;
    if |o.ports| != 0 {
      var pfs := ParsePortForwards(o.ports);
      if pfs.None? {
        return false;
      }
      ApplyPortForwards(vm, pfs.value);
    }
    assert WithPorts(old(vm.Value()), o.ports) == Ok(vm.Value());
    if keys.None? {
      return false;
    }
    ApplyCloudInitFlags(vm, Credentials(keys.value, o.password, o.user));
    ok := ApplyCreateDiskSize(vm, o.diskSize);
  }

  method Materialise(fs: FileSystem, vm: VirtualMachine, w: World) returns (ok: bool)
    modifies fs, vm
    ensures fs.files == Materialised(old(fs.files), old(vm.Value()), w).0
    ensures Materialised(old(fs.files), old(vm.Value()), w).1 == if ok then Ok(vm.Value()) else Err
  {
    hide Issues, ExtractFrom, SizeFrom, MissingIn;
    ok := ExtractContainerDisks(fs, vm, w.cacheBase, w.extract);
    if !ok {
      return;
    }
    var errs := Validate(vm, MissingIn(fs.files, w.blocked));
    if |errs| > 0 {
      return false;
    }
    if !w.connected {
      return false;
    }
    if w.vmExists.None? || w.vmExists.value {
      return false;
    }
    if !w.imageReady {
      return false;
    }
    ok := PrepareSizedDisks(fs, vm, ResizedDir(w, vm.name), w.mkdirOk, w.size);
  }

  method RunCreate(fs: FileSystem, c: ConfigFile, o: Options, w: World) returns (r: Result<VmiResult>)
    modifies fs
    ensures (fs.files, r) == Created(old(fs.files), c, o, w)
  {
    hide Convert, Materialised, Configured;
    var loaded := LoadCreateVM(c, o);
    if loaded == null {
      return Err;
    }
    var vm: VirtualMachine := loaded;
    var ok := Configure(vm, o, w.keys);
    if !ok {
      return Err;
    }
    ok := Materialise(fs, vm, w);
    if !ok {
      return Err;
    }
    r := ToVMI(fs.files, vm);
  }

  // ----- Defaults stay a fixpoint -----

  /** The loaded VM is defaulted exactly when no --cpus override truncates to zero cores; without
      a config file it always is. */
  lemma LoadedIsDefaulted(c: ConfigFile, o: Options)
    requires Loaded(c, o).Ok?
    ensures IsDefaulted(Loaded(c, o).value) <==>
      !(c.Parsed? && o.cpusChanged && o.flags.cpus > 0 && o.flags.cpus % 0x1_0000_0000 == 0)
  {
    match c
    case NoFile =>
      DefaultingIsIdempotent(Machine(API_VERSION, KIND, o.flags.name, map[], CPUSpec(U32(o.flags.cpus), 0, 0), o.flags.memory,
                                     SetContainer(SetLocal([], o.flags.disk), o.flags.image), [DEFAULT_NETWORK], None, None, None));
    case Parsed(m) =>
      hide Defaulted, Merged;
      DefaultingIsIdempotent(m);
      MergeKeepsDefaults(Defaulted(m), Overrides(o));
  }

  /** Ports, cloud-init, sizing flag and extraction all keep a defaulted VM defaulted. */
  lemma StagesKeepDefaults(files: Files, m: Machine, o: Options, w: World)
    requires IsDefaulted(m) && Configured(m, o, w.keys).Ok?
    ensures IsDefaulted(Configured(m, o, w.keys).value)
    ensures var m1 := Configured(m, o, w.keys).value;
      var (_, disks, ok) := ExtractFrom(files, w.cacheBase, m1.disks, 0, w.extract);
      ok ==> IsDefaulted(m1.(disks := disks))
  {
    hide ParseForwards, WithForwards, WithCredentials, IsDefaulted, ExtractFrom;
    var pfs := if o.ports == [] then [] else ParseForwards(o.ports).value;
    var cred := Credentials(w.keys.value, o.password, o.user);
    FlagStagesKeepDefaults(m, pfs, cred, o.diskSize);
    var m0 := WithPorts(m, o.ports).value;
    FlagStagesKeepDefaults(m0, pfs, cred, o.diskSize);
    FlagStagesKeepDefaults(WithCredentials(m0, cred), pfs, cred, o.diskSize);
    var m1 := Configured(m, o, w.keys).value;
    ExtractMeaning(files, w.cacheBase, m1.disks, 0, w.extract);
    var (_, disks, ok) := ExtractFrom(files, w.cacheBase, m1.disks, 0, w.extract);
    if ok {
      DefaultedFields(m1);
      DefaultedFields(m1.(disks := disks));
      assert forall k :: 0 <= k < |disks| ==> Extracted(w.cacheBase, m1.disks[k], disks[k]) && disks[k].bus == m1.disks[k].bus;
    }
  }

  // ----- What is loaded, field by field -----

  /** A flag converted to 32 bits. */
  predicate Truncated(cores: nat, flag: int) {
    cores < 0x1_0000_0000 && (cores - flag) % 0x1_0000_0000 == 0
  }

  /** The disks asked for with --disk and --image alone. */
  function DisksAskedFor(path: string, image: string): seq<DiskSpec> {
    (if path != "" then [DiskSpec("disk0", DiskSource(path, ""), "", "virtio")] else [])
    + if image != "" then [DiskSpec("containerdisk", DiskSource("", image), "", "virtio")] else []
  }

  /** Without a config file, and exactly with a name, the VM is made of the flags: its disks are the
      ones asked for, its memory the flag's or 1Gi, its cores the flag's, truncated to 32 bits, or
      one; it has one masquerade network, a VNC console, and no boot or cloud-init section. */
  lemma FlagsAloneExactly(o: Options)
    ensures Loaded(NoFile, o).Ok? <==> o.flags.name != ""
    ensures Loaded(NoFile, o).Ok? ==>
      var m := Loaded(NoFile, o).value;
      && m == Machine("podvirt.io/v1alpha1", "VirtualMachine", o.flags.name, map[], CPUSpec(m.cpu.cores, 0, 0),
                      if o.flags.memory == "" then "1Gi" else o.flags.memory,
                      DisksAskedFor(o.flags.disk, o.flags.image), [NetworkSpec("default", "masquerade", [])],
                      None, Some(ConsoleSpec("vnc", 5900)), None)
      && if o.flags.cpus % 0x1_0000_0000 == 0 then m.cpu.cores == 1 else Truncated(m.cpu.cores, o.flags.cpus)
    ensures 0 < o.flags.cpus < 0x1_0000_0000 && o.flags.name != "" ==> Loaded(NoFile, o).value.cpu.cores == o.flags.cpus
  {
    if o.flags.name != "" {
      var f := o.flags;
      var none: seq<DiskSpec> := [];
      assert SetContainer(SetLocal(none, f.disk), f.image) == DisksAskedFor(f.disk, f.image);
      assert WithBuses(DisksAskedFor(f.disk, f.image)) == DisksAskedFor(f.disk, f.image);
      TruncatedIs(f.cpus);
    }
  }

  lemma TruncatedIs(flag: int)
    ensures Truncated(U32(flag), flag) && (U32(flag) == 0 <==> flag % 0x1_0000_0000 == 0)
  {
    var q := flag / 0x1_0000_0000;
    assert U32(flag) - flag == -q * 0x1_0000_0000;
  }

  /** With a config file that can be read, each field is the flag's where that overrides, else the
      file's, else the default.  Memory and CPU override only when their flag was given, and CPU
      only when positive; the two disk flags act one after the other on the file's disks. */
  lemma FileWithFlagsExactly(m: Machine, o: Options) returns (disks: seq<DiskSpec>, mid: seq<DiskSpec>)
    ensures Loaded(ConfigFile.Parsed(m), o).Ok? && Loaded(Unreadable, o).Err?
    ensures |disks| == |m.disks| && forall i :: 0 <= i < |disks| ==> disks[i] == m.disks[i].(bus := if m.disks[i].bus == "" then "virtio" else m.disks[i].bus)
    ensures if o.flags.disk == "" then mid == disks else TakesLocal(disks, mid, o.flags.disk)
    ensures var r := Loaded(ConfigFile.Parsed(m), o).value;
      && (if o.flags.image == "" then r.disks == mid else TakesContainer(mid, r.disks, o.flags.image))
      && r.name == (if o.flags.name != "" then o.flags.name else m.name)
      && r.memory == (if o.memoryChanged && o.flags.memory != "" then o.flags.memory else if m.memory == "" then "1Gi" else m.memory)
      && (if o.cpusChanged && o.flags.cpus > 0 then Truncated(r.cpu.cores, o.flags.cpus)
          else r.cpu.cores == if m.cpu.cores == 0 then 1 else m.cpu.cores)
      && r.cpu.sockets == m.cpu.sockets && r.cpu.threads == m.cpu.threads
      && r.labels == m.labels && r.boot == m.boot
      && r.networks == (if m.networks == [] then [NetworkSpec("default", "masquerade", [])] else m.networks)
      && r.console == (if m.console.None? then Some(ConsoleSpec("vnc", 5900)) else m.console)
      && (m.cloudInit.None? <==> r.cloudInit.None?)
      && (m.cloudInit.Some? ==> r.cloudInit.value == CloudInitSpec(
            if m.cloudInit.value.user == "" then "podvirt" else m.cloudInit.value.user,
            if m.cloudInit.value.password == "" then "podvirt" else m.cloudInit.value.password, m.cloudInit.value.sshKeys))
  {
    hide SetLocal, SetContainer, TakesLocal, TakesContainer;
    disks := Defaulted(m).disks;
    mid := DiskFlags(disks, Overrides(o));
    TruncatedIs(o.flags.cpus);
  }

  // ----- Progress -----

  /** After extraction, validation and sizing every disk is local. */
  lemma DisksBecomeLocal(files: Files, m: Machine, w: World)
    requires Materialised(files, m, w).1.Ok?
    ensures var m' := Materialised(files, m, w).1.value;
      && AllLocal(m'.disks)
      && (forall i :: 0 <= i < |m'.disks| ==> m'.disks[i].source.containerImage == "")
      && |m'.disks| == |m.disks| && (forall i :: 0 <= i < |m.disks| ==> m'.disks[i].name == m.disks[i].name)
      && m' == m.(disks := m'.disks)
      && ValidName(m'.name) && (forall i :: 0 <= i < |m'.networks| ==> ValidNetwork(m'.networks[i]))
  {
    hide ExtractFrom, SizeFrom, Issues, DestPath, ValidName, ValidNetwork, MissingIn, Rooted, CacheDir, InDir, ResizedDir;
    var (f1, disks1, ok1) := ExtractFrom(files, w.cacheBase, m.disks, 0, w.extract);
    ExtractMeaning(files, w.cacheBase, m.disks, 0, w.extract);
    AcceptedExactly(m.(disks := disks1), MissingIn(f1, w.blocked));
    assert forall i :: 0 <= i < |disks1| ==> Extracted(w.cacheBase, m.disks[i], disks1[i]) && ValidDisk(disks1[i], MissingIn(f1, w.blocked));
    SizingKeepsLocal(f1, ResizedDir(w, m.name), disks1, 0, w.size);
  }

  lemma {:induction false} SizingKeepsLocal(files: Files, base: AbsPath, disks: seq<DiskSpec>, i: nat, env: nat -> SizeEnv)
    requires i <= |disks| && forall k :: 0 <= k < |disks| ==> disks[k].source.image != "" && disks[k].source.containerImage == ""
    ensures var (_, disks', _) := SizeFrom(files, base, disks, i, env);
      && |disks'| == |disks|
      && forall k :: 0 <= k < |disks| ==>
           disks'[k].source.image != "" && disks'[k].source.containerImage == "" && disks'[k].name == disks[k].name
    decreases |disks| - i
  {
    hide BuildSized, DestPath, Lookup, IsSizedCopy;
    if i < |disks| {
      if disks[i].size == "" {
        SizingKeepsLocal(files, base, disks, i + 1, env);
      } else {
        var dest := DestPath(base, disks[i].name);
        var (f, r) := BuildSized(files, dest, disks[i], env(i));
        BuildSizedMeaning(files, dest, disks[i], env(i));
        if r.Ok? {
          SizingKeepsLocal(f, base, disks[i := Pointed(disks[i], r.value)], i + 1, env);
        }
      }
    }
  }

  function DiskNames(disks: seq<VmiDisk>): (r: seq<string>)
    ensures |r| == |disks|
  {
    seq(|disks|, i requires 0 <= i < |disks| => disks[i].name)
  }

  function VolumeNames(volumes: seq<Volume>): (r: seq<string>)
    ensures |r| == |volumes|
  {
    seq(|volumes|, i requires 0 <= i < |volumes| => volumes[i].name)
  }

  /**
   Pipeline progress.  Whenever the stages before the conversion succeed, on any input and in
   any environment: every disk has a local image and no container image, the conversion cannot
   fail, the VMI's disks and volumes have equal names in equal order, and the port forwards are
   the ones of all networks, ready for conservation.
   */
  lemma PipelineProgress(files: Files, m: Machine, o: Options, w: World)
    requires Prepare(files, m, o, w).1.Ok?
    ensures var (f, m') := (Prepare(files, m, o, w).0, Prepare(files, m, o, w).1.value);
      && AllLocal(m'.disks)
      && (forall i :: 0 <= i < |m'.disks| ==> m'.disks[i].source.containerImage == "")
      && Convert(f, m').Ok?
      && DiskNames(Convert(f, m').value.vmi.disks) == VolumeNames(Convert(f, m').value.vmi.volumes)
      && HostVolumes(f, m'.disks) <= Convert(f, m').value.vmi.volumes
      && Convert(f, m').value.portForwards == AllForwards(m'.networks)
      && forall i :: 0 <= i < |m'.networks| ==> ValidNetwork(m'.networks[i])
  {
    hide Materialised, Configured, ValidNetwork, ValidName, AllForwards;
    DisksBecomeLocal(files, Configured(m, o, w.keys).value, w);
    ConvertNames(Prepare(files, m, o, w).0, Prepare(files, m, o, w).1.value);
  }

  lemma ConvertNames(files: Files, m: Machine)
    requires AllLocal(m.disks)
    ensures Convert(files, m).Ok? && Convert(files, m).value.portForwards == AllForwards(m.networks)
    ensures DiskNames(Convert(files, m).value.vmi.disks) == VolumeNames(Convert(files, m).value.vmi.volumes)
    ensures HostVolumes(files, m.disks) <= Convert(files, m).value.vmi.volumes
  {
    hide DiskPath, HostMounts, Interfaces, NetworkNames, AllForwards, Firmware;
  }

  /**
   Credentials from the flags to ssh.  When keys or a password are given, the converted VM
   passes the validator's cloud-init check; it is marked as having keys exactly when the
   description or the flags had one; and ssh logs in as the user of --user, else of the
   description, else the default.
   */
  lemma CredentialsReachSsh(files: Files, m: Machine, cred: Credentials)
    requires AllLocal(m.disks) && (cred.sshKeys != [] || cred.password != "")
    ensures var m1 := WithCredentials(m, cred);
      var had := m.cloudInit.Some?;
      && Convert(files, m1).Ok? && CloudInitEmpty !in TailIssues(m1)
      && (Convert(files, m1).value.sshKeysConfigured <==> cred.sshKeys != [] || (had && m.cloudInit.value.sshKeys != []))
      && Convert(files, m1).value.sshUser ==
           (if cred.user != "" then cred.user else if had && m.cloudInit.value.user != "" then m.cloudInit.value.user else DEFAULT_USER)
  {
    hide HostVolumes, HostMounts, Interfaces, NetworkNames, AllForwards, Firmware, VmiDisks;
  }

  // ----- Which files a create can touch -----

  lemma {:induction false} SizingTouchesCopiesOnly(files: Files, w: World, m: Machine, p: AbsPath)
    requires forall k :: 0 <= k < |m.disks| ==> !(DestPath(ResizedDir(w, m.name), m.disks[k].name) <= p)
    ensures SameAt(files, SizeFrom(files, ResizedDir(w, m.name), m.disks, 0, w.size).0, p)
  {
    hide SizeFrom, DestPath, ResizedDir;
    SizeFromFrame(files, ResizedDir(w, m.name), m.disks, 0, w.size, p);
  }

  /** Whatever the description and however the run ends, a file changes only in the cache directory
      of one of the VM's container images or at the place of a disk's sized copy. */
  lemma CreateTouchesCachesOnly(files: Files, m: Machine, w: World, p: AbsPath)
    requires forall k :: 0 <= k < |m.disks| ==>
               && (m.disks[k].source.containerImage != "" ==> !(CacheDir(w.cacheBase, m.disks[k].source.containerImage) <= p))
               && !(DestPath(ResizedDir(w, m.name), m.disks[k].name) <= p)
    ensures SameAt(files, Materialised(files, m, w).0, p)
  {
    hide ExtractFrom, SizeFrom, Issues, DestPath, MissingIn, Rooted, CacheDir, InDir, ResizedDir;
    var (f1, disks1, ok1) := ExtractFrom(files, w.cacheBase, m.disks, 0, w.extract);
    ExtractMeaning(files, w.cacheBase, m.disks, 0, w.extract);
    ExtractTouchesCacheOnly(files, w.cacheBase, m.disks, 0, w.extract, p);
    if ok1 {
      var m1 := m.(disks := disks1);
      forall k | 0 <= k < |disks1|
        ensures !(DestPath(ResizedDir(w, m1.name), disks1[k].name) <= p)
      {
        assert Extracted(w.cacheBase, m.disks[k], disks1[k]);
      }
      SizingTouchesCopiesOnly(f1, w, m1, p);
    }
  }

  // ----- Sized disks in the container -----

  lemma DestBase(base: AbsPath, name: string)
    requires '/' !in name
    ensures Base(Rooted(DestPath(base, name))) == name + QCOW2_EXT && Ext(name + QCOW2_EXT) == QCOW2_EXT
  {
    hide DestPath, Ext;
    var file := name + QCOW2_EXT;
    DestOfName(base, name);
    BaseOfRooted(base, file);
    assert file[|file| - 6..] == QCOW2_EXT;
    ExtExact(file);
  }

  lemma BaseOfRooted(dir: AbsPath, file: string)
    requires Plain(file)
    ensures Base(Rooted(dir + [file])) == file
  {
    var pre := if dir == [] then "" else "/" + Join(dir, '/');
    var path := Rooted(dir + [file]);
    if dir == [] {
      assert dir + [file] == [file];
    } else {
      JoinConcat(dir, [file], '/');
    }
    assert path == pre + ['/'] + file;
    assert path[|path| - 1] == file[|file| - 1] != '/';
    LastIndexOfConcat(pre, '/', file);
    assert path[|pre| + 1..] == file;
  }

  /** A sized copy keeps its name in the container, with the extension the wrapper looks for. */
  lemma SizedDiskKeepsName(files: Files, base: AbsPath, name: string)
    requires '/' !in name
    requires HasQcow2Magic(files, Rooted(DestPath(base, name))) == Some(true)
    ensures ContainerFilename(files, Rooted(DestPath(base, name))) == name + QCOW2_EXT
    ensures Plain(name + QCOW2_EXT) && HasSuffix(name + QCOW2_EXT, QCOW2_EXT)
  {
    hide DestPath, Base, Ext;
    DestBase(base, name);
    var file := name + QCOW2_EXT;
    assert |file| >= 6 && file[|file| - 1] == '2';
    assert file[|file| - 6..] == QCOW2_EXT;
  }

  /** Distinct images outside the copies stay distinct when the sized ones are copied. */
  lemma SizingKeepsImagesDistinct(files: Files, base: AbsPath, disks: seq<DiskSpec>, env: nat -> SizeEnv)
    requires SlashFree(disks) && NamesDiffer(disks) && SourcesOutside(files.cwd, base, disks) && DistinctImages(disks)
    ensures var (_, disks', ok) := SizeFrom(files, base, disks, 0, env);
      ok ==> DistinctImages(disks') && NamesDiffer(disks')
  {
    hide DestPath, SizeFrom, IsCopyPath, Clean, Rooted, Lookup, IsSizedCopy;
    SizedDisksAreCopies(files, base, disks, env);
    var (after, disks', ok) := SizeFrom(files, base, disks, 0, env);
    if ok {
      forall i, j | 0 <= i < j < |disks'|
        ensures disks'[i].source.image != disks'[j].source.image && disks'[i].name != disks'[j].name
      {
        assert Prepared(files, after, base, disks[i], disks'[i]) && Prepared(files, after, base, disks[j], disks'[j]);
        CopyIsNoSource(files.cwd, base, disks, i, j);
        CopyIsNoSource(files.cwd, base, disks, j, i);
        CleanRooted([], DestPath(base, disks[i].name));
        CleanRooted([], DestPath(base, disks[j].name));
      }
    }
  }

  lemma CopyIsNoSource(cwd: AbsPath, base: AbsPath, disks: seq<DiskSpec>, i: nat, j: nat)
    requires SourcesOutside(cwd, base, disks) && i < |disks| && j < |disks|
    ensures disks[i].size != "" ==> Rooted(DestPath(base, disks[i].name)) != disks[j].source.image
  {
    hide DestPath, Clean, Rooted;
    CleanRooted(cwd, DestPath(base, disks[i].name));
    assert !IsCopyPath(base, disks, Clean(cwd, disks[j].source.image));
    assert disks[i].size != "" ==> IsCopyPath(base, disks, DestPath(base, disks[i].name));
  }

  // ----- From the command line to the container's mounts -----

  /** A plain name, and an image, or the cache directory of a container image, outside the
      directory of the sized copies. */
  predicate Placed(cwd: AbsPath, cacheBase: AbsPath, base: AbsPath, d: DiskSpec) {
    && Plain(d.name)
    && if d.source.containerImage != "" then !(base <= CacheDir(cacheBase, d.source.containerImage))
       else Base(d.source.image) != ".." && !(base <= Clean(cwd, d.source.image))
  }

  /** Two disks that do not come from the same image. */
  predicate Apart(cwd: AbsPath, cacheBase: AbsPath, a: DiskSpec, b: DiskSpec) {
    var (ca, cb) := (a.source.containerImage, b.source.containerImage);
    if ca != "" && cb != "" then CacheDir(cacheBase, ca) != CacheDir(cacheBase, cb)
    else if ca != "" then !(CacheDir(cacheBase, ca) <= Clean(cwd, b.source.image))
    else if cb != "" then !(CacheDir(cacheBase, cb) <= Clean(cwd, a.source.image))
    else a.source.image != b.source.image
  }

  predicate Separate(cwd: AbsPath, w: World, m: Machine) {
    && NamesDiffer(m.disks)
    && (forall i :: 0 <= i < |m.disks| ==> Placed(cwd, w.cacheBase, ResizedDir(w, m.name), m.disks[i]))
    && (forall i, j :: 0 <= i < j < |m.disks| ==> Apart(cwd, w.cacheBase, m.disks[i], m.disks[j]))
  }

  /** A container disk's local image, as a file. */
  lemma ExtractedFile(cwd: AbsPath, cacheBase: AbsPath, d: DiskSpec, d': DiskSpec) returns (file: string)
    requires Extracted(cacheBase, d, d') && d.source.containerImage != ""
    ensures Plain(file) && Clean(cwd, d'.source.image) == CacheDir(cacheBase, d.source.containerImage) + [file]
    ensures Base(d'.source.image) != ".."
  {
    hide Rooted, CacheDir, Clean, Base;
    var dir := CacheDir(cacheBase, d.source.containerImage);
    file := if d'.source.image == Rooted(InDir(dir, DISK_IMG)) then DISK_IMG else DISK_QCOW2;
    CleanRooted(cwd, InDir(dir, file));
    BaseOfRooted(dir, file);
  }

  lemma ExtractedPlaced(cwd: AbsPath, cacheBase: AbsPath, base: AbsPath, name: string, d: DiskSpec, d': DiskSpec)
    requires Extracted(cacheBase, d, d') && Placed(cwd, cacheBase, base, d) && '/' !in name
    ensures StaysInside(d') && !(DestPath(base, name) <= Clean(cwd, d'.source.image))
  {
    hide Rooted, CacheDir, Clean, Base, DestPath;
    DestOfName(base, name);
    assert base <= DestPath(base, name);
    if d.source.containerImage != "" {
      var file := ExtractedFile(cwd, cacheBase, d, d');
    }
  }

  lemma ExtractedApart(cwd: AbsPath, cacheBase: AbsPath, a: DiskSpec, a': DiskSpec, b: DiskSpec, b': DiskSpec)
    requires Extracted(cacheBase, a, a') && Extracted(cacheBase, b, b') && Apart(cwd, cacheBase, a, b)
    ensures a'.source.image != b'.source.image
  {
    hide Rooted, CacheDir, Clean, Base;
    if a.source.containerImage != "" {
      var fa := ExtractedFile(cwd, cacheBase, a, a');
      if b.source.containerImage != "" {
        var fb := ExtractedFile(cwd, cacheBase, b, b');
        LastDiffers(CacheDir(cacheBase, a.source.containerImage), fa, CacheDir(cacheBase, b.source.containerImage), fb);
      }
    } else if b.source.containerImage != "" {
      var fb := ExtractedFile(cwd, cacheBase, b, b');
    }
  }

  lemma LastDiffers(p: seq<string>, a: string, q: seq<string>, b: string)
    ensures p + [a] == q + [b] ==> p == q
  {
    assert (p + [a])[..|p + [a]| - 1] == p && (q + [b])[..|q + [b]| - 1] == q;
  }

  /** Separate disks give distinct local images outside the copies. */
  lemma ExtractionSeparates(files: Files, m: Machine, w: World)
    requires Separate(files.cwd, w, m) && ExtractFrom(files, w.cacheBase, m.disks, 0, w.extract).2
    ensures var (f1, disks1, _) := ExtractFrom(files, w.cacheBase, m.disks, 0, w.extract);
      && f1.cwd == files.cwd && SlashFree(disks1) && NamesDiffer(disks1) && DistinctImages(disks1)
      && (forall i :: 0 <= i < |disks1| ==> StaysInside(disks1[i]))
      && SourcesOutside(files.cwd, ResizedDir(w, m.name), disks1)
  {
    hide ExtractFrom, CacheDir, Rooted, Clean, Base, DestPath, InDir, ResizedDir, Placed, Apart, StaysInside;
    var (f1, disks1, _) := ExtractFrom(files, w.cacheBase, m.disks, 0, w.extract);
    ExtractMeaning(files, w.cacheBase, m.disks, 0, w.extract);
    var base := ResizedDir(w, m.name);
    forall i | 0 <= i < |disks1|
      ensures disks1[i].name == m.disks[i].name && '/' !in disks1[i].name && StaysInside(disks1[i])
    {
      NameIsPlain(files.cwd, w.cacheBase, base, m.disks[i]);
      ExtractedPlaced(files.cwd, w.cacheBase, base, "", m.disks[i], disks1[i]);
    }
    forall i, j | 0 <= i < |disks1| && 0 <= j < |disks1|
      ensures !(DestPath(base, disks1[j].name) <= Clean(files.cwd, disks1[i].source.image))
    {
      ExtractedPlaced(files.cwd, w.cacheBase, base, disks1[j].name, m.disks[i], disks1[i]);
    }
    forall i, j | 0 <= i < j < |disks1|
      ensures disks1[i].source.image != disks1[j].source.image
    {
      ExtractedApart(files.cwd, w.cacheBase, m.disks[i], disks1[i], m.disks[j], disks1[j]);
    }
  }

  lemma NameIsPlain(cwd: AbsPath, cacheBase: AbsPath, base: AbsPath, d: DiskSpec)
    requires Placed(cwd, cacheBase, base, d)
    ensures Plain(d.name)
  {
  }

  /** Sizing any subset of such disks keeps them mountable. */
  lemma SizingKeepsSeparate(files: Files, base: AbsPath, disks: seq<DiskSpec>, env: nat -> SizeEnv)
    requires SlashFree(disks) && NamesDiffer(disks) && DistinctImages(disks) && SourcesOutside(files.cwd, base, disks)
    requires forall i :: 0 <= i < |disks| ==> StaysInside(disks[i])
    requires SizeFrom(files, base, disks, 0, env).2
    ensures var (after, disks', _) := SizeFrom(files, base, disks, 0, env);
      && DistinctImages(disks') && NamesDiffer(disks') && |disks'| == |disks|
      && forall i :: 0 <= i < |disks| ==> StaysInside(disks'[i]) && Prepared(files, after, base, disks[i], disks'[i])
  {
    hide SizeFrom, DestPath, Rooted, Base, Clean, IsSizedCopy, IsCopyPath, DistinctImages, NamesDiffer;
    SizingKeepsImagesDistinct(files, base, disks, env);
    SizedDisksAreCopies(files, base, disks, env);
    var (after, disks', _) := SizeFrom(files, base, disks, 0, env);
    forall i | 0 <= i < |disks|
      ensures StaysInside(disks'[i])
    {
      assert Prepared(files, after, base, disks[i], disks'[i]);
      DestBase(base, disks[i].name);
      DestOfName(base, disks[i].name);
    }
  }

  /** The flags change no name and no source. */
  lemma ConfiguredKeepsSources(m: Machine, o: Options, keys: Option<seq<string>>)
    requires Configured(m, o, keys).Ok?
    ensures var m1 := Configured(m, o, keys).value;
      && m1.name == m.name && |m1.disks| == |m.disks|
      && forall i :: 0 <= i < |m.disks| ==> m1.disks[i] == m.disks[i].(size := m1.disks[i].size)
  {
    hide ParseForwards, WithForwards;
  }

  lemma ConfiguredKeepsSeparate(cwd: AbsPath, m: Machine, o: Options, w: World)
    requires Configured(m, o, w.keys).Ok? && Separate(cwd, w, m)
    ensures Separate(cwd, w, Configured(m, o, w.keys).value)
  {
    hide Configured, ResizedDir, CacheDir, Clean, Base;
    ConfiguredKeepsSources(m, o, w.keys);
    var m1 := Configured(m, o, w.keys).value;
    forall i | 0 <= i < |m1.disks|
      ensures Placed(cwd, w.cacheBase, ResizedDir(w, m1.name), m1.disks[i])
    {
      assert Placed(cwd, w.cacheBase, ResizedDir(w, m.name), m.disks[i]);
    }
    forall i, j | 0 <= i < j < |m1.disks|
      ensures Apart(cwd, w.cacheBase, m1.disks[i], m1.disks[j])
    {
      assert Apart(cwd, w.cacheBase, m.disks[i], m.disks[j]);
    }
  }

  /** The image that backs a disk in the end: the sized copy, which exists and has the requested
      size, else the extracted image in its cache directory, else the image of the description. */
  predicate Backs(after: Files, w: World, base: AbsPath, d: DiskSpec, image: string) {
    if d.size != "" then
      image == Rooted(DestPath(base, d.name)) && Lookup(after, image).Some? && SizedAs(Lookup(after, image).value, d.size)
    else if d.source.containerImage != "" then
      var dir := CacheDir(w.cacheBase, d.source.containerImage);
      image in {Rooted(InDir(dir, DISK_IMG)), Rooted(InDir(dir, DISK_QCOW2))}
    else image == d.source.image
  }

  predicate SizedAs(f: DiskFile, size: string) {
    Quantity.Bytes(size) == Some(f.virtualSize) && f.format == "qcow2"
  }

  lemma PreparedBacks(before: Files, after: Files, w: World, base: AbsPath, d: DiskSpec, d1: DiskSpec, d2: DiskSpec)
    requires Extracted(w.cacheBase, d, d1) && Prepared(before, after, base, d1, d2)
    ensures d2.name == d.name && Backs(after, w, base, d, d2.source.image)
  {
    hide Lookup, Rooted, DestPath, CacheDir, Quantity.Bytes;
  }

  lemma MaterialisedDisks(files: Files, m: Machine, w: World, withLogs: bool, order: seq<string>)
    requires Separate(files.cwd, w, m) && Materialised(files, m, w).1.Ok?
    requires var (f, r) := Materialised(files, m, w); Visits(order, HostMounts(f, r.value.disks))
    ensures var (f, r) := Materialised(files, m, w);
      && AllMountedOnce(f, r.value.disks, withLogs, order) && |r.value.disks| == |m.disks|
      && forall i :: 0 <= i < |m.disks| ==>
           r.value.disks[i].name == m.disks[i].name && Backs(f, w, ResizedDir(w, m.name), m.disks[i], r.value.disks[i].source.image)
  {
    hide ExtractFrom, SizeFrom, Issues, MissingIn, Separate, ResizedDir, Backs, Prepared, StaysInside, AllMountedOnce,
         NamesDiffer, DistinctImages, SourcesOutside, SlashFree, HostMounts, Rooted, DestPath, CacheDir, InDir;
    var (f1, disks1, _) := ExtractFrom(files, w.cacheBase, m.disks, 0, w.extract);
    ExtractMeaning(files, w.cacheBase, m.disks, 0, w.extract);
    ExtractionSeparates(files, m, w);
    var base := ResizedDir(w, m.name);
    SizingKeepsSeparate(f1, base, disks1, w.size);
    var (f2, disks2, _) := SizeFrom(f1, base, disks1, 0, w.size);
    NamedDisksMountedExactly(f2, disks2, withLogs, order);
    forall i | 0 <= i < |m.disks|
      ensures disks2[i].name == m.disks[i].name && Backs(f2, w, base, m.disks[i], disks2[i].source.image)
    {
      PreparedBacks(f1, f2, w, base, m.disks[i], disks1[i], disks2[i]);
    }
  }

  /**
   From the command line to the container.  When the description's disks are separate and the
   create succeeds, then for every disk, in order, the VMI has a host disk of the same name, and
   its path is the destination of exactly one mount of the container, of the image that backs
   the disk, whatever subset of the disks was extracted or sized and in whatever order the
   mount map is visited.
   */
  lemma CreatedDisksAreMounted(files: Files, c: ConfigFile, o: Options, w: World, withLogs: bool, order: seq<string>)
    requires Created(files, c, o, w).1.Ok? && Separate(files.cwd, w, Loaded(c, o).value)
    requires Visits(order, Created(files, c, o, w).1.value.mounts)
    ensures var (after, r) := Created(files, c, o, w);
      var m := Configured(Loaded(c, o).value, o, w.keys).value;
      var mounts := FixedMounts(withLogs) + ImageMounts(r.value.mounts, order);
      && |m.disks| <= |r.value.vmi.volumes|
      && forall i :: 0 <= i < |m.disks| ==>
           var v := r.value.vmi.volumes[i];
           && v.HostDisk? && v.name == m.disks[i].name
           && exists image :: Backs(after, w, ResizedDir(w, m.name), m.disks[i], image) && MountedOnce(mounts, image, v.path)
  {
    hide Loaded, Configured, Materialised, Separate, ResizedDir, Backs, MountedOnce, HostMounts, FixedMounts, ImageMounts,
         DiskPath, AllForwards, Firmware, Interfaces, NetworkNames, Visits;
    var m0 := Loaded(c, o).value;
    ConfiguredKeepsSeparate(files.cwd, m0, o, w);
    var m := Configured(m0, o, w.keys).value;
    var (after, r) := Created(files, c, o, w);
    var m' := Materialised(files, m, w).1.value;
    assert r == Convert(after, m');
    MaterialisedDisks(files, m, w, withLogs, order);
    forall i | 0 <= i < |m.disks|
      ensures r.value.vmi.volumes[i] == HostDisk(m.disks[i].name, DiskPath(after, m'.disks[i]))
      ensures MountedOnce(AllMounts(after, m'.disks, withLogs, order), m'.disks[i].source.image, DiskPath(after, m'.disks[i]))
    {
    }
  }

  // ----- When a create succeeds -----

  /** The flags fit: keys could be read, every --port text has a meaning, and --disk-size has a disk. */
  predicate FlagsFit(m: Machine, o: Options, keys: Option<seq<string>>) {
    && keys.Some?
    && (forall i :: 0 <= i < |o.ports| ==> ParseForward(o.ports[i]).Some?)
    && (o.diskSize != "" ==> m.disks != [])
  }

  /** What the flags make of the loaded VM: the forwards, in order, in the network that gets them;
      the credentials; the size of the first disk; nothing else. */
  lemma ConfiguredExactly(m: Machine, o: Options, keys: Option<seq<string>>)
    ensures Configured(m, o, keys).Ok? <==> FlagsFit(m, o, keys)
    ensures Configured(m, o, keys).Ok? ==>
      var r := Configured(m, o, keys).value;
      && r == m.(networks := r.networks, cloudInit := r.cloudInit, disks := r.disks)
      && r.cloudInit == WithCredentials(m, Credentials(keys.value, o.password, o.user)).cloudInit
      && r.disks == (if o.diskSize == "" then m.disks else m.disks[0 := m.disks[0].(size := o.diskSize)])
      && (o.ports == [] ==> r.networks == m.networks)
      && (o.ports != [] ==> exists pfs :: ForwardsOf(o.ports, pfs) && r.networks == WithForwards(m.networks, pfs))
  {
    hide ParseForward, WithForwards, ParseForwards;
    ListMeaning(o.ports);
    if o.ports != [] && ParseForwards(o.ports).Some? {
      assert ForwardsOf(o.ports, ParseForwards(o.ports).value);
    }
  }

  predicate ForwardsOf(ports: seq<string>, pfs: seq<PortForward>) {
    |pfs| == |ports| && forall i :: 0 <= i < |ports| ==> ParseForward(ports[i]) == Some(pfs[i])
  }

  /** The disks can be made: every container image is extractable, the description with the extracted
      images is valid, Podman answers and does not know the VM, its image and the directory for the
      copies are there, and every sized disk works. */
  predicate DisksCanBeMade(files: Files, m: Machine, w: World) {
    var (f1, disks1, _) := ExtractFrom(files, w.cacheBase, m.disks, 0, w.extract);
    && (forall k :: 0 <= k < |m.disks| && IsContainerDisk(m.disks[k]) ==>
          Extractable(files.store, CacheDir(w.cacheBase, m.disks[k].source.containerImage), w.extract(k)))
    && ValidMachine(m.(disks := disks1), path => Lookup(f1, path).None? && path !in w.blocked)
    && w.connected && w.vmExists == Some(false) && w.imageReady && w.mkdirOk
    && forall k :: 0 <= k < |disks1| && disks1[k].size != "" ==> SizedWorks(f1, disks1[k], w.size(k))
  }

  /** A path counts as missing when there is no file and nothing else stands in its way. */
  lemma MissingExactly(m: Machine, files: Files, blocked: set<string>)
    ensures ValidMachine(m, MissingIn(files, blocked)) <==> ValidMachine(m, path => Lookup(files, path).None? && path !in blocked)
  {
    hide Lookup, Quantity.Bytes, ValidName, ValidNetwork;
    var f: Missing := path => Lookup(files, path).None? && path !in blocked;
    assert forall d :: ValidDisk(d, MissingIn(files, blocked)) <==> ValidDisk(d, f);
  }

  /** Every VM has a directory of its own for its sized copies, named after it. */
  lemma CopiesPerVM(w: World, name: string)
    requires ValidName(name)
    ensures Plain(name) && ResizedDir(w, name) == w.resizedBase + [name]
  {
    hide CleanOnto, Split;
    assert forall i :: 0 <= i < |name| ==> name[i] != '/';
    assert name[0] != '.';
    CleanElement(w.resizedBase, name);
  }

  lemma MaterialisedExactly(files: Files, m: Machine, w: World)
    requires Separate(files.cwd, w, m) && OwnDirectories(m.disks)
    ensures Materialised(files, m, w).1.Ok? <==> DisksCanBeMade(files, m, w)
  {
    hide ExtractFrom, SizeFrom, Issues, MissingIn, CacheDir, Extractable, SizedWorks, Separate, ResizedDir, ValidMachine, OwnDirectories,
         NamesDiffer, SourcesOutside, SlashFree, DistinctImages, StaysInside;
    assert m.disks[0..] == m.disks;
    ExtractionSucceedsExactly(files, w.cacheBase, m.disks, 0, w.extract);
    var (f1, disks1, ok1) := ExtractFrom(files, w.cacheBase, m.disks, 0, w.extract);
    if ok1 {
      ExtractionSeparates(files, m, w);
      AcceptedExactly(m.(disks := disks1), MissingIn(f1, w.blocked));
      MissingExactly(m.(disks := disks1), f1, w.blocked);
      SizingSucceedsExactly(f1, ResizedDir(w, m.name), disks1, w.size);
    }
  }

  lemma PreparedExactly(files: Files, m: Machine, o: Options, w: World)
    requires Separate(files.cwd, w, m) && OwnDirectories(m.disks)
    ensures Prepare(files, m, o, w).1.Ok? <==>
      FlagsFit(m, o, w.keys) && Configured(m, o, w.keys).Ok? && DisksCanBeMade(files, Configured(m, o, w.keys).value, w)
  {
    hide Configured, Materialised, Separate, FlagsFit, DisksCanBeMade, OwnDirectories;
    ConfiguredExactly(m, o, w.keys);
    if Configured(m, o, w.keys).Ok? {
      ConfiguredKeepsSeparate(files.cwd, m, o, w);
      ConfiguredKeepsOwn(m, o, w.keys);
      MaterialisedExactly(files, Configured(m, o, w.keys).value, w);
    }
  }

  /**
   When a create succeeds.  For a description whose disks are separate and whose images have their
   own directories: exactly when it can be loaded, the flags fit it, and its disks can be made;
   the conversion itself never fails.
   */
  lemma CreateSucceedsExactly(files: Files, c: ConfigFile, o: Options, w: World)
    requires Loaded(c, o).Ok? ==> Separate(files.cwd, w, Loaded(c, o).value) && OwnDirectories(Loaded(c, o).value.disks)
    ensures Created(files, c, o, w).1.Ok? <==>
      && Loaded(c, o).Ok? && FlagsFit(Loaded(c, o).value, o, w.keys) && Configured(Loaded(c, o).value, o, w.keys).Ok?
      && DisksCanBeMade(files, Configured(Loaded(c, o).value, o, w.keys).value, w)
    ensures Loaded(c, o).Ok? ==> (Configured(Loaded(c, o).value, o, w.keys).Ok? <==> FlagsFit(Loaded(c, o).value, o, w.keys))
  {
    hide Loaded, Configured, Prepare, Convert, Separate, FlagsFit, DisksCanBeMade, OwnDirectories, AllForwards, ValidNetwork,
         HostVolumes, AllLocal, DiskNames, VolumeNames;
    if Loaded(c, o).Ok? {
      var m := Loaded(c, o).value;
      ConfiguredExactly(m, o, w.keys);
      PreparedExactly(files, m, o, w);
      if Prepare(files, m, o, w).1.Ok? {
        PipelineProgress(files, m, o, w);
      }
    }
  }

  lemma ConfiguredKeepsOwn(m: Machine, o: Options, keys: Option<seq<string>>)
    requires Configured(m, o, keys).Ok? && OwnDirectories(m.disks)
    ensures OwnDirectories(Configured(m, o, keys).value.disks)
  {
    hide Configured, SameButSeparators;
    ConfiguredKeepsSources(m, o, keys);
  }

  /** What a create that fails leaves: nothing has changed before the images are extracted, and no
      sized copy, new or old, is touched before the description has been found valid and Podman
      has agreed. */
  lemma FailedCreateLeaves(files: Files, c: ConfigFile, o: Options, w: World)
    ensures Loaded(c, o).Err? || Configured(Loaded(c, o).value, o, w.keys).Err? ==>
      Created(files, c, o, w) == (files, Err)
    ensures Loaded(c, o).Ok? && Configured(Loaded(c, o).value, o, w.keys).Ok? ==>
      var m := Configured(Loaded(c, o).value, o, w.keys).value;
      var (f1, disks1, ok1) := ExtractFrom(files, w.cacheBase, m.disks, 0, w.extract);
      !ok1 || !ValidMachine(m.(disks := disks1), MissingIn(f1, w.blocked))
        || !w.connected || w.vmExists != Some(false) || !w.imageReady || !w.mkdirOk
      ==> Created(files, c, o, w) == (f1, Err)
  {
    hide Loaded, Configured, ExtractFrom, SizeFrom, Issues, ValidMachine, MissingIn, Convert;
    if Loaded(c, o).Ok? && Configured(Loaded(c, o).value, o, w.keys).Ok? {
      var m := Configured(Loaded(c, o).value, o, w.keys).value;
      var (f1, disks1, _) := ExtractFrom(files, w.cacheBase, m.disks, 0, w.extract);
      AcceptedExactly(m.(disks := disks1), MissingIn(f1, w.blocked));
    }
  }
}

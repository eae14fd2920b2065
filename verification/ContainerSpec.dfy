/** The parts of the launcher container's specification that the model follows: its mounts. */
module ContainerSpec {
  /** Where a mount comes from: memory, the runtime-support cache, or a disk image. */
  datatype Source =
    | Tmpfs
    | SupportDirectory
    | SupportFile(file: string)
    | CapsDirectory
    | LogsDirectory
    | HostImage(path: string)

  datatype Mount = Mount(kind: string, source: Source, destination: string, options: seq<string>)

  const WRITABLE: seq<string> := ["bind", "z"]
  const READ_ONLY: seq<string> := ["bind", "ro", "z"]

  const ALL_FIXED: seq<Mount> := [
    Mount("tmpfs", Tmpfs, "/var/run/libvirt", ["rw", "size=67108864"]),
    Mount("bind", SupportDirectory, "/usr/local/lib/podvirt", READ_ONLY),
    Mount("bind", SupportFile("qemu.conf"), "/etc/libvirt/qemu.conf", WRITABLE),
    Mount("bind", SupportFile("qemu-kvm-wrapper"), "/usr/libexec/qemu-kvm", WRITABLE),
    Mount("bind", SupportFile("qemu-kvm-real"), "/usr/libexec/qemu-kvm-real", READ_ONLY),
    Mount("bind", CapsDirectory, "/var/cache/libvirt/qemu/capabilities", WRITABLE),
    Mount("bind", LogsDirectory, "/var/log/libvirt/qemu", WRITABLE)
  ]

  function ImageMount(path: string, destination: string): Mount {
    Mount("bind", HostImage(path), destination, WRITABLE)
  }

  /** The log directory is mounted only when a path for it was returned. */
  function FixedMounts(withLogs: bool): seq<Mount> {
    if withLogs then ALL_FIXED else ALL_FIXED[..|ALL_FIXED| - 1]
  }

  function ImageMounts(hostMounts: map<string, string>, order: seq<string>): seq<Mount>
    requires forall i :: 0 <= i < |order| ==> order[i] in hostMounts
  {
    if order == [] then []
    else [ImageMount(order[0], hostMounts[order[0]])] + ImageMounts(hostMounts, order[1..])
  }

  /** `order` is the order in which Go's map iteration visits the keys. */
  ghost predicate Visits(order: seq<string>, hostMounts: map<string, string>) {
    && (forall k :: k in order <==> k in hostMounts)
    && (forall i, j :: 0 <= i < j < |order| ==> order[i] != order[j])
  }

  method BuildMounts(hostMounts: map<string, string>, withLogs: bool, order: seq<string>) returns (mounts: seq<Mount>)
    requires Visits(order, hostMounts)
    ensures mounts == FixedMounts(withLogs) + ImageMounts(hostMounts, order)
  {
    mounts := ALL_FIXED;
    if !withLogs {
      mounts := mounts[..|mounts| - 1];
    }
    for i := 0 to |order|
      invariant mounts + ImageMounts(hostMounts, order[i..]) == FixedMounts(withLogs) + ImageMounts(hostMounts, order)
    {
      assert order[i..][0] == order[i] && order[i..][1..] == order[i + 1..];
      mounts := mounts + [ImageMount(order[i], hostMounts[order[i]])];
    }
    assert order[|order|..] == [];
  }

  lemma {:induction false} ImageMountsAreWritable(hostMounts: map<string, string>, order: seq<string>)
    requires forall i :: 0 <= i < |order| ==> order[i] in hostMounts
    ensures forall m :: m in ImageMounts(hostMounts, order) ==> m.source.HostImage? && m.kind == "bind" && m.options == WRITABLE
  {
    if order != [] {
      ImageMountsAreWritable(hostMounts, order[1..]);
    }
  }

  /** A tmpfs, or a bind mount with the options its source calls for. */
  predicate FitsSource(m: Mount) {
    && m.source != Tmpfs && m.kind == "bind"
    && m.options == if m.source in {SupportDirectory, SupportFile("qemu-kvm-real")} then READ_ONLY else WRITABLE
  }

  lemma FixedFit(k: nat)
    requires k < |ALL_FIXED|
    ensures FitsSource(ALL_FIXED[k]) || (ALL_FIXED[k].source == Tmpfs && ALL_FIXED[k].kind == "tmpfs" && "ro" !in ALL_FIXED[k].options)
  {
  }

  /** Everything from the host is a bind mount that is relabelled for the container; the guest can
      write to it, except to the support directory and the real binary. */
  lemma HostMountsAreRelabelled(hostMounts: map<string, string>, withLogs: bool, order: seq<string>, m: Mount)
    requires Visits(order, hostMounts) && m in FixedMounts(withLogs) + ImageMounts(hostMounts, order)
    ensures m.kind == "bind" <==> m.source != Tmpfs
    ensures m.kind == "bind" ==> "z" in m.options
    ensures "ro" in m.options <==> m.source in {SupportDirectory, SupportFile("qemu-kvm-real")}
  {
    hide ImageMounts, FixedMounts;
    ImageMountsAreWritable(hostMounts, order);
    if m in FixedMounts(withLogs) {
      var k := FixedAt(withLogs, m);
      FixedFit(k);
    }
    assert "z" in WRITABLE && "z" in READ_ONLY && "ro" in READ_ONLY && "ro" !in WRITABLE && "bind" != "tmpfs";
  }

  lemma FixedAt(withLogs: bool, m: Mount) returns (k: nat)
    requires m in FixedMounts(withLogs)
    ensures k < |ALL_FIXED| && ALL_FIXED[k] == m
  {
    k :| k < |FixedMounts(withLogs)| && FixedMounts(withLogs)[k] == m;
  }

  /** Exactly one fixed mount has this destination, and this is what is mounted there. */
  predicate Provides(withLogs: bool, destination: string, source: Source) {
    exists k :: 0 <= k < |FixedMounts(withLogs)| && OnlyFixedAt(withLogs, destination, source, k)
  }

  predicate OnlyFixedAt(withLogs: bool, destination: string, source: Source, k: int)
    requires 0 <= k < |FixedMounts(withLogs)|
  {
    && FixedMounts(withLogs)[k].destination == destination && FixedMounts(withLogs)[k].source == source
    && forall j :: 0 <= j < |FixedMounts(withLogs)| && FixedMounts(withLogs)[j].destination == destination ==> j == k
  }

  lemma FixedDestinationsDiffer(i: nat, j: nat)
    requires i < |ALL_FIXED| && j < |ALL_FIXED| && i != j
    ensures ALL_FIXED[i].destination != ALL_FIXED[j].destination
  {
    assert |ALL_FIXED[0].destination| == 16 && |ALL_FIXED[1].destination| == 22 && |ALL_FIXED[2].destination| == 22;
    assert |ALL_FIXED[3].destination| == 21 && |ALL_FIXED[4].destination| == 26 && |ALL_FIXED[5].destination| == 36;
    assert |ALL_FIXED[6].destination| == 21;
    assert ALL_FIXED[1].destination[1] == 'u' && ALL_FIXED[2].destination[1] == 'e';
    assert ALL_FIXED[3].destination[1] == 'u' && ALL_FIXED[6].destination[1] == 'v';
  }

  lemma ProvidesAt(withLogs: bool, k: nat)
    requires k < |FixedMounts(withLogs)|
    ensures Provides(withLogs, FixedMounts(withLogs)[k].destination, FixedMounts(withLogs)[k].source)
  {
    var ms := FixedMounts(withLogs);
    assert forall j :: 0 <= j < |ms| ==> ms[j] == ALL_FIXED[j];
    forall j | 0 <= j < |ms| && j != k
      ensures ms[j].destination != ms[k].destination
    {
      FixedDestinationsDiffer(j, k);
    }
    assert OnlyFixedAt(withLogs, ms[k].destination, ms[k].source, k);
  }

  /** Where the container finds what: libvirt's QEMU path leads to the wrapper, and the path that
      the wrapper executes to the extracted binary; configuration, capability cache and runtime
      directory are in libvirt's places; the logs are there exactly when asked for. */
  lemma ContainerPaths(withLogs: bool)
    ensures Provides(withLogs, "/usr/libexec/qemu-kvm", SupportFile("qemu-kvm-wrapper"))
    ensures Provides(withLogs, "/usr/libexec/qemu-kvm-real", SupportFile("qemu-kvm-real"))
    ensures Provides(withLogs, "/usr/local/lib/podvirt", SupportDirectory)
    ensures Provides(withLogs, "/etc/libvirt/qemu.conf", SupportFile("qemu.conf"))
    ensures Provides(withLogs, "/var/cache/libvirt/qemu/capabilities", CapsDirectory)
    ensures Provides(withLogs, "/var/run/libvirt", Tmpfs)
    ensures withLogs ==> Provides(withLogs, "/var/log/libvirt/qemu", LogsDirectory)
    ensures forall m :: m in FixedMounts(withLogs) && m.source == LogsDirectory ==> withLogs
    ensures forall m :: m in FixedMounts(withLogs) && m.source == Tmpfs ==> m.kind == "tmpfs" && m.options == ["rw", "size=67108864"]
  {
    hide Provides;
    ProvidesAt(withLogs, 0);
    ProvidesAt(withLogs, 1);
    ProvidesAt(withLogs, 2);
    ProvidesAt(withLogs, 3);
    ProvidesAt(withLogs, 4);
    ProvidesAt(withLogs, 5);
    if withLogs {
      ProvidesAt(withLogs, 6);
    }
  }
}

/** The VMI's host disks against the container's mounts. */
module MountAgreement {
  import opened Text
  import opened Config
  import opened DiskImage
  import opened Vmi
  import opened ContainerSpec

  /** Exactly one mount has this destination, and it is a mount of this image. */
  ghost predicate MountedOnce(mounts: seq<Mount>, image: string, path: string) {
    exists k :: 0 <= k < |mounts| && OnlyMountAt(mounts, image, path, k)
  }

  predicate OnlyMountAt(mounts: seq<Mount>, image: string, path: string, k: int)
    requires 0 <= k < |mounts|
  {
    mounts[k] == ImageMount(image, path) && forall j :: 0 <= j < |mounts| && mounts[j].destination == path ==> j == k
  }

  predicate DistinctImages(disks: seq<DiskSpec>) {
    forall i, j :: 0 <= i < j < |disks| ==> disks[i].source.image != disks[j].source.image
  }

  /** No later disk has the image of disk i. */
  predicate LastUse(disks: seq<DiskSpec>, i: int) {
    0 <= i < |disks| && forall j :: i < j < |disks| ==> disks[j].source.image != disks[i].source.image
  }

  /** Every mount destination is the path of a disk with that image. */
  lemma {:induction false} HostMountsOrigin(files: Files, disks: seq<DiskSpec>, image: string) returns (i: nat)
    requires image in HostMounts(files, disks)
    ensures i < |disks| && disks[i].source.image == image && HostMounts(files, disks)[image] == DiskPath(files, disks[i])
    decreases |disks|
  {
    hide DiskPath;
    i := |disks| - 1;
    if disks[i].source.image != image {
      i := HostMountsOrigin(files, disks[..i], image);
    }
  }

  /** The last disk of an image decides where the image is mounted. */
  lemma {:induction false} LastUseDecides(files: Files, disks: seq<DiskSpec>, i: nat)
    requires LastUse(disks, i)
    ensures disks[i].source.image in HostMounts(files, disks)
    ensures HostMounts(files, disks)[disks[i].source.image] == DiskPath(files, disks[i])
    decreases |disks|
  {
    hide DiskPath;
    if i < |disks| - 1 {
      LastUseDecides(files, disks[..|disks| - 1], i);
    }
  }

  lemma {:induction false} ImageMountsMeaning(hostMounts: map<string, string>, order: seq<string>)
    requires forall i :: 0 <= i < |order| ==> order[i] in hostMounts
    ensures var ms := ImageMounts(hostMounts, order);
      |ms| == |order| && forall k :: 0 <= k < |order| ==> ms[k] == ImageMount(order[k], hostMounts[order[k]])
    decreases |order|
  {
    if order != [] {
      ImageMountsMeaning(hostMounts, order[1..]);
    }
  }

  lemma FixedIsPrefix(withLogs: bool, k: nat)
    requires k < |FixedMounts(withLogs)|
    ensures k < |ALL_FIXED| && FixedMounts(withLogs)[k] == ALL_FIXED[k] && !FixedMounts(withLogs)[k].source.HostImage?
  {
  }

  ghost function AllMounts(files: Files, disks: seq<DiskSpec>, withLogs: bool, order: seq<string>): seq<Mount>
    requires Visits(order, HostMounts(files, disks))
  {
    FixedMounts(withLogs) + ImageMounts(HostMounts(files, disks), order)
  }

  predicate AvoidsFixed(withLogs: bool, path: string) {
    forall k :: 0 <= k < |FixedMounts(withLogs)| ==> FixedMounts(withLogs)[k].destination != path
  }

  /** Disks share a path exactly when they share an image. */
  predicate PathPerImage(files: Files, disks: seq<DiskSpec>) {
    forall i, j :: 0 <= i < |disks| && 0 <= j < |disks| ==>
      (disks[i].source.image == disks[j].source.image <==> DiskPath(files, disks[i]) == DiskPath(files, disks[j]))
  }

  ghost predicate AllMountedOnce(files: Files, disks: seq<DiskSpec>, withLogs: bool, order: seq<string>)
    requires Visits(order, HostMounts(files, disks))
  {
    forall i :: 0 <= i < |disks| ==>
      MountedOnce(AllMounts(files, disks, withLogs, order), disks[i].source.image, DiskPath(files, disks[i]))
  }

  /** The mounts, index by index: fixed ones first, then one per image. */
  lemma MountAt(files: Files, disks: seq<DiskSpec>, withLogs: bool, order: seq<string>, k: nat)
    requires Visits(order, HostMounts(files, disks)) && k < |AllMounts(files, disks, withLogs, order)|
    ensures var hm, m := HostMounts(files, disks), AllMounts(files, disks, withLogs, order)[k];
      var fixedCount := |FixedMounts(withLogs)|;
      if k < fixedCount then m == FixedMounts(withLogs)[k] && !m.source.HostImage?
      else k - fixedCount < |order| && m == ImageMount(order[k - fixedCount], hm[order[k - fixedCount]])
  {
    hide FixedMounts, HostMounts;
    ImageMountsMeaning(HostMounts(files, disks), order);
    if k < |FixedMounts(withLogs)| {
      FixedIsPrefix(withLogs, k);
    }
  }

  lemma MountedWhenAgreed(files: Files, disks: seq<DiskSpec>, withLogs: bool, order: seq<string>, i: nat)
    requires PathPerImage(files, disks) && i < |disks| && AvoidsFixed(withLogs, DiskPath(files, disks[i]))
    requires Visits(order, HostMounts(files, disks))
    ensures MountedOnce(AllMounts(files, disks, withLogs, order), disks[i].source.image, DiskPath(files, disks[i]))
  {
    hide DiskPath, HostMounts, FixedMounts, AllMounts;
    var hm := HostMounts(files, disks);
    var mounts := AllMounts(files, disks, withLogs, order);
    var image, path := disks[i].source.image, DiskPath(files, disks[i]);
    LastUseDecides(files, disks, LastUser(disks, i));
    ImageMountsMeaning(hm, order);
    var fixedCount := |FixedMounts(withLogs)|;
    var k0 :| 0 <= k0 < |order| && order[k0] == image;
    var k := fixedCount + k0;
    assert |mounts| == fixedCount + |order| by { AllMountsLength(files, disks, withLogs, order); }
    MountAt(files, disks, withLogs, order, k);
    forall j | 0 <= j < |mounts| && mounts[j].destination == path
      ensures j == k
    {
      MountAt(files, disks, withLogs, order, j);
      if j >= fixedCount {
        var i' := HostMountsOrigin(files, disks, order[j - fixedCount]);
        assert DiskPath(files, disks[i']) == path;
      }
    }
    assert OnlyMountAt(mounts, image, path, k);
  }

  lemma AllMountsLength(files: Files, disks: seq<DiskSpec>, withLogs: bool, order: seq<string>)
    requires Visits(order, HostMounts(files, disks))
    ensures |AllMounts(files, disks, withLogs, order)| == |FixedMounts(withLogs)| + |order|
  {
    ImageMountsMeaning(HostMounts(files, disks), order);
  }

  /** The last disk with the image of disk i. */
  function LastUser(disks: seq<DiskSpec>, i: nat): (k: nat)
    requires i < |disks|
    ensures LastUse(disks, k) && disks[k].source.image == disks[i].source.image
    decreases |disks|
  {
    var last := |disks| - 1;
    if i == last || disks[last].source.image == disks[i].source.image then last else LastUser(disks[..last], i)
  }

  /** A mounted path is no fixed destination, and is where its image is mounted. */
  lemma MountedSays(files: Files, disks: seq<DiskSpec>, withLogs: bool, order: seq<string>, i: nat) returns (k: nat)
    requires i < |disks| && Visits(order, HostMounts(files, disks))
    requires MountedOnce(AllMounts(files, disks, withLogs, order), disks[i].source.image, DiskPath(files, disks[i]))
    ensures var mounts := AllMounts(files, disks, withLogs, order);
      k < |mounts| && OnlyMountAt(mounts, disks[i].source.image, DiskPath(files, disks[i]), k)
    ensures AvoidsFixed(withLogs, DiskPath(files, disks[i]))
    ensures disks[i].source.image in HostMounts(files, disks)
    ensures HostMounts(files, disks)[disks[i].source.image] == DiskPath(files, disks[i])
  {
    hide DiskPath, HostMounts, FixedMounts, AllMounts;
    var mounts := AllMounts(files, disks, withLogs, order);
    var k' :| 0 <= k' < |mounts| && OnlyMountAt(mounts, disks[i].source.image, DiskPath(files, disks[i]), k');
    k := k';
    MountAt(files, disks, withLogs, order, k);
    AllMountsLength(files, disks, withLogs, order);
    forall j | 0 <= j < |FixedMounts(withLogs)|
      ensures FixedMounts(withLogs)[j].destination != DiskPath(files, disks[i])
    {
      MountAt(files, disks, withLogs, order, j);
    }
  }

  /**
   Every hostDisk path of the VMI is the destination of exactly one mount of that disk's image,
   in every iteration order of the mount map, exactly when disks share a path exactly when they
   share an image, and no path is a fixed destination.
   */
  lemma HostDisksMountedExactly(files: Files, disks: seq<DiskSpec>, withLogs: bool, order: seq<string>)
    requires Visits(order, HostMounts(files, disks))
    ensures AllMountedOnce(files, disks, withLogs, order) <==>
      PathPerImage(files, disks) && forall i :: 0 <= i < |disks| ==> AvoidsFixed(withLogs, DiskPath(files, disks[i]))
  {
    hide DiskPath, AllMounts, MountedOnce, HostMounts, AvoidsFixed;
    if AllMountedOnce(files, disks, withLogs, order) {
      forall i, j | 0 <= i < |disks| && 0 <= j < |disks|
        ensures disks[i].source.image == disks[j].source.image <==> DiskPath(files, disks[i]) == DiskPath(files, disks[j])
        ensures AvoidsFixed(withLogs, DiskPath(files, disks[i]))
      {
        var ki := MountedSays(files, disks, withLogs, order, i);
        var kj := MountedSays(files, disks, withLogs, order, j);
      }
    } else {
      forall i | 0 <= i < |disks| && PathPerImage(files, disks) && AvoidsFixed(withLogs, DiskPath(files, disks[i]))
        ensures MountedOnce(AllMounts(files, disks, withLogs, order), disks[i].source.image, DiskPath(files, disks[i]))
      {
        MountedWhenAgreed(files, disks, withLogs, order, i);
      }
    }
  }

  // ----- Distinct plain names -----

  /** A disk whose directory and file in the container are its own: the name is one path element
      and the image does not end in "..". */
  predicate StaysInside(d: DiskSpec) {
    Plain(d.name) && Base(d.source.image) != ".."
  }

  lemma FileHasNoParent(files: Files, image: string)
    requires Base(image) != ".."
    ensures ".." !in Split(ContainerFilename(files, image), '/')
  {
    hide IsQcow2Image, EqualFold, Split, Ext, Base;
    var base, file := Base(image), ContainerFilename(files, image);
    if base == "/" {
      RootHasNoExt();
      RootFiles();
      assert base[..|base|] == base;
    } else {
      ExtIsSuffix(base);
      EndsInDigit(base[..|base| - |Ext(base)|]);
      SplitFree(file, '/');
      assert Split(file, '/') == [file];
    }
  }

  lemma EndsInDigit(stem: string)
    ensures stem + QCOW2_EXT != ".." && ('/' !in stem ==> '/' !in stem + QCOW2_EXT)
  {
    assert (stem + QCOW2_EXT)[|stem| + 5] == '2';
  }

  lemma RootFiles()
    ensures ".." !in Split("/", '/') && ".." !in Split("/" + QCOW2_EXT, '/')
  {
    hide Split;
    SplitFree("", '/');
    SplitFree(QCOW2_EXT, '/');
    SplitConcat("", "", '/');
    SplitConcat("", QCOW2_EXT, '/');
    assert "" + ['/'] + "" == "/" && "" + ['/'] + QCOW2_EXT == "/" + QCOW2_EXT;
    assert |QCOW2_EXT| != |".."|;
  }

  lemma FixedShape(k: nat)
    requires k < |ALL_FIXED|
    ensures var d := ALL_FIXED[k].destination; |d| >= 10 && (d[1] != 'v' || d[5] != 'r' || d[9] != 'k')
  {
  }

  /** No fixed mount lies under the launcher's disk directory. */
  lemma FixedElsewhere(withLogs: bool, p: AbsPath)
    requires DISK_BASE < p
    ensures AvoidsFixed(withLogs, Rooted(p))
  {
    hide FixedMounts;
    BaseJoined();
    var rest: AbsPath := p[|DISK_BASE|..];
    assert p == DISK_BASE + rest;
    JoinConcat(DISK_BASE, rest, '/');
    assert Rooted(p) == DISK_BASE_PATH + (['/'] + Join(rest, '/'));
    assert DISK_BASE_PATH[1] == 'v' && DISK_BASE_PATH[5] == 'r' && DISK_BASE_PATH[9] == 'k';
    forall k | 0 <= k < |FixedMounts(withLogs)|
      ensures FixedMounts(withLogs)[k].destination != Rooted(p)
    {
      FixedIsPrefix(withLogs, k);
      FixedShape(k);
    }
  }

  lemma DiskPathInside(files: Files, d: DiskSpec, withLogs: bool)
    requires StaysInside(d)
    ensures AvoidsFixed(withLogs, DiskPath(files, d))
  {
    hide FixedMounts, Rooted, ContainerFilename, Base, AvoidsFixed;
    FileHasNoParent(files, d.source.image);
    var file := ContainerFilename(files, d.source.image);
    PathUnderName(d.name, file);
    var p := JoinPath(JoinPath(DISK_BASE, d.name), file);
    CleanRooted([], p);
    assert DISK_BASE < DISK_BASE + [d.name];
    FixedElsewhere(withLogs, p);
  }

  lemma PathsAreDistinct(files: Files, disks: seq<DiskSpec>, i: nat, j: nat)
    requires NamesDiffer(disks) && i < |disks| && j < |disks| && i != j && StaysInside(disks[i]) && StaysInside(disks[j])
    ensures DiskPath(files, disks[i]) != DiskPath(files, disks[j])
  {
    hide ContainerPath, ContainerFilename, Base;
    FileHasNoParent(files, disks[i].source.image);
    FileHasNoParent(files, disks[j].source.image);
    PathsDiffer(disks[i].name, ContainerFilename(files, disks[i].source.image),
                disks[j].name, ContainerFilename(files, disks[j].source.image));
  }

  lemma NamedPathsPerImage(files: Files, disks: seq<DiskSpec>)
    requires NamesDiffer(disks) && forall i :: 0 <= i < |disks| ==> StaysInside(disks[i])
    ensures PathPerImage(files, disks) <==> DistinctImages(disks)
  {
    hide DiskPath, StaysInside;
    forall i, j | 0 <= i < |disks| && 0 <= j < |disks| && i != j
      ensures DiskPath(files, disks[i]) != DiskPath(files, disks[j])
    {
      PathsAreDistinct(files, disks, i, j);
    }
    if PathPerImage(files, disks) {
      forall i, j | 0 <= i < j < |disks|
        ensures disks[i].source.image != disks[j].source.image
      {
        assert DiskPath(files, disks[i]) != DiskPath(files, disks[j]);
      }
    }
  }

  /** With distinct plain disk names every hostDisk path is mounted exactly once exactly when the
      images are distinct; a shared image is mounted for its last disk only (LastUseDecides). */
  lemma NamedDisksMountedExactly(files: Files, disks: seq<DiskSpec>, withLogs: bool, order: seq<string>)
    requires NamesDiffer(disks) && forall i :: 0 <= i < |disks| ==> StaysInside(disks[i])
    requires Visits(order, HostMounts(files, disks))
    ensures AllMountedOnce(files, disks, withLogs, order) <==> DistinctImages(disks)
  {
    hide DiskPath, AllMountedOnce, HostMounts, AvoidsFixed, StaysInside, PathPerImage, DistinctImages;
    HostDisksMountedExactly(files, disks, withLogs, order);
    NamedPathsPerImage(files, disks);
    forall i | 0 <= i < |disks|
      ensures AvoidsFixed(withLogs, DiskPath(files, disks[i]))
    {
      DiskPathInside(files, disks[i], withLogs);
    }
  }

  lemma MountsOfTwo(files: Files, d: DiskSpec, d': DiskSpec)
    requires d'.source.image == d.source.image
    ensures HostMounts(files, [d, d']) == map[d.source.image := DiskPath(files, d')]
  {
    hide DiskPath;
    assert [d][..0] == [] && HostMounts(files, []) == map[];
    assert [d, d'][..1] == [d];
  }

  lemma BaseOfImage()
    ensures Base("/i.img") == "i.img" && "i.img" != ".."
  {
    LastIndexOfConcat("", '/', "i.img");
    assert "" + ['/'] + "i.img" == "/i.img" && "/i.img"[5] == 'g';
  }

  /** Two disks of one image: the path of the first is never mounted. */
  lemma SharedImageLosesDisk(files: Files, withLogs: bool)
    ensures var d1 := DiskSpec("a", DiskSource("/i.img", ""), "", "virtio");
      var disks := [d1, d1.(name := "b")];
      Visits(["/i.img"], HostMounts(files, disks)) && !AllMountedOnce(files, disks, withLogs, ["/i.img"])
  {
    hide DiskPath, AllMountedOnce, HostMounts, Base;
    var d1 := DiskSpec("a", DiskSource("/i.img", ""), "", "virtio");
    var disks := [d1, d1.(name := "b")];
    MountsOfTwo(files, d1, d1.(name := "b"));
    BaseOfImage();
    assert disks[0].source.image == disks[1].source.image;
    NamedDisksMountedExactly(files, disks, withLogs, ["/i.img"]);
  }
}

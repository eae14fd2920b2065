/** `extractContainerDisks`: container disks become local images from the extraction cache. */
module Extraction {
  import opened Prelude
  import opened Config
  import opened DiskImage

  /** How a pull turns out: whether it succeeds, what it copied, and the renames around it. */
  datatype PullEnv = PullEnv(renameOk: bool, pulled: bool, copied: map<AbsPath, DiskFile>, renameAgain: bool)

  /** The cache directory's name for an image reference. */
  function Sanitized(image: string): string {
    seq(|image|, i requires 0 <= i < |image| => if image[i] in "/:@" then '_' else image[i])
  }

  function CacheDir(cacheBase: AbsPath, image: string): AbsPath {
    CleanOnto(cacheBase, [Sanitized(image)])
  }

  /** `podman cp` writes under the destination directory only. */
  function Populate(files: Files, dir: AbsPath, copied: map<AbsPath, DiskFile>): Files {
    files.(store := files.store + map p | p in copied && dir < p :: copied[p])
  }

  function ExtractOne(files: Files, dir: AbsPath, e: PullEnv): (Files, Result<string>) {
    var (f1, r1) := FindDisk(files, dir, e.renameOk);
    if r1.Err? || r1.value != "" then (f1, r1)
    else
      var f2 := Populate(f1, dir, e.copied);
      if !e.pulled then (f2, Err)
      else
        var (f3, r3) := FindDisk(f2, dir, e.renameAgain);
        if r3.Ok? && r3.value == "" then (f3, Err) else (f3, r3)
  }

  method PullAndExtract(fs: FileSystem, dir: AbsPath, e: PullEnv) returns (r: Result<string>)
    modifies fs
    ensures (fs.files, r) ==
      var f2 := Populate(old(fs.files), dir, e.copied);
      if !e.pulled then (f2, Err)
      else
        var (f3, r3) := FindDisk(f2, dir, e.renameAgain);
        if r3.Ok? && r3.value == "" then (f3, Err) else (f3, r3)
  {
    hide FindDisk;
    fs.files := Populate(fs.files, dir, e.copied);
    if !e.pulled {
      return Err;
    }
    r := FindExtractedDisk(fs, dir, e.renameAgain);
    if r.Ok? && r.value == "" {
      r := Err;
    }
  }

  method FindOrPull(fs: FileSystem, dir: AbsPath, e: PullEnv) returns (found: Result<string>)
    modifies fs
    ensures (fs.files, found) == ExtractOne(old(fs.files), dir, e)
  {
    hide FindDisk, Populate;
    found := FindExtractedDisk(fs, dir, e.renameOk);
    if found.Ok? && found.value == "" {
      found := PullAndExtract(fs, dir, e);
    }
  }

  function Localised(d: DiskSpec, path: string): DiskSpec {
    d.(source := DiskSource(path, ""))
  }

  function ExtractFrom(files: Files, cacheBase: AbsPath, disks: seq<DiskSpec>, i: nat, env: nat -> PullEnv): (Files, seq<DiskSpec>, bool)
    requires i <= |disks|
    decreases |disks| - i
  {
    if i == |disks| then (files, disks, true)
    else if disks[i].source.containerImage == "" then ExtractFrom(files, cacheBase, disks, i + 1, env)
    else
      var (f, r) := ExtractOne(files, CacheDir(cacheBase, disks[i].source.containerImage), env(i));
      if r.Err? then (f, disks, false)
      else ExtractFrom(f, cacheBase, disks[i := Localised(disks[i], r.value)], i + 1, env)
  }

  method ExtractContainerDisks(fs: FileSystem, vm: VirtualMachine, cacheBase: AbsPath, env: nat -> PullEnv) returns (ok: bool)
    modifies fs, vm`disks
    ensures (fs.files, vm.disks, ok) == ExtractFrom(old(fs.files), cacheBase, old(vm.disks), 0, env)
  {
    hide FindDisk, Populate, CacheDir, ExtractOne;
    for i := 0 to |vm.disks|
      invariant |vm.disks| == |old(vm.disks)|
      invariant ExtractFrom(fs.files, cacheBase, vm.disks, i, env) == ExtractFrom(old(fs.files), cacheBase, old(vm.disks), 0, env)
    {
      var disk := vm.disks[i];
      if disk.source.containerImage == "" {
        continue;
      }
      ghost var before, specs := fs.files, vm.disks;
      var destDir := CacheDir(cacheBase, disk.source.containerImage);
      var found := FindOrPull(fs, destDir, env(i));
      if found.Err? {
        return false;
      }
      vm.disks := vm.disks[i := disk.(source := disk.source.(image := found.value))];
      vm.disks := vm.disks[i := vm.disks[i].(source := vm.disks[i].source.(containerImage := ""))];
      assert vm.disks == specs[i := Localised(disk, found.value)];
      assert ExtractFrom(before, cacheBase, specs, i, env) == ExtractFrom(fs.files, cacheBase, vm.disks, i + 1, env);
    }
    ok := true;
  }

  /** A disk after extraction: a container disk has instead a local image from its own cache
      directory, any other is as before. */
  predicate Extracted(cacheBase: AbsPath, d: DiskSpec, d': DiskSpec) {
    if d.source.containerImage == "" then d' == d
    else
      var dir := CacheDir(cacheBase, d.source.containerImage);
      && d'.source.image in {Rooted(InDir(dir, DISK_IMG)), Rooted(InDir(dir, DISK_QCOW2))} && d'.source.image != ""
      && d'.source.containerImage == "" && d' == Localised(d, d'.source.image)
  }

  /** A disk that the cache already holds is used without pulling; a path that comes back is
      there, in the image's directory, and is found again next time; nothing outside the
      directory is touched, whatever happens. */
  lemma ExtractedPath(files: Files, dir: AbsPath, e: PullEnv)
    ensures var (after, r) := ExtractOne(files, dir, e);
      && (r.Ok? ==> r.value in {Rooted(InDir(dir, DISK_IMG)), Rooted(InDir(dir, DISK_QCOW2))})
      && (r.Ok? ==> r.value != "" && Lookup(after, r.value).Some? && FindDisk(after, dir, true) == (after, r))
      && after.cwd == files.cwd
      && (r.Ok? && !e.pulled ==> InDir(dir, DISK_IMG) in files.store || InDir(dir, DISK_QCOW2) in files.store)
      && (InDir(dir, DISK_QCOW2) in files.store ==> after == files && r == Ok(Rooted(InDir(dir, DISK_QCOW2))))
      && forall p: AbsPath :: !(dir <= p) ==> SameAt(files, after, p)
  {
    hide FindDisk, Populate, Rooted, Lookup, InDir, IsQcow2Image;
    TwoNames(dir);
    FindDiskIsStable(files, dir, e.renameOk, true);
    var (f1, r1) := FindDisk(files, dir, e.renameOk);
    SearchStaysInside(files, dir, e.renameOk);
    if r1.Ok? && r1.value == "" {
      PopulateStaysInside(f1, dir, e.copied);
      SearchStaysInside(Populate(f1, dir, e.copied), dir, e.renameAgain);
      FindDiskIsStable(Populate(f1, dir, e.copied), dir, e.renameAgain, true);
      forall p: AbsPath | !(dir <= p)
        ensures SameAt(files, ExtractOne(files, dir, e).0, p)
      {
        var f2 := Populate(f1, dir, e.copied);
        assert SameAt(files, f1, p) && SameAt(f1, f2, p) && SameAt(f2, FindDisk(f2, dir, e.renameAgain).0, p);
      }
    }
  }

  lemma SearchStaysInside(files: Files, dir: AbsPath, renameOk: bool)
    ensures forall p: AbsPath :: !(dir <= p) ==> SameAt(files, FindDisk(files, dir, renameOk).0, p)
  {
    FindDiskIsStable(files, dir, renameOk, true);
    hide FindDisk;
    assert dir <= InDir(dir, DISK_IMG) && dir <= InDir(dir, DISK_QCOW2);
  }

  lemma PopulateStaysInside(files: Files, dir: AbsPath, copied: map<AbsPath, DiskFile>)
    ensures Populate(files, dir, copied).cwd == files.cwd
    ensures forall p: AbsPath :: !(dir <= p) ==> SameAt(files, Populate(files, dir, copied), p)
  {
  }

  /** On success every disk is extracted or untouched, in place; on any outcome the disks not yet
      reached are untouched. */
  lemma {:induction false} ExtractMeaning(files: Files, cacheBase: AbsPath, disks: seq<DiskSpec>, i: nat, env: nat -> PullEnv)
    requires i <= |disks|
    ensures var (after, disks', ok) := ExtractFrom(files, cacheBase, disks, i, env);
      && |disks'| == |disks|
      && after.cwd == files.cwd
      && (forall k :: 0 <= k < i ==> disks'[k] == disks[k])
      && (ok ==> forall k :: i <= k < |disks| ==> Extracted(cacheBase, disks[k], disks'[k]))
    decreases |disks| - i
  {
    hide ExtractOne, CacheDir, InDir, Rooted;
    if i < |disks| {
      if disks[i].source.containerImage == "" {
        ExtractMeaning(files, cacheBase, disks, i + 1, env);
      } else {
        var dir := CacheDir(cacheBase, disks[i].source.containerImage);
        var (f, r) := ExtractOne(files, dir, env(i));
        ExtractedPath(files, dir, env(i));
        if r.Ok? {
          var next := disks[i := Localised(disks[i], r.value)];
          ExtractMeaning(f, cacheBase, next, i + 1, env);
          assert forall k :: i < k < |disks| ==> next[k] == disks[k];
        }
      }
    }
  }

  /** A file outside the cache directories of the images is never touched. */
  lemma {:induction false} ExtractTouchesCacheOnly(files: Files, cacheBase: AbsPath, disks: seq<DiskSpec>, i: nat,
                                                   env: nat -> PullEnv, p: AbsPath)
    requires i <= |disks|
    requires forall k :: i <= k < |disks| && disks[k].source.containerImage != "" ==>
               !(CacheDir(cacheBase, disks[k].source.containerImage) <= p)
    ensures SameAt(files, ExtractFrom(files, cacheBase, disks, i, env).0, p)
    decreases |disks| - i
  {
    hide ExtractOne, CacheDir, InDir, Rooted;
    if i < |disks| {
      if disks[i].source.containerImage == "" {
        ExtractTouchesCacheOnly(files, cacheBase, disks, i + 1, env, p);
      } else {
        var dir := CacheDir(cacheBase, disks[i].source.containerImage);
        var (f, r) := ExtractOne(files, dir, env(i));
        ExtractedPath(files, dir, env(i));
        assert SameAt(files, f, p);
        if r.Ok? {
          var next := disks[i := Localised(disks[i], r.value)];
          assert forall k :: i < k < |disks| ==> next[k] == disks[k];
          ExtractTouchesCacheOnly(f, cacheBase, next, i + 1, env, p);
        }
      }
    }
  }

  // ----- When extraction succeeds, and with what -----

  /** A directory in which the search finds a disk: disk.qcow2, or a disk.img that is no qcow2, or
      one that can be renamed. */
  predicate Usable(store: map<AbsPath, DiskFile>, dir: AbsPath, renameOk: bool) {
    || InDir(dir, DISK_QCOW2) in store
    || (InDir(dir, DISK_IMG) in store && (!Qcow2Content(store[InDir(dir, DISK_IMG)]) || renameOk))
  }

  predicate HoldsDisk(store: map<AbsPath, DiskFile>, dir: AbsPath) {
    InDir(dir, DISK_QCOW2) in store || InDir(dir, DISK_IMG) in store
  }

  /** The disk the directory holds, and the name it ends up under. */
  function DiskOf(store: map<AbsPath, DiskFile>, dir: AbsPath): DiskFile
    requires HoldsDisk(store, dir)
  {
    if InDir(dir, DISK_QCOW2) in store then store[InDir(dir, DISK_QCOW2)] else store[InDir(dir, DISK_IMG)]
  }

  function NameOf(store: map<AbsPath, DiskFile>, dir: AbsPath): string
    requires HoldsDisk(store, dir)
  {
    if InDir(dir, DISK_QCOW2) in store || Qcow2Content(store[InDir(dir, DISK_IMG)]) then "disk.qcow2" else "disk.img"
  }

  /** The search succeeds exactly in a usable directory, and gives its disk under its name. */
  lemma SearchExactly(files: Files, dir: AbsPath, renameOk: bool)
    ensures var (after, r) := FindDisk(files, dir, renameOk);
      if !HoldsDisk(files.store, dir) then after == files && r == Ok("")
      else
        && (r.Ok? <==> Usable(files.store, dir, renameOk))
        && (r.Err? ==> after == files)
        && (r.Ok? ==> r.value == Rooted(dir + [NameOf(files.store, dir)]) && Lookup(after, r.value) == Some(DiskOf(files.store, dir)))
  {
    hide IsQcow2Image, Rooted, Lookup;
    var img, qcow2 := InDir(dir, DISK_IMG), InDir(dir, DISK_QCOW2);
    TwoNames(dir);
    if img in files.store {
      ImgVerdict(files, dir);
    }
    var after := FindDisk(files, dir, renameOk).0;
    LookupRooted(after, img);
    LookupRooted(after, qcow2);
  }

  /** After a copy into a directory that held no disk, the directory holds what was copied. */
  lemma CopiedIsThere(files: Files, dir: AbsPath, copied: map<AbsPath, DiskFile>)
    requires !HoldsDisk(files.store, dir)
    ensures var after := Populate(files, dir, copied).store;
      && (HoldsDisk(after, dir) <==> HoldsDisk(copied, dir))
      && (HoldsDisk(copied, dir) ==> NameOf(after, dir) == NameOf(copied, dir) && DiskOf(after, dir) == DiskOf(copied, dir))
      && forall ok :: Usable(after, dir, ok) <==> Usable(copied, dir, ok)
  {
    assert dir < InDir(dir, DISK_IMG) && dir < InDir(dir, DISK_QCOW2);
  }

  /** The condition for one image: the cache holds a usable disk, or none and the pull delivers one. */
  predicate Extractable(store: map<AbsPath, DiskFile>, dir: AbsPath, e: PullEnv) {
    if HoldsDisk(store, dir) then Usable(store, dir, e.renameOk)
    else e.pulled && HoldsDisk(e.copied, dir) && Usable(e.copied, dir, e.renameAgain)
  }

  /** One image is extracted exactly when it is extractable; the path is then the disk's, cached or
      just copied, under disk.qcow2 if it was called so or has qcow2 content, else disk.img. */
  lemma ExtractOneExactly(files: Files, dir: AbsPath, e: PullEnv)
    ensures var (after, r) := ExtractOne(files, dir, e);
      && (r.Ok? <==> Extractable(files.store, dir, e))
      && (r.Ok? ==>
            var from := if HoldsDisk(files.store, dir) then files.store else e.copied;
            r.value == Rooted(dir + [NameOf(from, dir)]) && Lookup(after, r.value) == Some(DiskOf(from, dir)))
  {
    hide FindDisk, Populate, Rooted, Lookup, Usable, NameOf, DiskOf, InDir;
    SearchExactly(files, dir, e.renameOk);
    FindDiskIsStable(files, dir, e.renameOk, true);
    NotEmptyText(dir, "disk.img");
    NotEmptyText(dir, "disk.qcow2");
    NamesAre();
    var (f1, r1) := FindDisk(files, dir, e.renameOk);
    if !HoldsDisk(files.store, dir) {
      CopiedIsThere(f1, dir, e.copied);
      SearchExactly(Populate(f1, dir, e.copied), dir, e.renameAgain);
    }
  }

  lemma NamesAre()
    ensures forall store: map<AbsPath, DiskFile>, dir: AbsPath :: HoldsDisk(store, dir) ==> NameOf(store, dir) in {"disk.img", "disk.qcow2"}
  {
  }

  lemma NotEmptyText(dir: AbsPath, name: string)
    requires Plain(name)
    ensures Rooted(dir + [name]) != ""
  {
  }

  // ----- Which images share a directory -----

  /** Equal but for which of "/", ":", "@" and "_" stands where. */
  predicate SameButSeparators(a: string, b: string) {
    |a| == |b| && forall i :: 0 <= i < |a| ==> a[i] == b[i] || (a[i] in "/:@_" && b[i] in "/:@_")
  }

  /** Two images share a cache directory exactly when they differ only in their separators; the
      directory is named after the image, below the cache. */
  lemma DirectorySharedExactly(cacheBase: AbsPath, a: string, b: string)
    requires a !in {"", ".", ".."} && b !in {"", ".", ".."}
    ensures CacheDir(cacheBase, a) == CacheDir(cacheBase, b) <==> SameButSeparators(a, b)
    ensures |CacheDir(cacheBase, a)| == |cacheBase| + 1 && cacheBase <= CacheDir(cacheBase, a)
    ensures var name := CacheDir(cacheBase, a)[|cacheBase|];
      |name| == |a| && forall i :: 0 <= i < |a| ==> name[i] == if a[i] in "/:@" then '_' else a[i]
  {
    hide CleanOnto;
    DirectoryIs(cacheBase, a);
    DirectoryIs(cacheBase, b);
    var x, y := Sanitized(a), Sanitized(b);
    assert CacheDir(cacheBase, a)[|cacheBase|] == x && CacheDir(cacheBase, b)[|cacheBase|] == y;
    if SameButSeparators(a, b) {
      assert x == y;
    }
    if x == y {
      forall i | 0 <= i < |a|
        ensures a[i] == b[i] || (a[i] in "/:@_" && b[i] in "/:@_")
      {
        assert x[i] == y[i];
      }
    }
  }

  lemma DirectoryIs(cacheBase: AbsPath, image: string)
    requires image !in {"", ".", ".."}
    ensures Plain(Sanitized(image)) && CacheDir(cacheBase, image) == cacheBase + [Sanitized(image)]
  {
    var name := Sanitized(image);
    assert forall i :: 0 <= i < |name| ==> name[i] != '/';
    assert name[0] == '.' ==> image[0] == '.';
    assert |name| > 1 && name[1] == '.' ==> image[1] == '.';
    assert |image| == 1 && image[0] == '.' ==> image == ".";
    assert |image| == 2 && image[0] == '.' && image[1] == '.' ==> image == "..";
    CleanPlain(cacheBase, [name]);
  }

  // ----- The whole loop -----

  predicate IsContainerDisk(d: DiskSpec) {
    d.source.containerImage != ""
  }

  /** The images are proper references, and no two disks share a cache directory. */
  predicate OwnDirectories(disks: seq<DiskSpec>) {
    && (forall i :: 0 <= i < |disks| ==> disks[i].source.containerImage !in {".", ".."})
    && forall i, j :: 0 <= i < j < |disks| && IsContainerDisk(disks[i]) && IsContainerDisk(disks[j]) ==>
         !SameButSeparators(disks[i].source.containerImage, disks[j].source.containerImage)
  }

  lemma DirectoriesApart(cacheBase: AbsPath, a: string, b: string, name: string)
    requires a !in {"", ".", ".."} && b !in {"", ".", ".."} && !SameButSeparators(a, b) && Plain(name)
    ensures !(CacheDir(cacheBase, a) <= InDir(CacheDir(cacheBase, b), name))
  {
    hide CacheDir;
    DirectorySharedExactly(cacheBase, a, b);
    DirectorySharedExactly(cacheBase, b, a);
    var da, db := CacheDir(cacheBase, a), CacheDir(cacheBase, b);
    assert InDir(db, name)[..|db|] == db;
  }

  /** A directory's disk does not change while the directory is left alone. */
  lemma SameExtractable(files: Files, after: Files, dir: AbsPath, e: PullEnv)
    requires SameAt(files, after, InDir(dir, DISK_IMG)) && SameAt(files, after, InDir(dir, DISK_QCOW2))
    ensures Extractable(files.store, dir, e) <==> Extractable(after.store, dir, e)
  {
  }

  /** Extracting disk i leaves the later disks' directories as they were. */
  lemma OthersExtractable(files: Files, cacheBase: AbsPath, disks: seq<DiskSpec>, i: nat, env: nat -> PullEnv)
    requires i < |disks| && IsContainerDisk(disks[i]) && OwnDirectories(disks[i..])
    ensures var f := ExtractOne(files, CacheDir(cacheBase, disks[i].source.containerImage), env(i)).0;
      forall k :: i < k < |disks| && IsContainerDisk(disks[k]) ==>
        var dir := CacheDir(cacheBase, disks[k].source.containerImage);
        Extractable(files.store, dir, env(k)) <==> Extractable(f.store, dir, env(k))
  {
    hide ExtractOne, CacheDir, Extractable, SameButSeparators, InDir, OwnDirectories, Rooted, Lookup, FindDisk;
    var image := disks[i].source.containerImage;
    var dir := CacheDir(cacheBase, image);
    var f := ExtractOne(files, dir, env(i)).0;
    ExtractedPath(files, dir, env(i));
    forall k | i < k < |disks| && IsContainerDisk(disks[k])
      ensures var dk := CacheDir(cacheBase, disks[k].source.containerImage);
        Extractable(files.store, dk, env(k)) <==> Extractable(f.store, dk, env(k))
    {
      var dk := CacheDir(cacheBase, disks[k].source.containerImage);
      OwnPair(disks, i, k);
      DirectoriesApart(cacheBase, image, disks[k].source.containerImage, DISK_IMG);
      DirectoriesApart(cacheBase, image, disks[k].source.containerImage, DISK_QCOW2);
      assert SameAt(files, f, InDir(dk, DISK_IMG)) && SameAt(files, f, InDir(dk, DISK_QCOW2));
      SameExtractable(files, f, dk, env(k));
    }
  }

  /**
   The loop from disk i on, when no two disks share a directory: it succeeds exactly when every
   image from i on is extractable, from the cache as it was or from what its own pull delivers.
   */
  lemma {:induction false} ExtractionSucceedsExactly(files: Files, cacheBase: AbsPath, disks: seq<DiskSpec>, i: nat, env: nat -> PullEnv)
    requires i <= |disks| && OwnDirectories(disks[i..])
    ensures ExtractFrom(files, cacheBase, disks, i, env).2 <==>
      forall k :: i <= k < |disks| && IsContainerDisk(disks[k]) ==>
        Extractable(files.store, CacheDir(cacheBase, disks[k].source.containerImage), env(k))
    decreases |disks| - i
  {
    hide ExtractOne, CacheDir, Extractable, OwnDirectories, Rooted, Lookup, NameOf, DiskOf, HoldsDisk;
    if i < |disks| {
      OwnRest(disks, i);
      if !IsContainerDisk(disks[i]) {
        ExtractionSucceedsExactly(files, cacheBase, disks, i + 1, env);
      } else {
        var dir := CacheDir(cacheBase, disks[i].source.containerImage);
        var (f, r) := ExtractOne(files, dir, env(i));
        ExtractOneExactly(files, dir, env(i));
        if r.Ok? {
          var next := disks[i := Localised(disks[i], r.value)];
          assert next[i + 1..] == disks[i + 1..];
          ExtractionSucceedsExactly(f, cacheBase, next, i + 1, env);
          OthersExtractable(files, cacheBase, disks, i, env);
          assert forall k :: i < k < |disks| ==> next[k] == disks[k];
        }
      }
    }
  }

  lemma OwnPair(disks: seq<DiskSpec>, i: nat, k: nat)
    requires i < k < |disks| && OwnDirectories(disks[i..]) && IsContainerDisk(disks[i]) && IsContainerDisk(disks[k])
    ensures !SameButSeparators(disks[i].source.containerImage, disks[k].source.containerImage)
    ensures disks[i].source.containerImage !in {"", ".", ".."} && disks[k].source.containerImage !in {"", ".", ".."}
  {
    var rest := disks[i..];
    assert rest[0] == disks[i] && rest[k - i] == disks[k];
  }

  lemma OwnRest(disks: seq<DiskSpec>, i: nat)
    requires i < |disks| && OwnDirectories(disks[i..])
    ensures OwnDirectories(disks[i + 1..])
  {
    var a, b := disks[i..], disks[i + 1..];
    assert forall k :: 0 <= k < |b| ==> b[k] == a[k + 1];
  }
}

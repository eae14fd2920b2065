/**
 `prepareSizedDisks`: a disk with a requested size is copied into the cache with qemu-img,
 grown there, and the VM is pointed at the copy.  Every step may fail.
 */
module SizedDisks {
  import opened Prelude
  import opened Text
  import opened Config
  import opened Quantity
  import opened DiskImage

  /** A qemu-img run that fails leaves anything, or nothing, at the destination. */
  datatype Tool = Done | ToolFailed(left: Option<DiskFile>)

  /** A removal that fails leaves any part of what it should remove. */
  datatype Removal = Removed | RemovalFailed(kept: set<AbsPath>)

  datatype SizeEnv = SizeEnv(inspectOk: bool, remove: Removal, convert: Tool, resize: Tool)

  /** `filepath.Join(cacheDir, name + ".qcow2")`. */
  function DestPath(base: AbsPath, name: string): AbsPath {
    JoinPath(base, name + QCOW2_EXT)
  }

  /** `os.RemoveAll`: the file, or the whole tree when the path is a directory. */
  function RemoveAll(files: Files, dest: AbsPath, kept: set<AbsPath>): Files {
    files.(store := map p | p in files.store && (dest <= p ==> p in kept) :: files.store[p])
  }

  /** `qemu-img convert -O qcow2`: the same guest data and virtual size in a qcow2 file. */
  function Copy(f: DiskFile): DiskFile {
    DiskFile(true, QCOW2_MAGIC, "qcow2", f.virtualSize, f.data)
  }

  function Leave(files: Files, dest: AbsPath, left: Option<DiskFile>): Files {
    match left case Some(f) => Put(files, dest, f) case None => Erase(files, dest)
  }

  /** `qemu-img info` succeeds and prints a format and a non-zero size. */
  predicate Inspectable(src: Option<DiskFile>) {
    src.Some? && src.value.virtualSize != 0 && src.value.format != ""
  }

  /** The checks before anything is written. */
  predicate Acceptable(files: Files, d: DiskSpec) {
    var size, src := Bytes(d.size), Lookup(files, d.source.image);
    size.Some? && Inspectable(src) && src.value.virtualSize <= size.value
  }

  function BuildSized(files: Files, dest: AbsPath, d: DiskSpec, e: SizeEnv): (Files, Result<string>) {
    if !e.inspectOk || !Acceptable(files, d) then (files, Err)
    else if e.remove.RemovalFailed? then (RemoveAll(files, dest, e.remove.kept), Err)
    else
      var size, virtualSize := Bytes(d.size).value, Lookup(files, d.source.image).value.virtualSize;
      var f1 := RemoveAll(files, dest, {});
      var src := Lookup(f1, d.source.image);
      if e.convert.ToolFailed? then (Leave(f1, dest, e.convert.left), Err)
      else if src.None? then (f1, Err)                          // the source was just removed
      else if size <= virtualSize then (Put(f1, dest, Copy(src.value)), Ok(Rooted(dest)))
      else if e.resize.ToolFailed? then (Leave(f1, dest, e.resize.left), Err)
      else (Put(f1, dest, Copy(src.value).(virtualSize := size)), Ok(Rooted(dest)))
  }

  method BuildSizedDiskImage(fs: FileSystem, base: AbsPath, d: DiskSpec, e: SizeEnv) returns (r: Result<string>)
    modifies fs
    ensures (fs.files, r) == BuildSized(old(fs.files), DestPath(base, d.name), d, e)
  {
    hide Bytes, DestPath, Lookup, Rooted;
    var sizeBytes := ParseQuantityBytes(d.size);
    if sizeBytes.None? {
      return Err;
    }
    var info := Lookup(fs.files, d.source.image);
    if !e.inspectOk || !Inspectable(info) {
      return Err;
    }
    var virtualSize := info.value.virtualSize;
    if sizeBytes.value < virtualSize {
      return Err;
    }
    var dest := DestPath(base, d.name);
    if e.remove.RemovalFailed? {
      fs.files := RemoveAll(fs.files, dest, e.remove.kept);
      return Err;
    }
    fs.files := RemoveAll(fs.files, dest, {});
    ghost var cleared := fs.files;
    if e.convert.ToolFailed? {
      fs.files := Leave(fs.files, dest, e.convert.left);
      return Err;
    }
    var src := Lookup(fs.files, d.source.image);
    if src.None? {
      return Err;
    }
    fs.files := Put(fs.files, dest, Copy(src.value));
    if sizeBytes.value > virtualSize {
      PutTwice(cleared, dest, Copy(src.value));
      if e.resize.ToolFailed? {
        fs.files := Leave(fs.files, dest, e.resize.left);
        return Err;
      }
      fs.files := Put(fs.files, dest, fs.files.store[dest].(virtualSize := sizeBytes.value));
    }
    r := Ok(Rooted(dest));
  }

  lemma PutTwice(files: Files, dest: AbsPath, f: DiskFile)
    ensures forall g :: Put(Put(files, dest, f), dest, g) == Put(files, dest, g)
    ensures forall left :: Leave(Put(files, dest, f), dest, left) == Leave(files, dest, left)
  {
    forall left: Option<DiskFile>
      ensures Leave(Put(files, dest, f), dest, left) == Leave(files, dest, left)
    {
      assert files.store[dest := f] - {dest} == files.store - {dest};
    }
  }

  /** The loop, from disk i on: file system, disks and success. */
  function SizeFrom(files: Files, base: AbsPath, disks: seq<DiskSpec>, i: nat, env: nat -> SizeEnv): (Files, seq<DiskSpec>, bool)
    requires i <= |disks|
    decreases |disks| - i
  {
    if i == |disks| then (files, disks, true)
    else if disks[i].size == "" then SizeFrom(files, base, disks, i + 1, env)
    else if disks[i].source.image == "" then (files, disks, false)
    else
      var (f, r) := BuildSized(files, DestPath(base, disks[i].name), disks[i], env(i));
      if r.Err? then (f, disks, false)
      else SizeFrom(f, base, disks[i := Pointed(disks[i], r.value)], i + 1, env)
  }

  function Pointed(d: DiskSpec, path: string): DiskSpec {
    d.(source := d.source.(image := path))
  }

  method PrepareSizedDisks(fs: FileSystem, vm: VirtualMachine, base: AbsPath, mkdirOk: bool, env: nat -> SizeEnv) returns (ok: bool)
    modifies fs, vm`disks
    ensures (fs.files, vm.disks, ok)
         == if mkdirOk then SizeFrom(old(fs.files), base, old(vm.disks), 0, env) else (old(fs.files), old(vm.disks), false)
  {
    hide BuildSized, DestPath;
    if !mkdirOk {
      return false;
    }
    for i := 0 to |vm.disks|
      invariant |vm.disks| == |old(vm.disks)|
      invariant SizeFrom(fs.files, base, vm.disks, i, env) == SizeFrom(old(fs.files), base, old(vm.disks), 0, env)
    {
      var disk := vm.disks[i];
      if disk.size == "" {
        continue;
      }
      if disk.source.image == "" {
        return false;
      }
      var sized := BuildSizedDiskImage(fs, base, disk, env(i));
      if sized.Err? {
        return false;
      }
      vm.disks := vm.disks[i := disk.(source := disk.source.(image := sized.value))];
    }
    ok := true;
  }

  // ----- One disk -----

  /** A qcow2 file with the source's guest data and exactly the requested virtual size, which is
      no smaller than the source's. */
  predicate IsSizedCopy(src: Option<DiskFile>, copy: Option<DiskFile>, size: string) {
    && src.Some? && copy.Some? && Bytes(size) == Some(copy.value.virtualSize)
    && src.value.virtualSize <= copy.value.virtualSize && copy.value.data == src.value.data
    && copy.value.format == "qcow2" && copy.value.head == QCOW2_MAGIC && copy.value.readable
  }

  /** The file at a cleaned path, when there is one. */
  function At(files: Files, p: AbsPath): Option<DiskFile> {
    if p in files.store then Some(files.store[p]) else None
  }

  /** Nothing but the destination's tree changes, and on success the destination holds the grown
      copy of a source outside that tree. */
  lemma BuildSizedMeaning(files: Files, dest: AbsPath, d: DiskSpec, e: SizeEnv)
    ensures var (after, r) := BuildSized(files, dest, d, e);
      && after.cwd == files.cwd
      && (forall p: AbsPath :: !(dest <= p) ==> SameAt(files, after, p))
      && (r.Ok? ==> r.value == Rooted(dest) && IsSizedCopy(Lookup(files, d.source.image), At(after, dest), d.size)
                    && !(dest <= Clean(files.cwd, d.source.image)))
  {
    hide Bytes, Clean, NamesFile, Rooted;
  }

  /** A request that does not pass the checks touches nothing, not even an earlier copy; a removal
      that fails adds nothing. */
  lemma RejectedTouchesNothing(files: Files, dest: AbsPath, d: DiskSpec, e: SizeEnv)
    ensures var (after, r) := BuildSized(files, dest, d, e);
      && (!e.inspectOk || !Acceptable(files, d) ==> after == files && r.Err?)
      && (e.remove.RemovalFailed? ==> r.Err? && forall p: AbsPath :: p in after.store ==> p in files.store && after.store[p] == files.store[p])
  {
    hide Bytes, Lookup, Rooted;
  }

  /** One disk succeeds exactly when the request parses and is no smaller than the source's size,
      the source can be inspected and does not lie at or below the destination, under whatever
      spelling, and every tool run needed works. */
  lemma SizedExactly(files: Files, dest: AbsPath, d: DiskSpec, e: SizeEnv)
    ensures BuildSized(files, dest, d, e).1.Ok? <==>
      && e.inspectOk && Acceptable(files, d) && !(dest <= Clean(files.cwd, d.source.image))
      && e.remove.Removed? && e.convert.Done?
      && (Lookup(files, d.source.image).value.virtualSize < Bytes(d.size).value ==> e.resize.Done?)
  {
    hide Bytes, Clean, NamesFile, Rooted;
  }

  /** A request that passes the checks keeps its source whatever happens afterwards exactly when
      the source does not lie at or below the destination, under whatever spelling. */
  lemma SourceKeptExactly(files: Files, dest: AbsPath, d: DiskSpec)
    requires Acceptable(files, d)
    ensures (forall e :: SameAt(files, BuildSized(files, dest, d, e).0, Clean(files.cwd, d.source.image)))
            <==> !(dest <= Clean(files.cwd, d.source.image))
  {
    hide Bytes, Clean, NamesFile, Rooted;
    if dest <= Clean(files.cwd, d.source.image) {
      var e := SizeEnv(true, Removed, Done, Done);
      assert Clean(files.cwd, d.source.image) !in BuildSized(files, dest, d, e).0.store;
    } else {
      forall e
        ensures SameAt(files, BuildSized(files, dest, d, e).0, Clean(files.cwd, d.source.image))
      {
        BuildSizedMeaning(files, dest, d, e);
      }
    }
  }

  /** The failing family has members whose text is not the destination's: the copy's own path with
      a "." in it, and the same file named from its directory, are removed and not found again. */
  lemma AliasLosesSource(files: Files, d: DiskSpec)
    requires d.name == "a" && Acceptable(files, d)
    requires d.source.image == "/c/./a.qcow2" || (d.source.image == "a.qcow2" && files.cwd == ["c"])
    ensures Rooted(DestPath(["c"], d.name)) == "/c/a.qcow2" != d.source.image
    ensures var (after, r) := BuildSized(files, DestPath(["c"], d.name), d, SizeEnv(true, Removed, Done, Done));
      r.Err? && Lookup(after, d.source.image).None? && Lookup(after, "/c/a.qcow2").None?
  {
    hide Bytes, JoinPath, NamesFile, Rooted, BuildSized;
    AliasSpellings(files.cwd);
    assert "a" + QCOW2_EXT == "a.qcow2";
    CleanRooted(files.cwd, ["c", "a.qcow2"]);
    Removes(files, ["c", "a.qcow2"], d);
  }

  lemma Removes(files: Files, dest: AbsPath, d: DiskSpec)
    requires Acceptable(files, d) && dest <= Clean(files.cwd, d.source.image)
    ensures var (after, r) := BuildSized(files, dest, d, SizeEnv(true, Removed, Done, Done));
      r.Err? && after.cwd == files.cwd && forall p: AbsPath :: dest <= p ==> p !in after.store
  {
    hide Bytes, Clean, NamesFile, Rooted;
  }

  lemma AliasSpellings(cwd: AbsPath)
    ensures Clean(cwd, "/c/./a.qcow2") == ["c", "a.qcow2"]
    ensures JoinPath(["c"], "a.qcow2") == ["c", "a.qcow2"]
    ensures cwd == ["c"] ==> Clean(cwd, "a.qcow2") == ["c", "a.qcow2"]
    ensures Rooted(["c", "a.qcow2"]) == "/c/a.qcow2"
  {
    hide CleanOnto, Split, Join, Rooted;
    SplitAlias();
    CleanAlias(Split("/c/./a.qcow2", '/'));
    JoinAlias();
    AliasText();
  }

  lemma JoinAlias()
    ensures JoinPath(["c"], "a.qcow2") == ["c", "a.qcow2"]
  {
    hide CleanOnto, Split;
    SplitFree("a.qcow2", '/');
    CleanPlain(["c"], ["a.qcow2"]);
  }

  lemma AliasText()
    ensures Rooted(["c", "a.qcow2"]) == "/c/a.qcow2"
  {
    JoinConcat(["c"], ["a.qcow2"], '/');
    assert ["c"] + ["a.qcow2"] == ["c", "a.qcow2"];
    hide Join;
    assert "c" + ['/'] + "a.qcow2" == "c/a.qcow2";
  }

  lemma SplitAlias()
    ensures Split("/c/./a.qcow2", '/') == ["", "c", ".", "a.qcow2"]
  {
    hide Split;
    SplitFree("", '/');
    SplitFree("c", '/');
    SplitFree(".", '/');
    SplitFree("a.qcow2", '/');
    SplitConcat(".", "a.qcow2", '/');
    assert "." + ['/'] + "a.qcow2" == "./a.qcow2";
    SplitConcat("c", "./a.qcow2", '/');
    assert "c" + ['/'] + "./a.qcow2" == "c/./a.qcow2";
    SplitConcat("", "c/./a.qcow2", '/');
    assert "" + ['/'] + "c/./a.qcow2" == "/c/./a.qcow2";
  }

  lemma CleanAlias(parts: seq<string>)
    requires parts == ["", "c", ".", "a.qcow2"]
    ensures CleanOnto([], parts) == ["c", "a.qcow2"]
  {
    assert parts[1..] == ["c", ".", "a.qcow2"] && parts[1..][1..] == [".", "a.qcow2"] && parts[1..][1..][1..] == ["a.qcow2"];
    assert CleanOnto([], parts) == CleanOnto([], parts[1..]) == CleanOnto(["c"], [".", "a.qcow2"]) == CleanOnto(["c"], ["a.qcow2"]);
    CleanPlain(["c"], ["a.qcow2"]);
  }

  // ----- What the loop promises -----

  predicate SlashFree(disks: seq<DiskSpec>) {
    forall i :: 0 <= i < |disks| ==> '/' !in disks[i].name
  }

  /** What the loop may write: at or below the copy of a sized disk. */
  predicate IsCopyPath(base: AbsPath, disks: seq<DiskSpec>, p: AbsPath) {
    exists j :: 0 <= j < |disks| && disks[j].size != "" && DestPath(base, disks[j].name) <= p
  }

  /** No source, however it is spelled, is a copy or lies below one. */
  predicate SourcesOutside(cwd: AbsPath, base: AbsPath, disks: seq<DiskSpec>) {
    forall i :: 0 <= i < |disks| ==> !IsCopyPath(base, disks, Clean(cwd, disks[i].source.image))
  }

  lemma DestOfName(base: AbsPath, name: string)
    requires '/' !in name
    ensures Plain(name + QCOW2_EXT) && DestPath(base, name) == base + [name + QCOW2_EXT]
  {
    var file := name + QCOW2_EXT;
    assert '/' !in file;
    assert file[|file| - 1] == '2';
    SplitFree(file, '/');
    CleanPlain(base, [file]);
  }

  lemma DestsDiffer(base: AbsPath, a: string, b: string)
    requires '/' !in a && '/' !in b && a != b
    ensures !(DestPath(base, a) <= DestPath(base, b))
  {
    hide DestPath;
    DestOfName(base, a);
    DestOfName(base, b);
    assert DestPath(base, a)[|base|] == a + QCOW2_EXT && DestPath(base, b)[|base|] == b + QCOW2_EXT;
    assert (a + QCOW2_EXT)[..|a + QCOW2_EXT| - 6] == a;
    assert (b + QCOW2_EXT)[..|b + QCOW2_EXT| - 6] == b;
  }

  /** What holds of a finished disk: untouched if unsized, else pointing at its own copy. */
  predicate Prepared(before: Files, after: Files, base: AbsPath, d: DiskSpec, d': DiskSpec) {
    if d.size == "" then d' == d
    else
      && d' == Pointed(d, Rooted(DestPath(base, d.name)))
      && IsSizedCopy(Lookup(before, d.source.image), Lookup(after, d'.source.image), d.size)
  }

  /** The loop from disk i on writes only the destinations of the sized disks from i on, and
      leaves the disks before i alone. */
  lemma {:induction false} SizeFromFrame(files: Files, base: AbsPath, disks: seq<DiskSpec>, i: nat, env: nat -> SizeEnv, p: AbsPath)
    requires i <= |disks|
    requires forall j :: i <= j < |disks| && disks[j].size != "" ==> !(DestPath(base, disks[j].name) <= p)
    ensures SameAt(files, SizeFrom(files, base, disks, i, env).0, p)
    decreases |disks| - i
  {
    hide BuildSized, DestPath, Bytes, Lookup, Clean, Rooted;
    if i < |disks| {
      if disks[i].size == "" {
        SizeFromFrame(files, base, disks, i + 1, env, p);
      } else if disks[i].source.image != "" {
        var dest := DestPath(base, disks[i].name);
        var (f, r) := BuildSized(files, dest, disks[i], env(i));
        BuildSizedMeaning(files, dest, disks[i], env(i));
        assert SameAt(files, f, p);
        if r.Ok? {
          var next := disks[i := Pointed(disks[i], r.value)];
          assert forall j :: i < j < |disks| ==> next[j] == disks[j];
          SizeFromFrame(f, base, next, i + 1, env, p);
        }
      }
    }
  }

  lemma {:induction false} EarlierStay(files: Files, base: AbsPath, disks: seq<DiskSpec>, i: nat, env: nat -> SizeEnv)
    requires i <= |disks|
    ensures var (after, disks', ok) := SizeFrom(files, base, disks, i, env);
      |disks'| == |disks| && after.cwd == files.cwd && forall k :: 0 <= k < i ==> disks'[k] == disks[k]
    decreases |disks| - i
  {
    hide BuildSized, DestPath, Lookup, Bytes, Clean, Rooted;
    if i < |disks| {
      if disks[i].size == "" {
        EarlierStay(files, base, disks, i + 1, env);
      } else if disks[i].source.image != "" {
        BuildSizedMeaning(files, DestPath(base, disks[i].name), disks[i], env(i));
        var (f, r) := BuildSized(files, DestPath(base, disks[i].name), disks[i], env(i));
        if r.Ok? {
          EarlierStay(f, base, disks[i := Pointed(disks[i], r.value)], i + 1, env);
        }
      }
    }
  }

  /** A disk just built is prepared. */
  lemma BuiltIsPrepared(before: Files, files: Files, base: AbsPath, d: DiskSpec, e: SizeEnv)
    requires d.size != "" && '/' !in d.name && SameAt(before, files, Clean(before.cwd, d.source.image))
    requires BuildSized(files, DestPath(base, d.name), d, e).1.Ok?
    ensures var dest := DestPath(base, d.name);
      && Prepared(before, BuildSized(files, dest, d, e).0, base, d, Pointed(d, Rooted(dest)))
      && BuildSized(files, dest, d, e).1.value == Rooted(dest)
  {
    hide BuildSized, DestPath, Bytes, Clean, Rooted;
    BuildSizedMeaning(files, DestPath(base, d.name), d, e);
    DestOfName(base, d.name);
    LookupRooted(BuildSized(files, DestPath(base, d.name), d, e).0, DestPath(base, d.name));
  }

  /** It stays prepared while its copy is left alone. */
  lemma PreparedStays(before: Files, files: Files, after: Files, base: AbsPath, d: DiskSpec, d': DiskSpec)
    requires Prepared(before, files, base, d, d') && '/' !in d.name && SameAt(files, after, DestPath(base, d.name))
    ensures Prepared(before, after, base, d, d')
  {
    hide DestPath, Bytes, Clean, Rooted, Lookup;
    DestOfName(base, d.name);
    LookupRooted(files, DestPath(base, d.name));
    LookupRooted(after, DestPath(base, d.name));
  }

  /** The sources from disk i on are as at the start and outside every copy. */
  ghost predicate SourcesIntact(before: Files, files: Files, base: AbsPath, disks: seq<DiskSpec>, i: nat) {
    forall j :: i <= j < |disks| ==>
      var p := Clean(before.cwd, disks[j].source.image);
      SameAt(before, files, p) && !IsCopyPath(base, disks, p)
  }

  /** `before` is the file system at the start; sources have not changed since. */
  lemma {:induction false} SizeFromPrepares(before: Files, files: Files, base: AbsPath, disks: seq<DiskSpec>, i: nat, env: nat -> SizeEnv)
    requires i <= |disks| && SlashFree(disks) && NamesDiffer(disks) && SourcesIntact(before, files, base, disks, i)
    ensures var (after, disks', ok) := SizeFrom(files, base, disks, i, env);
      ok ==> |disks'| == |disks| && forall j :: i <= j < |disks| ==> Prepared(before, after, base, disks[j], disks'[j])
    decreases |disks| - i, 1
  {
    hide BuildSized, DestPath, Bytes, Lookup, Clean, Rooted, IsCopyPath;
    var (after, disks', ok) := SizeFrom(files, base, disks, i, env);
    if i < |disks| && ok {
      if disks[i].size == "" {
        SizeFromPrepares(before, files, base, disks, i + 1, env);
        EarlierStay(files, base, disks, i + 1, env);
      } else {
        SizeOnePrepares(before, files, base, disks, i, env);
      }
    }
  }

  lemma {:induction false} SizeOnePrepares(before: Files, files: Files, base: AbsPath, disks: seq<DiskSpec>, i: nat, env: nat -> SizeEnv)
    requires i < |disks| && disks[i].size != "" && SlashFree(disks) && NamesDiffer(disks)
    requires SourcesIntact(before, files, base, disks, i) && SizeFrom(files, base, disks, i, env).2
    ensures var (after, disks', _) := SizeFrom(files, base, disks, i, env);
      |disks'| == |disks| && forall j :: i <= j < |disks| ==> Prepared(before, after, base, disks[j], disks'[j])
    decreases |disks| - i, 0
  {
    hide BuildSized, DestPath, Bytes, Prepared, Lookup, Clean, Rooted, SourcesIntact;
    var dest := DestPath(base, disks[i].name);
    var (f, r) := BuildSized(files, dest, disks[i], env(i));
    IntactHere(before, files, base, disks, i);
    BuiltIsPrepared(before, files, base, disks[i], env(i));
    var next := disks[i := Pointed(disks[i], Rooted(dest))];
    OthersStay(before, files, base, disks, i, env(i));
    SizeFromPrepares(before, f, base, next, i + 1, env);
    EarlierStay(f, base, next, i + 1, env);
    forall j | i < j < |disks|
      ensures next[j] == disks[j] && !(DestPath(base, disks[j].name) <= dest)
    {
      DestsDiffer(base, disks[j].name, disks[i].name);
    }
    SizeFromFrame(f, base, next, i + 1, env, dest);
    var (after, disks', _) := SizeFrom(f, base, next, i + 1, env);
    PreparedStays(before, f, after, base, disks[i], next[i]);
    assert disks'[i] == next[i];
  }

  lemma IntactHere(before: Files, files: Files, base: AbsPath, disks: seq<DiskSpec>, i: nat)
    requires i < |disks| && SourcesIntact(before, files, base, disks, i)
    ensures SameAt(before, files, Clean(before.cwd, disks[i].source.image))
  {
  }

  lemma OthersStay(before: Files, files: Files, base: AbsPath, disks: seq<DiskSpec>, i: nat, e: SizeEnv)
    requires i < |disks| && disks[i].size != "" && SourcesIntact(before, files, base, disks, i)
    ensures var dest := DestPath(base, disks[i].name);
      SourcesIntact(before, BuildSized(files, dest, disks[i], e).0, base, disks[i := Pointed(disks[i], Rooted(dest))], i + 1)
  {
    hide BuildSized, DestPath, Bytes, Clean, Rooted;
    var dest := DestPath(base, disks[i].name);
    var next := disks[i := Pointed(disks[i], Rooted(dest))];
    var f := BuildSized(files, dest, disks[i], e).0;
    BuildSizedMeaning(files, dest, disks[i], e);
    forall j | i < j < |disks|
      ensures SameAt(before, f, Clean(before.cwd, next[j].source.image)) && !IsCopyPath(base, next, Clean(before.cwd, next[j].source.image))
    {
      var p := Clean(before.cwd, disks[j].source.image);
      assert SameAt(before, files, p) && !IsCopyPath(base, disks, p);
      assert !(dest <= p) && SameAt(files, f, p);
      assert forall k :: 0 <= k < |next| ==> next[k].size == disks[k].size && next[k].name == disks[k].name;
    }
  }

  /**
   Sized disks.  With distinct slash-free disk names and no source at or below a copy, under
   whatever spelling, the loop leaves every source image, and every other file but the copies,
   unchanged on success and on failure; on success each sized disk points to its own copy,
   which has the source's guest data and exactly the requested virtual size, no smaller than
   the source's, and each unsized disk is untouched.
   */
  lemma SizedDisksAreCopies(files: Files, base: AbsPath, disks: seq<DiskSpec>, env: nat -> SizeEnv)
    requires SlashFree(disks) && NamesDiffer(disks) && SourcesOutside(files.cwd, base, disks)
    ensures var (after, disks', ok) := SizeFrom(files, base, disks, 0, env);
      && (forall p: AbsPath :: !IsCopyPath(base, disks, p) ==> SameAt(files, after, p))
      && (forall i :: 0 <= i < |disks| ==> Lookup(after, disks[i].source.image) == Lookup(files, disks[i].source.image))
      && (ok ==> |disks'| == |disks| && forall i :: 0 <= i < |disks| ==> Prepared(files, after, base, disks[i], disks'[i]))
      && (forall i, j :: 0 <= i < |disks| && 0 <= j < |disks| && i != j ==> !(DestPath(base, disks[i].name) <= DestPath(base, disks[j].name)))
  {
    hide DestPath, Prepared, Clean, Rooted, SizeFrom;
    forall p: AbsPath | !IsCopyPath(base, disks, p)
      ensures SameAt(files, SizeFrom(files, base, disks, 0, env).0, p)
    {
      SizeFromFrame(files, base, disks, 0, env, p);
    }
    SizeFromPrepares(files, files, base, disks, 0, env);
    forall i, j | 0 <= i < |disks| && 0 <= j < |disks| && i != j
      ensures !(DestPath(base, disks[i].name) <= DestPath(base, disks[j].name))
    {
      DestsDiffer(base, disks[i].name, disks[j].name);
    }
  }

  /** The condition for one disk: the request parses and is no smaller than the source, which can be
      inspected, and every tool run needed works. */
  predicate SizedWorks(files: Files, d: DiskSpec, e: SizeEnv) {
    var src := Lookup(files, d.source.image);
    && d.source.image != "" && Bytes(d.size).Some? && e.inspectOk
    && src.Some? && src.value.virtualSize != 0 && src.value.format != "" && src.value.virtualSize <= Bytes(d.size).value
    && e.remove.Removed? && e.convert.Done? && (src.value.virtualSize < Bytes(d.size).value ==> e.resize.Done?)
  }

  lemma OneWorksExactly(before: Files, files: Files, base: AbsPath, disks: seq<DiskSpec>, i: nat, e: SizeEnv)
    requires i < |disks| && disks[i].size != "" && disks[i].source.image != "" && SourcesIntact(before, files, base, disks, i)
    ensures BuildSized(files, DestPath(base, disks[i].name), disks[i], e).1.Ok? <==> SizedWorks(before, disks[i], e)
  {
    hide BuildSized, DestPath, Bytes, Clean, NamesFile;
    var p := Clean(before.cwd, disks[i].source.image);
    SizedExactly(files, DestPath(base, disks[i].name), disks[i], e);
    assert SameAt(before, files, p) && !IsCopyPath(base, disks, p);
  }

  /** With distinct slash-free names and sources outside every copy, the loop from disk i on
      succeeds exactly when the condition holds, of the files at the start, for every sized disk. */
  lemma {:induction false} SizingSucceeds(before: Files, files: Files, base: AbsPath, disks: seq<DiskSpec>, i: nat, env: nat -> SizeEnv)
    requires i <= |disks| && SlashFree(disks) && SourcesIntact(before, files, base, disks, i)
    ensures SizeFrom(files, base, disks, i, env).2 <==>
      forall k :: i <= k < |disks| && disks[k].size != "" ==> SizedWorks(before, disks[k], env(k))
    decreases |disks| - i
  {
    hide BuildSized, DestPath, Bytes, Lookup, Clean, Rooted, IsCopyPath, SizedWorks;
    if i < |disks| {
      if disks[i].size == "" {
        SizingSucceeds(before, files, base, disks, i + 1, env);
      } else if disks[i].source.image == "" {
        NeedsImage(before, disks[i], env(i));
      } else {
        var dest := DestPath(base, disks[i].name);
        var (f, r) := BuildSized(files, dest, disks[i], env(i));
        OneWorksExactly(before, files, base, disks, i, env(i));
        BuildSizedMeaning(files, dest, disks[i], env(i));
        if r.Ok? {
          var next := disks[i := Pointed(disks[i], Rooted(dest))];
          OthersStay(before, files, base, disks, i, env(i));
          SizingSucceeds(before, f, base, next, i + 1, env);
          assert forall k :: i < k < |disks| ==> next[k] == disks[k];
        }
      }
    }
  }

  lemma NeedsImage(files: Files, d: DiskSpec, e: SizeEnv)
    requires d.source.image == ""
    ensures !SizedWorks(files, d, e)
  {
  }

  lemma SizingSucceedsExactly(files: Files, base: AbsPath, disks: seq<DiskSpec>, env: nat -> SizeEnv)
    requires SlashFree(disks) && NamesDiffer(disks) && SourcesOutside(files.cwd, base, disks)
    ensures SizeFrom(files, base, disks, 0, env).2 <==>
      forall k :: 0 <= k < |disks| && disks[k].size != "" ==> SizedWorks(files, disks[k], env(k))
  {
    hide SizeFrom, DestPath, Clean, SizedWorks;
    SizingSucceeds(files, files, base, disks, 0, env);
  }
}

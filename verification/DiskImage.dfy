/** Disk image files, `pkg/util/disk.go`, and the file names and paths derived from them. */
module DiskImage {
  import opened Prelude
  import opened Text

  /** A file as the program and qemu-img see it: its first bytes, whether it can be read, and the
      image format, virtual size and guest data it holds. */
  datatype DiskFile = DiskFile(readable: bool, head: seq<bv8>, format: string, virtualSize: nat, data: string)

  const QCOW2_MAGIC: seq<bv8> := [0x51, 0x46, 0x49, 0xfb]
  const QCOW2_EXT: string := ".qcow2"

  // ----- File identity -----

  /** A path element that cleaning leaves alone. */
  predicate Plain(s: string) {
    s != "" && '/' !in s && s != "." && s != ".."
  }

  predicate AllPlain(elements: seq<string>) {
    forall i :: 0 <= i < |elements| ==> Plain(elements[i])
  }

  /** An absolute, cleaned path: what identifies a file.  All spellings of a path in a program
      text or on the command line clean to the same value (there are no links). */
  type AbsPath = e: seq<string> | AllPlain(e) witness []

  /** The regular files, and the working directory that relative paths start from. */
  datatype Files = Files(cwd: AbsPath, store: map<AbsPath, DiskFile>)

  /** `filepath.Clean` of a rooted path, element by element. */
  function CleanOnto(stack: AbsPath, elements: seq<string>): AbsPath
    requires Free(elements, '/')
    decreases |elements|
  {
    if elements == [] then stack
    else
      var e := elements[0];
      var next: AbsPath := if e == "" || e == "." then stack
                           else if e == ".." then (if stack == [] then [] else stack[..|stack| - 1])
                           else stack + [e];
      CleanOnto(next, elements[1..])
  }

  /** `filepath.Join` of a cleaned path and a relative one. */
  function JoinPath(dir: AbsPath, path: string): AbsPath {
    JoinSplit(path, '/');
    CleanOnto(dir, Split(path, '/'))
  }

  /** The file a path text denotes. */
  function Clean(cwd: AbsPath, path: string): AbsPath {
    JoinPath(if path != "" && path[0] == '/' then [] else cwd, path)
  }

  /** The text of a cleaned path. */
  function Rooted(p: AbsPath): string {
    if p == [] then "/" else "/" + Join(p, '/')
  }

  /** A path ending in a slash, "." or ".." denotes a directory, and the empty path nothing. */
  predicate NamesFile(path: string) {
    var parts := Split(path, '/');
    Plain(parts[|parts| - 1])
  }

  /** The file at a path, when there is one. */
  function Lookup(files: Files, path: string): Option<DiskFile> {
    var p := Clean(files.cwd, path);
    if NamesFile(path) && p in files.store then Some(files.store[p]) else None
  }

  function Put(files: Files, p: AbsPath, f: DiskFile): Files {
    files.(store := files.store[p := f])
  }

  function Erase(files: Files, p: AbsPath): Files {
    files.(store := files.store - {p})
  }

  predicate SameAt(before: Files, after: Files, p: AbsPath) {
    after.cwd == before.cwd && (p in after.store <==> p in before.store) && (p in before.store ==> after.store[p] == before.store[p])
  }

  lemma {:induction false} CleanPlain(stack: AbsPath, p: AbsPath)
    ensures Free(p, '/') && CleanOnto(stack, p) == stack + p
    decreases |p|
  {
    if p == [] {
      assert stack + p == stack;
    } else {
      CleanPlain(stack + [p[0]], p[1..]);
      assert stack + p == (stack + [p[0]]) + p[1..];
    }
  }

  /** Cleaning the text of a cleaned path gives the path back, from every working directory, so
      distinct cleaned paths have distinct texts. */
  lemma CleanRooted(cwd: AbsPath, p: AbsPath)
    ensures Clean(cwd, Rooted(p)) == p
    ensures NamesFile(Rooted(p)) <==> p != []
  {
    CleanPlain([], p);
    if p == [] {
      assert Rooted(p)[1..] == "" && Split("/", '/') == ["", ""];
      assert ["", ""][1..] == [""] && [""][1..] == [];
    } else {
      var text := Rooted(p);
      assert text[0] == '/' && text[1..] == Join(p, '/');
      SplitJoin(p, '/');
      assert Split(text, '/') == [""] + p;
      assert ([""] + p)[1..] == p;
    }
  }

  lemma LookupRooted(files: Files, p: AbsPath)
    requires p != []
    ensures Lookup(files, Rooted(p)) == if p in files.store then Some(files.store[p]) else None
  {
    CleanRooted(files.cwd, p);
  }

  /** Without ".." cleaning never leaves the directory it starts from. */
  lemma {:induction false} CleanStaysInside(stack: AbsPath, elements: seq<string>)
    requires Free(elements, '/') && ".." !in elements
    ensures stack <= CleanOnto(stack, elements)
    decreases |elements|
  {
    if elements != [] {
      var e := elements[0];
      assert forall x :: x in elements[1..] ==> x in elements;
      CleanStaysInside(if e == "" || e == "." then stack else stack + [e], elements[1..]);
    }
  }

  lemma {:induction false} CleanConcat(stack: AbsPath, a: seq<string>, b: seq<string>)
    requires Free(a, '/') && Free(b, '/')
    ensures Free(a + b, '/') && CleanOnto(stack, a + b) == CleanOnto(CleanOnto(stack, a), b)
    decreases |a|
  {
    assert forall i :: 0 <= i < |a + b| ==> (a + b)[i] == if i < |a| then a[i] else b[i - |a|];
    if a == [] {
      assert a + b == b;
    } else {
      var e := a[0];
      assert (a + b)[1..] == a[1..] + b;
      CleanConcat(if e == "" || e == "." then stack
                  else if e == ".." then (if stack == [] then [] else stack[..|stack| - 1])
                  else stack + [e], a[1..], b);
    }
  }

  lemma CleanElement(dir: AbsPath, e: string)
    requires '/' !in e
    ensures JoinPath(dir, e) == if e == "" || e == "." then dir
                                else if e == ".." then (if dir == [] then [] else dir[..|dir| - 1])
                                else dir + [e]
  {
    SplitFree(e, '/');
    var next: AbsPath := if e == "" || e == "." then dir
                         else if e == ".." then (if dir == [] then [] else dir[..|dir| - 1])
                         else dir + [e];
    assert [e][1..] == [];
    assert CleanOnto(dir, [e]) == CleanOnto(next, []) == next;
  }

  /** The laws that determine joining: element by element, where the empty element and "." stay,
      ".." goes up, but never above the root, and any other name goes down. */
  lemma PathLaws(dir: AbsPath, a: string, b: string)
    ensures JoinPath(dir, a + "/" + b) == JoinPath(JoinPath(dir, a), b)
    ensures JoinPath(dir, "") == dir && JoinPath(dir, ".") == dir
    ensures JoinPath(dir, "..") == if dir == [] then [] else dir[..|dir| - 1]
    ensures Plain(a) ==> JoinPath(dir, a) == dir + [a]
  {
    hide CleanOnto, Split;
    CleanElement(dir, "");
    CleanElement(dir, ".");
    CleanElement(dir, "..");
    if Plain(a) {
      CleanElement(dir, a);
    }
    JoinSplit(a, '/');
    JoinSplit(b, '/');
    SplitConcat(a, b, '/');
    assert a + "/" + b == a + ['/'] + b;
    CleanConcat(dir, Split(a, '/'), Split(b, '/'));
  }

  /** An absolute path starts at the root, any other at the working directory. */
  lemma CleanStarts(cwd: AbsPath, path: string)
    ensures Clean(cwd, "/" + path) == JoinPath([], path)
    ensures path == "" || path[0] != '/' ==> Clean(cwd, path) == JoinPath(cwd, path)
  {
    hide CleanOnto, Split;
    PathLaws([], "", path);
    assert "" + "/" + path == "/" + path;
  }

  /** Whether a path can denote a file is decided by its last element. */
  lemma NamesFileExactly(dir: string, e: string)
    requires '/' !in e
    ensures NamesFile(dir + "/" + e) <==> e !in {"", ".", ".."}
    ensures NamesFile(e) <==> e !in {"", ".", ".."}
  {
    hide Split;
    SplitFree(e, '/');
    SplitConcat(dir, e, '/');
    assert dir + "/" + e == dir + ['/'] + e;
  }

  // ----- qcow2 or not -----

  /** The first four bytes, or none when the file cannot be opened or is too short. */
  function HasQcow2Magic(files: Files, path: string): Option<bool> {
    match Lookup(files, path)
    case None => None
    case Some(f) => if !f.readable || |f.head| < 4 then None else Some(f.head[..4] == QCOW2_MAGIC)
  }

  predicate IsQcow2Image(files: Files, path: string) {
    match HasQcow2Magic(files, path)
    case Some(magic) => magic
    case None => EqualFold(Ext(path), QCOW2_EXT)
  }

  /** qcow2 content: the bytes of "QFI" and 0xfb at the start of a readable file. */
  predicate Qcow2Content(f: DiskFile) {
    f.readable && |f.head| >= 4 && f.head[0] == 0x51 && f.head[1] == 0x46 && f.head[2] == 0x49 && f.head[3] == 0xfb
  }

  /** The first four bytes of a file that can be read decide; for any other path, its extension. */
  lemma Qcow2Exactly(files: Files, path: string)
    ensures var f := Lookup(files, path);
      if f.Some? && f.value.readable && |f.value.head| >= 4 then
        HasQcow2Magic(files, path) == Some(Qcow2Content(f.value)) && (IsQcow2Image(files, path) <==> Qcow2Content(f.value))
      else
        HasQcow2Magic(files, path) == None && (IsQcow2Image(files, path) <==> ToLower(Ext(path)) == ToLower(".qcow2"))
  {
    hide Lookup, Ext, ToLower;
    var f := Lookup(files, path);
    if f.Some? && |f.value.head| >= 4 {
      assert f.value.head[..4] == [f.value.head[0], f.value.head[1], f.value.head[2], f.value.head[3]];
    }
  }

  // ----- path/filepath -----

  /** `filepath.Ext`: from the last dot of the last path element. */
  function Ext(path: string): string {
    var dot := LastIndexOf(path, '.');
    if dot > LastIndexOf(path, '/') then path[dot..] else ""
  }

  function WithoutTrailingSlashes(path: string): (t: string)
    ensures t == "" || t[|t| - 1] != '/'
  {
    if path != [] && path[|path| - 1] == '/' then WithoutTrailingSlashes(path[..|path| - 1]) else path
  }

  /** `filepath.Base`. */
  function Base(path: string): (b: string)
    ensures b != ""
    ensures b == "/" || '/' !in b
  {
    if path == "" then "."
    else
      var t := WithoutTrailingSlashes(path);
      if t == "" then "/" else t[LastIndexOf(t, '/') + 1..]
  }

  /** `containerDiskFilename`: the image's own name, with a .qcow2 extension when its content is
      qcow2 and the name does not say so. */
  function ContainerFilename(files: Files, hostPath: string): string {
    var base := Base(hostPath);
    if !IsQcow2Image(files, hostPath) || EqualFold(Ext(base), QCOW2_EXT) then base
    else base[..|base| - |Ext(base)|] + QCOW2_EXT
  }

  lemma ExtIsSuffix(path: string)
    ensures |Ext(path)| <= |path| && path[|path| - |Ext(path)|..] == Ext(path)
    ensures forall i :: 1 <= i < |Ext(path)| ==> Ext(path)[i] != '.' && Ext(path)[i] != '/'
  {
  }

  /** A name without slashes has the .qcow2 extension exactly when it ends that way. */
  lemma ExtExact(base: string)
    requires '/' !in base
    ensures Ext(base) == QCOW2_EXT <==> HasSuffix(base, QCOW2_EXT)
  {
    ExtIsSuffix(base);
    if HasSuffix(base, QCOW2_EXT) {
      var p := base[..|base| - 6];
      assert base == p + ['.'] + "qcow2";
      LastIndexOfConcat(p, '.', "qcow2");
      assert LastIndexOf(base, '/') == -1;
      assert base[|p|..] == QCOW2_EXT;
    }
  }

  /** The file name inside the container ends in .qcow2 exactly when the image is taken for
      qcow2 and its extension is not another spelling of .qcow2, or it already had it. */
  lemma FilenameIsQcow2Exactly(files: Files, hostPath: string)
    ensures HasSuffix(ContainerFilename(files, hostPath), QCOW2_EXT) <==>
      || Ext(Base(hostPath)) == QCOW2_EXT
      || (IsQcow2Image(files, hostPath) && !EqualFold(Ext(Base(hostPath)), QCOW2_EXT))
  {
    hide IsQcow2Image, Ext;
    var base := Base(hostPath);
    if '/' in base {
      assert base == "/";
      RootHasNoExt();
    } else {
      ExtExact(base);
    }
    ExtIsSuffix(base);
  }

  predicate AllSlashes(s: string) {
    forall i :: 0 <= i < |s| ==> s[i] == '/'
  }

  lemma {:induction false} TrailingSlashesGo(t: string, slashes: string)
    requires AllSlashes(slashes) && (t == "" || t[|t| - 1] != '/')
    ensures WithoutTrailingSlashes(t + slashes) == t
  {
    if slashes == "" {
      assert t + slashes == t;
    } else {
      assert (t + slashes)[..|t + slashes| - 1] == t + slashes[..|slashes| - 1];
      TrailingSlashesGo(t, slashes[..|slashes| - 1]);
    }
  }

  /** The last element, whatever is before it and however many slashes follow. */
  lemma BaseExactly(dir: string, file: string, slashes: string)
    requires file != "" && '/' !in file && AllSlashes(slashes)
    ensures Base(dir + "/" + file + slashes) == file && Base(file + slashes) == file
    ensures Base("") == "." && (slashes != "" ==> Base(slashes) == "/")
  {
    var path := dir + ['/'] + file;
    assert dir + "/" + file + slashes == path + slashes;
    assert path[|path| - 1] == file[|file| - 1];
    TrailingSlashesGo(path, slashes);
    TrailingSlashesGo(file, slashes);
    TrailingSlashesGo("", slashes);
    assert "" + slashes == slashes;
    LastIndexOfConcat(dir, '/', file);
    assert path[|dir| + 1..] == file;
    assert LastIndexOf(file, '/') == -1;
  }

  lemma ExtOfName(stem: string, e: string)
    requires '.' !in e && '/' !in stem && '/' !in e
    ensures Ext(stem + "." + e) == "." + e
    ensures '.' !in stem ==> Ext(stem) == ""
  {
    var base := stem + ['.'] + e;
    assert stem + "." + e == base;
    LastIndexOfConcat(stem, '.', e);
    assert LastIndexOf(base, '/') == -1;
    assert base[|stem|..] == "." + e;
    if '.' !in stem {
      assert LastIndexOf(stem, '.') == -1;
    }
  }

  /** The name in the container: the image's own, unless its content is qcow2 and its extension says
      something else; then .qcow2 takes the place of that extension, or is appended. */
  lemma FilenameExactly(files: Files, hostPath: string, stem: string, e: string)
    requires '/' !in stem && '/' !in e && '.' !in e
    ensures !IsQcow2Image(files, hostPath) ==> ContainerFilename(files, hostPath) == Base(hostPath)
    ensures IsQcow2Image(files, hostPath) && Base(hostPath) == stem + "." + e ==>
      ContainerFilename(files, hostPath) == if ToLower("." + e) == ToLower(".qcow2") then stem + "." + e else stem + ".qcow2"
    ensures IsQcow2Image(files, hostPath) && Base(hostPath) == stem && '.' !in stem ==>
      ContainerFilename(files, hostPath) == stem + ".qcow2"
  {
    hide IsQcow2Image, Ext, Base, ToLower;
    ExtOfName(stem, e);
    NotFolded();
    assert (stem + "." + e)[..|stem + "." + e| - |"." + e|] == stem;
    assert stem[..|stem| - 0] == stem;
  }

  lemma NotFolded()
    ensures ToLower("") != ToLower(QCOW2_EXT)
  {
  }

  lemma RootHasNoExt()
    ensures Ext("/") == "" && !EqualFold("", QCOW2_EXT)
  {
  }

  // ----- findExtractedDisk -----

  class FileSystem {
    var files: Files
  }

  const DISK_IMG: string := "disk.img"
  const DISK_QCOW2: string := "disk.qcow2"

  function InDir(dir: AbsPath, name: string): AbsPath
    requires Plain(name)
  {
    dir + [name]
  }

  /** disk.qcow2 if present; else disk.img, renamed to disk.qcow2 when its content is qcow2; else
      the empty path. */
  function FindDisk(files: Files, dir: AbsPath, renameOk: bool): (Files, Result<string>) {
    var img, qcow2 := InDir(dir, DISK_IMG), InDir(dir, DISK_QCOW2);
    if qcow2 in files.store then (files, Ok(Rooted(qcow2)))
    else if img !in files.store then (files, Ok(""))
    else if !IsQcow2Image(files, Rooted(img)) then (files, Ok(Rooted(img)))
    else if !renameOk then (files, Err)
    else (Put(Erase(files, img), qcow2, files.store[img]), Ok(Rooted(qcow2)))
  }

  method FindExtractedDisk(fs: FileSystem, dir: AbsPath, renameOk: bool) returns (r: Result<string>)
    modifies fs
    ensures (fs.files, r) == FindDisk(old(fs.files), dir, renameOk)
  {
    hide Rooted, Lookup, IsQcow2Image;
    var imgPath, qcow2Path := Rooted(InDir(dir, DISK_IMG)), Rooted(InDir(dir, DISK_QCOW2));
    LookupRooted(fs.files, InDir(dir, DISK_IMG));
    LookupRooted(fs.files, InDir(dir, DISK_QCOW2));
    if Lookup(fs.files, qcow2Path).Some? {
      return Ok(qcow2Path);
    }
    var img := Lookup(fs.files, imgPath);
    if img.Some? {
      if IsQcow2Image(fs.files, imgPath) {
        if !renameOk {
          return Err;
        }
        fs.files := Put(Erase(fs.files, InDir(dir, DISK_IMG)), InDir(dir, DISK_QCOW2), img.value);
        return Ok(qcow2Path);
      }
      return Ok(imgPath);
    }
    r := Ok("");
  }

  lemma TwoNames(dir: AbsPath)
    ensures InDir(dir, DISK_IMG) != InDir(dir, DISK_QCOW2) && InDir(dir, DISK_IMG) != [] && InDir(dir, DISK_QCOW2) != []
    ensures Rooted(InDir(dir, DISK_IMG)) != Rooted(InDir(dir, DISK_QCOW2))
    ensures Rooted(InDir(dir, DISK_IMG)) != "" && Rooted(InDir(dir, DISK_QCOW2)) != ""
  {
    var img, qcow2 := InDir(dir, DISK_IMG), InDir(dir, DISK_QCOW2);
    assert img[|dir|] != qcow2[|dir|];
    CleanRooted([], img);
    CleanRooted([], qcow2);
  }

  /** A successful search gives a path that is there, keeps the content of the disk it names and
      every other file, and running it again changes nothing and gives the same path. */
  lemma FindDiskIsStable(files: Files, dir: AbsPath, renameOk: bool, again: bool)
    ensures var (after, r) := FindDisk(files, dir, renameOk);
      var img, qcow2 := InDir(dir, DISK_IMG), InDir(dir, DISK_QCOW2);
      && (r.Err? ==> after == files)
      && (r.Err? <==> qcow2 !in files.store && img in files.store && IsQcow2Image(files, Rooted(img)) && !renameOk)
      && (qcow2 !in files.store && img in files.store && !IsQcow2Image(files, Rooted(img)) ==> r == Ok(Rooted(img)))
      && after.cwd == files.cwd
      && (qcow2 in files.store ==> after == files && r == Ok(Rooted(qcow2)))
      && (r.Ok? && r.value == Rooted(img) ==> !IsQcow2Image(files, r.value))
      && (r.Ok? ==> r.value in {"", Rooted(img), Rooted(qcow2)})
      && (r.Ok? ==> FindDisk(after, dir, again) == (after, r))
      && (r.Ok? && r.value == "" <==> r.Ok? && img !in files.store && qcow2 !in files.store)
      && (r.Ok? && r.value != "" ==>
            && Lookup(after, r.value).Some?
            && Lookup(after, r.value) == Lookup(files, if Lookup(files, r.value).Some? then r.value else Rooted(img))
            && (Lookup(files, r.value).None? ==> img in files.store && img !in after.store))
      && (r.Ok? && (r.value == "" || Lookup(files, r.value).Some?) ==> after == files)
      && forall p: AbsPath :: p != img && p != qcow2 ==> SameAt(files, after, p)
  {
    hide IsQcow2Image, Rooted, Lookup, InDir;
    TwoNames(dir);
    LookupRooted(files, InDir(dir, DISK_IMG));
    LookupRooted(files, InDir(dir, DISK_QCOW2));
    var after := FindDisk(files, dir, renameOk).0;
    LookupRooted(after, InDir(dir, DISK_IMG));
    LookupRooted(after, InDir(dir, DISK_QCOW2));
  }

  /** The verdict on an extracted disk.img is its content's: the name claims nothing. */
  lemma ImgVerdict(files: Files, dir: AbsPath)
    requires InDir(dir, DISK_IMG) in files.store
    ensures IsQcow2Image(files, Rooted(InDir(dir, DISK_IMG))) <==> Qcow2Content(files.store[InDir(dir, DISK_IMG)])
  {
    hide Rooted, Lookup, Ext, IsQcow2Image;
    TwoNames(dir);
    LookupRooted(files, InDir(dir, DISK_IMG));
    Qcow2Exactly(files, Rooted(InDir(dir, DISK_IMG)));
    ImgExt(dir);
  }

  lemma ImgExt(dir: AbsPath)
    ensures ToLower(Ext(Rooted(InDir(dir, DISK_IMG)))) != ToLower(".qcow2")
  {
    var pre := if dir == [] then "" else "/" + Join(dir, '/');
    if dir == [] {
      assert InDir(dir, DISK_IMG) == [DISK_IMG];
    } else {
      JoinConcat(dir, [DISK_IMG], '/');
    }
    var path := Rooted(InDir(dir, DISK_IMG));
    assert path == pre + ['/'] + DISK_IMG;
    ImgText(pre);
    hide ToLower;
    assert Ext(path) == ".img";
    ImgFolds();
  }

  lemma ImgText(pre: string)
    ensures Ext(pre + ['/'] + DISK_IMG) == ".img"
  {
    var path := pre + ['/'] + DISK_IMG;
    LastIndexOfConcat(pre, '/', DISK_IMG);
    var stem := pre + ['/'] + "disk";
    assert path == stem + ['.'] + "img";
    LastIndexOfConcat(stem, '.', "img");
    assert path[|stem|..] == ".img";
  }

  lemma ImgFolds()
    ensures ToLower(".img") != ToLower(".qcow2")
  {
    assert |".img"| != |".qcow2"|;
  }
}

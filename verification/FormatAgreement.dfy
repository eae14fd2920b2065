/**
 The converter and the QEMU wrapper agree on which disks are qcow2: the converter decides by
 content and puts the verdict into the container path's extension, and the wrapper's scan
 decides by that extension.
 */
module FormatAgreement {
  import opened Prelude
  import opened Text
  import opened Awk
  import opened QemuWrapper
  import opened BlockGraph
  import opened IterationOrder
  import opened DiskImage
  import opened Vmi
  import opened Config
  import SizedDisks
  import CreatePipeline

  /** The file-driver argument that virt-launcher generates for a host disk; `tail` is whatever
      follows the node name, up to the closing bracket. */
  function FileNode(path: string, node: string, tail: string): string {
    "{" + Field("driver", "file") + "," + Field("filename", path) + "," + Field("node-name", node) + tail
  }

  lemma FileNodeSegments(path: string, node: string, tail: string)
    requires QuoteFree(path) && QuoteFree(node)
    ensures Segments(FileNode(path, node, tail))
         == ["{", "driver", ":", "file", ",", "filename", ":", path, ",", "node-name", ":", node] + Segments(tail)
  {
    var f1, f2, f3 := Field("driver", "file"), Field("filename", path), Field("node-name", node);
    var a1 := "{" + f1 + ",";
    var a2 := a1 + f2 + ",";
    assert FileNode(path, node, tail) == a2 + f3 + tail;
    FieldSegments("{", "driver", "file", ",");
    FieldSegments(a1, "filename", path, ",");
    FieldSegments(a2, "node-name", node, tail);
    SplitFree("{", QUOTE);
    SplitFree(",", QUOTE);
  }

  /** The wrapper reads the node's name, whatever follows it. */
  lemma FileNodeName(path: string, node: string, tail: string)
    requires QuoteFree(path) && QuoteFree(node) && node != ""
    ensures NodeName(FileNode(path, node, tail)) == node && Declares(FileNode(path, node, tail), node)
  {
    hide FirstValue, Segments, NodeName, FileNode;
    var w := FileNode(path, node, tail);
    FileNodeSegments(path, node, tail);
    var segs := Segments(w);
    NodeNameIsFirst(w);
    assert KeyAt(segs, 9, "node-name") && segs[11] == node;
    FirstValueAt(segs, 9, "node-name");
    ContainsField(w, "node-name", node);
    assert FieldAt(segs, 9, "node-name", node);
  }

  /** A literal that ends with the closing quote occurs exactly when a closed segment ends with
      the literal's text. */
  lemma ClosedSuffix(w: string, suffix: string)
    requires QuoteFree(suffix)
    ensures Contains(w, suffix + [QUOTE]) <==>
      exists k :: 0 <= k < |Segments(w)| - 1 && HasSuffix(Segments(w)[k], suffix)
  {
    var p := suffix + [QUOTE];
    if i :| MatchAt(w, p, i) {
      var a, b := w[..i], w[i + |p|..];
      assert w == a + p + b;
      assert a + p + b == (a + suffix) + [QUOTE] + b;
      SplitConcat(a + suffix, b, QUOTE);
      LastSegment(a, suffix);
      var k := |Segments(a + suffix)| - 1;
      assert Segments(w)[k] == Segments(a + suffix)[k];
    }
    if k :| 0 <= k < |Segments(w)| - 1 && HasSuffix(Segments(w)[k], suffix) {
      SuffixOccurs(w, suffix, k);
    }
  }

  lemma {:induction false} LastSegment(a: string, suffix: string)
    requires QuoteFree(suffix)
    ensures HasSuffix(Segments(a + suffix)[|Segments(a + suffix)| - 1], suffix)
    decreases |a|
  {
    if a == [] {
      assert a + suffix == suffix;
      SplitFree(suffix, QUOTE);
    } else {
      assert (a + suffix)[1..] == a[1..] + suffix;
      LastSegment(a[1..], suffix);
      var rest := Segments(a[1..] + suffix);
      if a[0] == QUOTE {
        assert Segments(a + suffix) == [""] + rest;
      } else {
        assert Segments(a + suffix) == [[a[0]] + rest[0]] + rest[1..];
        if |rest| == 1 {
          var x := [a[0]] + rest[0];
          assert x[|x| - |suffix|..] == rest[0][|rest[0]| - |suffix|..];
        }
      }
    }
  }

  lemma SuffixOccurs(w: string, suffix: string, k: nat)
    requires k < |Segments(w)| - 1 && HasSuffix(Segments(w)[k], suffix)
    ensures Contains(w, suffix + [QUOTE])
  {
    var segs := Segments(w);
    var a, b := segs[..k + 1], segs[k + 1..];
    assert segs == a + b;
    JoinSplit(w, QUOTE);
    JoinConcat(a, b, QUOTE);
    var pre := Join(a, QUOTE);
    JoinEndsWith(a, suffix);
    assert w == pre + [QUOTE] + Join(b, QUOTE);
    assert pre == pre[..|pre| - |suffix|] + suffix;
    assert MatchAt(w, suffix + [QUOTE], |pre| - |suffix|);
  }

  lemma {:induction false} JoinEndsWith(a: seq<string>, suffix: string)
    requires |a| >= 1 && HasSuffix(a[|a| - 1], suffix)
    ensures HasSuffix(Join(a, QUOTE), suffix)
    decreases |a|
  {
    if |a| > 1 {
      JoinEndsWith(a[1..], suffix);
      var j, t := Join(a, QUOTE), Join(a[1..], QUOTE);
      assert j[|j| - |suffix|..] == t[|t| - |suffix|..];
    }
  }

  /** What the scan selects, on segments: a word with a field "driver":"file" and some quoted text
      that ends in .qcow2. */
  lemma SelectedExactly(w: string)
    ensures IsQcow2File(w) <==>
      HasField(Segments(w), "driver", "file") && exists k :: 0 <= k < |Segments(w)| - 1 && HasSuffix(Segments(w)[k], ".qcow2")
  {
    hide Segments;
    ContainsField(w, "driver", "file");
    ClosedSuffix(w, QCOW2_EXT);
    assert QCOW2_EXT + [QUOTE] == ".qcow2\"";
  }

  /** The text that the scan looks for does not occur after the node name. */
  ghost predicate QuietTail(tail: string) {
    !Contains(tail, ".qcow2\"")
  }

  /** The wrapper's scan selects a file node exactly when its path ends in .qcow2. */
  lemma ScanSelectsByExtension(path: string, node: string, tail: string)
    requires QuoteFree(path) && QuoteFree(node) && !HasSuffix(node, QCOW2_EXT) && QuietTail(tail)
    ensures IsQcow2File(FileNode(path, node, tail)) <==> HasSuffix(path, QCOW2_EXT)
  {
    hide Segments, FileNode, Field;
    var w := FileNode(path, node, tail);
    FileNodeSegments(path, node, tail);
    var segs, rest := Segments(w), Segments(tail);
    ContainsField(w, "driver", "file");
    assert FieldAt(segs, 1, "driver", "file");
    ClosedSuffix(w, QCOW2_EXT);
    ClosedSuffix(tail, QCOW2_EXT);
    assert QCOW2_EXT + [QUOTE] == ".qcow2\"";
    assert segs[7] == path;
    forall k | 0 <= k < |segs| - 1 && k != 7
      ensures !HasSuffix(segs[k], QCOW2_EXT)
    {
      if k >= 12 {
        assert segs[k] == rest[k - 12];
      } else {
        ShortSegments(segs, k);
      }
    }
  }

  lemma ShortSegments(segs: seq<string>, k: nat)
    requires |segs| >= 12 && k < 12 && k != 7 && !HasSuffix(segs[11], QCOW2_EXT)
    requires forall i :: 0 <= i < 11 && i != 7 ==> segs[i] in {"{", "driver", ":", "file", ",", "filename", "node-name"}
    ensures !HasSuffix(segs[k], QCOW2_EXT)
  {
    if k < 11 {
      var x := segs[k];
      assert x in {"{", "driver", ":", "file", ",", "filename", "node-name"};
      assert |x| < 6 || x[|x| - 1] != '2';
    }
  }

  /** The argument that virt-launcher builds for a disk of the VMI. */
  function DiskNode(files: Files, name: string, image: string, node: string, tail: string): string {
    FileNode(ContainerPath(name, ContainerFilename(files, image)), node, tail)
  }

  lemma SuffixOfPath(pre: string, file: string)
    requires '/' !in QCOW2_EXT
    ensures HasSuffix(pre + "/" + file, QCOW2_EXT) <==> HasSuffix(file, QCOW2_EXT)
  {
    var p := pre + "/" + file;
    if |file| >= 6 {
      assert p[|p| - 6..] == file[|file| - 6..];
    } else {
      assert |p| >= 6 ==> p[|p| - 6..][5 - |file|] == '/';
      assert QCOW2_EXT[5 - |file|] != '/';
    }
  }

  /** Names and texts that stay literal in the generated JSON. */
  ghost predicate Literal(files: Files, name: string, image: string, node: string, tail: string) {
    && Plain(name) && QuoteFree(name)
    && Plain(ContainerFilename(files, image)) && QuoteFree(ContainerFilename(files, image))
    && QuoteFree(node) && !HasSuffix(node, QCOW2_EXT) && QuietTail(tail)
  }

  lemma DiskNodePath(name: string, file: string) returns (pre: string)
    requires Plain(name) && Plain(file) && QuoteFree(name) && QuoteFree(file)
    ensures ContainerPath(name, file) == pre + "/" + file && QuoteFree(ContainerPath(name, file))
  {
    hide ContainerPath;
    PlainPath(name, file);
    pre := DISK_BASE_PATH + "/" + name;
    assert QuoteFree(DISK_BASE_PATH);
  }

  /** A disk of the VMI is selected by the scan exactly when its image is taken for qcow2 and its
      extension is not a mixed-case .qcow2, or its name ends in .qcow2 anyway. */
  lemma DiskSelectedExactly(files: Files, name: string, image: string, node: string, tail: string)
    requires Literal(files, name, image, node, tail)
    ensures IsQcow2File(DiskNode(files, name, image, node, tail)) <==>
      || Ext(Base(image)) == QCOW2_EXT
      || (IsQcow2Image(files, image) && !EqualFold(Ext(Base(image)), QCOW2_EXT))
  {
    hide ContainerFilename, ContainerPath, IsQcow2Image, FileNode, IsQcow2File, Ext, Base, QuietTail, Plain;
    var file := ContainerFilename(files, image);
    var pre := DiskNodePath(name, file);
    ScanSelectsByExtension(ContainerPath(name, file), node, tail);
    SuffixOfPath(pre, file);
    FilenameIsQcow2Exactly(files, image);
  }

  /** The extension says what the content says: neither a qcow2 image under another spelling of
      .qcow2, nor another image under .qcow2 itself. */
  predicate HonestName(magic: bool, image: string) {
    var ext := Ext(Base(image));
    !(magic && EqualFold(ext, QCOW2_EXT) && ext != QCOW2_EXT) && !(!magic && ext == QCOW2_EXT)
  }

  /**
   Format agreement: for an image with a readable header, the wrapper treats the disk as qcow2
   exactly when its content is qcow2, unless a qcow2 image carries a mixed-case spelling of
   the extension or a non-qcow2 image carries the extension itself; those two cases go wrong.
   */
  lemma FormatsAgreeExactly(files: Files, name: string, image: string, node: string, tail: string)
    requires HasQcow2Magic(files, image).Some? && Literal(files, name, image, node, tail)
    ensures var magic := HasQcow2Magic(files, image).value;
      (IsQcow2File(DiskNode(files, name, image, node, tail)) <==> magic) <==> HonestName(magic, image)
  {
    hide DiskNode, IsQcow2File, Ext, Base, ContainerFilename, Literal;
    DiskSelectedExactly(files, name, image, node, tail);
  }

  /** A disk that create resized is always treated as qcow2 by the wrapper. */
  lemma SizedDiskIsSelected(files: Files, base: AbsPath, name: string, node: string, tail: string)
    requires Plain(name) && QuoteFree(name) && QuoteFree(node) && !HasSuffix(node, QCOW2_EXT) && QuietTail(tail)
    requires HasQcow2Magic(files, Rooted(SizedDisks.DestPath(base, name))) == Some(true)
    ensures IsQcow2File(DiskNode(files, name, Rooted(SizedDisks.DestPath(base, name)), node, tail))
  {
    hide ContainerFilename, ContainerPath, IsQcow2Image, FileNode, IsQcow2File, Ext, Base, Rooted, SizedDisks.DestPath, QuietTail;
    CreatePipeline.SizedDiskKeepsName(files, base, name);
    var file := name + QCOW2_EXT;
    assert QuoteFree(QCOW2_EXT);
    var pre := DiskNodePath(name, file);
    ScanSelectsByExtension(ContainerPath(name, file), node, tail);
    SuffixOfPath(pre, file);
  }

  /** So after a create: a finished sized disk is a readable qcow2 image and selected. */
  lemma PreparedDiskIsSelected(before: Files, after: Files, base: AbsPath, d: DiskSpec, d': DiskSpec, node: string, tail: string)
    requires SizedDisks.Prepared(before, after, base, d, d') && d.size != ""
    requires Plain(d.name) && QuoteFree(d.name) && QuoteFree(node) && !HasSuffix(node, QCOW2_EXT) && QuietTail(tail)
    ensures HasQcow2Magic(after, d'.source.image) == Some(true)
    ensures IsQcow2File(DiskNode(after, d'.name, d'.source.image, node, tail))
  {
    hide DiskNode, IsQcow2File, QuietTail, Lookup, Rooted, SizedDisks.DestPath;
    assert QCOW2_MAGIC[..4] == QCOW2_MAGIC;
    SizedDiskIsSelected(after, base, d.name, node, tail);
  }

  // ----- At launch -----

  /** A block device argument with a name of its own is collected under it exactly when the scan
      selects it. */
  lemma CollectedExactly(args: seq<string>, b: nat, n: string)
    requires DistinctNames(Blocks(args, false)) && b < |Blocks(args, false)|
    requires n != "" && NodeName(Blocks(args, false)[b]) == n && Declares(Blocks(args, false)[b], n)
    ensures n in Qmap(args) <==> IsQcow2File(Blocks(args, false)[b])
    ensures Resolve(args, n) == [Blocks(args, false)[b]]
  {
    hide IsQcow2File, NodeName;
    DeclaringIsUnique(Blocks(args, false), b, n);
    QmapExactly(args, n);
    if n in Qmap(args) {
      var k := ScanFinds(args, false, n);
    }
  }

  /**
   From image content to the guest's block graph.  When a launch's arguments hold the node that
   virt-launcher generates for a disk of the VMI and a device refers to it, then QEMU's device
   reaches the disk through the inserted qcow2 node, over that one file node, if the image is
   qcow2, and directly otherwise; provided its name is honest about a readable header.
   */
  lemma DiskIsReadAsItsFormat(files: Files, name: string, image: string, node: string, tail: string,
                              args: seq<string>, order: seq<string>, b: nat, i: nat, k: nat)
    requires HasQcow2Magic(files, image).Some? && HonestName(HasQcow2Magic(files, image).value, image)
    requires Literal(files, name, image, node, tail) && node != ""
    requires IsLaunch(args) && AllWords(args) && WellFormed(Strip(args)) && Enumerates(order, Qmap(Strip(args)))
    requires b < |Blocks(Strip(args), false)| && Blocks(Strip(args), false)[b] == DiskNode(files, name, image, node, tail)
    requires i < |Devices(Strip(args), false)| && k < |Drives(Devices(Strip(args), false)[i])|
    requires Drives(Devices(Strip(args), false)[i])[k] == node
    ensures var after := LaunchBody(args, order);
      && i < |Devices(after, false)| && k < |Drives(Devices(after, false)[i])|
      && var reached := Resolve(after, Drives(Devices(after, false)[i])[k]);
         if HasQcow2Magic(files, image).value
         then reached == [FormatNode(node)] && Resolve(after, node) == [DiskNode(files, name, image, node, tail)]
         else reached == [DiskNode(files, name, image, node, tail)]
  {
    hide IsQcow2File, FormatNode, FileNode, Blocks, Devices, Drives, Strip, Inject, Qmap, Exec, LaunchBody, HonestName, NodeName, Declares,
         ContainerFilename, ContainerPath, Undo;
    var file := ContainerFilename(files, image);
    var pre := DiskNodePath(name, file);
    FileNodeName(ContainerPath(name, file), node, tail);
    FormatsAgreeExactly(files, name, image, node, tail);
    CollectedExactly(Strip(args), b, node);
    LaunchPreservesMeaning(args, order, i, k);
  }

  // ----- The two cases that go wrong, and an order that matters -----

  lemma NameOfRootFile(file: string)
    requires Plain(file)
    ensures Base("/" + file) == file && Clean([], "/" + file) == [file] && NamesFile("/" + file)
  {
    CreatePipeline.BaseOfRooted([], file);
    CleanRooted([], [file]);
    assert [] + [file] == [file];
  }

  /** A file system with one file, in the root directory. */
  function OneFile(file: string, f: DiskFile): Files
    requires Plain(file)
  {
    Files([], map[[file] := f])
  }

  /** Only the spelling decides about an image whose extension is some spelling of .qcow2. */
  lemma SpellingDecides(f: DiskFile, ext: string, node: string, tail: string)
    requires |ext| == 6 && ext[0] == '.' && forall i :: 1 <= i < 6 ==> ext[i] != '.' && ext[i] != '/' && ext[i] != QUOTE
    requires EqualFold(ext, QCOW2_EXT) && f.readable && |f.head| >= 4
    requires QuoteFree(node) && !HasSuffix(node, QCOW2_EXT) && QuietTail(tail)
    ensures Plain("x" + ext)
    ensures HasQcow2Magic(OneFile("x" + ext, f), "/" + ("x" + ext)) == Some(f.head[..4] == QCOW2_MAGIC)
    ensures IsQcow2File(DiskNode(OneFile("x" + ext, f), "d", "/" + ("x" + ext), node, tail)) <==> ext == QCOW2_EXT
  {
    hide DiskNode, IsQcow2File, QuietTail, Clean, NamesFile, Base, Ext, EqualFold, IsQcow2Image;
    var file := "x" + ext;
    assert file[0] == 'x' && QuoteFree(file) && '/' !in file;
    ExtOf(file, ext);
    NameOfRootFile(file);
    DiskSelectedExactly(Files([], map[[file] := f]), "d", "/" + file, node, tail);
  }

  lemma Spellings()
    ensures "x" + ".QCOW2" == "x.QCOW2" && "/" + "x.QCOW2" == "/x.QCOW2" && Plain("x.QCOW2")
    ensures "x" + ".qcow2" == "x.qcow2" && "/" + "x.qcow2" == "/x.qcow2" && Plain("x.qcow2")
    ensures EqualFold(".QCOW2", QCOW2_EXT) && ".QCOW2" != QCOW2_EXT && EqualFold(".qcow2", QCOW2_EXT)
  {
    assert "x.QCOW2"[0] == "x.qcow2"[0] == 'x' && ".QCOW2"[1] != QCOW2_EXT[1];
    assert ToLower(".QCOW2") == ToLower(QCOW2_EXT);
  }

  /** A qcow2 image called x.QCOW2 reaches the guest as raw, and a raw one called x.qcow2 as qcow2. */
  lemma DishonestNames(f: DiskFile, node: string, tail: string)
    requires f.readable && |f.head| >= 4 && QuoteFree(node) && !HasSuffix(node, QCOW2_EXT) && QuietTail(tail)
    ensures Plain("x.QCOW2") && Plain("x.qcow2")
    ensures f.head[..4] == QCOW2_MAGIC ==>
      var files := OneFile("x.QCOW2", f);
      HasQcow2Magic(files, "/x.QCOW2") == Some(true) && !IsQcow2File(DiskNode(files, "d", "/x.QCOW2", node, tail))
    ensures f.head[..4] != QCOW2_MAGIC ==>
      var files := OneFile("x.qcow2", f);
      HasQcow2Magic(files, "/x.qcow2") == Some(false) && IsQcow2File(DiskNode(files, "d", "/x.qcow2", node, tail))
  {
    hide DiskNode, IsQcow2File, QuietTail, HasQcow2Magic, OneFile, EqualFold, Plain, HasSuffix;
    Spellings();
    SpellingDecides(f, ".QCOW2", node, tail);
    SpellingDecides(f, ".qcow2", node, tail);
  }

  lemma ExtOf(file: string, ext: string)
    requires file == "x" + ext && |ext| == 6 && ext[0] == '.' && (forall i :: 1 <= i < 6 ==> ext[i] != '.' && ext[i] != '/')
    ensures Ext(file) == ext
  {
    assert file == "x" + ['.'] + ext[1..];
    LastIndexOfConcat("x", '.', ext[1..]);
    assert LastIndexOf(file, '/') == -1;
    assert file[1..] == ext;
  }

  /** A device that refers to "a", next to two disks whose nodes are called "a" and "a-fmt". */
  function ChainedArgs(): seq<string> {
    [BLOCKDEV, FileNode("/a.qcow2", "a", "}"), BLOCKDEV, FileNode("/b.qcow2", "a-fmt", "}"),
     "-device", "{" + Field("drive", "a") + "}"]
  }

  lemma TwoNodesAndDevice(v: string, w: string, x: string, y: string)
    requires v != BLOCKDEV && w != BLOCKDEV && x != BLOCKDEV && y != BLOCKDEV
    ensures var args := [BLOCKDEV, v, BLOCKDEV, w, x, y]; Blocks(args, false) == [v, w] && Devices(args, false) == [x, y]
  {
    hide Blocks, Devices;
    DeviceWords(x, y);
    var a3 := [w] + [x, y];
    var a2 := [BLOCKDEV] + a3;
    var a1 := [v] + a2;
    PartsOfFirst(w, [x, y], true);
    PartsOfFirst(BLOCKDEV, a3, false);
    PartsOfFirst(v, a2, true);
    PartsOfFirst(BLOCKDEV, a1, false);
    assert [BLOCKDEV, v, BLOCKDEV, w, x, y] == [BLOCKDEV] + a1;
  }

  lemma ChainedParts()
    ensures Blocks(ChainedArgs(), false) == [FileNode("/a.qcow2", "a", "}"), FileNode("/b.qcow2", "a-fmt", "}")]
    ensures Devices(ChainedArgs(), false) == ["-device", "{" + Field("drive", "a") + "}"]
  {
    hide FileNode, Field, Blocks, Devices;
    NoFlag("/a.qcow2", "a");
    NoFlag("/b.qcow2", "a-fmt");
    var d := "{" + Field("drive", "a") + "}";
    assert d[0] == '{' && BLOCKDEV[0] == '-' && |BLOCKDEV| != |"-device"|;
    TwoNodesAndDevice(FileNode("/a.qcow2", "a", "}"), FileNode("/b.qcow2", "a-fmt", "}"), "-device", d);
  }

  lemma DeviceWords(x: string, y: string)
    requires x != BLOCKDEV && y != BLOCKDEV
    ensures Blocks([x, y], false) == [] && Devices([x, y], false) == [x, y]
  {
    assert [x, y][1..] == [y] && [y][1..] == [];
    assert Blocks([], false) == [] && Devices([], false) == [];
    assert Blocks([y], false) == [] && Devices([y], false) == [y];
  }

  lemma NoFlag(path: string, node: string)
    ensures FileNode(path, node, "}") != BLOCKDEV
  {
    assert FileNode(path, node, "}")[0] == '{';
  }

  lemma ChainedDevice()
    ensures Drives("{" + Field("drive", "a") + "}") == ["a"]
    ensures Delimited(Segments("{" + Field("drive", "a") + "}"), "drive") && Delimited(Segments("-device"), "drive")
  {
    FieldSegments("{", "drive", "a", "}");
    SplitFree("{", QUOTE);
    SplitFree("}", QUOTE);
    SplitFree("-device", QUOTE);
    var segs := Segments("{" + Field("drive", "a") + "}");
    assert segs == ["{", "drive", ":", "a", "}"];
    assert segs[4..] == ["}"] && KeyAt(segs, 1, "drive");
    assert Values(["}"], "drive") == [];
    assert Values(segs, "drive") == [segs[3]] + Values(segs[4..], "drive");
  }

  /** A match of a field, seen on segments, whatever its value. */
  lemma MatchedSegments(w: string, n: string, i: int)
    requires MatchAt(w, Field("node-name", n), i)
    ensures var p := Field("node-name", n);
      Segments(w) == Segments(w[..i]) + (["node-name", ":"] + (Segments(n) + Segments(w[i + |p|..])))
  {
    var p := Field("node-name", n);
    var a, b := w[..i], w[i + |p|..];
    assert w == a + p + b;
    FieldRegroup(a, "node-name", n, b);
    var t3 := n + [QUOTE] + b;
    var t2 := ":" + [QUOTE] + t3;
    SplitConcat(a, "node-name" + [QUOTE] + t2, QUOTE);
    FreeHead("node-name", t2);
    FreeHead(":", t3);
    SplitConcat(n, b, QUOTE);
  }

  /** A node without further fields declares one name only. */
  lemma DeclaresOnly(path: string, node: string, n: string)
    requires QuoteFree(path) && path != "node-name" && QuoteFree(node) && node != "node-name"
    ensures Declares(FileNode(path, node, "}"), n) ==> n == node
  {
    hide Field, FileNode, Segments;
    var w := FileNode(path, node, "}");
    if Declares(w, n) {
      var i :| MatchAt(w, Field("node-name", n), i);
      MatchedSegments(w, n, i);
      FileNodeSegments(path, node, "}");
      OnlySegment();
      var before, after := Segments(w[..i]), Segments(n) + Segments(w[i + |Field("node-name", n)|..]);
      var segs := Segments(w);
      assert segs[|before|] == "node-name" && segs[|before| + 1] == ":";
      assert |before| == 9;
      assert segs[11..] == after && segs[11..] == [node, "}"];
      assert |Segments(n)| == 1 && Segments(n)[0] == after[0];
      JoinOfOne(n);
    }
  }

  lemma OnlySegment()
    ensures Segments("}") == ["}"]
  {
    SplitFree("}", QUOTE);
  }

  lemma JoinOfOne(n: string)
    requires |Segments(n)| == 1
    ensures n == Segments(n)[0]
  {
    JoinSplit(n, QUOTE);
  }

  lemma ClosingBracketIsQuiet()
    ensures QuietTail("}")
  {
  }

  lemma ChainedNode(path: string, node: string)
    requires QuoteFree(path) && path != "node-name" && QuoteFree(node) && node != "node-name" && node != ""
    requires HasSuffix(path, QCOW2_EXT) && !HasSuffix(node, QCOW2_EXT)
    ensures var w := FileNode(path, node, "}");
      IsQcow2File(w) && NodeName(w) == node && forall n :: Declares(w, n) ==> n == node
  {
    hide FileNode, IsQcow2File, NodeName, QuietTail, Declares;
    ClosingBracketIsQuiet();
    ScanSelectsByExtension(path, node, "}");
    FileNodeName(path, node, "}");
    forall n | Declares(FileNode(path, node, "}"), n)
      ensures n == node
    {
      DeclaresOnly(path, node, n);
    }
  }

  /** A failing input of order independence, with distinct node names: awk's two orders give QEMU
      two different vectors. */
  lemma OrderCanMatter()
    ensures DistinctNames(Blocks(ChainedArgs(), false)) && DelimitedDrives(ChainedArgs())
    ensures !OrderIrrelevant(ChainedArgs())
  {
    hide FileNode, Field, ChainedArgs, IsQcow2File, NodeName, OrderIrrelevant, Drives, Delimited, Segments, Declares, Blocks, Devices, Qmap;
    ChainedParts();
    ChainedDevice();
    assert QuoteFree("/a.qcow2") && QuoteFree("/b.qcow2") && QuoteFree("a") && QuoteFree("a-fmt");
    assert HasSuffix("/a.qcow2", QCOW2_EXT) && HasSuffix("/b.qcow2", QCOW2_EXT);
    ChainedNode("/a.qcow2", "a");
    ChainedNode("/b.qcow2", "a-fmt");
    var args := ChainedArgs();
    var blocks := Blocks(args, false);
    assert Fmt("a") == "a-fmt" && |"a"| != |"a-fmt"|;
    assert IsQcow2File(blocks[0]) && NodeName(blocks[0]) == "a" && IsQcow2File(blocks[1]) && NodeName(blocks[1]) == "a-fmt";
    QmapExactly(args, "a");
    QmapExactly(args, "a-fmt");
    ChainMatters(args, 1, "a");
  }

  // ----- One launch, word for word -----

  lemma FieldText(key: string, name: string)
    ensures Field(key, name) == "\"" + key + "\":\"" + name + "\""
  {
  }

  lemma Regroup2(a: string, b: string, p: string, q: string, c: string, d: string, n: string, e: string)
    ensures a + (b + p + q) + c + (d + n + q) + e == (a + b) + p + (q + c + d) + n + (q + e)
  {
  }

  lemma FileNodeText(path: string, node: string)
    ensures FileNode(path, node, "}") == "{\"driver\":\"file\",\"filename\":\"" + path + "\",\"node-name\":\"" + node + "\"}"
  {
    FieldText("filename", path);
    FieldText("node-name", node);
    assert "{" + Field("driver", "file") + "," == "{\"driver\":\"file\",";
    hide Field;
    assert "\"" + "filename" + "\":\"" == "\"filename\":\"" && "\"" + "node-name" + "\":\"" == "\"node-name\":\"";
    Regroup2("{\"driver\":\"file\",", "\"filename\":\"", path, "\"", ",", "\"node-name\":\"", node, "}");
    FileNodePieces();
  }

  lemma FileNodePieces()
    ensures "{\"driver\":\"file\"," + "\"filename\":\"" == "{\"driver\":\"file\",\"filename\":\""
    ensures "\"" + "," + "\"node-name\":\"" == "\",\"node-name\":\"" && "\"" + "}" == "\"}"
  {
  }

  lemma FormatNodeText(node: string)
    ensures FormatNode(node) == "{\"driver\":\"qcow2\",\"file\":\"" + node + "\",\"node-name\":\"" + node + "-fmt\"}"
  {
    FieldText("file", node);
    FieldText("node-name", Fmt(node));
    assert "{" + Field("driver", "qcow2") + "," == "{\"driver\":\"qcow2\",";
    hide Field;
    assert "\"" + "file" + "\":\"" == "\"file\":\"" && "\"" + "node-name" + "\":\"" == "\"node-name\":\"";
    Regroup2("{\"driver\":\"qcow2\",", "\"file\":\"", node, "\"", ",", "\"node-name\":\"", node + "-fmt", "}");
    FormatNodePieces();
    TailPiece("{\"driver\":\"qcow2\",\"file\":\"" + node + "\",\"node-name\":\"", node);
  }

  lemma FormatNodePieces()
    ensures "{\"driver\":\"qcow2\"," + "\"file\":\"" == "{\"driver\":\"qcow2\",\"file\":\""
    ensures "\"" + "," + "\"node-name\":\"" == "\",\"node-name\":\"" && "\"" + "}" == "\"}" && "-fmt" + "\"}" == "-fmt\"}"
  {
  }

  lemma TailPiece(front: string, node: string)
    ensures front + (node + "-fmt") + "\"}" == front + node + "-fmt\"}"
  {
    assert "-fmt" + "\"}" == "-fmt\"}";
    assert front + (node + "-fmt") + "\"}" == front + node + ("-fmt" + "\"}");
  }

  lemma DeviceText(node: string)
    ensures Device(node) == "{\"drive\":\"" + node + "\"}"
    ensures Device(node + "-fmt") == "{\"drive\":\"" + node + "-fmt\"}"
  {
    FieldText("drive", node);
    FieldText("drive", node + "-fmt");
    hide Field;
    var q := "\"";
    assert "{" + (q + "drive" + "\":\"") == "{\"drive\":\"" && q + "}" == "\"}";
    Regroup1("{", q + "drive" + "\":\"", node, q, "}");
    Regroup1("{", q + "drive" + "\":\"", node + "-fmt", q, "}");
    TailPiece("{\"drive\":\"", node);
  }

  lemma Regroup1(a: string, b: string, n: string, q: string, e: string)
    ensures a + (b + n + q) + e == (a + b) + n + (q + e)
  {
  }

  lemma NodeTexts(path: string, node: string)
    ensures FileNode(path, node, "}") == "{\"driver\":\"file\",\"filename\":\"" + path + "\",\"node-name\":\"" + node + "\"}"
    ensures FormatNode(node) == "{\"driver\":\"qcow2\",\"file\":\"" + node + "\",\"node-name\":\"" + node + "-fmt\"}"
    ensures Device(node) == "{\"drive\":\"" + node + "\"}"
    ensures Device(Fmt(node)) == "{\"drive\":\"" + node + "-fmt\"}"
  {
    hide FileNode, FormatNode, Device;
    FileNodeText(path, node);
    FormatNodeText(node);
    DeviceText(node);
  }

  function Device(node: string): string {
    "{" + Field("drive", node) + "}"
  }

  /** A device argument is redirected to the format node. */
  lemma DeviceRedirects(node: string)
    ensures Redirect(Device(node), [node]) == Device(Fmt(node))
  {
    hide Field, Fmt;
    var p, r := Field("drive", node), Field("drive", Fmt(node));
    QuoteFirst("drive", node);
    var w := Device(node);
    assert w == "{" + (p + "}") && w[0] == '{';
    assert w[1..] == p + "}";
    assert GSub(w, p, r) == ['{'] + GSub(p + "}", p, r);
    assert (p + "}")[..|p|] == p && (p + "}")[|p|..] == "}";
    assert GSub(p + "}", p, r) == r + GSub("}", p, r);
    assert [node][1..] == [];
    assert Redirect(w, [node]) == Redirect(GSub(w, p, r), []);
  }

  lemma QuoteFirst(key: string, node: string)
    ensures |Field(key, node)| > 1 && Field(key, node)[0] == QUOTE
  {
  }

  /** The launch of a VM with one qcow2 disk: sandbox flag, disk node, device. */
  function OneDiskArgs(guest: string, policy: string, path: string, node: string): seq<string> {
    [guest, "-sandbox", policy, "-blockdev", FileNode(path, node, "}"), "-device", Device(node)]
  }

  lemma OneDiskStripped(guest: string, policy: string, path: string, node: string)
    requires guest != SANDBOX && policy != SANDBOX
    ensures Strip(OneDiskArgs(guest, policy, path, node)) == [guest, "-blockdev", FileNode(path, node, "}"), "-device", Device(node)]
  {
    hide FileNode, Field;
    var args := OneDiskArgs(guest, policy, path, node);
    NoFlag(path, node);
    assert FileNode(path, node, "}")[0] == '{' by { BracketFirst(path, node); }
    assert Device(node)[0] == '{' && "-blockdev"[1] == 'b' && "-device"[1] == 'd' && "-sandbox"[1] == 's';
    StripExactly(args);
    assert Kept(args, 0) == [] && Kept(args, 1) == [guest] && Kept(args, 2) == [guest] && Kept(args, 3) == [guest];
    assert Kept(args, 4) == [guest, "-blockdev"];
    assert Kept(args, 5) == [guest, "-blockdev", FileNode(path, node, "}")];
    assert Kept(args, 6) == [guest, "-blockdev", FileNode(path, node, "}"), "-device"];
  }

  lemma BracketFirst(path: string, node: string)
    ensures FileNode(path, node, "}") != [] && FileNode(path, node, "}")[0] == '{'
  {
  }

  lemma OneDiskInjected(guest: string, path: string, node: string)
    requires QuoteFree(guest) && guest != BLOCKDEV && QuoteFree(path) && QuoteFree(node) && node != ""
    ensures Inject([guest, "-blockdev", FileNode(path, node, "}"), "-device", Device(node)], false, [node])
         == [guest, "-blockdev", FileNode(path, node, "}"), "-blockdev", FormatNode(node), "-device", Device(Fmt(node))]
  {
    hide FileNode, Field, FormatNode, Redirect, Device, Declares, Inject;
    var w := FileNode(path, node, "}");
    NoFlag(path, node);
    assert Device(node) != BLOCKDEV by { DeviceIsNoFlag(node); }
    FileNodeName(path, node, "}");
    assert [node][1..] == [] && Inserts(w, []) == [];
    assert Inserts(w, [node]) == [BLOCKDEV, FormatNode(node)];
    RedirectKeepsPlainWords(guest, [node], guest);
    RedirectKeepsPlainWords("-device", [node], "-device");
    DeviceRedirects(node);
    assert "-device"[1] != BLOCKDEV[1];
    var d: seq<string> := [Device(node)];
    var dd := ["-device"] + d;
    InjectFirst(Device(node), [], false, [node]);
    InjectFirst("-device", d, false, [node]);
    InjectFirst(w, dd, true, [node]);
    InjectFirst(BLOCKDEV, [w] + dd, false, [node]);
    InjectFirst(guest, [BLOCKDEV] + ([w] + dd), false, [node]);
    InjectNothing([node], false);
    assert [Device(node)] + [] == d;
    assert [guest] + ([BLOCKDEV] + ([w] + dd)) == [guest, "-blockdev", w, "-device", Device(node)];
    hide QuoteFree;
  }

  lemma DeviceIsNoFlag(node: string)
    ensures Device(node) != BLOCKDEV && Device(node) != []
  {
    assert Device(node)[0] == '{';
  }

  lemma OneDiskQmap(guest: string, path: string, node: string)
    requires guest != BLOCKDEV && QuoteFree(path) && QuoteFree(node) && node != "" && HasSuffix(path, QCOW2_EXT) && !HasSuffix(node, QCOW2_EXT)
    ensures Qmap([guest, "-blockdev", FileNode(path, node, "}"), "-device", Device(node)]) == {node}
  {
    hide FileNode, Field, IsQcow2File, NodeName, Device, Qmap;
    var w := FileNode(path, node, "}");
    var args := [guest, "-blockdev", w, "-device", Device(node)];
    NoFlag(path, node);
    DeviceIsNoFlag(node);
    ClosingBracketIsQuiet();
    ScanSelectsByExtension(path, node, "}");
    FileNodeName(path, node, "}");
    assert "-device"[1] != BLOCKDEV[1];
    PartsOfFirst("-device", [Device(node)], false);
    PartsOfFirst(Device(node), [], false);
    PartsOfFirst(w, ["-device"] + [Device(node)], true);
    PartsOfFirst(BLOCKDEV, [w] + (["-device"] + [Device(node)]), false);
    PartsOfFirst(guest, [BLOCKDEV] + ([w] + (["-device"] + [Device(node)])), false);
    assert [Device(node)] + [] == [Device(node)];
    assert args == [guest] + ([BLOCKDEV] + ([w] + (["-device"] + [Device(node)])));
    assert Blocks(args, false) == [w];
    forall n
      ensures n in Qmap(args) <==> n == node
    {
      QmapExactly(args, n);
      assert Blocks(args, false)[0] == w;
    }
  }

  lemma FirstTwoDiffer(order: seq<string>, keys: set<string>)
    requires Enumerates(order, keys)
    ensures |order| > 0 ==> order[0] in keys
    ensures |order| > 1 ==> order[1] in keys && order[0] != order[1]
  {
  }

  lemma OnlyOrder(order: seq<string>, n: string)
    requires Enumerates(order, {n})
    ensures order == [n]
  {
    assert n in order;
    FirstTwoDiffer(order, {n});
  }

  /**
   A whole launch, word for word: the sandbox flag and its value go, the disk's node stays and gets
   a qcow2 node of its own after it, the device refers to that node, and the network arguments
   come last.
   */
  lemma OneDiskLaunch(vm: string, policy: string, path: string, node: string, order: seq<string>)
    requires NoBlanks(vm) && QuoteFree(vm) && IsWord(policy) && policy != "-sandbox"
    requires NoBlanks(path) && QuoteFree(path) && HasSuffix(path, ".qcow2")
    requires IsWord(node) && QuoteFree(node) && !HasSuffix(node, ".qcow2")
    requires var args := ["guest=" + vm, "-sandbox", policy, "-blockdev",
                          "{\"driver\":\"file\",\"filename\":\"" + path + "\",\"node-name\":\"" + node + "\"}",
                          "-device", "{\"drive\":\"" + node + "\"}"];
             Enumerates(order, ScanPass(StripPass(args)))
    ensures Exec(["guest=" + vm, "-sandbox", policy, "-blockdev",
                  "{\"driver\":\"file\",\"filename\":\"" + path + "\",\"node-name\":\"" + node + "\"}",
                  "-device", "{\"drive\":\"" + node + "\"}"], order)
         == ["guest=" + vm, "-blockdev",
             "{\"driver\":\"file\",\"filename\":\"" + path + "\",\"node-name\":\"" + node + "\"}",
             "-blockdev", "{\"driver\":\"qcow2\",\"file\":\"" + node + "\",\"node-name\":\"" + node + "-fmt\"}",
             "-device", "{\"drive\":\"" + node + "-fmt\"}",
             "-netdev", "user,id=net0,hostfwd=tcp:0.0.0.0:22-:22", "-device", "virtio-net-pci-non-transitional,netdev=net0"]
  {
    NodeTexts(path, node);
    hide FileNode, FormatNode, Device, Field, Exec, ScanPass, StripPass, Strip, Inject, Qmap, Lines, Fields, Records;
    var guest := "guest=" + vm;
    var args := OneDiskArgs(guest, policy, path, node);
    GuestWord(vm);
    OneDiskWords(guest, policy, path, node);
    assert HasPrefix(args[0], GUEST);
    ExecOnWords(args, order);
    OneDiskStripped(guest, policy, path, node);
    OneDiskQmap(guest, path, node);
    OnlyOrder(order, node);
    OneDiskInjected(guest, path, node);
  }

  lemma GuestWord(vm: string)
    requires NoBlanks(vm) && QuoteFree(vm)
    ensures var g := "guest=" + vm; IsWord(g) && QuoteFree(g) && HasPrefix(g, GUEST) && g != BLOCKDEV && g != SANDBOX
  {
    var g := "guest=" + vm;
    assert g[0] == 'g' && g[..6] == "guest=";
  }

  lemma OneDiskWords(guest: string, policy: string, path: string, node: string)
    requires IsWord(guest) && IsWord(policy) && NoBlanks(path) && IsWord(node)
    ensures AllWords(OneDiskArgs(guest, policy, path, node))
  {
    FieldHasNoBlanks("driver", "file");
    FieldHasNoBlanks("filename", path);
    FieldHasNoBlanks("node-name", node);
    FieldHasNoBlanks("drive", node);
    hide Field;
  }
}

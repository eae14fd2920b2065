/**
 What the wrapper's rewriting means for QEMU's block graph, and when it can be undone or
 depends on awk's iteration order.  A block device argument is a word directly after
 `-blockdev`; every other word except the flag itself is a device argument, whose
 `"drive":"n"` fields refer to nodes by name.
 */
module BlockGraph {
  import opened Text
  import opened Awk
  import opened QemuWrapper

  /** The block device arguments, in order; `nxt` says that the previous word was the flag. */
  function Blocks(args: seq<string>, nxt: bool): seq<string> {
    if args == [] then []
    else if args[0] == BLOCKDEV then Blocks(args[1..], true)
    else if nxt then [args[0]] + Blocks(args[1..], false)
    else Blocks(args[1..], false)
  }

  /** The device arguments, in order. */
  function Devices(args: seq<string>, nxt: bool): seq<string> {
    if args == [] then []
    else if args[0] == BLOCKDEV then Devices(args[1..], true)
    else if nxt then Devices(args[1..], false)
    else [args[0]] + Devices(args[1..], false)
  }

  /** The drive references of one device argument. */
  function Drives(w: string): seq<string> {
    Values(Segments(w), "drive")
  }

  /** The block devices that declare a node name: what a reference to it resolves to. */
  ghost function Declaring(blocks: seq<string>, n: string): seq<string> {
    if blocks == [] then []
    else if Declares(blocks[0], n) then [blocks[0]] + Declaring(blocks[1..], n)
    else Declaring(blocks[1..], n)
  }

  ghost function Resolve(args: seq<string>, n: string): seq<string> {
    Declaring(Blocks(args, false), n)
  }

  predicate AllQuoteFree(names: seq<string>) {
    forall i :: 0 <= i < |names| ==> QuoteFree(names[i])
  }

  // ----- Conditions on the argument vector -----

  ghost predicate DistinctNames(blocks: seq<string>) {
    forall i, j, n :: 0 <= i < j < |blocks| && Declares(blocks[i], n) ==> !Declares(blocks[j], n)
  }

  /** The names ending in -fmt that the pass will introduce are not in use yet. */
  ghost predicate FreshFormats(args: seq<string>) {
    forall n :: n in Qmap(args) ==>
      && (forall i :: 0 <= i < |Blocks(args, false)| ==> !Declares(Blocks(args, false)[i], Fmt(n)))
      && (forall i :: 0 <= i < |Devices(args, false)| ==> Fmt(n) !in Drives(Devices(args, false)[i]))
  }

  ghost predicate DelimitedDrives(args: seq<string>) {
    forall i :: 0 <= i < |Devices(args, false)| ==> Delimited(Segments(Devices(args, false)[i]), "drive")
  }

  // ----- The inserted node -----

  lemma FormatNodeSegments(n: string)
    requires QuoteFree(n)
    ensures Segments(FormatNode(n))
         == ["{", "driver", ":", "qcow2", ",", "file", ":", n, ",", "node-name", ":", Fmt(n), "}"]
  {
    var f1, f2, f3 := Field("driver", "qcow2"), Field("file", n), Field("node-name", Fmt(n));
    var a1 := "{" + f1 + ",";
    var a2 := a1 + f2 + ",";
    assert FormatNode(n) == a2 + f3 + "}";
    FieldSegments("{", "driver", "qcow2", ",");
    FieldSegments(a1, "file", n, ",");
    FieldSegments(a2, "node-name", Fmt(n), "}");
    SplitFree("{", QUOTE);
    SplitFree(",", QUOTE);
    SplitFree("}", QUOTE);
  }

  /** The inserted argument is a qcow2 node over the file node, named after it. */
  lemma FormatNodeMeaning(n: string, m: string)
    requires QuoteFree(n) && QuoteFree(m)
    ensures Declares(FormatNode(n), m) <==> m == Fmt(n)
    ensures Contains(FormatNode(n), Field("file", m)) <==> m == n
    ensures Contains(FormatNode(n), Field("driver", m)) <==> m == "qcow2"
    ensures FormatNode(n) != BLOCKDEV && !QuoteFree(FormatNode(n))
  {
    FormatNodeSegments(n);
    var segs := Segments(FormatNode(n));
    ContainsField(FormatNode(n), "node-name", m);
    ContainsField(FormatNode(n), "file", m);
    ContainsField(FormatNode(n), "driver", m);
    assert FieldAt(segs, 1, "driver", "qcow2");
    assert FieldAt(segs, 5, "file", n);
    assert FieldAt(segs, 9, "node-name", Fmt(n));
    if QuoteFree(FormatNode(n)) {
      SplitFree(FormatNode(n), QUOTE);
    }
  }

  // ----- Redirected drive references -----

  /** The name a reference ends up with when the nodes are visited in this order. */
  function RenameBy(order: seq<string>, n: string): string
    decreases |order|
  {
    if order == [] then n
    else RenameBy(order[1..], if n == order[0] then Fmt(order[0]) else n)
  }

  lemma {:induction false} RedirectOnSegments(w: string, order: seq<string>)
    requires AllQuoteFree(order) && Scannable(Segments(w), "drive")
    ensures Segments(Redirect(w, order)) == MapValues(Segments(w), "drive", n => RenameBy(order, n))
    decreases |order|
  {
    var segs := Segments(w);
    if order == [] {
      MapIdentity(segs, "drive");
      MapAgree(segs, "drive", n => n, n => RenameBy(order, n));
    } else {
      var from := order[0];
      var f := n => if n == from then Fmt(from) else n;
      var g := n => RenameBy(order[1..], n);
      var v := GSub(w, Field("drive", from), Field("drive", Fmt(from)));
      GSubOnSegments(w, "drive", from, Fmt(from));
      SegSubIsMapValues(segs, "drive", from, Fmt(from));
      MapKeepsScannable(segs, "drive", f);
      RedirectOnSegments(v, order[1..]);
      MapCompose(segs, "drive", f, g);
      MapAgree(segs, "drive", n => g(f(n)), n => RenameBy(order, n));
    }
  }

  /** Redirecting touches nothing in a word without quotes, and never creates such a word. */
  lemma {:induction false} RedirectKeepsPlainWords(w: string, order: seq<string>, x: string)
    requires AllQuoteFree(order) && QuoteFree(x)
    ensures Redirect(w, order) == x <==> w == x
    decreases |order|
  {
    if order != [] {
      var from := order[0];
      var v := GSub(w, Field("drive", from), Field("drive", Fmt(from)));
      GSubOnSegments(w, "drive", from, Fmt(from));
      SplitFree(x, QUOTE);
      if w == x || v == x {
        SegmentsDetermine(v, w);
      }
      RedirectKeepsPlainWords(v, order[1..], x);
    }
  }

  ghost predicate NoChain(order: seq<string>) {
    forall n :: n in order ==> Fmt(n) !in order
  }

  lemma {:induction false} RenameOnce(order: seq<string>, n: string)
    requires NoChain(order)
    ensures RenameBy(order, n) == if n in order then Fmt(n) else n
    decreases |order|
  {
    if order != [] {
      var rest := order[1..];
      assert order == [order[0]] + rest;
      assert forall m :: m in rest ==> m in order;
      RenameOnce(rest, if n == order[0] then Fmt(n) else n);
    }
  }

  // ----- Splitting the output into block devices and device arguments -----

  ghost function Formats(w: string, order: seq<string>): seq<string> {
    if order == [] then []
    else if Declares(w, order[0]) then [FormatNode(order[0])] + Formats(w, order[1..])
    else Formats(w, order[1..])
  }

  ghost function WithFormats(blocks: seq<string>, order: seq<string>): seq<string> {
    if blocks == [] then []
    else [blocks[0]] + Formats(blocks[0], order) + WithFormats(blocks[1..], order)
  }

  lemma {:induction false} InsertsSplit(w: string, order: seq<string>, rest: seq<string>)
    requires AllQuoteFree(order)
    ensures Blocks(Inserts(w, order) + rest, false) == Formats(w, order) + Blocks(rest, false)
    ensures Devices(Inserts(w, order) + rest, false) == Devices(rest, false)
    decreases |order|
  {
    hide Blocks, Devices, FormatNode, Declares;
    if order == [] {
      assert Inserts(w, order) + rest == rest;
    } else {
      InsertsSplit(w, order[1..], rest);
      if Declares(w, order[0]) {
        FormatNodeMeaning(order[0], "");
        var tail := Inserts(w, order[1..]) + rest;
        assert Inserts(w, order) + rest == [BLOCKDEV, FormatNode(order[0])] + tail;
        PairSplit(FormatNode(order[0]), tail);
      }
    }
  }

  lemma PairSplit(w: string, tail: seq<string>)
    requires w != BLOCKDEV
    ensures Blocks([BLOCKDEV, w] + tail, false) == [w] + Blocks(tail, false)
    ensures Devices([BLOCKDEV, w] + tail, false) == Devices(tail, false)
  {
    var all := [BLOCKDEV, w] + tail;
    assert all[1..] == [w] + tail;
    assert all[1..][1..] == tail;
  }

  /** What the first word contributes to the two lists. */
  lemma PartsOfFirst(w: string, rest: seq<string>, nxt: bool)
    ensures Blocks([w] + rest, nxt) == (if w != BLOCKDEV && nxt then [w] else []) + Blocks(rest, w == BLOCKDEV)
    ensures Devices([w] + rest, nxt) == (if w != BLOCKDEV && !nxt then [w] else []) + Devices(rest, w == BLOCKDEV)
  {
    assert ([w] + rest)[1..] == rest;
  }

  lemma InjectFirst(w: string, rest: seq<string>, nxt: bool, order: seq<string>)
    ensures Inject([w] + rest, nxt, order) == Rewritten(w, nxt, order) + Inject(rest, w == BLOCKDEV, order)
  {
    hide Rewritten, Inject;
    assert ([w] + rest)[0..] == [w] + rest && ([w] + rest)[1..] == rest;
    InjectStep([w] + rest, 0, nxt, order);
  }

  lemma WithFormatsFirst(w: string, rest: seq<string>, order: seq<string>)
    ensures WithFormats([w] + rest, order) == [w] + Formats(w, order) + WithFormats(rest, order)
  {
    assert ([w] + rest)[1..] == rest;
  }

  /** One word's contribution to the output, split. */
  lemma RewrittenSplit(w: string, nxt: bool, order: seq<string>, tail: seq<string>)
    requires AllQuoteFree(order)
    ensures var out := Rewritten(w, nxt, order) + tail;
      && Blocks(out, nxt) == (if w != BLOCKDEV && nxt then [w] + Formats(w, order) else []) + Blocks(tail, w == BLOCKDEV)
      && Devices(out, nxt) == (if w != BLOCKDEV && !nxt then [Redirect(w, order)] else []) + Devices(tail, w == BLOCKDEV)
  {
    hide Blocks, Devices, Redirect, Inserts, Formats;
    if w == BLOCKDEV {
      PartsOfFirst(w, tail, nxt);
    } else if nxt {
      InsertsSplit(w, order, tail);
      PartsOfFirst(w, Inserts(w, order) + tail, nxt);
      assert Rewritten(w, nxt, order) + tail == [w] + (Inserts(w, order) + tail);
    } else {
      RedirectKeepsPlainWords(w, order, BLOCKDEV);
      PartsOfFirst(Redirect(w, order), tail, nxt);
    }
  }

  /** The output's block devices are the input's, each followed by its format nodes; the
      output's device arguments are the input's, redirected one by one. */
  lemma {:induction false} InjectSplit(args: seq<string>, nxt: bool, order: seq<string>)
    requires AllQuoteFree(order)
    ensures Blocks(Inject(args, nxt, order), nxt) == WithFormats(Blocks(args, nxt), order)
    ensures |Devices(Inject(args, nxt, order), nxt)| == |Devices(args, nxt)|
    ensures forall i :: 0 <= i < |Devices(args, nxt)| ==>
      Devices(Inject(args, nxt, order), nxt)[i] == Redirect(Devices(args, nxt)[i], order)
    decreases |args|
  {
    hide Redirect, Formats, Rewritten;
    if args != [] {
      hide Blocks, Devices, Inject, WithFormats;
      var w, rest, now := args[0], args[1..], args[0] == BLOCKDEV;
      assert args == [w] + rest;
      InjectSplit(rest, now, order);
      InjectFirst(w, rest, nxt, order);
      RewrittenSplit(w, nxt, order, Inject(rest, now, order));
      PartsOfFirst(w, rest, nxt);
      WithFormatsFirst(w, Blocks(rest, now), order);
    }
  }

  // ----- Who declares a name afterwards -----

  lemma {:induction false} DeclaringConcat(a: seq<string>, b: seq<string>, n: string)
    ensures Declaring(a + b, n) == Declaring(a, n) + Declaring(b, n)
    decreases |a|
  {
    if a == [] {
      assert a + b == b;
    } else {
      assert (a + b)[1..] == a[1..] + b;
      DeclaringConcat(a[1..], b, n);
    }
  }

  predicate NoDup(order: seq<string>) {
    forall i, j :: 0 <= i < j < |order| ==> order[i] != order[j]
  }

  lemma FmtInjective(a: string, b: string)
    requires Fmt(a) == Fmt(b)
    ensures a == b
  {
    assert Fmt(a)[..|a|] == a && Fmt(b)[..|b|] == b;
  }

  /** Among the format nodes of one block device, a name Fmt(n) is declared once if the device
      declares n, and no other name is declared. */
  lemma {:induction false} FormatsDeclaring(w: string, order: seq<string>, n: string, m: string)
    requires AllQuoteFree(order) && NoDup(order) && QuoteFree(n) && QuoteFree(m)
    ensures Declaring(Formats(w, order), Fmt(n)) == if n in order && Declares(w, n) then [FormatNode(n)] else []
    ensures (forall k :: k in order ==> m != Fmt(k)) ==> Declaring(Formats(w, order), m) == []
    decreases |order|
  {
    if order != [] {
      var rest := order[1..];
      assert order == [order[0]] + rest;
      FormatsDeclaring(w, rest, n, m);
      FormatNodeMeaning(order[0], Fmt(n));
      FormatNodeMeaning(order[0], m);
      if order[0] == n {
        assert n !in rest;
      } else if Fmt(order[0]) == Fmt(n) {
        FmtInjective(order[0], n);
      }
      if Declares(w, order[0]) {
        assert Formats(w, order)[1..] == Formats(w, rest);
      }
    }
  }

  lemma {:induction false} WithFormatsDeclaring(blocks: seq<string>, order: seq<string>, m: string)
    requires AllQuoteFree(order) && NoDup(order) && QuoteFree(m)
    requires forall k :: k in order ==> m != Fmt(k)
    ensures Declaring(WithFormats(blocks, order), m) == Declaring(blocks, m)
    decreases |blocks|
  {
    if blocks != [] {
      var b, rest := blocks[0], blocks[1..];
      WithFormatsDeclaring(rest, order, m);
      FormatsDeclaring(b, order, m, m);
      DeclaringConcat([b], Formats(b, order), m);
      DeclaringConcat([b] + Formats(b, order), WithFormats(rest, order), m);
      DeclaringOne(b, m);
    }
  }

  lemma DeclaringOne(b: string, n: string)
    ensures Declaring([b], n) == if Declares(b, n) then [b] else []
  {
    assert [b][1..] == [];
  }

  lemma {:induction false} WithFormatsDeclaringFmt(blocks: seq<string>, order: seq<string>, n: string)
    requires AllQuoteFree(order) && NoDup(order) && QuoteFree(n) && n in order
    requires forall i :: 0 <= i < |blocks| ==> !Declares(blocks[i], Fmt(n))
    ensures |Declaring(WithFormats(blocks, order), Fmt(n))| == |Declaring(blocks, n)|
    ensures forall i :: 0 <= i < |Declaring(blocks, n)| ==> Declaring(WithFormats(blocks, order), Fmt(n))[i] == FormatNode(n)
    decreases |blocks|
  {
    if blocks != [] {
      var b, rest := blocks[0], blocks[1..];
      WithFormatsDeclaringFmt(rest, order, n);
      FormatsDeclaring(b, order, n, n);
      DeclaringConcat([b], Formats(b, order), Fmt(n));
      DeclaringConcat([b] + Formats(b, order), WithFormats(rest, order), Fmt(n));
      DeclaringOne(b, Fmt(n));
    }
  }

  lemma {:induction false} DeclaringIsUnique(blocks: seq<string>, k: int, n: string)
    requires DistinctNames(blocks) && 0 <= k < |blocks| && Declares(blocks[k], n)
    ensures Declaring(blocks, n) == [blocks[k]]
    decreases |blocks|
  {
    var rest := blocks[1..];
    assert forall i, j, m :: 0 <= i < j < |rest| && Declares(rest[i], m) ==> Declares(blocks[i + 1], m) && blocks[j + 1] == rest[j];
    if k == 0 {
      NoneDeclaring(rest, n);
    } else {
      DeclaringIsUnique(rest, k - 1, n);
    }
  }

  lemma {:induction false} NoneDeclaring(blocks: seq<string>, n: string)
    requires forall i :: 0 <= i < |blocks| ==> !Declares(blocks[i], n)
    ensures Declaring(blocks, n) == []
    decreases |blocks|
  {
    if blocks != [] {
      NoneDeclaring(blocks[1..], n);
    }
  }

  /** Every collected name comes from a qcow2 file node among the block devices. */
  lemma {:induction false} ScanFinds(args: seq<string>, nxt: bool, n: string) returns (k: int)
    requires n in Scan(args, nxt) && n != ""
    ensures 0 <= k < |Blocks(args, nxt)|
    ensures IsQcow2File(Blocks(args, nxt)[k]) && NodeName(Blocks(args, nxt)[k]) == n
    ensures QuoteFree(n) && Declares(Blocks(args, nxt)[k], n)
    decreases |args|
  {
    var here := args[0] != BLOCKDEV && nxt && IsQcow2File(args[0]);
    if here && NodeName(args[0]) == n {
      k := 0;
      NodeNameOccurs(args[0]);
    } else {
      k := ScanFinds(args[1..], args[0] == BLOCKDEV, n);
      if args[0] != BLOCKDEV && nxt {
        k := k + 1;
      }
    }
  }

  lemma {:induction false} ScanIsComplete(args: seq<string>, nxt: bool, k: nat)
    requires k < |Blocks(args, nxt)| && IsQcow2File(Blocks(args, nxt)[k])
    ensures NodeName(Blocks(args, nxt)[k]) in Scan(args, nxt)
    decreases |args|
  {
    hide IsQcow2File;
    if args[0] == BLOCKDEV {
      ScanIsComplete(args[1..], true, k);
    } else if !nxt {
      ScanIsComplete(args[1..], false, k);
    } else if k > 0 {
      ScanIsComplete(args[1..], false, k - 1);
    }
  }

  /** The collected names are exactly the node names read from the qcow2 file nodes. */
  lemma QmapExactly(args: seq<string>, n: string)
    ensures n in Qmap(args) <==>
      n != "" && exists k :: 0 <= k < |Blocks(args, false)| && IsQcow2File(Blocks(args, false)[k]) && NodeName(Blocks(args, false)[k]) == n
  {
    hide IsQcow2File;
    if n in Qmap(args) {
      var k := ScanFinds(args, false, n);
    }
    if k :| 0 <= k < |Blocks(args, false)| && IsQcow2File(Blocks(args, false)[k]) && NodeName(Blocks(args, false)[k]) == n {
      ScanIsComplete(args, false, k);
    }
  }

  /** Every qcow2 file node that declares one name only is collected under that name. */
  lemma FileNodesAreCollected(args: seq<string>, k: nat, n: string)
    requires k < |Blocks(args, false)| && IsQcow2File(Blocks(args, false)[k]) && n != "" && QuoteFree(n)
    requires Declares(Blocks(args, false)[k], n) && forall m :: Declares(Blocks(args, false)[k], m) ==> m == n
    ensures n in Qmap(args)
  {
    hide IsQcow2File;
    var w := Blocks(args, false)[k];
    NodeNameExists(w, n);
    NodeNameOccurs(w);
    assert Declares(w, NodeName(w));
    QmapExactly(args, n);
  }

  lemma OrderFacts(args: seq<string>, order: seq<string>)
    requires Enumerates(order, Qmap(args))
    ensures AllQuoteFree(order) && NoDup(order)
    ensures FreshFormats(args) ==> NoChain(order)
  {
    forall n | n in order
      ensures QuoteFree(n)
      ensures FreshFormats(args) ==> Fmt(n) !in order
    {
      var k := ScanFinds(args, false, n);
      if Fmt(n) in order {
        var j := ScanFinds(args, false, Fmt(n));
      }
    }
  }

  /** The name a drive reference has afterwards. */
  ghost function Redirected(args: seq<string>, n: string): string {
    if n in Qmap(args) then Fmt(n) else n
  }

  /**
   Block-graph meaning.  Every drive reference of every device argument, in order, keeps its
   name unless it refers to a qcow2 file node, whose reference becomes the name of the format
   node.
   */
  lemma ReferencesAreRedirected(args: seq<string>, order: seq<string>, i: nat)
    requires FreshFormats(args) && DelimitedDrives(args)
    requires Enumerates(order, Qmap(args)) && i < |Devices(args, false)|
    ensures |Devices(Inject(args, false, order), false)| == |Devices(args, false)|
    ensures var before := Drives(Devices(args, false)[i]);
            var after := Drives(Devices(Inject(args, false, order), false)[i]);
            |after| == |before| && forall k :: 0 <= k < |before| ==> after[k] == Redirected(args, before[k])
  {
    OrderFacts(args, order);
    InjectSplit(args, false, order);
    var w := Devices(args, false)[i];
    DelimitedIsScannable(Segments(w), "drive");
    RedirectOnSegments(w, order);
    ValuesOfMap(Segments(w), "drive", n => RenameBy(order, n));
    forall k | 0 <= k < |Drives(w)|
      ensures RenameBy(order, Drives(w)[k]) == Redirected(args, Drives(w)[k])
    {
      RenameOnce(order, Drives(w)[k]);
    }
  }

  /** A collected name is nobody's `-fmt` name: some block device declares it already. */
  lemma CollectedIsNotFresh(args: seq<string>, n: string)
    requires FreshFormats(args) && n in Qmap(args)
    ensures forall m :: m in Qmap(args) ==> n != Fmt(m)
  {
    var k := ScanFinds(args, false, n);
  }

  /**
   Block-graph meaning, the nodes: the new name of a qcow2 file node resolves to exactly one
   block device, the inserted qcow2 node over it, whose own file reference still resolves to
   the one file node it did; every other name resolves as before.
   */
  lemma NamesResolveAsMeant(args: seq<string>, order: seq<string>, n: string)
    requires DistinctNames(Blocks(args, false)) && FreshFormats(args)
    requires Enumerates(order, Qmap(args)) && QuoteFree(n)
    ensures var out := Inject(args, false, order);
      && (n in Qmap(args) ==>
            && Resolve(out, Fmt(n)) == [FormatNode(n)] && Resolve(out, n) == Resolve(args, n)
            && |Resolve(args, n)| == 1 && IsQcow2File(Resolve(args, n)[0]))
      && ((forall m :: m in Qmap(args) ==> n != Fmt(m)) ==> Resolve(out, n) == Resolve(args, n))
  {
    OrderFacts(args, order);
    InjectSplit(args, false, order);
    var blocks := Blocks(args, false);
    if n in Qmap(args) {
      var k := ScanFinds(args, false, n);
      DeclaringIsUnique(blocks, k, n);
      WithFormatsDeclaringFmt(blocks, order, n);
      CollectedIsNotFresh(args, n);
    }
    if forall m :: m in Qmap(args) ==> n != Fmt(m) {
      WithFormatsDeclaring(blocks, order, n);
    }
  }

  lemma {:induction false} ValuesAreSegments(segs: seq<string>, key: string)
    ensures forall k :: 0 <= k < |Values(segs, key)| ==> Values(segs, key)[k] in segs
    decreases |segs|
  {
    if |segs| > 1 {
      var d := if KeyAt(segs, 1, key) then 4 else 1;
      ValuesAreSegments(segs[d..], key);
      assert forall x :: x in segs[d..] ==> x in segs;
    }
  }

  /**
   Main theorem of the rewriter, reference by reference.  If a device argument's k-th drive
   reference named a qcow2 file node, it now names the one inserted qcow2 node whose file is
   that node, still the only one of its name; otherwise it still resolves to what it resolved to before.
   */
  lemma MeaningIsPreserved(args: seq<string>, order: seq<string>, i: nat, k: nat)
    requires DistinctNames(Blocks(args, false)) && FreshFormats(args) && DelimitedDrives(args)
    requires Enumerates(order, Qmap(args))
    requires i < |Devices(args, false)| && k < |Drives(Devices(args, false)[i])|
    ensures var out := Inject(args, false, order);
      && |Devices(out, false)| == |Devices(args, false)|
      && k < |Drives(Devices(out, false)[i])|
      && var before := Drives(Devices(args, false)[i])[k];
         var after := Drives(Devices(out, false)[i])[k];
         if before in Qmap(args)
         then Resolve(out, after) == [FormatNode(before)] && Resolve(out, before) == Resolve(args, before)
              && |Resolve(args, before)| == 1 && IsQcow2File(Resolve(args, before)[0])
         else Resolve(out, after) == Resolve(args, before)
  {
    var w := Devices(args, false)[i];
    var before := Drives(w)[k];
    ReferencesAreRedirected(args, order, i);
    JoinSplit(w, QUOTE);
    ValuesAreSegments(Segments(w), "drive");
    NamesResolveAsMeant(args, order, before);
  }

  // ----- Undoing the rewrite -----

  predicate IsFormatOf(w: string, order: seq<string>) {
    exists k :: 0 <= k < |order| && w == FormatNode(order[k])
  }

  function Restore(w: string, order: seq<string>): string
    decreases |order|
  {
    if order == [] then w
    else Restore(GSub(w, Field("drive", Fmt(order[0])), Field("drive", order[0])), order[1..])
  }

  /** Drop the inserted pairs and rename `n-fmt` references back to `n`. */
  function Undo(out: seq<string>, nxt: bool, order: seq<string>): seq<string>
    decreases |out|
  {
    if out == [] then []
    else if out[0] == BLOCKDEV then
      if |out| >= 2 && IsFormatOf(out[1], order) then Undo(out[2..], false, order)
      else [BLOCKDEV] + Undo(out[1..], true, order)
    else if nxt then [out[0]] + Undo(out[1..], false, order)
    else [Restore(out[0], order)] + Undo(out[1..], false, order)
  }

  function RenameBack(order: seq<string>, n: string): string
    decreases |order|
  {
    if order == [] then n
    else RenameBack(order[1..], if n == Fmt(order[0]) then order[0] else n)
  }

  lemma {:induction false} RestoreOnSegments(w: string, order: seq<string>)
    requires AllQuoteFree(order) && Scannable(Segments(w), "drive")
    ensures Segments(Restore(w, order)) == MapValues(Segments(w), "drive", n => RenameBack(order, n))
    decreases |order|
  {
    var segs := Segments(w);
    if order == [] {
      MapIdentity(segs, "drive");
      MapAgree(segs, "drive", n => n, n => RenameBack(order, n));
    } else {
      var to := order[0];
      var f := n => if n == Fmt(to) then to else n;
      var g := n => RenameBack(order[1..], n);
      var v := GSub(w, Field("drive", Fmt(to)), Field("drive", to));
      GSubOnSegments(w, "drive", Fmt(to), to);
      SegSubIsMapValues(segs, "drive", Fmt(to), to);
      MapKeepsScannable(segs, "drive", f);
      RestoreOnSegments(v, order[1..]);
      MapCompose(segs, "drive", f, g);
      MapAgree(segs, "drive", n => g(f(n)), n => RenameBack(order, n));
    }
  }

  lemma {:induction false} RenameBackFrom(order: seq<string>, n: string)
    requires NoChain(order)
    ensures n in order ==> RenameBack(order, Fmt(n)) == n
    ensures (forall k :: k in order ==> n != Fmt(k)) ==> RenameBack(order, n) == n
    decreases |order|
  {
    if order != [] {
      var rest := order[1..];
      assert order == [order[0]] + rest;
      assert forall m :: m in rest ==> m in order;
      RenameBackFrom(rest, n);
      if n in order {
        if Fmt(n) == Fmt(order[0]) {
          FmtInjective(n, order[0]);
          assert forall k :: k in rest ==> n != Fmt(k);
        }
      }
    }
  }

  lemma RestoreUndoesRedirect(w: string, order: seq<string>)
    requires AllQuoteFree(order) && NoChain(order) && Delimited(Segments(w), "drive")
    requires forall n :: n in order ==> Fmt(n) !in Drives(w)
    ensures Restore(Redirect(w, order), order) == w
  {
    var segs := Segments(w);
    var f := n => RenameBy(order, n);
    var g := n => RenameBack(order, n);
    DelimitedIsScannable(segs, "drive");
    RedirectOnSegments(w, order);
    MapKeepsScannable(segs, "drive", f);
    RestoreOnSegments(Redirect(w, order), order);
    MapCompose(segs, "drive", f, g);
    forall i | 0 <= i < |Drives(w)|
      ensures g(f(Drives(w)[i])) == Drives(w)[i]
    {
      RenameOnce(order, Drives(w)[i]);
      RenameBackFrom(order, Drives(w)[i]);
    }
    MapAgree(segs, "drive", n => g(f(n)), n => n);
    MapIdentity(segs, "drive");
    SegmentsDetermine(Restore(Redirect(w, order), order), w);
  }

  lemma {:induction false} UndoInserts(w: string, order: seq<string>, all: seq<string>, rest: seq<string>)
    requires forall n :: n in order ==> n in all
    ensures Undo(Inserts(w, order) + rest, false, all) == Undo(rest, false, all)
    decreases |order|
  {
    if order == [] {
      assert Inserts(w, order) + rest == rest;
    } else {
      UndoInserts(w, order[1..], all, rest);
      if Declares(w, order[0]) {
        var tail := Inserts(w, order[1..]) + rest;
        var s := Inserts(w, order) + rest;
        assert s == [BLOCKDEV, FormatNode(order[0])] + tail;
        assert order[0] in all;
        assert IsFormatOf(s[1], all);
        assert s[2..] == tail;
      }
    }
  }

  ghost predicate Undoable(args: seq<string>, nxt: bool, order: seq<string>) {
    && (forall i :: 0 <= i < |Blocks(args, nxt)| ==> !IsFormatOf(Blocks(args, nxt)[i], order))
    && (forall i, n :: 0 <= i < |Devices(args, nxt)| && n in order ==> Fmt(n) !in Drives(Devices(args, nxt)[i]))
    && (forall i :: 0 <= i < |Devices(args, nxt)| ==> Delimited(Segments(Devices(args, nxt)[i]), "drive"))
  }

  lemma UndoableRest(args: seq<string>, nxt: bool, order: seq<string>)
    requires args != [] && Undoable(args, nxt, order)
    ensures Undoable(args[1..], args[0] == BLOCKDEV, order)
  {
    var now := args[0] == BLOCKDEV;
    var b, d := Blocks(args[1..], now), Devices(args[1..], now);
    assert forall i :: 0 <= i < |b| ==> b[i] in Blocks(args, nxt);
    assert forall i :: 0 <= i < |d| ==> d[i] in Devices(args, nxt);
  }

  lemma {:induction false} UndoInject(args: seq<string>, nxt: bool, order: seq<string>)
    requires AllQuoteFree(order) && NoChain(order) && Undoable(args, nxt, order)
    ensures Undo(Inject(args, nxt, order), nxt, order) == args
    decreases |args|
  {
    hide Redirect, Restore, Inserts, FormatNode, Drives, Delimited;
    if args != [] {
      var now := args[0] == BLOCKDEV;
      var rest := Inject(args[1..], now, order);
      var out := Inject(args, nxt, order);
      UndoableRest(args, nxt, order);
      UndoInject(args[1..], now, order);
      if now {
        assert out[1..] == rest;
        if |args| > 1 {
          FlagIsNoFormat(order);
          assert out[1] == args[1];
          assert args[1] != BLOCKDEV ==> Blocks(args[1..], true)[0] == args[1];
        }
      } else if nxt {
        assert out[1..] == Inserts(args[0], order) + rest;
        UndoInserts(args[0], order, order, rest);
      } else {
        RedirectKeepsPlainWords(args[0], order, BLOCKDEV);
        assert Devices(args, nxt)[0] == args[0];
        RestoreUndoesRedirect(args[0], order);
        assert out[1..] == rest;
      }
    }
  }

  lemma FlagIsNoFormat(order: seq<string>)
    ensures !IsFormatOf(BLOCKDEV, order)
  {
    assert forall n: string :: FormatNode(n)[0] == '{';
  }

  /** The rewrite is invertible: removing the inserted pairs and undoing the rename gives back
      exactly the stripped vector. */
  lemma RewriteIsInvertible(args: seq<string>, order: seq<string>)
    requires FreshFormats(args) && DelimitedDrives(args) && Enumerates(order, Qmap(args))
    ensures Undo(Inject(args, false, order), false, order) == args
  {
    OrderFacts(args, order);
    forall k | 0 <= k < |order|
      ensures Declares(FormatNode(order[k]), Fmt(order[k])) && order[k] in Qmap(args)
    {
      FormatNodeMeaning(order[k], Fmt(order[k]));
    }
    UndoInject(args, false, order);
  }

  // ----- The network device -----

  /** How often a word without quotes occurs is not changed by the rewrite. */
  lemma {:induction false} InjectKeepsPlainCount(args: seq<string>, nxt: bool, order: seq<string>, x: string)
    requires AllQuoteFree(order) && QuoteFree(x) && x != BLOCKDEV
    ensures multiset(Inject(args, nxt, order))[x] == multiset(args)[x]
    decreases |args|
  {
    hide Rewritten;
    if args != [] {
      hide Inject;
      var w, rest, now := args[0], args[1..], args[0] == BLOCKDEV;
      assert args == [w] + rest;
      InjectKeepsPlainCount(rest, now, order, x);
      InjectFirst(w, rest, nxt, order);
      RewrittenKeepsPlain(w, nxt, order, x);
    }
  }

  lemma RewrittenKeepsPlain(w: string, nxt: bool, order: seq<string>, x: string)
    requires AllQuoteFree(order) && QuoteFree(x) && x != BLOCKDEV
    ensures multiset(Rewritten(w, nxt, order))[x] == if w == x then 1 else 0
  {
    hide Inserts, Redirect;
    RedirectKeepsPlainWords(w, order, x);
    InsertsCreateNoPlainWord(w, order, x);
    assert x !in multiset(Inserts(w, order));
  }

  lemma {:induction false} InsertsCreateNoPlainWord(w: string, order: seq<string>, x: string)
    requires AllQuoteFree(order) && QuoteFree(x) && x != BLOCKDEV
    ensures x !in Inserts(w, order)
    decreases |order|
  {
    if order != [] {
      FormatNodeMeaning(order[0], "");
      InsertsCreateNoPlainWord(w, order[1..], x);
    }
  }

  lemma {:induction false} StripKeepsOut(args: seq<string>, afterFlag: bool, x: string)
    requires x !in args
    ensures x !in StripAfter(args, afterFlag)
    decreases |args|
  {
    if args != [] {
      assert forall y :: y in args[1..] ==> y in args;
      StripKeepsOut(args[1..], args[0] == SANDBOX, x);
    }
  }

  /** Any vector without a `guest=` word reaches QEMU unchanged; a launch ends in the network
      arguments.  On words, the network device occurs once more than in the stripped vector, so
      exactly once when the caller gave none, however many `guest=` words there are, and no
      `-sandbox` is left. */
  lemma LaunchGetsOneNetwork(args: seq<string>, order: seq<string>)
    ensures !IsLaunch(args) ==> Exec(args, order) == args
    ensures IsLaunch(args) ==> HasNetworkLast(Exec(args, order))
    ensures IsLaunch(args) && AllWords(args) && Enumerates(order, ScanPass(StripPass(args))) ==>
      && multiset(Exec(args, order))[NETDEV] == multiset(Strip(args))[NETDEV] + 1
      && (NETDEV !in args ==> multiset(Exec(args, order))[NETDEV] == 1)
      && SANDBOX !in LaunchBody(args, order)
  {
    hide InjectPass, StripPass, ScanPass, Inject, Strip;
    if IsLaunch(args) {
      var argv := Exec(args, order);
      assert argv[|argv| - 4..] == NET_ARGS;
      if AllWords(args) && Enumerates(order, ScanPass(StripPass(args))) {
        LaunchCounts(args, order);
      }
    }
  }

  lemma LaunchCounts(args: seq<string>, order: seq<string>)
    requires IsLaunch(args) && AllWords(args) && Enumerates(order, ScanPass(StripPass(args)))
    ensures multiset(Exec(args, order))[NETDEV] == multiset(Strip(args))[NETDEV] + 1
    ensures NETDEV !in args ==> NETDEV !in multiset(Strip(args))
    ensures SANDBOX !in LaunchBody(args, order)
  {
    hide InjectPass, StripPass, ScanPass, Inject, Qmap, Exec;
    ExecOnWords(args, order);
    OrderFacts(Strip(args), order);
    if NETDEV !in args {
      StripKeepsOut(args, false, NETDEV);
    }
    StripIsClean(args);
    InjectKeepsPlainCount(Strip(args), false, order, NETDEV);
    InjectKeepsPlainCount(Strip(args), false, order, SANDBOX);
    var body := Inject(Strip(args), false, order);
    assert multiset(body + NET_ARGS) == multiset(body) + multiset(NET_ARGS);
    assert SANDBOX !in multiset(body);
    BodyIs(args, order, body);
  }

  lemma BodyIs(args: seq<string>, order: seq<string>, body: seq<string>)
    requires IsLaunch(args) && Exec(args, order) == body + NET_ARGS
    ensures LaunchBody(args, order) == body
  {
    hide Exec;
    assert (body + NET_ARGS)[..|body|] == body;
  }

  predicate HasNetworkLast(argv: seq<string>) {
    |argv| >= 4 && argv[|argv| - 4..] == NET_ARGS
  }

  /** The arguments of a launch before the appended network device. */
  ghost function LaunchBody(args: seq<string>, order: seq<string>): seq<string>
    requires IsLaunch(args)
  {
    var argv := Exec(args, order);
    argv[..|argv| - 4]
  }

  ghost predicate WellFormed(args: seq<string>) {
    DistinctNames(Blocks(args, false)) && FreshFormats(args) && DelimitedDrives(args)
  }

  /** On words, what a launch hands to QEMU before the network arguments is the rewritten stripped
      vector. */
  lemma LaunchBodyIs(args: seq<string>, order: seq<string>)
    requires IsLaunch(args) && AllWords(args) && Enumerates(order, Qmap(Strip(args)))
    ensures LaunchBody(args, order) == Inject(Strip(args), false, order)
  {
    hide Exec, Inject, Strip;
    ExecOnWords(args, order);
    BodyIs(args, order, Inject(Strip(args), false, order));
  }

  /**
   The script as a whole.  For a launch on words whose stripped vector is well formed, what QEMU
   gets before the network arguments can be turned back into the stripped vector, and each drive
   reference resolves to a qcow2 node over its file node, still the only one of its name, where
   that is a qcow2 file, and as before otherwise.
   */
  lemma LaunchPreservesMeaning(args: seq<string>, order: seq<string>, i: nat, k: nat)
    requires IsLaunch(args) && AllWords(args) && WellFormed(Strip(args)) && Enumerates(order, Qmap(Strip(args)))
    requires i < |Devices(Strip(args), false)| && k < |Drives(Devices(Strip(args), false)[i])|
    ensures var (before, after) := (Strip(args), LaunchBody(args, order));
      && Undo(after, false, order) == before
      && |Devices(after, false)| == |Devices(before, false)|
      && k < |Drives(Devices(after, false)[i])|
      && var (r, r') := (Drives(Devices(before, false)[i])[k], Drives(Devices(after, false)[i])[k]);
         if r in Qmap(before)
         then Resolve(after, r') == [FormatNode(r)] && Resolve(after, r) == Resolve(before, r)
              && |Resolve(before, r)| == 1 && IsQcow2File(Resolve(before, r)[0])
         else Resolve(after, r') == Resolve(before, r)
  {
    hide IsQcow2File, FormatNode, Blocks, Devices, Drives, Strip, Undo;
    var stripped := Strip(args);
    LaunchBodyIs(args, order);
    RewriteIsInvertible(stripped, order);
    MeaningIsPreserved(stripped, order, i, k);
  }
}

/**
 awk leaves the order of `for (nd in qmap)` open.  This module shows exactly when the
 wrapper's output does not depend on it.
 */
module IterationOrder {
  import opened Awk
  import opened QemuWrapper
  import opened BlockGraph

  /** No block device argument declares two collected names. */
  ghost predicate OneNodeEach(blocks: seq<string>, keys: set<string>) {
    forall i, a, b :: 0 <= i < |blocks| && a in keys && b in keys && Declares(blocks[i], a) && Declares(blocks[i], b) ==> a == b
  }

  /** No device argument refers to a collected name whose `-fmt` name is collected too. */
  ghost predicate NoChainedReference(devices: seq<string>, keys: set<string>) {
    forall i, n :: 0 <= i < |devices| && n in Drives(devices[i]) && n in keys ==> Fmt(n) !in keys
  }

  ghost predicate OrderIrrelevant(args: seq<string>) {
    forall o1, o2 :: Enumerates(o1, Qmap(args)) && Enumerates(o2, Qmap(args)) ==>
      Inject(args, false, o1) == Inject(args, false, o2)
  }

  // ----- One enough: the condition makes the order irrelevant -----

  /** The one collected name the word declares, if any, decides what is inserted. */
  lemma {:induction false} InsertsOfOne(w: string, order: seq<string>, n: string)
    requires NoDup(order)
    requires forall m :: m in order && Declares(w, m) ==> m == n
    ensures Inserts(w, order) == if n in order && Declares(w, n) then [BLOCKDEV, FormatNode(n)] else []
    decreases |order|
  {
    if order != [] {
      var rest := order[1..];
      assert order == [order[0]] + rest;
      assert forall m :: m in rest ==> m in order;
      InsertsOfOne(w, rest, n);
      if order[0] == n {
        assert n !in rest;
      }
    }
  }

  lemma SameInserts(w: string, keys: set<string>, o1: seq<string>, o2: seq<string>)
    requires Enumerates(o1, keys) && Enumerates(o2, keys)
    requires forall a, b :: a in keys && b in keys && Declares(w, a) && Declares(w, b) ==> a == b
    ensures Inserts(w, o1) == Inserts(w, o2)
  {
    var n := if x :| x in keys && Declares(w, x) then x else "";
    InsertsOfOne(w, o1, n);
    InsertsOfOne(w, o2, n);
  }

  lemma {:induction false} RenameStops(order: seq<string>, n: string)
    requires n !in order
    ensures RenameBy(order, n) == n
    decreases |order|
  {
    if order != [] {
      assert order == [order[0]] + order[1..];
      RenameStops(order[1..], n);
    }
  }

  lemma {:induction false} RenameUnchained(order: seq<string>, n: string)
    requires NoDup(order) && (n in order ==> Fmt(n) !in order)
    ensures RenameBy(order, n) == if n in order then Fmt(n) else n
    decreases |order|
  {
    if n !in order {
      RenameStops(order, n);
    } else {
      var rest := order[1..];
      assert order == [order[0]] + rest;
      if order[0] == n {
        RenameStops(rest, Fmt(n));
      } else {
        RenameUnchained(rest, n);
      }
    }
  }

  lemma SameRedirect(w: string, keys: set<string>, o1: seq<string>, o2: seq<string>)
    requires Enumerates(o1, keys) && Enumerates(o2, keys) && AllQuoteFree(o1) && AllQuoteFree(o2)
    requires Delimited(Segments(w), "drive")
    requires forall n :: n in Drives(w) && n in keys ==> Fmt(n) !in keys
    ensures Redirect(w, o1) == Redirect(w, o2)
  {
    DelimitedIsScannable(Segments(w), "drive");
    RedirectOnSegments(w, o1);
    RedirectOnSegments(w, o2);
    forall i | 0 <= i < |Drives(w)|
      ensures RenameBy(o1, Drives(w)[i]) == RenameBy(o2, Drives(w)[i])
    {
      RenameUnchained(o1, Drives(w)[i]);
      RenameUnchained(o2, Drives(w)[i]);
    }
    MapAgree(Segments(w), "drive", n => RenameBy(o1, n), n => RenameBy(o2, n));
    SegmentsDetermine(Redirect(w, o1), Redirect(w, o2));
  }

  /** Every block device argument gets the same insertions in both orders. */
  ghost predicate SameForBlocks(blocks: seq<string>, o1: seq<string>, o2: seq<string>) {
    forall i :: 0 <= i < |blocks| ==> Inserts(blocks[i], o1) == Inserts(blocks[i], o2)
  }

  /** Every device argument is redirected to the same text in both orders. */
  ghost predicate SameForDevices(devices: seq<string>, o1: seq<string>, o2: seq<string>) {
    forall i :: 0 <= i < |devices| ==> Redirect(devices[i], o1) == Redirect(devices[i], o2)
  }

  ghost predicate SameParts(args: seq<string>, nxt: bool, o1: seq<string>, o2: seq<string>) {
    SameForBlocks(Blocks(args, nxt), o1, o2) && SameForDevices(Devices(args, nxt), o1, o2)
  }

  lemma SameForMore(w: string, rest: seq<string>, o1: seq<string>, o2: seq<string>)
    ensures SameForBlocks([w] + rest, o1, o2) <==> Inserts(w, o1) == Inserts(w, o2) && SameForBlocks(rest, o1, o2)
    ensures SameForDevices([w] + rest, o1, o2) <==> Redirect(w, o1) == Redirect(w, o2) && SameForDevices(rest, o1, o2)
  {
    var all := [w] + rest;
    assert all[0] == w && forall i :: 0 <= i < |rest| ==> all[i + 1] == rest[i];
    assert forall i :: 0 < i < |all| ==> all[i] == rest[i - 1];
  }

  lemma SamePartsStep(args: seq<string>, nxt: bool, o1: seq<string>, o2: seq<string>)
    requires args != []
    ensures var now := args[0] == BLOCKDEV;
      SameParts(args, nxt, o1, o2) <==>
        && (!now && nxt ==> Inserts(args[0], o1) == Inserts(args[0], o2))
        && (!now && !nxt ==> Redirect(args[0], o1) == Redirect(args[0], o2))
        && SameParts(args[1..], now, o1, o2)
  {
    var now := args[0] == BLOCKDEV;
    SameForMore(args[0], Blocks(args[1..], now), o1, o2);
    SameForMore(args[0], Devices(args[1..], now), o1, o2);
  }

  lemma {:induction false} InsertsLength(w: string, order: seq<string>)
    requires NoDup(order)
    ensures |Inserts(w, order)| == 2 * |set n | n in order && Declares(w, n)|
    decreases |order|
  {
    if order != [] {
      var rest := order[1..];
      assert order == [order[0]] + rest;
      InsertsLength(w, rest);
      var s := set n | n in rest && Declares(w, n);
      var t := set n | n in order && Declares(w, n);
      if Declares(w, order[0]) {
        assert t == s + {order[0]} && order[0] !in s;
      } else {
        assert t == s;
      }
    }
  }

  lemma SameLength(w: string, keys: set<string>, o1: seq<string>, o2: seq<string>)
    requires Enumerates(o1, keys) && Enumerates(o2, keys)
    ensures |Inserts(w, o1)| == |Inserts(w, o2)|
  {
    InsertsLength(w, o1);
    InsertsLength(w, o2);
    assert (set n | n in o1 && Declares(w, n)) == (set n | n in o2 && Declares(w, n));
  }

  lemma ConcatParts(a: seq<string>, b: seq<string>, x: seq<string>, y: seq<string>)
    requires |a| == |b|
    ensures a + x == b + y <==> a == b && x == y
  {
    if a + x == b + y {
      assert (a + x)[..|a|] == a && (b + y)[..|b|] == b;
      assert (a + x)[|a|..] == x && (b + y)[|b|..] == y;
    }
  }

  lemma {:induction false} SameOutputIsSameParts(args: seq<string>, nxt: bool, keys: set<string>, o1: seq<string>, o2: seq<string>)
    requires Enumerates(o1, keys) && Enumerates(o2, keys)
    ensures Inject(args, nxt, o1) == Inject(args, nxt, o2) <==> SameParts(args, nxt, o1, o2)
    decreases |args|
  {
    if args != [] {
      var now := args[0] == BLOCKDEV;
      SamePartsStep(args, nxt, o1, o2);
      SameOutputIsSameParts(args[1..], now, keys, o1, o2);
      var r1, r2 := Inject(args[1..], now, o1), Inject(args[1..], now, o2);
      if now {
        ConcatParts([BLOCKDEV], [BLOCKDEV], r1, r2);
      } else if nxt {
        SameLength(args[0], keys, o1, o2);
        ConcatParts([args[0]] + Inserts(args[0], o1), [args[0]] + Inserts(args[0], o2), r1, r2);
        ConcatParts([args[0]], [args[0]], Inserts(args[0], o1), Inserts(args[0], o2));
      } else {
        ConcatParts([Redirect(args[0], o1)], [Redirect(args[0], o2)], r1, r2);
      }
    }
  }

  // ----- And needed: without it two orders give two outputs -----

  lemma {:induction false} SomeOrder(keys: set<string>) returns (order: seq<string>)
    ensures Enumerates(order, keys)
    decreases |keys|
  {
    if keys == {} {
      order := [];
    } else {
      var n :| n in keys;
      var rest := SomeOrder(keys - {n});
      order := [n] + rest;
    }
  }

  /** Two orders that visit a and b first, either way round. */
  lemma TwoOrders(keys: set<string>, a: string, b: string) returns (o1: seq<string>, o2: seq<string>, rest: seq<string>)
    requires a in keys && b in keys && a != b
    ensures Enumerates(o1, keys) && Enumerates(o2, keys)
    ensures o1 == [a, b] + rest && o2 == [b, a] + rest && a !in rest && b !in rest
  {
    rest := SomeOrder(keys - {a, b});
    o1, o2 := [a, b] + rest, [b, a] + rest;
  }

  lemma FormatNodesDiffer(a: string, b: string)
    requires QuoteFree(a) && QuoteFree(b) && a != b
    ensures FormatNode(a) != FormatNode(b)
  {
    FormatNodeSegments(a);
    FormatNodeSegments(b);
    assert Segments(FormatNode(a))[7] == a && Segments(FormatNode(b))[7] == b;
  }

  lemma TwoNodesMatter(args: seq<string>, i: nat, a: string, b: string)
    requires i < |Blocks(args, false)| && a in Qmap(args) && b in Qmap(args) && a != b
    requires Declares(Blocks(args, false)[i], a) && Declares(Blocks(args, false)[i], b)
    ensures !OrderIrrelevant(args)
  {
    hide FormatNode, Declares, Blocks, Qmap, Inject, Devices;
    var w := Blocks(args, false)[i];
    var o1, o2, rest := TwoOrders(Qmap(args), a, b);
    assert o1[1..] == [b] + rest && o2[1..] == [a] + rest;
    assert Inserts(w, o1)[1] == FormatNode(a) && Inserts(w, o2)[1] == FormatNode(b);
    OrderFacts(args, o1);
    assert o1[0] == a && o1[1] == b;
    FormatNodesDiffer(a, b);
    SameOutputIsSameParts(args, false, Qmap(args), o1, o2);
    assert !SameParts(args, false, o1, o2);
  }

  lemma {:induction false} RenameGrows(order: seq<string>, n: string)
    ensures |RenameBy(order, n)| >= |n|
    decreases |order|
  {
    if order != [] {
      RenameGrows(order[1..], if n == order[0] then Fmt(n) else n);
    }
  }

  /** A chained reference ends up under two names. */
  lemma ChainedNames(rest: seq<string>, n: string)
    requires Fmt(n) !in rest
    ensures RenameBy([n, Fmt(n)] + rest, n) != RenameBy([Fmt(n), n] + rest, n)
  {
    var a, b := n, Fmt(n);
    var o1, o2 := [a, b] + rest, [b, a] + rest;
    assert o1[1..] == [b] + rest && o2[1..] == [a] + rest;
    assert o1[1..][1..] == rest && o2[1..][1..] == rest;
    assert RenameBy(o1, n) == RenameBy(rest, Fmt(b));
    assert RenameBy(o2, n) == RenameBy(rest, b);
    RenameGrows(rest, Fmt(b));
    RenameStops(rest, b);
  }

  lemma DrivesAfter(w: string, order: seq<string>, k: nat)
    requires AllQuoteFree(order) && Delimited(Segments(w), "drive") && k < |Drives(w)|
    ensures k < |Drives(Redirect(w, order))| && Drives(Redirect(w, order))[k] == RenameBy(order, Drives(w)[k])
  {
    DelimitedIsScannable(Segments(w), "drive");
    RedirectOnSegments(w, order);
    ValuesOfMap(Segments(w), "drive", x => RenameBy(order, x));
  }

  lemma ChainMatters(args: seq<string>, i: nat, n: string)
    requires DelimitedDrives(args) && i < |Devices(args, false)|
    requires n in Drives(Devices(args, false)[i]) && n in Qmap(args) && Fmt(n) in Qmap(args)
    ensures !OrderIrrelevant(args)
  {
    hide Redirect, RenameBy, Drives, Delimited, Inject, Devices, Blocks, Qmap;
    var w := Devices(args, false)[i];
    var o1, o2, rest := TwoOrders(Qmap(args), n, Fmt(n));
    OrderFacts(args, o1);
    OrderFacts(args, o2);
    ChainedNames(rest, n);
    var k :| 0 <= k < |Drives(w)| && Drives(w)[k] == n;
    DrivesAfter(w, o1, k);
    DrivesAfter(w, o2, k);
    assert Drives(Redirect(w, o1)) != Drives(Redirect(w, o2));
    SameOutputIsSameParts(args, false, Qmap(args), o1, o2);
    assert !SameParts(args, false, o1, o2);
  }

  /**
   The output is the same for every iteration order exactly when no block device argument
   declares two collected names and no device argument refers to a collected name whose
   `-fmt` name is collected too.
   */
  lemma OrderIrrelevantExactly(args: seq<string>)
    requires DelimitedDrives(args)
    ensures OrderIrrelevant(args) <==>
      OneNodeEach(Blocks(args, false), Qmap(args)) && NoChainedReference(Devices(args, false), Qmap(args))
  {
    var keys := Qmap(args);
    if !OneNodeEach(Blocks(args, false), keys) {
      var i, a, b :| 0 <= i < |Blocks(args, false)| && a in keys && b in keys
        && Declares(Blocks(args, false)[i], a) && Declares(Blocks(args, false)[i], b) && a != b;
      TwoNodesMatter(args, i, a, b);
    } else if !NoChainedReference(Devices(args, false), keys) {
      var i, n :| 0 <= i < |Devices(args, false)| && n in Drives(Devices(args, false)[i]) && n in keys && Fmt(n) in keys;
      ChainMatters(args, i, n);
    } else {
      forall o1, o2 | Enumerates(o1, keys) && Enumerates(o2, keys)
        ensures Inject(args, false, o1) == Inject(args, false, o2)
      {
        SameOutputFrom(args, o1, o2);
      }
    }
  }

  lemma SameOutputFrom(args: seq<string>, o1: seq<string>, o2: seq<string>)
    requires DelimitedDrives(args) && Enumerates(o1, Qmap(args)) && Enumerates(o2, Qmap(args))
    requires OneNodeEach(Blocks(args, false), Qmap(args)) && NoChainedReference(Devices(args, false), Qmap(args))
    ensures Inject(args, false, o1) == Inject(args, false, o2)
  {
    var keys := Qmap(args);
    OrderFacts(args, o1);
    OrderFacts(args, o2);
    forall i | 0 <= i < |Blocks(args, false)|
      ensures Inserts(Blocks(args, false)[i], o1) == Inserts(Blocks(args, false)[i], o2)
    {
      SameInserts(Blocks(args, false)[i], keys, o1, o2);
    }
    forall i | 0 <= i < |Devices(args, false)|
      ensures Redirect(Devices(args, false)[i], o1) == Redirect(Devices(args, false)[i], o2)
    {
      SameRedirect(Devices(args, false)[i], keys, o1, o2);
    }
    SameOutputIsSameParts(args, false, keys, o1, o2);
  }

  lemma DistinctNamesOneNodeEach(args: seq<string>)
    requires DistinctNames(Blocks(args, false))
    ensures OneNodeEach(Blocks(args, false), Qmap(args))
  {
    var blocks := Blocks(args, false);
    forall i, a | 0 <= i < |blocks| && a in Qmap(args) && Declares(blocks[i], a)
      ensures a == NodeName(blocks[i])
    {
      var k := ScanFinds(args, false, a);
    }
  }

  /** With distinct node names only a chained reference makes the order matter, and when the -fmt
      names are fresh as well, nothing does. */
  lemma OrderIrrelevantForDistinctNames(args: seq<string>)
    requires DelimitedDrives(args) && DistinctNames(Blocks(args, false))
    ensures OrderIrrelevant(args) <==> NoChainedReference(Devices(args, false), Qmap(args))
    ensures FreshFormats(args) ==> OrderIrrelevant(args)
  {
    hide OrderIrrelevant;
    DistinctNamesOneNodeEach(args);
    OrderIrrelevantExactly(args);
    if FreshFormats(args) {
      forall n | n in Qmap(args)
        ensures Fmt(n) !in Qmap(args)
      {
        if Fmt(n) in Qmap(args) {
          CollectedIsNotFresh(args, Fmt(n));
        }
      }
    }
  }
}

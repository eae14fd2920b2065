/**
 `qemu-wrapper.sh`: the script that libvirt runs in place of QEMU.  On a domain launch it
 strips `-sandbox`, inserts a qcow2 format node after every qcow2 file node, redirects
 `drive` references, and appends a network device.  The vector travels between the awk programs
 as printed lines and is read back by field splitting; for arguments that are non-empty words
 without blanks this changes nothing (ExecOnWords).  Words with glob characters would also be
 matched against file names, which is not part of this model.
 */
module QemuWrapper {
  import opened Text
  import opened Awk

  const SANDBOX: string := "-sandbox"
  const BLOCKDEV: string := "-blockdev"
  const GUEST: string := "guest="
  const NETDEV: string := "user,id=net0,hostfwd=tcp:0.0.0.0:22-:22"
  const NET_ARGS: seq<string> :=
    ["-netdev", NETDEV, "-device", "virtio-net-pci-non-transitional,netdev=net0"]

  // ----- printf | awk | word splitting -----

  predicate IsWord(w: string) {
    w != [] && forall i :: 0 <= i < |w| ==> !InIFS(w[i])
  }

  predicate InIFS(c: char) { c == ' ' || c == '\t' || c == '\n' }

  /** One word per line. */
  function Lines(words: seq<string>): string {
    if words == [] then "" else words[0] + "\n" + Lines(words[1..])
  }

  /** Shell field splitting of an unquoted `$(...)`. */
  function Fields(s: string): seq<string>
    decreases |s|
  {
    if s == [] then []
    else if InIFS(s[0]) then Fields(s[1..])
    else
      var n := WordLength(s);
      [s[..n]] + Fields(s[n..])
  }

  function WordLength(s: string): (n: nat)
    ensures n <= |s|
    ensures s != [] && !InIFS(s[0]) ==> n > 0
  {
    if s == [] || InIFS(s[0]) then 0 else 1 + WordLength(s[1..])
  }

  lemma {:induction false} WordLengthOf(w: string, rest: string)
    requires forall i :: 0 <= i < |w| ==> !InIFS(w[i])
    requires rest != [] && InIFS(rest[0])
    ensures WordLength(w + rest) == |w|
  {
    if w == [] {
      assert w + rest == rest;
    } else {
      assert (w + rest)[1..] == w[1..] + rest;
      WordLengthOf(w[1..], rest);
    }
  }

  predicate AllWords(words: seq<string>) {
    forall i :: 0 <= i < |words| ==> IsWord(words[i])
  }

  /** `printf '%s\n' "$@"`, which prints one empty line when there is no argument. */
  function Printed(words: seq<string>): string {
    if words == [] then "\n" else Lines(words)
  }

  /** The records awk reads: the lines of the text, the last one with or without its newline. */
  function Records(s: string): seq<string>
    decreases |s|
  {
    if s == [] then []
    else
      var n := IndexOf(s, '\n');
      if n == |s| then [s] else [s[..n]] + Records(s[n + 1..])
  }

  lemma {:induction false} LinesAreRecords(words: seq<string>)
    requires forall i :: 0 <= i < |words| ==> '\n' !in words[i]
    ensures Records(Lines(words)) == words
  {
    if words != [] {
      var rest := Lines(words[1..]);
      LinesAreRecords(words[1..]);
      IndexOfConcat(words[0], '\n', rest);
      var s := words[0] + ['\n'] + rest;
      assert Lines(words) == s;
      assert s[..|words[0]|] == words[0] && s[|words[0]| + 1..] == rest;
    }
  }

  lemma {:induction false} WordsSurvivePlumbing(words: seq<string>)
    requires AllWords(words)
    ensures Fields(Lines(words)) == words
  {
    if words != [] {
      var rest := "\n" + Lines(words[1..]);
      var s := words[0] + rest;
      assert Lines(words) == s;
      WordLengthOf(words[0], rest);
      assert s[0] == words[0][0];
      assert s[..|words[0]|] == words[0] && s[|words[0]|..] == rest;
      assert rest[1..] == Lines(words[1..]);
      WordsSurvivePlumbing(words[1..]);
    }
  }

  /** Splitting at blanks: a word up to a space, tab or newline is one field, blanks themselves are
      none, and no other character separates. */
  lemma FieldsExactly(w: string, c: char, rest: string)
    requires w != "" && (forall i :: 0 <= i < |w| ==> w[i] !in " \t\n")
    ensures c in " \t\n" ==> Fields(w + [c] + rest) == [w] + Fields(rest) && Fields([c] + rest) == Fields(rest)
    ensures Fields(w) == [w] && Fields("") == []
  {
    if c in " \t\n" {
      var tail := [c] + rest;
      var s := w + tail;
      assert s == w + [c] + rest;
      WordLengthOf(w, tail);
      assert s[0] == w[0] && s[..|w|] == w && s[|w|..] == tail;
      assert tail[1..] == rest;
    }
    WordLengthAlone(w);
    assert w[..|w|] == w && w[|w|..] == "";
  }

  lemma {:induction false} WordLengthAlone(w: string)
    requires forall i :: 0 <= i < |w| ==> !InIFS(w[i])
    ensures WordLength(w) == |w|
  {
    if w != "" {
      WordLengthAlone(w[1..]);
    }
  }

  // ----- Pass 1: strip -sandbox -----

  /** The words that survive: neither the flag nor directly after one. */
  function Strip(args: seq<string>): seq<string> {
    StripAfter(args, false)
  }

  function StripAfter(args: seq<string>, afterFlag: bool): seq<string> {
    if args == [] then []
    else if args[0] == SANDBOX then StripAfter(args[1..], true)
    else if afterFlag then StripAfter(args[1..], false)
    else [args[0]] + StripAfter(args[1..], false)
  }

  /** The awk program, with its countdown variable `skip`. */
  method StripSandbox(args: seq<string>) returns (out: seq<string>)
    ensures out == Strip(args)
  {
    out := [];
    var skip := 0;
    for i := 0 to |args|
      invariant 0 <= skip <= 1
      invariant out + StripAfter(args[i..], skip == 1) == Strip(args)
    {
      assert args[i..][1..] == args[i + 1..];
      if args[i] == SANDBOX {
        skip := 2;
      }
      if skip > 0 {
        skip := skip - 1;
      } else {
        out := out + [args[i]];
      }
    }
    assert args[|args|..] == [];
  }

  /** "Drop each flag together with its value." */
  function DropPairs(args: seq<string>): seq<string> {
    if args == [] then []
    else if args[0] != SANDBOX then [args[0]] + DropPairs(args[1..])
    else if |args| == 1 then []
    else DropPairs(args[2..])
  }

  /** Length of the run of flags at the front. */
  function FlagRun(args: seq<string>): (n: nat)
    ensures n <= |args|
  {
    if args == [] || args[0] != SANDBOX then 0 else 1 + FlagRun(args[1..])
  }

  /** Every run of flags that a further word follows has odd length. */
  predicate OddRuns(args: seq<string>)
    decreases |args|
  {
    if args == [] then true
    else if args[0] != SANDBOX then OddRuns(args[1..])
    else
      var n := FlagRun(args);
      n == |args| || (n % 2 == 1 && OddRuns(args[n + 1..]))
  }

  predicate IsSubsequence(a: seq<string>, b: seq<string>)
    decreases |b|
  {
    if a == [] then true
    else if b == [] then false
    else if a[0] == b[0] && IsSubsequence(a[1..], b[1..]) then true
    else IsSubsequence(a, b[1..])
  }

  lemma {:induction false} StripShape(args: seq<string>, afterFlag: bool)
    ensures SANDBOX !in StripAfter(args, afterFlag)
    ensures IsSubsequence(StripAfter(args, afterFlag), args)
    ensures SANDBOX !in args && !afterFlag ==> StripAfter(args, afterFlag) == args
  {
    if args != [] {
      var next := args[0] == SANDBOX;
      StripShape(args[1..], next);
      var s := StripAfter(args[1..], next);
      assert args == [args[0]] + args[1..];
      if args[0] != SANDBOX && !afterFlag {
        assert ([args[0]] + s)[1..] == s;
      }
    }
  }

  /** Stripping removes every flag, keeps the order of what it keeps, and is idempotent. */
  lemma StripIsClean(args: seq<string>)
    ensures SANDBOX !in Strip(args)
    ensures IsSubsequence(Strip(args), args)
    ensures Strip(Strip(args)) == Strip(args)
    ensures SANDBOX !in args ==> Strip(args) == args
  {
    StripShape(args, false);
    StripShape(Strip(args), false);
  }

  lemma {:induction false} FlagRunWords(args: seq<string>)
    ensures forall i :: 0 <= i < FlagRun(args) ==> args[i] == SANDBOX
    ensures FlagRun(args) < |args| ==> args[FlagRun(args)] != SANDBOX
  {
    if args != [] && args[0] == SANDBOX {
      FlagRunWords(args[1..]);
    }
  }

  /** A run of flags and the word after it are all stripped. */
  lemma {:induction false} StripRun(args: seq<string>, afterFlag: bool)
    requires args != [] && (args[0] == SANDBOX || afterFlag)
    ensures StripAfter(args, afterFlag)
         == if FlagRun(args) == |args| then [] else StripAfter(args[FlagRun(args) + 1..], false)
    decreases |args|
  {
    if args[0] == SANDBOX {
      if |args| == 1 {
      } else {
        StripRun(args[1..], true);
        assert FlagRun(args) < |args| ==> args[FlagRun(args) + 1..] == args[1..][FlagRun(args[1..]) + 1..];
      }
    }
  }

  lemma RunAfterTwo(args: seq<string>)
    requires FlagRun(args) >= 2
    ensures |args| >= 2 && FlagRun(args[2..]) == FlagRun(args) - 2
    ensures DropPairs(args) == DropPairs(args[2..])
  {
    assert args[1..][1..] == args[2..];
  }

  lemma DropOne(args: seq<string>)
    requires FlagRun(args) == 1
    ensures |args| == 1 ==> DropPairs(args) == []
    ensures |args| > 1 ==> DropPairs(args) == DropPairs(args[2..])
  {
  }

  lemma DropNone(args: seq<string>)
    requires FlagRun(args) == 0
    ensures args == [] ==> DropPairs(args) == []
  {
  }

  lemma DropFrom(args: seq<string>, i: nat, j: nat)
    requires i + j <= |args|
    ensures args[i..][j..] == args[i + j..]
  {
  }

  /** Dropping pairs removes the flags of a run two at a time. */
  lemma {:induction false} DropRun(args: seq<string>, n: nat)
    requires n == FlagRun(args)
    ensures n == |args| ==> DropPairs(args) == []
    ensures n < |args| && n % 2 == 1 ==> DropPairs(args) == DropPairs(args[n + 1..])
    ensures n < |args| && n % 2 == 0 ==> DropPairs(args) == DropPairs(args[n..])
    decreases n
  {
    hide DropPairs, FlagRun;
    if n == 0 {
      assert args[0..] == args;
      DropNone(args);
    } else if n >= 2 {
      RunAfterTwo(args);
      DropRun(args[2..], n - 2);
      if n < |args| {
        DropFrom(args, 2, n - 2);
        DropFrom(args, 2, n - 1);
      }
    } else {
      DropOne(args);
    }
  }

  lemma {:induction false} StripNotLonger(args: seq<string>)
    ensures |Strip(args)| <= |DropPairs(args)|
    ensures Strip(args) == DropPairs(args) <==> OddRuns(args)
    ensures Strip(args) != DropPairs(args) ==> |Strip(args)| < |DropPairs(args)|
    decreases |args|
  {
    if args == [] {
    } else if args[0] != SANDBOX {
      StripNotLonger(args[1..]);
    } else {
      var n := FlagRun(args);
      StripRun(args, false);
      DropRun(args, n);
      FlagRunWords(args);
      if n < |args| {
        StripNotLonger(args[n + 1..]);
        if n % 2 == 0 {
          assert args[n..][0] == args[n] && args[n..][1..] == args[n + 1..];
          assert DropPairs(args[n..]) == [args[n]] + DropPairs(args[n + 1..]);
        }
      }
    }
  }

  /** The strip pass is "drop each flag with its value" exactly when every run of flags that
      is followed by another word has odd length; in particular whenever no flag is the value
      of another. */
  lemma StripIsDropPairs(args: seq<string>)
    ensures Strip(args) == DropPairs(args) <==> OddRuns(args)
    ensures (forall i :: 0 < i < |args| && args[i] == SANDBOX ==> args[i - 1] != SANDBOX) ==> OddRuns(args)
  {
    StripNotLonger(args);
    if forall i :: 0 < i < |args| && args[i] == SANDBOX ==> args[i - 1] != SANDBOX {
      SingleFlagsAreOdd(args);
    }
  }

  lemma {:induction false} SingleFlagsAreOdd(args: seq<string>)
    requires forall i :: 0 < i < |args| && args[i] == SANDBOX ==> args[i - 1] != SANDBOX
    ensures OddRuns(args)
    decreases |args|
  {
    if args == [] {
    } else if args[0] != SANDBOX {
      SingleFlagsAreOdd(args[1..]);
    } else {
      FlagRunWords(args);
      assert FlagRun(args) == 1;
      if |args| > 1 {
        SingleFlagsAreOdd(args[2..]);
      }
    }
  }

  /** The two differ on a doubled flag: the awk program also swallows the next word. */
  lemma StripSwallowsExtraWord()
    ensures Strip([SANDBOX, SANDBOX, "-m"]) == []
    ensures DropPairs([SANDBOX, SANDBOX, "-m"]) == ["-m"]
  {
    assert [SANDBOX, SANDBOX, "-m"][1..] == [SANDBOX, "-m"];
    assert [SANDBOX, "-m"][1..] == ["-m"];
    assert [SANDBOX, SANDBOX, "-m"][2..] == ["-m"];
    calc {
      Strip([SANDBOX, SANDBOX, "-m"]);
      StripAfter([SANDBOX, "-m"], true);
      StripAfter(["-m"], true);
      [];
    }
  }

  /** The words among the first n that are neither the flag nor directly after one. */
  function Kept(args: seq<string>, n: nat): seq<string>
    requires n <= |args|
  {
    if n == 0 then []
    else if args[n - 1] != "-sandbox" && (n == 1 || args[n - 2] != "-sandbox") then Kept(args, n - 1) + [args[n - 1]]
    else Kept(args, n - 1)
  }

  lemma {:induction false} StripAppend(a: seq<string>, x: string, afterFlag: bool)
    ensures var after := if a == [] then afterFlag else a[|a| - 1] == SANDBOX;
      StripAfter(a + [x], afterFlag) == StripAfter(a, afterFlag) + if x != SANDBOX && !after then [x] else []
    decreases |a|
  {
    if a == [] {
      assert a + [x] == [x] && [x][1..] == [];
    } else {
      assert (a + [x])[1..] == a[1..] + [x];
      StripAppend(a[1..], x, a[0] == SANDBOX);
    }
  }

  lemma {:induction false} StripIsKept(args: seq<string>, n: nat)
    requires n <= |args|
    ensures Strip(args[..n]) == Kept(args, n)
    decreases n
  {
    if n == 0 {
      assert args[..0] == [];
    } else {
      StripIsKept(args, n - 1);
      assert args[..n] == args[..n - 1] + [args[n - 1]];
      StripAppend(args[..n - 1], args[n - 1], false);
    }
  }

  /** Word by word, stripping keeps exactly the words that are neither the flag nor directly after
      one, in order. */
  lemma StripExactly(args: seq<string>)
    ensures Strip(args) == Kept(args, |args|)
  {
    assert args[..|args|] == args;
    StripIsKept(args, |args|);
  }

  // ----- Pass 2: collect qcow2 file nodes -----

  ghost predicate IsQcow2File(w: string) {
    Contains(w, Field("driver", "file")) && Contains(w, ".qcow2\"")
  }

  /** The lines printed by the scan; `nxt` says that the previous word was `-blockdev`. */
  ghost function Scan(args: seq<string>, nxt: bool): seq<string> {
    if args == [] then []
    else if args[0] == BLOCKDEV then Scan(args[1..], true)
    else if nxt && IsQcow2File(args[0]) then [NodeName(args[0])] + Scan(args[1..], false)
    else Scan(args[1..], false)
  }

  method FindLiteral(w: string, p: string) returns (found: bool)
    ensures found <==> Contains(w, p)
  {
    var i := 0;
    while i + |p| <= |w|
      invariant 0 <= i
      invariant forall k :: 0 <= k < i ==> !MatchAt(w, p, k)
    {
      if w[i..i + |p|] == p {
        assert MatchAt(w, p, i);
        return true;
      }
      i := i + 1;
    }
    found := false;
  }

  method CollectQcow2Nodes(args: seq<string>) returns (printed: seq<string>)
    ensures printed == Scan(args, false)
  {
    printed := [];
    var nxt := false;
    for i := 0 to |args|
      invariant printed + Scan(args[i..], nxt) == Scan(args, false)
    {
      assert args[i..][1..] == args[i + 1..];
      if args[i] == BLOCKDEV {
        nxt := true;
      } else {
        var file := FindLiteral(args[i], Field("driver", "file"));
        var qcow2 := FindLiteral(args[i], ".qcow2\"");
        if nxt && file && qcow2 {
          printed := printed + [NodeName(args[i])];
        }
        nxt := false;
      }
    }
    assert args[|args|..] == [];
  }

  /** `qmap`: the non-empty names among the printed lines. */
  ghost function NodesOf(printed: seq<string>): set<string> {
    set n | n in printed && n != ""
  }

  ghost function Qmap(args: seq<string>): set<string> {
    NodesOf(Scan(args, false))
  }

  // ----- Pass 3: insert format nodes, redirect drives -----

  function Fmt(n: string): string { n + "-fmt" }

  function FormatNode(n: string): string {
    "{" + Field("driver", "qcow2") + "," + Field("file", n) + "," + Field("node-name", Fmt(n)) + "}"
  }

  ghost predicate Declares(w: string, n: string) {
    Contains(w, Field("node-name", n))
  }

  /** The pairs printed after a block device argument, in the order `for (nd in qmap)` visits. */
  ghost function Inserts(w: string, order: seq<string>): seq<string> {
    if order == [] then []
    else if Declares(w, order[0]) then [BLOCKDEV, FormatNode(order[0])] + Inserts(w, order[1..])
    else Inserts(w, order[1..])
  }

  /** The successive `gsub` calls on any other argument. */
  function Redirect(w: string, order: seq<string>): string
    decreases |order|
  {
    if order == [] then w
    else Redirect(GSub(w, Field("drive", order[0]), Field("drive", Fmt(order[0]))), order[1..])
  }

  ghost function Inject(args: seq<string>, nxt: bool, order: seq<string>): seq<string> {
    if args == [] then []
    else if args[0] == BLOCKDEV then [BLOCKDEV] + Inject(args[1..], true, order)
    else if nxt then [args[0]] + Inserts(args[0], order) + Inject(args[1..], false, order)
    else [Redirect(args[0], order)] + Inject(args[1..], false, order)
  }

  /** `order` lists the keys of `qmap` once each, as awk's `for ... in` does in some order. */
  ghost predicate Enumerates(order: seq<string>, keys: set<string>) {
    && (forall n :: n in order <==> n in keys)
    && (forall i, j :: 0 <= i < j < |order| ==> order[i] != order[j])
  }

  method InsertsFor(w: string, order: seq<string>) returns (out: seq<string>)
    ensures out == Inserts(w, order)
  {
    out := [];
    for i := 0 to |order|
      invariant out + Inserts(w, order[i..]) == Inserts(w, order)
    {
      assert order[i..][1..] == order[i + 1..];
      var declared := FindLiteral(w, Field("node-name", order[i]));
      if declared {
        out := out + [BLOCKDEV] + [FormatNode(order[i])];
      }
    }
    assert order[|order|..] == [];
  }

  method RedirectDrives(w: string, order: seq<string>) returns (line: string)
    ensures line == Redirect(w, order)
  {
    line := w;
    for i := 0 to |order|
      invariant Redirect(line, order[i..]) == Redirect(w, order)
    {
      assert order[i..][1..] == order[i + 1..];
      line := GSub(line, Field("drive", order[i]), Field("drive", Fmt(order[i])));
    }
  }

  /** What one word contributes to the output. */
  ghost function Rewritten(w: string, nxt: bool, order: seq<string>): seq<string> {
    if w == BLOCKDEV then [w] else if nxt then [w] + Inserts(w, order) else [Redirect(w, order)]
  }

  lemma InjectStep(args: seq<string>, i: nat, nxt: bool, order: seq<string>)
    requires i < |args|
    ensures Inject(args[i..], nxt, order) == Rewritten(args[i], nxt, order) + Inject(args[i + 1..], args[i] == BLOCKDEV, order)
  {
    hide Inserts, Redirect;
    assert args[i..][1..] == args[i + 1..];
  }

  method InjectFormatNodes(args: seq<string>, order: seq<string>) returns (out: seq<string>)
    ensures out == Inject(args, false, order)
  {
    hide Inserts, Redirect, Inject;
    out := [];
    var nxt := false;
    for i := 0 to |args|
      invariant out + Inject(args[i..], nxt, order) == Inject(args, false, order)
    {
      InjectStep(args, i, nxt, order);
      if args[i] == BLOCKDEV {
        nxt := true;
        out := out + [args[i]];
      } else if nxt {
        var pairs := InsertsFor(args[i], order);
        out := out + ([args[i]] + pairs);
        nxt := false;
      } else {
        var line := RedirectDrives(args[i], order);
        out := out + [line];
      }
    }
    assert args[|args|..] == [];
    InjectNothing(order, nxt);
  }

  lemma InjectNothing(order: seq<string>, nxt: bool)
    ensures Inject([], nxt, order) == []
  {
  }

  lemma {:induction false} RedirectNothing(args: seq<string>, nxt: bool)
    ensures Inject(args, nxt, []) == args
  {
    if args != [] {
      RedirectNothing(args[1..], args[0] == BLOCKDEV);
    }
  }

  // ----- The whole script -----

  predicate IsLaunch(args: seq<string>) {
    exists i :: 0 <= i < |args| && HasPrefix(args[i], GUEST)
  }

  /** `set -- $(printf '%s\n' "$@" | awk ...)` for the strip pass. */
  function StripPass(args: seq<string>): seq<string> {
    Fields(Lines(Strip(Records(Printed(args)))))
  }

  /** What `qcow2_nodes=$(printf '%s\n' "$@" | awk ...)` lists, one name a line, and awk's `split`
      reads back without the empty lines. */
  ghost function ScanPass(args: seq<string>): set<string> {
    NodesOf(Records(Lines(Scan(Records(Printed(args)), false))))
  }

  /** `set -- $(printf '%s\n' "$@" | awk -v nodes=...)`, done only when some node was listed. */
  ghost function InjectPass(args: seq<string>, order: seq<string>): seq<string> {
    if ScanPass(args) == {} then args else Fields(Lines(Inject(Records(Printed(args)), false, order)))
  }

  /** The argument vector that the real QEMU is executed with. */
  ghost function Exec(args: seq<string>, order: seq<string>): seq<string> {
    if IsLaunch(args) then InjectPass(StripPass(args), order) + NET_ARGS else args
  }

  method AnyName(names: seq<string>) returns (found: bool)
    ensures found <==> NodesOf(names) != {}
  {
    found := false;
    for k := 0 to |names|
      invariant found <==> exists j :: 0 <= j < k && names[j] != ""
    {
      found := found || names[k] != "";
    }
    SomeNameExactly(names);
  }

  method RunWrapper(args: seq<string>, order: seq<string>) returns (argv: seq<string>)
    requires Enumerates(order, ScanPass(StripPass(args)))
    ensures argv == Exec(args, order)
  {
    hide Fields, Lines, Records, Printed, Scan, Inject, Strip, NodesOf, HasPrefix;
    for i := 0 to |args|
      invariant forall k :: 0 <= k < i ==> !HasPrefix(args[k], GUEST)
    {
      if HasPrefix(args[i], GUEST) {
        var lines := StripSandbox(Records(Printed(args)));
        var stripped := Fields(Lines(lines));
        lines := CollectQcow2Nodes(Records(Printed(stripped)));
        var found := AnyName(Records(Lines(lines)));
        if found {
          lines := InjectFormatNodes(Records(Printed(stripped)), order);
          stripped := Fields(Lines(lines));
        }
        return stripped + NET_ARGS;
      }
    }
    argv := args;
  }

  lemma SomeNameExactly(names: seq<string>)
    ensures NodesOf(names) != {} <==> exists j :: 0 <= j < |names| && names[j] != ""
  {
    if j :| 0 <= j < |names| && names[j] != "" {
      assert names[j] in NodesOf(names);
    }
    if NodesOf(names) != {} {
      var n :| n in NodesOf(names);
    }
  }

  /** A launch is a vector with a word that starts with "guest="; the two network arguments speak of
      the same network, and QEMU gets them last. */
  lemma LaunchExactly(args: seq<string>, order: seq<string>)
    ensures IsLaunch(args) <==> exists i :: 0 <= i < |args| && |args[i]| >= 6 && args[i][..6] == "guest="
    ensures IsLaunch(args) ==>
      var net := "net0";
      Exec(args, order) == InjectPass(StripPass(args), order)
        + ["-netdev", "user,id=" + net + ",hostfwd=tcp:0.0.0.0:22-:22", "-device", "virtio-net-pci-non-transitional,netdev=" + net]
  {
    hide InjectPass, StripPass;
    NetworkTexts();
  }

  lemma NetworkTexts()
    ensures "user,id=" + "net0" + ",hostfwd=tcp:0.0.0.0:22-:22" == NETDEV
    ensures "virtio-net-pci-non-transitional,netdev=" + "net0" == NET_ARGS[3]
  {
  }

  // ----- The passes keep words words -----

  predicate NoBlanks(w: string) {
    forall i :: 0 <= i < |w| ==> !InIFS(w[i])
  }

  lemma {:induction false} StripKeepsWords(args: seq<string>, afterFlag: bool)
    requires AllWords(args)
    ensures AllWords(StripAfter(args, afterFlag))
  {
    if args != [] {
      StripKeepsWords(args[1..], args[0] == SANDBOX);
    }
  }

  lemma {:induction false} NodeNameHasNoBlanks(w: string)
    requires NoBlanks(w)
    ensures NoBlanks(NodeName(w))
    decreases |w|
  {
    if w != [] {
      NodeNameHasNoBlanks(w[1..]);
    }
  }

  lemma {:induction false} ScanHasNoBlanks(args: seq<string>, nxt: bool)
    requires AllWords(args)
    ensures forall i :: 0 <= i < |Scan(args, nxt)| ==> NoBlanks(Scan(args, nxt)[i])
    decreases |args|
  {
    if args != [] {
      NodeNameHasNoBlanks(args[0]);
      ScanHasNoBlanks(args[1..], args[0] == BLOCKDEV);
    }
  }

  lemma {:induction false} GSubKeepsWords(w: string, p: string, r: string)
    requires p != [] && r != [] && NoBlanks(w) && NoBlanks(r)
    ensures NoBlanks(GSub(w, p, r)) && (w != [] ==> GSub(w, p, r) != [])
    decreases |w|
  {
    if |w| >= |p| {
      GSubKeepsWords(if w[..|p|] == p then w[|p|..] else w[1..], p, r);
    }
  }

  lemma FieldHasNoBlanks(key: string, name: string)
    requires NoBlanks(key) && NoBlanks(name)
    ensures NoBlanks(Field(key, name)) && Field(key, name) != []
  {
  }

  lemma FormatNodeIsWord(n: string)
    requires NoBlanks(n)
    ensures IsWord(FormatNode(n)) && NoBlanks(Fmt(n)) && IsWord(BLOCKDEV)
  {
    FieldHasNoBlanks("driver", "qcow2");
    FieldHasNoBlanks("file", n);
    FieldHasNoBlanks("node-name", Fmt(n));
    hide Field;
  }

  lemma {:induction false} RedirectKeepsWord(w: string, order: seq<string>)
    requires IsWord(w) && forall i :: 0 <= i < |order| ==> NoBlanks(order[i])
    ensures IsWord(Redirect(w, order))
    decreases |order|
  {
    if order != [] {
      var p, r := Field("drive", order[0]), Field("drive", Fmt(order[0]));
      FormatNodeIsWord(order[0]);
      FieldHasNoBlanks("drive", Fmt(order[0]));
      GSubKeepsWords(w, p, r);
      RedirectKeepsWord(GSub(w, p, r), order[1..]);
    }
  }

  lemma {:induction false} InsertsAreWords(w: string, order: seq<string>)
    requires forall i :: 0 <= i < |order| ==> NoBlanks(order[i])
    ensures AllWords(Inserts(w, order))
    decreases |order|
  {
    hide FormatNode, Declares;
    if order != [] {
      FormatNodeIsWord(order[0]);
      InsertsAreWords(w, order[1..]);
    }
  }

  lemma {:induction false} InjectKeepsWords(args: seq<string>, nxt: bool, order: seq<string>)
    requires AllWords(args) && forall i :: 0 <= i < |order| ==> NoBlanks(order[i])
    ensures AllWords(Inject(args, nxt, order))
    decreases |args|
  {
    hide Inserts, Redirect;
    if args != [] {
      InjectKeepsWords(args[1..], args[0] == BLOCKDEV, order);
      InsertsAreWords(args[0], order);
      RedirectKeepsWord(args[0], order);
    }
  }

  lemma WordRecords(words: seq<string>)
    requires AllWords(words) && words != []
    ensures Records(Printed(words)) == words
  {
    LinesAreRecords(words);
  }

  lemma StripPassOnWords(args: seq<string>)
    requires AllWords(args) && args != []
    ensures AllWords(Strip(args)) && StripPass(args) == Strip(args)
  {
    WordRecords(args);
    StripKeepsWords(args, false);
    WordsSurvivePlumbing(Strip(args));
  }

  lemma ScanPassOnWords(args: seq<string>)
    requires AllWords(args)
    ensures ScanPass(args) == Qmap(args)
    ensures forall n :: n in Qmap(args) ==> NoBlanks(n)
  {
    hide IsQcow2File;
    ScanHasNoBlanks(args, false);
    if args == [] {
      assert "\n"[1..] == "" && Records("\n") == [""] && [""][1..] == [];
      assert Scan([""], false) == [];
    } else {
      WordRecords(args);
    }
    forall i | 0 <= i < |Scan(args, false)|
      ensures '\n' !in Scan(args, false)[i]
    {
      assert NoBlanks(Scan(args, false)[i]);
    }
    LinesAreRecords(Scan(args, false));
  }

  /** On words the plumbing is invisible: the script computes the three passes on the vector, for
      every order in which awk visits the collected names. */
  lemma ExecOnWords(args: seq<string>, order: seq<string>)
    requires AllWords(args) && IsLaunch(args)
    ensures ScanPass(StripPass(args)) == Qmap(Strip(args))
    ensures Enumerates(order, Qmap(Strip(args))) ==> Exec(args, order) == Inject(Strip(args), false, order) + NET_ARGS
  {
    hide Inject, Fields, Lines, Scan;
    StripPassOnWords(args);
    var stripped := Strip(args);
    ScanPassOnWords(stripped);
    if Enumerates(order, Qmap(stripped)) {
      if Qmap(stripped) == {} {
        OrderHasKeys(order, Qmap(stripped));
        RedirectNothing(stripped, false);
      } else {
        QmapOfNothing();
        WordRecords(stripped);
        InjectKeepsWords(stripped, false, order);
        WordsSurvivePlumbing(Inject(stripped, false, order));
      }
    }
  }

  lemma OrderHasKeys(order: seq<string>, keys: set<string>)
    requires Enumerates(order, keys)
    ensures order == [] || order[0] in keys
  {
  }

  lemma QmapOfNothing()
    ensures Qmap([]) == {}
  {
  }
}

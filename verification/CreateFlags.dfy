/** The stages of `cmd/create.go` that apply command-line flags to the loaded VM. */
module CreateFlags {
  import opened Prelude
  import opened Text
  import opened Config

  // ----- --port host:vm[/proto] -----

  /** The protocol: what follows the last slash, in lower case, or tcp. */
  function ProtoOf(s: string): string {
    var slash := LastIndexOf(s, '/');
    if slash >= 0 then ToLower(s[slash + 1..]) else "tcp"
  }

  function PortsOf(s: string): string {
    var slash := LastIndexOf(s, '/');
    if slash >= 0 then s[..slash] else s
  }

  /** host:vm, split at the first colon. */
  function ParsePorts(s: string, proto: string): Option<PortForward> {
    var parts := Cut(s, ':');
    if parts.None? then None
    else
      var host, vm := Atoi(parts.value.0), Atoi(parts.value.1);
      if host.None? || vm.None? then None else Some(PortForward(host.value, vm.value, proto))
  }

  function ParseForward(s: string): Option<PortForward> {
    ParsePorts(PortsOf(s), ProtoOf(s))
  }

  /** The results of f in order, unless one element has none. */
  function Collect<T>(f: string -> Option<T>, list: seq<string>): Option<seq<T>> {
    if list == [] then Some([])
    else if f(list[0]).None? then None
    else
      var rest := Collect(f, list[1..]);
      if rest.None? then None else Some([f(list[0]).value] + rest.value)
  }

  function ParseForwards(list: seq<string>): Option<seq<PortForward>> {
    Collect(ParseForward, list)
  }

  method ParseOne(text: string) returns (r: Option<PortForward>)
    ensures r == ParseForward(text)
  {
    var s := text;
    var proto := "tcp";
    var idx := LastIndexOf(s, '/');
    if idx >= 0 {
      proto := ToLower(s[idx + 1..]);
      s := s[..idx];
    }
    assert s == PortsOf(text) && proto == ProtoOf(text);
    var parts := Cut(s, ':');
    if parts.None? {
      return None;
    }
    var hostPort := Atoi(parts.value.0);
    if hostPort.None? {
      return None;
    }
    var vmPort := Atoi(parts.value.1);
    if vmPort.None? {
      return None;
    }
    r := Some(PortForward(hostPort.value, vmPort.value, proto));
  }

  lemma CollectAll<T>(f: string -> Option<T>, list: seq<string>, values: seq<T>)
    requires |values| == |list| && forall i :: 0 <= i < |list| ==> f(list[i]) == Some(values[i])
    ensures Collect(f, list) == Some(values)
  {
    CollectMeaning(f, list);
    assert Collect(f, list).value == values;
  }

  /** One more element, or a failure for the whole list. */
  lemma CollectStep<T>(f: string -> Option<T>, list: seq<string>, i: nat, done: seq<T>)
    requires i < |list| && Collect(f, list[..i]) == Some(done)
    ensures f(list[i]).None? ==> Collect(f, list).None?
    ensures f(list[i]).Some? ==> Collect(f, list[..i + 1]) == Some(done + [f(list[i]).value])
  {
    CollectMeaning(f, list);
    CollectMeaning(f, list[..i]);
    if f(list[i]).Some? {
      var more := done + [f(list[i]).value];
      forall k | 0 <= k < i + 1
        ensures f(list[..i + 1][k]) == Some(more[k])
      {
        if k < i {
          assert list[..i][k] == list[..i + 1][k];
        }
      }
      CollectAll(f, list[..i + 1], more);
    }
  }

  method ParsePortForwards(portStrs: seq<string>) returns (r: Option<seq<PortForward>>)
    ensures r == ParseForwards(portStrs)
  {
    var pfs := [];
    for i := 0 to |portStrs|
      invariant Collect(ParseForward, portStrs[..i]) == Some(pfs)
    {
      var pf := ParseOne(portStrs[i]);
      CollectStep(ParseForward, portStrs, i, pfs);
      if pf.None? {
        return None;
      }
      pfs := pfs + [pf.value];
    }
    assert portStrs[..|portStrs|] == portStrs;
    r := Some(pfs);
  }

  lemma {:induction false} CollectMeaning<T>(f: string -> Option<T>, list: seq<string>)
    ensures Collect(f, list).None? <==> exists i :: 0 <= i < |list| && f(list[i]).None?
    ensures var r := Collect(f, list);
      r.Some? ==> |r.value| == |list| && forall i :: 0 <= i < |list| ==> f(list[i]) == Some(r.value[i])
    decreases |list|
  {
    if list != [] {
      var rest := list[1..];
      CollectMeaning(f, rest);
      assert forall i :: 1 <= i < |list| ==> list[i] == rest[i - 1];
      assert forall i :: 0 <= i < |rest| ==> rest[i] == list[i + 1];
    }
  }

  /** The list is rejected exactly when one element is malformed; otherwise the result is the
      elements' meanings in order. */
  lemma ListMeaning(list: seq<string>)
    ensures ParseForwards(list).None? <==> exists i :: 0 <= i < |list| && ParseForward(list[i]).None?
    ensures var r := ParseForwards(list);
      r.Some? ==> |r.value| == |list| && forall i :: 0 <= i < |list| ==> ParseForward(list[i]) == Some(r.value[i])
  {
    CollectMeaning(ParseForward, list);
  }

  function Print(pf: PortForward): string {
    DecimalInt(pf.hostPort) + ":" + (DecimalInt(pf.vmPort) + "/" + pf.protocol)
  }

  predicate Printable(pf: PortForward) {
    && -TWO_63 <= pf.hostPort < TWO_63 && -TWO_63 <= pf.vmPort < TWO_63
    && '/' !in pf.protocol && ToLower(pf.protocol) == pf.protocol
  }

  lemma PrintParse(pf: PortForward)
    requires Printable(pf)
    ensures ParseForward(Print(pf)) == Some(pf)
  {
    var h, v := DecimalInt(pf.hostPort), DecimalInt(pf.vmPort);
    var ports := h + [':'] + v;
    assert Print(pf) == ports + ['/'] + pf.protocol;
    LastIndexOfConcat(ports, '/', pf.protocol);
    assert PortsOf(Print(pf)) == ports && ProtoOf(Print(pf)) == pf.protocol;
    DecimalIntChars(pf.hostPort, ':');
    CutConcat(h, ':', v);
    AtoiRoundTrip(pf.hostPort);
    AtoiRoundTrip(pf.vmPort);
  }

  /** The short form, which means tcp. */
  function PrintPorts(pf: PortForward): string {
    DecimalInt(pf.hostPort) + ":" + DecimalInt(pf.vmPort)
  }

  function PrintAs(pf: PortForward, short: bool): string {
    if short then PrintPorts(pf) else Print(pf)
  }

  lemma DecimalIsInt64Text(n: int)
    requires -TWO_63 <= n < TWO_63
    ensures Int64Text(DecimalInt(n), n)
  {
    AtoiRoundTrip(n);
    AtoiExactly(DecimalInt(n), n);
  }

  /** s is host:vm, with the protocol after a further slash if it is not tcp by default. */
  ghost predicate Denotes(s: string, host: string, vm: string, pf: PortForward) {
    && Int64Text(host, pf.hostPort) && Int64Text(vm, pf.vmPort)
    && (|| (s == host + ":" + vm && pf.protocol == "tcp")
        || (exists p :: '/' !in p && s == host + ":" + vm + "/" + p && pf.protocol == ToLower(p)))
  }

  lemma SplitsAsMeant(host: string, vm: string, pf: PortForward)
    requires Int64Text(host, pf.hostPort) && Int64Text(vm, pf.vmPort)
    ensures '/' !in host + ":" + vm && ParsePorts(host + ":" + vm, pf.protocol) == Some(pf)
  {
    hide Atoi, Int64Text;
    Int64Chars(host, pf.hostPort, ':');
    Int64Chars(host, pf.hostPort, '/');
    Int64Chars(vm, pf.vmPort, '/');
    CutConcat(host, ':', vm);
    assert host + ":" + vm == host + [':'] + vm;
    AtoiExactly(host, pf.hostPort);
    AtoiExactly(vm, pf.vmPort);
  }

  lemma DenotedIsParsed(s: string, host: string, vm: string, pf: PortForward)
    requires Denotes(s, host, vm, pf)
    ensures ParseForward(s) == Some(pf)
  {
    hide Int64Text, ParsePorts;
    var ports := host + ":" + vm;
    SplitsAsMeant(host, vm, pf);
    if s == ports && pf.protocol == "tcp" {
      assert LastIndexOf(s, '/') == -1;
    } else {
      var p :| '/' !in p && s == host + ":" + vm + "/" + p && pf.protocol == ToLower(p);
      LastIndexOfConcat(ports, '/', p);
      assert s == ports + ['/'] + p;
      assert PortsOf(s) == ports && s[|ports| + 1..] == p;
    }
  }

  /** Where the protocol part is. */
  lemma SlashSplits(s: string) returns (p: string)
    ensures if '/' in s then s == PortsOf(s) + "/" + p && '/' !in p && ProtoOf(s) == ToLower(p)
            else PortsOf(s) == s && ProtoOf(s) == "tcp"
  {
    hide ToLower;
    var slash := LastIndexOf(s, '/');
    p := if slash >= 0 then s[slash + 1..] else "";
    if slash >= 0 {
      assert s == s[..slash] + ['/'] + p;
    }
  }

  lemma ParsedIsDenoted(s: string, pf: PortForward) returns (host: string, vm: string)
    requires ParseForward(s) == Some(pf)
    ensures Denotes(s, host, vm, pf)
  {
    hide Int64Text, Atoi, ToLower, PortsOf, ProtoOf;
    var parts := Cut(PortsOf(s), ':').value;
    host, vm := parts.0, parts.1;
    AtoiExactly(host, pf.hostPort);
    AtoiExactly(vm, pf.vmPort);
    var p := SlashSplits(s);
    assert PortsOf(s) == host + ":" + vm;
  }

  /** A text is accepted, with this meaning, exactly when it is two int64 numbers with a colon
      between them, optionally followed by a slash and a slash-free protocol, which counts in
      lower case and is tcp when it is left out. */
  lemma ForwardExactly(s: string, pf: PortForward)
    ensures ParseForward(s) == Some(pf) <==> exists host, vm :: Denotes(s, host, vm, pf)
  {
    hide Denotes, ParseForward;
    if ParseForward(s) == Some(pf) {
      var host, vm := ParsedIsDenoted(s, pf);
    }
    if host, vm :| Denotes(s, host, vm, pf) {
      DenotedIsParsed(s, host, vm, pf);
    }
  }

  /** Which texts are rejected: before the last slash, or in the whole text if it has none, there is
      no colon, or one of the two parts around the first colon is no int64 number. */
  lemma RejectedExactly(s: string, ports: string, p: string)
    requires if '/' in s then s == ports + "/" + p && '/' !in p else s == ports
    ensures ':' !in ports ==> ParseForward(s).None?
    ensures forall host, vm :: ports == host + ":" + vm && ':' !in host ==>
      (ParseForward(s).None? <==> (forall n :: !Int64Text(host, n)) || (forall n :: !Int64Text(vm, n)))
  {
    hide Int64Text, Atoi;
    if '/' in s {
      assert s == ports + ['/'] + p;
      LastIndexOfConcat(ports, '/', p);
    }
    assert PortsOf(s) == ports;
    forall host, vm | ports == host + ":" + vm && ':' !in host
      ensures ParseForward(s).None? <==> (forall n :: !Int64Text(host, n)) || (forall n :: !Int64Text(vm, n))
    {
      assert ports == host + [':'] + vm;
      CutConcat(host, ':', vm);
      NumberExactly(host);
      NumberExactly(vm);
    }
  }

  lemma NumberExactly(s: string)
    ensures Atoi(s).None? <==> forall n :: !Int64Text(s, n)
  {
    hide Int64Text, Atoi;
    forall n
      ensures Atoi(s) == Some(n) <==> Int64Text(s, n)
    {
      AtoiExactly(s, n);
    }
    if Atoi(s).Some? {
      assert Int64Text(s, Atoi(s).value);
    }
  }

  /** The short form is tcp. */
  lemma ShortFormIsTcp(h: int, v: int)
    requires -TWO_63 <= h < TWO_63 && -TWO_63 <= v < TWO_63
    ensures ParseForward(DecimalInt(h) + ":" + DecimalInt(v)) == Some(PortForward(h, v, "tcp"))
  {
    DecimalIsInt64Text(h);
    DecimalIsInt64Text(v);
    DenotedIsParsed(DecimalInt(h) + ":" + DecimalInt(v), DecimalInt(h), DecimalInt(v), PortForward(h, v, "tcp"));
  }

  function PrintAll(pfs: seq<PortForward>, short: seq<bool>): (r: seq<string>)
    requires |short| == |pfs|
    ensures |r| == |pfs| && forall i :: 0 <= i < |pfs| ==> r[i] == PrintAs(pfs[i], short[i])
  {
    seq(|pfs|, i requires 0 <= i < |pfs| => PrintAs(pfs[i], short[i]))
  }

  /** Printing any list of forwards, with the protocol left out for any of the tcp ones, and parsing
      it gives the list back, in order. */
  lemma PortListRoundTrip(pfs: seq<PortForward>, short: seq<bool>)
    requires |short| == |pfs| && forall i :: 0 <= i < |pfs| ==> Printable(pfs[i]) && (short[i] ==> pfs[i].protocol == "tcp")
    ensures ParseForwards(PrintAll(pfs, short)) == Some(pfs)
  {
    hide Print, ParseForward;
    var list := PrintAll(pfs, short);
    var parse := ParseForward;
    forall i | 0 <= i < |pfs|
      ensures parse(list[i]) == Some(pfs[i])
    {
      if short[i] {
        ShortFormIsTcp(pfs[i].hostPort, pfs[i].vmPort);
      } else {
        PrintParse(pfs[i]);
      }
    }
    CollectAll(parse, list, pfs);
  }

  lemma AtoiInRange(s: string)
    ensures Atoi(s).Some? ==> -TWO_63 <= Atoi(s).value < TWO_63
  {
  }

  /** Every accepted text denotes a printable forward, so printing what was parsed is a normal
      form: it parses to the same forward. */
  lemma ParsePrintParse(s: string)
    ensures ParseForward(s).Some? ==>
      Printable(ParseForward(s).value) && ParseForward(Print(ParseForward(s).value)) == ParseForward(s)
  {
    hide ProtoOf, PortsOf, ParsePorts, Print;
    if ParseForward(s).Some? {
      ProtoIsNormal(s);
      PortsInRange(PortsOf(s), ProtoOf(s));
      PrintParse(ParseForward(s).value);
    }
  }

  lemma ProtoIsNormal(s: string)
    ensures '/' !in ProtoOf(s) && ToLower(ProtoOf(s)) == ProtoOf(s)
  {
    var slash := LastIndexOf(s, '/');
    if slash >= 0 {
      var raw := s[slash + 1..];
      assert forall i :: 0 <= i < |raw| ==> raw[i] != '/' && LowerChar(raw[i]) != '/';
      assert forall i :: 0 <= i < |raw| ==> LowerChar(LowerChar(raw[i])) == LowerChar(raw[i]);
    }
  }

  lemma PortsInRange(s: string, proto: string)
    requires ParsePorts(s, proto).Some?
    ensures var pf := ParsePorts(s, proto).value;
      pf.protocol == proto && -TWO_63 <= pf.hostPort < TWO_63 && -TWO_63 <= pf.vmPort < TWO_63
  {
    var parts := Cut(s, ':').value;
    AtoiInRange(parts.0);
    AtoiInRange(parts.1);
  }

  // ----- Attaching the forwards to a network -----

  function MasqueradeIndex(nets: seq<NetworkSpec>): (k: nat)
    ensures k <= |nets| && (k < |nets| ==> nets[k].kind == "masquerade")
    ensures forall i :: 0 <= i < k ==> nets[i].kind != "masquerade"
  {
    if nets == [] || nets[0].kind == "masquerade" then 0 else 1 + MasqueradeIndex(nets[1..])
  }

  function Attach(n: NetworkSpec, pfs: seq<PortForward>): NetworkSpec {
    NetworkSpec(n.name, "masquerade", n.portForwards + pfs)
  }

  /** The first masquerade network gets the forwards; else the first network becomes one; else
      a default network is created. */
  function WithForwards(nets: seq<NetworkSpec>, pfs: seq<PortForward>): seq<NetworkSpec> {
    if nets == [] then [NetworkSpec("default", "masquerade", pfs)]
    else
      var k := MasqueradeIndex(nets);
      var at := if k < |nets| then k else 0;
      nets[at := Attach(nets[at], pfs)]
  }

  method ApplyPortForwards(vm: VirtualMachine, pfs: seq<PortForward>)
    modifies vm`networks
    ensures vm.networks == WithForwards(old(vm.networks), pfs)
  {
    for i := 0 to |vm.networks|
      invariant vm.networks == old(vm.networks)
      invariant forall k :: 0 <= k < i ==> vm.networks[k].kind != "masquerade"
    {
      if vm.networks[i].kind == "masquerade" {
        assert MasqueradeIndex(vm.networks) == i;
        vm.networks := vm.networks[i := vm.networks[i].(portForwards := vm.networks[i].portForwards + pfs)];
        return;
      }
    }
    if |vm.networks| > 0 {
      vm.networks := vm.networks[0 := vm.networks[0].(kind := "masquerade")];
      vm.networks := vm.networks[0 := vm.networks[0].(portForwards := vm.networks[0].portForwards + pfs)];
    } else {
      vm.networks := [NetworkSpec("default", "masquerade", pfs)];
    }
  }

  /** All forwards of all networks, in order. */
  function AllForwards(nets: seq<NetworkSpec>): seq<PortForward> {
    if nets == [] then [] else nets[0].portForwards + AllForwards(nets[1..])
  }

  lemma {:induction false} AttachConserves(nets: seq<NetworkSpec>, at: nat, pfs: seq<PortForward>)
    requires at < |nets|
    ensures multiset(AllForwards(nets[at := Attach(nets[at], pfs)])) == multiset(AllForwards(nets)) + multiset(pfs)
    decreases |nets|
  {
    var after := nets[at := Attach(nets[at], pfs)];
    if at == 0 {
      assert after[1..] == nets[1..];
    } else {
      assert after[1..] == nets[1..][at - 1 := Attach(nets[1..][at - 1], pfs)];
      AttachConserves(nets[1..], at - 1, pfs);
    }
  }

  /** Network `at` is a masquerade network that ends with the new forwards; the others stay. */
  predicate AttachedAt(before: seq<NetworkSpec>, after: seq<NetworkSpec>, at: int, pfs: seq<PortForward>) {
    && 0 <= at < |after| && |before| <= |after|
    && after[at].kind == "masquerade"
    && |pfs| <= |after[at].portForwards| && after[at].portForwards[|after[at].portForwards| - |pfs|..] == pfs
    && forall i :: 0 <= i < |before| && i != at ==> after[i] == before[i]
  }

  /** No forward is lost or invented, and only one network changes, to masquerade. */
  lemma ForwardsAreConserved(nets: seq<NetworkSpec>, pfs: seq<PortForward>)
    ensures multiset(AllForwards(WithForwards(nets, pfs))) == multiset(AllForwards(nets)) + multiset(pfs)
    ensures WithForwards(nets, pfs) != []
    ensures exists at :: 0 <= at < |WithForwards(nets, pfs)| && AttachedAt(nets, WithForwards(nets, pfs), at, pfs)
  {
    if nets == [] {
      assert AttachedAt(nets, WithForwards(nets, pfs), 0, pfs);
      assert pfs + [] == pfs;
    } else {
      var k := MasqueradeIndex(nets);
      var at := if k < |nets| then k else 0;
      AttachConserves(nets, at, pfs);
      assert AttachedAt(nets, WithForwards(nets, pfs), at, pfs);
    }
  }

  /** Which network gets them: the first masquerade one, which keeps all else; without one the
      first network, which becomes masquerade; without any network a new default one. */
  lemma ForwardsGoTo(nets: seq<NetworkSpec>, pfs: seq<PortForward>, k: nat)
    requires k < |nets| && forall i :: 0 <= i < k ==> nets[i].kind != "masquerade"
    ensures nets[k].kind == "masquerade" ==> WithForwards(nets, pfs) == nets[k := nets[k].(portForwards := nets[k].portForwards + pfs)]
    ensures k == |nets| - 1 && nets[k].kind != "masquerade" ==>
      WithForwards(nets, pfs) == nets[0 := NetworkSpec(nets[0].name, "masquerade", nets[0].portForwards + pfs)]
    ensures WithForwards([], pfs) == [NetworkSpec("default", "masquerade", pfs)]
  {
    var at := MasqueradeIndex(nets);
    if nets[k].kind == "masquerade" {
      assert at == k;
    }
  }

  lemma {:induction false} AllForwardsConcat(a: seq<NetworkSpec>, b: seq<NetworkSpec>)
    ensures AllForwards(a + b) == AllForwards(a) + AllForwards(b)
    ensures forall n: NetworkSpec :: AllForwards([n]) == n.portForwards
    decreases |a|
  {
    assert forall n: NetworkSpec :: [n][1..] == [];
    if a == [] {
      assert a + b == b;
    } else {
      assert (a + b)[1..] == a[1..] + b;
      AllForwardsConcat(a[1..], b);
    }
  }

  // ----- Cloud-init credentials and --disk-size -----

  datatype Credentials = Credentials(sshKeys: seq<string>, password: string, user: string)

  function WithCredentials(m: Machine, c: Credentials): Machine {
    if c.sshKeys == [] && c.password == "" then m
    else
      var ci := if m.cloudInit.Some? then m.cloudInit.value else CloudInitSpec("", "", []);
      m.(cloudInit := Some(CloudInitSpec(
        if c.user != "" then c.user else if ci.user == "" then DEFAULT_USER else ci.user,
        if c.password != "" then c.password else if ci.password == "" then DEFAULT_PASSWORD else ci.password,
        ci.sshKeys + c.sshKeys)))
  }

  method ApplyCloudInitFlags(vm: VirtualMachine, c: Credentials)
    modifies vm`cloudInit
    ensures vm.Value() == WithCredentials(old(vm.Value()), c)
  {
    if |c.sshKeys| == 0 && c.password == "" {
      return;
    }
    if vm.cloudInit.None? {
      vm.cloudInit := Some(CloudInitSpec("", "", []));
    }
    var ci := vm.cloudInit.value;
    ci := ci.(sshKeys := ci.sshKeys + c.sshKeys);
    if c.password != "" {
      ci := ci.(password := c.password);
    } else if ci.password == "" {
      ci := ci.(password := DEFAULT_PASSWORD);
    }
    if c.user != "" {
      ci := ci.(user := c.user);
    } else if ci.user == "" {
      ci := ci.(user := DEFAULT_USER);
    }
    vm.cloudInit := Some(ci);
  }

  function WithDiskSize(m: Machine, size: string): Result<Machine> {
    if size == "" then Ok(m)
    else if m.disks == [] then Err
    else Ok(m.(disks := m.disks[0 := m.disks[0].(size := size)]))
  }

  method ApplyCreateDiskSize(vm: VirtualMachine, size: string) returns (ok: bool)
    modifies vm`disks
    ensures if ok then WithDiskSize(old(vm.Value()), size) == Ok(vm.Value())
            else WithDiskSize(old(vm.Value()), size).Err? && vm.Value() == old(vm.Value())
  {
    if size == "" {
      return true;
    }
    if |vm.disks| == 0 {
      return false;
    }
    vm.disks := vm.disks[0 := vm.disks[0].(size := size)];
    ok := true;
  }

  /** Every flag stage keeps the defaults a fixpoint. */
  lemma FlagStagesKeepDefaults(m: Machine, pfs: seq<PortForward>, c: Credentials, size: string)
    requires IsDefaulted(m)
    ensures IsDefaulted(m.(networks := WithForwards(m.networks, pfs)))
    ensures IsDefaulted(WithCredentials(m, c))
    ensures WithDiskSize(m, size).Ok? ==> IsDefaulted(WithDiskSize(m, size).value)
  {
    DefaultedFields(m);
    DefaultedFields(m.(networks := WithForwards(m.networks, pfs)));
    DefaultedFields(WithCredentials(m, c));
    if WithDiskSize(m, size).Ok? {
      DefaultedFields(WithDiskSize(m, size).value);
    }
  }

  /** --disk-size is the size of the first disk, all else unchanged, and an error exactly without
      one. */
  lemma SizeGoesToFirst(m: Machine, size: string)
    ensures WithDiskSize(m, size).Err? <==> size != "" && m.disks == []
    ensures WithDiskSize(m, size).Ok? ==>
      var r := WithDiskSize(m, size).value;
      && r == m.(disks := r.disks) && |r.disks| == |m.disks|
      && (size == "" ==> r.disks == m.disks)
      && (size != "" ==> r.disks[0] == m.disks[0].(size := size))
      && forall i :: 1 <= i < |m.disks| ==> r.disks[i] == m.disks[i]
  {
  }
}

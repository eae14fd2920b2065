/** `pkg/config/validator.go`: the checks on a VM description, all reported together. */
module Validator {
  import opened Prelude
  import opened Text
  import opened Config
  import opened Quantity

  datatype Issue =
    | NameRequired | NameInvalid | CoresMissing | CoresTooMany | MemoryRequired | MemoryInvalid
    | DiskNameRequired(disk: nat) | DiskSourceRequired(disk: nat) | DiskSourceBoth(disk: nat)
    | DiskImageMissing(disk: nat) | DiskSizeInvalid(disk: nat) | DiskBusInvalid(disk: nat)
    | NetworkNameRequired(net: nat) | NetworkTypeInvalid(net: nat)
    | HostPortRange(net: nat, forward: nat) | VMPortRange(net: nat, forward: nat) | ProtocolInvalid(net: nat, forward: nat)
    | CloudInitEmpty | ConsoleTypeInvalid | ConsolePortRange

  /** Image paths for which the file system reports "does not exist". */
  type Missing = string -> bool

  function Flag(c: bool, issue: Issue): seq<Issue> {
    if c then [issue] else []
  }

  // ----- Names -----

  predicate NameEnd(c: char) { 'a' <= c <= 'z' || '0' <= c <= '9' }

  /** The regular expression for names: at most 63 lower-case letters, digits and hyphens, with
      no hyphen at either end. */
  predicate ValidName(name: string) {
    && 1 <= |name| <= 63
    && NameEnd(name[0]) && NameEnd(name[|name| - 1])
    && forall i :: 0 <= i < |name| ==> NameEnd(name[i]) || name[i] == '-'
  }

  // ----- The issues, in the order they are reported -----

  function NameIssues(name: string): seq<Issue> {
    Flag(name == "", NameRequired) + Flag(name != "" && !ValidName(name), NameInvalid)
  }

  function CoreIssues(cores: nat): seq<Issue> {
    Flag(cores == 0, CoresMissing) + Flag(cores > 256, CoresTooMany)
  }

  function MemoryIssues(memory: string): seq<Issue> {
    Flag(memory == "", MemoryRequired) + Flag(memory != "" && Bytes(memory).None?, MemoryInvalid)
  }

  function HeadIssues(m: Machine): seq<Issue> {
    NameIssues(m.name) + CoreIssues(m.cpu.cores) + MemoryIssues(m.memory)
  }

  function DiskIssues(d: DiskSpec, i: nat, missing: Missing): seq<Issue> {
    Flag(d.name == "", DiskNameRequired(i))
    + Flag(d.source.image == "" && d.source.containerImage == "", DiskSourceRequired(i))
    + Flag(d.source.image != "" && d.source.containerImage != "", DiskSourceBoth(i))
    + Flag(d.source.image != "" && missing(d.source.image), DiskImageMissing(i))
    + Flag(d.size != "" && Bytes(d.size).None?, DiskSizeInvalid(i))
    + Flag(d.bus !in {"", "virtio", "sata", "scsi"}, DiskBusInvalid(i))
  }

  function DisksIssues(disks: seq<DiskSpec>, missing: Missing): seq<Issue> {
    if disks == [] then []
    else DisksIssues(disks[..|disks| - 1], missing) + DiskIssues(disks[|disks| - 1], |disks| - 1, missing)
  }

  function ForwardIssues(pf: PortForward, i: nat, j: nat): seq<Issue> {
    Flag(pf.hostPort < 1 || pf.hostPort > 65535, HostPortRange(i, j))
    + Flag(pf.vmPort < 1 || pf.vmPort > 65535, VMPortRange(i, j))
    + Flag(pf.protocol !in {"", "tcp", "udp"}, ProtocolInvalid(i, j))
  }

  function ForwardsIssues(pfs: seq<PortForward>, i: nat): seq<Issue> {
    if pfs == [] then [] else ForwardsIssues(pfs[..|pfs| - 1], i) + ForwardIssues(pfs[|pfs| - 1], i, |pfs| - 1)
  }

  function NetworkIssues(n: NetworkSpec, i: nat): seq<Issue> {
    Flag(n.name == "", NetworkNameRequired(i)) + Flag(n.kind !in {"", "masquerade"}, NetworkTypeInvalid(i))
    + ForwardsIssues(n.portForwards, i)
  }

  function NetworksIssues(nets: seq<NetworkSpec>): seq<Issue> {
    if nets == [] then [] else NetworksIssues(nets[..|nets| - 1]) + NetworkIssues(nets[|nets| - 1], |nets| - 1)
  }

  function TailIssues(m: Machine): seq<Issue> {
    Flag(m.cloudInit.Some? && m.cloudInit.value.password == "" && m.cloudInit.value.sshKeys == [], CloudInitEmpty)
    + (if m.console.None? then []
       else Flag(m.console.value.kind !in {"", "vnc", "serial", "auto"}, ConsoleTypeInvalid)
            + Flag(m.console.value.port != 0 && (m.console.value.port < 1 || m.console.value.port > 65535), ConsolePortRange))
  }

  function Issues(m: Machine, missing: Missing): seq<Issue> {
    HeadIssues(m) + DisksIssues(m.disks, missing) + NetworksIssues(m.networks) + TailIssues(m)
  }

  // ----- Validate -----

  method Validate(vm: VirtualMachine, missing: Missing) returns (errs: seq<Issue>)
    ensures errs == Issues(vm.Value(), missing)
  {
    hide NameIssues, CoreIssues, MemoryIssues, DisksIssues, NetworksIssues, TailIssues;
    var name := ValidateName(vm.name);
    var cores := ValidateCores(vm.cpu.cores);
    var memory := ValidateMemory(vm.memory);
    var disks := ValidateDisks(vm.disks, missing);
    var networks := ValidateNetworks(vm.networks);
    var tail := TailIssues(vm.Value());
    errs := name + cores + memory + disks + networks + tail;
  }

  method ValidateName(name: string) returns (errs: seq<Issue>)
    ensures errs == NameIssues(name)
  {
    errs := [];
    if name == "" {
      errs := errs + [NameRequired];
    } else if !ValidName(name) {
      errs := errs + [NameInvalid];
    }
  }

  method ValidateCores(cores: nat) returns (errs: seq<Issue>)
    ensures errs == CoreIssues(cores)
  {
    errs := [];
    if cores == 0 {
      errs := errs + [CoresMissing];
    } else if cores > 256 {
      errs := errs + [CoresTooMany];
    }
  }

  method ValidateMemory(memory: string) returns (errs: seq<Issue>)
    ensures errs == MemoryIssues(memory)
  {
    hide Bytes;
    errs := [];
    if memory == "" {
      errs := errs + [MemoryRequired];
    } else {
      var bytes := ParseQuantityBytes(memory);
      if bytes.None? {
        errs := errs + [MemoryInvalid];
      }
    }
  }

  method ValidateDisks(disks: seq<DiskSpec>, missing: Missing) returns (errs: seq<Issue>)
    ensures errs == DisksIssues(disks, missing)
  {
    hide Bytes;
    errs := [];
    for i := 0 to |disks|
      invariant errs == DisksIssues(disks[..i], missing)
    {
      var d := disks[i];
      assert disks[..i + 1][..i] == disks[..i] && disks[..i + 1][i] == d;
      var found := DiskIssues(d, i, missing);
      errs := errs + found;
    }
    assert disks[..|disks|] == disks;
  }

  method ValidateForwards(pfs: seq<PortForward>, i: nat) returns (errs: seq<Issue>)
    ensures errs == ForwardsIssues(pfs, i)
  {
    errs := [];
    for j := 0 to |pfs|
      invariant errs == ForwardsIssues(pfs[..j], i)
    {
      assert pfs[..j + 1][..j] == pfs[..j] && pfs[..j + 1][j] == pfs[j];
      var found := ForwardIssues(pfs[j], i, j);
      errs := errs + found;
    }
    assert pfs[..|pfs|] == pfs;
  }

  method ValidateNetworks(nets: seq<NetworkSpec>) returns (errs: seq<Issue>)
    ensures errs == NetworksIssues(nets)
  {
    errs := [];
    for i := 0 to |nets|
      invariant errs == NetworksIssues(nets[..i])
    {
      var n := nets[i];
      assert nets[..i + 1][..i] == nets[..i] && nets[..i + 1][i] == n;
      var own := Flag(n.name == "", NetworkNameRequired(i)) + Flag(n.kind !in {"", "masquerade"}, NetworkTypeInvalid(i));
      var forwards := ValidateForwards(n.portForwards, i);
      assert own + forwards == NetworkIssues(n, i);
      errs := errs + (own + forwards);
    }
    assert nets[..|nets|] == nets;
  }

  // ----- What acceptance means -----

  predicate ValidDisk(d: DiskSpec, missing: Missing) {
    && d.name != ""
    && (d.source.image == "" <==> d.source.containerImage != "")
    && (d.source.image != "" ==> !missing(d.source.image))
    && (d.size != "" ==> Bytes(d.size).Some?)
    && d.bus in {"", "virtio", "sata", "scsi"}
  }

  predicate ValidForward(pf: PortForward) {
    1 <= pf.hostPort <= 65535 && 1 <= pf.vmPort <= 65535 && pf.protocol in {"", "tcp", "udp"}
  }

  predicate ValidNetwork(n: NetworkSpec) {
    && n.name != "" && n.kind in {"", "masquerade"}
    && forall j :: 0 <= j < |n.portForwards| ==> ValidForward(n.portForwards[j])
  }

  predicate ValidConsole(c: ConsoleSpec) {
    c.kind in {"", "vnc", "serial", "auto"} && 0 <= c.port <= 65535
  }

  predicate ValidMachine(m: Machine, missing: Missing) {
    && ValidName(m.name) && 1 <= m.cpu.cores <= 256 && Bytes(m.memory).Some?
    && (forall i :: 0 <= i < |m.disks| ==> ValidDisk(m.disks[i], missing))
    && (forall i :: 0 <= i < |m.networks| ==> ValidNetwork(m.networks[i]))
    && (m.cloudInit.Some? ==> m.cloudInit.value.password != "" || m.cloudInit.value.sshKeys != [])
    && (m.console.Some? ==> ValidConsole(m.console.value))
  }

  lemma {:induction false} NoDiskIssues(disks: seq<DiskSpec>, missing: Missing)
    ensures DisksIssues(disks, missing) == [] <==> forall i :: 0 <= i < |disks| ==> ValidDisk(disks[i], missing)
    decreases |disks|
  {
    hide Bytes, DiskIssues, ValidDisk;
    if disks != [] {
      var init := disks[..|disks| - 1];
      NoDiskIssues(init, missing);
      OneDisk(disks[|disks| - 1], |disks| - 1, missing);
      assert forall i :: 0 <= i < |init| ==> init[i] == disks[i];
    }
  }

  lemma OneDisk(d: DiskSpec, i: nat, missing: Missing)
    ensures DiskIssues(d, i, missing) == [] <==> ValidDisk(d, missing)
  {
    hide Bytes;
  }

  lemma OneForward(pf: PortForward, i: nat, j: nat)
    ensures ForwardIssues(pf, i, j) == [] <==> ValidForward(pf)
  {
  }

  lemma {:induction false} NoForwardIssues(pfs: seq<PortForward>, i: nat)
    ensures ForwardsIssues(pfs, i) == [] <==> forall j :: 0 <= j < |pfs| ==> ValidForward(pfs[j])
    decreases |pfs|
  {
    hide ForwardIssues, ValidForward;
    if pfs != [] {
      var init := pfs[..|pfs| - 1];
      NoForwardIssues(init, i);
      OneForward(pfs[|pfs| - 1], i, |pfs| - 1);
      assert forall j :: 0 <= j < |init| ==> init[j] == pfs[j];
    }
  }

  lemma OneNetwork(n: NetworkSpec, i: nat)
    ensures NetworkIssues(n, i) == [] <==> ValidNetwork(n)
  {
    hide ForwardsIssues, ValidForward;
    NoForwardIssues(n.portForwards, i);
  }

  lemma {:induction false} NoNetworkIssues(nets: seq<NetworkSpec>)
    ensures NetworksIssues(nets) == [] <==> forall i :: 0 <= i < |nets| ==> ValidNetwork(nets[i])
    decreases |nets|
  {
    hide NetworkIssues, ValidNetwork;
    if nets != [] {
      var init := nets[..|nets| - 1];
      NoNetworkIssues(init);
      OneNetwork(nets[|nets| - 1], |nets| - 1);
      assert forall i :: 0 <= i < |init| ==> init[i] == nets[i];
    }
  }

  lemma NoHeadIssues(m: Machine)
    ensures HeadIssues(m) == [] <==> ValidName(m.name) && 1 <= m.cpu.cores <= 256 && Bytes(m.memory).Some?
  {
    EmptyIsNoQuantity();
    hide Bytes;
  }

  lemma EmptyIsNoQuantity()
    ensures Bytes("").None?
  {
  }

  /** A description passes exactly when every field is acceptable; the documented minimum of
      128Mi of memory and of one disk is not among the checks. */
  lemma AcceptedExactly(m: Machine, missing: Missing)
    ensures Issues(m, missing) == [] <==> ValidMachine(m, missing)
  {
    hide Bytes, HeadIssues, DisksIssues, NetworksIssues, ValidDisk, ValidNetwork, ValidName;
    NoHeadIssues(m);
    NoDiskIssues(m.disks, missing);
    NoNetworkIssues(m.networks);
  }

  /** The documented minimums are not enforced: one byte of memory and no disk pass. */
  lemma DocumentedMinimumsUnchecked(missing: Missing)
    ensures Issues(Machine("", "", "vm", map[], CPUSpec(1, 0, 0), Decimal(1), [], [], None, None, None), missing) == []
  {
    hide Decimal, Issues, Bytes;
    var m := Machine("", "", "vm", map[], CPUSpec(1, 0, 0), Decimal(1), [], [], None, None, None);
    PlainPrintParse(1);
    assert ValidName("vm");
    AcceptedExactly(m, missing);
  }

  // ----- Which issue is reported when -----

  /** The pattern of names, character by character. */
  predicate MatchesNamePattern(name: string) {
    && 1 <= |name| <= 63
    && forall k :: 0 <= k < |name| ==>
         'a' <= name[k] <= 'z' || '0' <= name[k] <= '9' || (name[k] == '-' && 0 < k < |name| - 1)
  }

  lemma NamePattern(name: string)
    ensures ValidName(name) <==> MatchesNamePattern(name)
  {
    if ValidName(name) {
      forall k | 0 <= k < |name| && name[k] == '-'
        ensures 0 < k < |name| - 1
      {
      }
    }
  }

  /** When an issue is due, issue by issue. */
  predicate Due(m: Machine, missing: Missing, issue: Issue) {
    match issue
    case NameRequired => m.name == ""
    case NameInvalid => m.name != "" && !MatchesNamePattern(m.name)
    case CoresMissing => m.cpu.cores == 0
    case CoresTooMany => m.cpu.cores > 256
    case MemoryRequired => m.memory == ""
    case MemoryInvalid => m.memory != "" && Bytes(m.memory).None?
    case DiskNameRequired(i) => i < |m.disks| && m.disks[i].name == ""
    case DiskSourceRequired(i) => i < |m.disks| && m.disks[i].source == DiskSource("", "")
    case DiskSourceBoth(i) => i < |m.disks| && m.disks[i].source.image != "" && m.disks[i].source.containerImage != ""
    case DiskImageMissing(i) => i < |m.disks| && m.disks[i].source.image != "" && missing(m.disks[i].source.image)
    case DiskSizeInvalid(i) => i < |m.disks| && m.disks[i].size != "" && Bytes(m.disks[i].size).None?
    case DiskBusInvalid(i) => i < |m.disks| && m.disks[i].bus !in {"", "virtio", "sata", "scsi"}
    case NetworkNameRequired(i) => i < |m.networks| && m.networks[i].name == ""
    case NetworkTypeInvalid(i) => i < |m.networks| && m.networks[i].kind !in {"", "masquerade"}
    case HostPortRange(i, j) => i < |m.networks| && j < |m.networks[i].portForwards| && !(1 <= m.networks[i].portForwards[j].hostPort <= 65535)
    case VMPortRange(i, j) => i < |m.networks| && j < |m.networks[i].portForwards| && !(1 <= m.networks[i].portForwards[j].vmPort <= 65535)
    case ProtocolInvalid(i, j) =>
      i < |m.networks| && j < |m.networks[i].portForwards| && m.networks[i].portForwards[j].protocol !in {"", "tcp", "udp"}
    case CloudInitEmpty => m.cloudInit.Some? && m.cloudInit.value.password == "" && m.cloudInit.value.sshKeys == []
    case ConsoleTypeInvalid => m.console.Some? && m.console.value.kind !in {"", "vnc", "serial", "auto"}
    case ConsolePortRange => m.console.Some? && !(0 <= m.console.value.port <= 65535)
  }

  predicate AboutDisks(issue: Issue) {
    || issue.DiskNameRequired? || issue.DiskSourceRequired? || issue.DiskSourceBoth? || issue.DiskImageMissing?
    || issue.DiskSizeInvalid? || issue.DiskBusInvalid?
  }

  predicate AboutForwards(issue: Issue) {
    issue.HostPortRange? || issue.VMPortRange? || issue.ProtocolInvalid?
  }

  predicate AboutNetworks(issue: Issue) {
    issue.NetworkNameRequired? || issue.NetworkTypeInvalid? || AboutForwards(issue)
  }

  lemma DiskDue(m: Machine, missing: Missing, i: nat, issue: Issue)
    requires i < |m.disks|
    ensures issue in DiskIssues(m.disks[i], i, missing) <==> AboutDisks(issue) && issue.disk == i && Due(m, missing, issue)
  {
    hide Bytes, MatchesNamePattern;
    FlagExactly(issue);
    hide Flag;
  }

  lemma FlagExactly(issue: Issue)
    ensures forall c, x :: issue in Flag(c, x) <==> c && issue == x
  {
  }

  lemma {:induction false} DisksDue(m: Machine, missing: Missing, n: nat, issue: Issue)
    requires n <= |m.disks|
    ensures issue in DisksIssues(m.disks[..n], missing) <==> AboutDisks(issue) && issue.disk < n && Due(m, missing, issue)
    decreases n
  {
    hide DiskIssues, Due;
    if n > 0 {
      var disks := m.disks[..n];
      assert disks[..n - 1] == m.disks[..n - 1] && disks[n - 1] == m.disks[n - 1];
      DisksDue(m, missing, n - 1, issue);
      DiskDue(m, missing, n - 1, issue);
    }
  }

  lemma ForwardDue(m: Machine, missing: Missing, i: nat, j: nat, issue: Issue)
    requires i < |m.networks| && j < |m.networks[i].portForwards|
    ensures issue in ForwardIssues(m.networks[i].portForwards[j], i, j) <==>
      AboutForwards(issue) && issue.net == i && issue.forward == j && Due(m, missing, issue)
  {
    hide Bytes, MatchesNamePattern;
  }

  lemma {:induction false} ForwardsDue(m: Machine, missing: Missing, i: nat, n: nat, issue: Issue)
    requires i < |m.networks| && n <= |m.networks[i].portForwards|
    ensures issue in ForwardsIssues(m.networks[i].portForwards[..n], i) <==>
      AboutForwards(issue) && issue.net == i && issue.forward < n && Due(m, missing, issue)
    decreases n
  {
    hide ForwardIssues, Due;
    if n > 0 {
      var all := m.networks[i].portForwards;
      var pfs := all[..n];
      assert pfs[..n - 1] == all[..n - 1] && pfs[n - 1] == all[n - 1];
      ForwardsDue(m, missing, i, n - 1, issue);
      ForwardDue(m, missing, i, n - 1, issue);
    }
  }

  lemma NetworkDue(m: Machine, missing: Missing, i: nat, issue: Issue)
    requires i < |m.networks|
    ensures issue in NetworkIssues(m.networks[i], i) <==> AboutNetworks(issue) && issue.net == i && Due(m, missing, issue)
  {
    hide Bytes, MatchesNamePattern, ForwardsIssues;
    var pfs := m.networks[i].portForwards;
    ForwardsDue(m, missing, i, |pfs|, issue);
    assert pfs[..|pfs|] == pfs;
  }

  lemma {:induction false} NetworksDue(m: Machine, missing: Missing, n: nat, issue: Issue)
    requires n <= |m.networks|
    ensures issue in NetworksIssues(m.networks[..n]) <==> AboutNetworks(issue) && issue.net < n && Due(m, missing, issue)
    decreases n
  {
    hide NetworkIssues, Due;
    if n > 0 {
      var nets := m.networks[..n];
      assert nets[..n - 1] == m.networks[..n - 1] && nets[n - 1] == m.networks[n - 1];
      NetworksDue(m, missing, n - 1, issue);
      NetworkDue(m, missing, n - 1, issue);
    }
  }

  lemma HeadDue(m: Machine, missing: Missing, issue: Issue)
    ensures issue in HeadIssues(m) <==>
      issue in {NameRequired, NameInvalid, CoresMissing, CoresTooMany, MemoryRequired, MemoryInvalid} && Due(m, missing, issue)
  {
    hide Bytes, MatchesNamePattern, ValidName;
    NamePattern(m.name);
  }

  lemma TailDue(m: Machine, missing: Missing, issue: Issue)
    ensures issue in TailIssues(m) <==> issue in {CloudInitEmpty, ConsoleTypeInvalid, ConsolePortRange} && Due(m, missing, issue)
  {
    hide Bytes, MatchesNamePattern;
  }

  /** Every issue is reported exactly when it is due, for the disk, network and forward it names. */
  lemma IssuesExactly(m: Machine, missing: Missing, issue: Issue)
    ensures issue in Issues(m, missing) <==> Due(m, missing, issue)
  {
    hide HeadIssues, DisksIssues, NetworksIssues, TailIssues;
    HeadDue(m, missing, issue);
    DisksDue(m, missing, |m.disks|, issue);
    NetworksDue(m, missing, |m.networks|, issue);
    TailDue(m, missing, issue);
    assert m.disks[..|m.disks|] == m.disks && m.networks[..|m.networks|] == m.networks;
  }

  // ----- And in which order -----

  /** The section of the report an issue belongs to. */
  function Section(issue: Issue): nat {
    match issue
    case NameRequired => 0 case NameInvalid => 0
    case CoresMissing => 1 case CoresTooMany => 1
    case MemoryRequired => 2 case MemoryInvalid => 2
    case CloudInitEmpty => 5 case ConsoleTypeInvalid => 6 case ConsolePortRange => 7
    case _ => if AboutDisks(issue) then 3 else 4
  }

  /** The disk or network, the forward plus one, and the check. */
  function Place(issue: Issue): (nat, nat, nat) {
    match issue
    case DiskNameRequired(i) => (i, 0, 0)
    case DiskSourceRequired(i) => (i, 0, 1)
    case DiskSourceBoth(i) => (i, 0, 2)
    case DiskImageMissing(i) => (i, 0, 3)
    case DiskSizeInvalid(i) => (i, 0, 4)
    case DiskBusInvalid(i) => (i, 0, 5)
    case NetworkNameRequired(i) => (i, 0, 0)
    case NetworkTypeInvalid(i) => (i, 0, 1)
    case HostPortRange(i, j) => (i, j + 1, 0)
    case VMPortRange(i, j) => (i, j + 1, 1)
    case ProtocolInvalid(i, j) => (i, j + 1, 2)
    case _ => (0, 0, 0)
  }

  /** Sections in turn; within one, disk by disk or network by network, a network's own checks
      before its forwards, and forward by forward. */
  predicate Before(a: Issue, b: Issue) {
    var (p, q) := (Place(a), Place(b));
    || Section(a) < Section(b)
    || (Section(a) == Section(b) &&
        (p.0 < q.0 || (p.0 == q.0 && (p.1 < q.1 || (p.1 == q.1 && p.2 < q.2)))))
  }

  predicate Ordered(s: seq<Issue>) {
    forall i, j :: 0 <= i < j < |s| ==> Before(s[i], s[j])
  }

  predicate AllBefore(a: seq<Issue>, b: seq<Issue>) {
    forall x, y :: x in a && y in b ==> Before(x, y)
  }

  lemma OrderedConcat(a: seq<Issue>, b: seq<Issue>)
    requires Ordered(a) && Ordered(b) && AllBefore(a, b)
    ensures Ordered(a + b)
  {
    hide Before;
    var s := a + b;
    forall i, j | 0 <= i < j < |s|
      ensures Before(s[i], s[j])
    {
      if i < |a| && j >= |a| {
        assert s[i] in a && s[j] in b;
      } else if i >= |a| {
        assert s[i] == b[i - |a|] && s[j] == b[j - |a|];
      }
    }
  }

  /** Issues of disk i, in order, up to check n. */
  predicate DiskReport(s: seq<Issue>, i: nat, n: nat) {
    Ordered(s) && forall x :: x in s ==> AboutDisks(x) && x.disk == i && Place(x).2 < n
  }

  lemma DiskReportGrows(s: seq<Issue>, c: bool, issue: Issue, i: nat)
    requires AboutDisks(issue) && issue.disk == i && DiskReport(s, i, Place(issue).2)
    ensures DiskReport(s + Flag(c, issue), i, Place(issue).2 + 1)
  {
    forall x | x in s
      ensures Before(x, issue)
    {
    }
    OrderedConcat(s, Flag(c, issue));
  }

  lemma NoReport(i: nat)
    ensures DiskReport([], i, 0)
  {
  }

  lemma ThreeReported(s: seq<Issue>, i: nat, c0: bool, c1: bool, c2: bool)
    requires DiskReport(s, i, 0)
    ensures DiskReport(s + Flag(c0, DiskNameRequired(i)) + Flag(c1, DiskSourceRequired(i)) + Flag(c2, DiskSourceBoth(i)), i, 3)
  {
    hide DiskReport, Flag;
    DiskReportGrows(s, c0, DiskNameRequired(i), i);
    var s1 := s + Flag(c0, DiskNameRequired(i));
    DiskReportGrows(s1, c1, DiskSourceRequired(i), i);
    DiskReportGrows(s1 + Flag(c1, DiskSourceRequired(i)), c2, DiskSourceBoth(i), i);
  }

  lemma ThreeMoreReported(s: seq<Issue>, i: nat, c3: bool, c4: bool, c5: bool)
    requires DiskReport(s, i, 3)
    ensures DiskReport(s + Flag(c3, DiskImageMissing(i)) + Flag(c4, DiskSizeInvalid(i)) + Flag(c5, DiskBusInvalid(i)), i, 6)
  {
    hide DiskReport, Flag;
    DiskReportGrows(s, c3, DiskImageMissing(i), i);
    var s4 := s + Flag(c3, DiskImageMissing(i));
    DiskReportGrows(s4, c4, DiskSizeInvalid(i), i);
    DiskReportGrows(s4 + Flag(c4, DiskSizeInvalid(i)), c5, DiskBusInvalid(i), i);
  }

  lemma DiskOrdered(d: DiskSpec, i: nat, missing: Missing)
    ensures Ordered(DiskIssues(d, i, missing))
    ensures forall x :: x in DiskIssues(d, i, missing) ==> AboutDisks(x) && x.disk == i
  {
    hide DiskReport, Flag, Bytes, Ordered;
    var (c0, c1) := (d.name == "", d.source.image == "" && d.source.containerImage == "");
    var (c2, c3) := (d.source.image != "" && d.source.containerImage != "", d.source.image != "" && missing(d.source.image));
    var (c4, c5) := (d.size != "" && Bytes(d.size).None?, d.bus !in {"", "virtio", "sata", "scsi"});
    NoReport(i);
    ThreeReported([], i, c0, c1, c2);
    var s := Flag(c0, DiskNameRequired(i)) + Flag(c1, DiskSourceRequired(i)) + Flag(c2, DiskSourceBoth(i));
    assert [] + Flag(c0, DiskNameRequired(i)) == Flag(c0, DiskNameRequired(i));
    ThreeMoreReported(s, i, c3, c4, c5);
    ReportIs(DiskIssues(d, i, missing), i);
  }

  lemma ReportIs(s: seq<Issue>, i: nat)
    requires DiskReport(s, i, 6)
    ensures Ordered(s) && forall x :: x in s ==> AboutDisks(x) && x.disk == i
  {
  }

  lemma {:induction false} DisksOrdered(m: Machine, missing: Missing, n: nat)
    requires n <= |m.disks|
    ensures Ordered(DisksIssues(m.disks[..n], missing))
    decreases n
  {
    hide DiskIssues, Ordered;
    if n > 0 {
      var disks := m.disks[..n];
      assert disks[..n - 1] == m.disks[..n - 1] && disks[n - 1] == m.disks[n - 1];
      DisksOrdered(m, missing, n - 1);
      DiskOrdered(m.disks[n - 1], n - 1, missing);
      var a, b := DisksIssues(m.disks[..n - 1], missing), DiskIssues(m.disks[n - 1], n - 1, missing);
      forall x, y | x in a && y in b
        ensures Before(x, y)
      {
        DisksDue(m, missing, n - 1, x);
      }
      OrderedConcat(a, b);
    } else {
      NothingOrdered();
    }
  }

  lemma NothingOrdered()
    ensures Ordered([])
  {
  }

  lemma ForwardOrdered(pf: PortForward, i: nat, j: nat)
    ensures Ordered(ForwardIssues(pf, i, j))
    ensures forall x :: x in ForwardIssues(pf, i, j) ==> AboutForwards(x) && x.net == i && x.forward == j
  {
  }

  lemma {:induction false} ForwardsOrdered(m: Machine, missing: Missing, i: nat, n: nat)
    requires i < |m.networks| && n <= |m.networks[i].portForwards|
    ensures Ordered(ForwardsIssues(m.networks[i].portForwards[..n], i))
    decreases n
  {
    hide ForwardIssues, Ordered;
    if n > 0 {
      var all := m.networks[i].portForwards;
      var pfs := all[..n];
      assert pfs[..n - 1] == all[..n - 1] && pfs[n - 1] == all[n - 1];
      ForwardsOrdered(m, missing, i, n - 1);
      ForwardOrdered(all[n - 1], i, n - 1);
      var a, b := ForwardsIssues(all[..n - 1], i), ForwardIssues(all[n - 1], i, n - 1);
      forall x, y | x in a && y in b
        ensures Before(x, y)
      {
        ForwardsDue(m, missing, i, n - 1, x);
      }
      OrderedConcat(a, b);
    } else {
      NothingOrdered();
    }
  }

  lemma OwnOrdered(n: NetworkSpec, i: nat)
    ensures var own := Flag(n.name == "", NetworkNameRequired(i)) + Flag(n.kind !in {"", "masquerade"}, NetworkTypeInvalid(i));
      Ordered(own) && forall x :: x in own ==> x in {NetworkNameRequired(i), NetworkTypeInvalid(i)}
  {
  }

  lemma NetworkOrdered(m: Machine, missing: Missing, i: nat)
    requires i < |m.networks|
    ensures Ordered(NetworkIssues(m.networks[i], i))
  {
    hide ForwardsIssues, Ordered, Due;
    var n := m.networks[i];
    var own := Flag(n.name == "", NetworkNameRequired(i)) + Flag(n.kind !in {"", "masquerade"}, NetworkTypeInvalid(i));
    OwnOrdered(n, i);
    ForwardsOrdered(m, missing, i, |n.portForwards|);
    assert n.portForwards[..|n.portForwards|] == n.portForwards;
    forall x, y | x in own && y in ForwardsIssues(n.portForwards, i)
      ensures Before(x, y)
    {
      ForwardsDue(m, missing, i, |n.portForwards|, y);
    }
    OrderedConcat(own, ForwardsIssues(n.portForwards, i));
  }

  lemma EarlierNetworkFirst(x: Issue, y: Issue)
    requires AboutNetworks(x) && AboutNetworks(y) && x.net < y.net
    ensures Before(x, y)
  {
  }

  lemma {:induction false} NetworksOrdered(m: Machine, missing: Missing, n: nat)
    requires n <= |m.networks|
    ensures Ordered(NetworksIssues(m.networks[..n]))
    decreases n
  {
    hide NetworkIssues, Ordered, Due, Before, AboutNetworks;
    if n > 0 {
      var nets := m.networks[..n];
      assert nets[..n - 1] == m.networks[..n - 1] && nets[n - 1] == m.networks[n - 1];
      NetworksOrdered(m, missing, n - 1);
      NetworkOrdered(m, missing, n - 1);
      var a, b := NetworksIssues(m.networks[..n - 1]), NetworkIssues(m.networks[n - 1], n - 1);
      forall x, y | x in a && y in b
        ensures Before(x, y)
      {
        NetworksDue(m, missing, n - 1, x);
        NetworkDue(m, missing, n - 1, y);
        EarlierNetworkFirst(x, y);
      }
      OrderedConcat(a, b);
    } else {
      NothingOrdered();
    }
  }

  lemma HeadOrdered(m: Machine)
    ensures Ordered(HeadIssues(m))
  {
    hide Bytes, ValidName;
  }

  lemma TailOrdered(m: Machine)
    ensures Ordered(TailIssues(m))
  {
  }

  /** The report is the due issues, each once, in the order of the description: name, CPU, memory,
      disk by disk, network by network with its forwards, cloud-init, console. */
  lemma ReportExactly(m: Machine, missing: Missing)
    ensures Ordered(Issues(m, missing)) && forall issue :: issue in Issues(m, missing) <==> Due(m, missing, issue)
  {
    hide HeadIssues, DisksIssues, NetworksIssues, TailIssues, Ordered, Due;
    var head, disks, nets, tail := HeadIssues(m), DisksIssues(m.disks, missing), NetworksIssues(m.networks), TailIssues(m);
    HeadOrdered(m);
    DisksOrdered(m, missing, |m.disks|);
    NetworksOrdered(m, missing, |m.networks|);
    TailOrdered(m);
    assert m.disks[..|m.disks|] == m.disks && m.networks[..|m.networks|] == m.networks;
    forall x
      ensures x in head ==> Section(x) <= 2
      ensures x in disks ==> Section(x) == 3
      ensures x in nets ==> Section(x) == 4
      ensures x in tail ==> Section(x) >= 5
    {
      HeadDue(m, missing, x);
      DisksDue(m, missing, |m.disks|, x);
      NetworksDue(m, missing, |m.networks|, x);
      TailDue(m, missing, x);
    }
    OrderedConcat(head, disks);
    OrderedConcat(head + disks, nets);
    OrderedConcat(head + disks + nets, tail);
    forall issue
      ensures issue in Issues(m, missing) <==> Due(m, missing, issue)
    {
      IssuesExactly(m, missing, issue);
    }
  }
}

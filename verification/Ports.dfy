/** Port forwards from the description to Podman, the VMI and `podvirt ssh`. */
module Ports {
  import opened Prelude
  import opened Text
  import opened Config
  import opened CreateFlags
  import opened DiskImage
  import opened Validator
  import opened Vmi

  datatype PortMapping = PortMapping(hostPort: nat, containerPort: nat, protocol: string)

  /** Go's `uint16(x)` of an int. */
  function U16(x: int): (r: nat)
    ensures r < 0x1_0000 && (0 <= x < 0x1_0000 ==> r == x)
  {
    x % 0x1_0000
  }

  function Mapping(pf: PortForward): PortMapping {
    PortMapping(U16(pf.hostPort), U16(pf.vmPort), ToLower(if pf.protocol == "" then "tcp" else pf.protocol))
  }

  function Mappings(pfs: seq<PortForward>): (r: seq<PortMapping>)
    ensures |r| == |pfs| && forall i :: 0 <= i < |pfs| ==> r[i] == Mapping(pfs[i])
  {
    seq(|pfs|, i requires 0 <= i < |pfs| => Mapping(pfs[i]))
  }

  method BuildPortMappings(result: VmiResult) returns (pm: seq<PortMapping>)
    ensures pm == Mappings(result.portForwards)
  {
    pm := [];
    for i := 0 to |result.portForwards|
      invariant pm == Mappings(result.portForwards)[..i]
    {
      var pf := result.portForwards[i];
      var proto := pf.protocol;
      if proto == "" {
        proto := "tcp";
      }
      pm := pm + [PortMapping(U16(pf.hostPort), U16(pf.vmPort), ToLower(proto))];
    }
  }

  // ----- podvirt ssh -----

  /** The host port ssh connects to; 0 means that there is none. */
  function SshPort(portOverride: int, mappings: seq<PortMapping>): int {
    if portOverride != 0 then portOverride
    else if mappings == [] then 0
    else if mappings[0].containerPort == 22 then mappings[0].hostPort
    else SshPort(0, mappings[1..])
  }

  method ResolveSshPort(portOverride: int, mappings: seq<PortMapping>) returns (hostPort: int)
    ensures hostPort == SshPort(portOverride, mappings)
  {
    hostPort := portOverride;
    if hostPort == 0 {
      for i := 0 to |mappings|
        invariant hostPort == 0 && SshPort(0, mappings) == SshPort(0, mappings[i..])
      {
        assert mappings[i..][0] == mappings[i] && mappings[i..][1..] == mappings[i + 1..];
        if mappings[i].containerPort == 22 {
          hostPort := mappings[i].hostPort;
          break;
        }
      }
      assert mappings[|mappings|..] == [];
    }
  }

  /** A port given on the command line is used as it is. */
  lemma OverrideWins(portOverride: int, mappings: seq<PortMapping>)
    requires portOverride != 0
    ensures SshPort(portOverride, mappings) == portOverride
  {
  }

  /** Mapping i is the first one of port 22. */
  predicate FirstSsh(mappings: seq<PortMapping>, i: int) {
    0 <= i < |mappings| && mappings[i].containerPort == 22 && forall j :: 0 <= j < i ==> mappings[j].containerPort != 22
  }

  /** Without an override ssh takes the first mapping of port 22, and reports a missing mapping
      exactly when there is none, or when that first one has host port 0. */
  lemma {:induction false} SshPicksFirst(mappings: seq<PortMapping>)
    ensures SshPort(0, mappings) == 0 <==>
      forall i :: 0 <= i < |mappings| && mappings[i].containerPort == 22 ==>
        mappings[i].hostPort == 0 || exists j :: 0 <= j < i && mappings[j].containerPort == 22 && mappings[j].hostPort == 0
    ensures forall i :: FirstSsh(mappings, i) ==> SshPort(0, mappings) == mappings[i].hostPort
    decreases |mappings|
  {
    if mappings != [] && mappings[0].containerPort != 22 {
      var rest := mappings[1..];
      SshPicksFirst(rest);
      assert forall i :: 0 <= i < |rest| ==> rest[i] == mappings[i + 1];
      assert forall i :: 1 <= i < |mappings| ==> mappings[i] == rest[i - 1];
      assert forall i :: FirstSsh(mappings, i) ==> i >= 1 && FirstSsh(rest, i - 1);
    }
  }

  /** Podman gets the protocol in lower case, tcp when none is given, and 16-bit ports. */
  lemma MappingsExactly(pfs: seq<PortForward>, i: nat)
    requires i < |pfs|
    ensures |Mappings(pfs)| == |pfs| && Mappings(pfs)[i].protocol == if pfs[i].protocol == "" then "tcp" else ToLower(pfs[i].protocol)
    ensures var pm := Mappings(pfs)[i];
      && pm.hostPort < 0x1_0000 && (pm.hostPort - pfs[i].hostPort) % 0x1_0000 == 0
      && pm.containerPort < 0x1_0000 && (pm.containerPort - pfs[i].vmPort) % 0x1_0000 == 0
  {
    hide ToLower;
    TcpIsLower();
    U16Wraps(pfs[i].hostPort);
    U16Wraps(pfs[i].vmPort);
  }

  lemma U16Wraps(x: int)
    ensures (U16(x) - x) % 0x1_0000 == 0
  {
    assert U16(x) - x == -(x / 0x1_0000) * 0x1_0000;
  }

  lemma TcpIsLower()
    ensures ToLower("tcp") == "tcp"
  {
  }

  /** For validated forwards the VMI says UDP or TCP, and Podman udp or tcp; tcp is the default. */
  lemma ProtocolsExactly(pfs: seq<PortForward>, i: nat)
    requires i < |pfs| && ValidForward(pfs[i])
    ensures VmiPorts(pfs)[i].protocol == if pfs[i].protocol == "udp" then "UDP" else "TCP"
    ensures Mappings(pfs)[i].protocol == if pfs[i].protocol == "udp" then "udp" else "tcp"
  {
    hide ToLower, ToUpper;
    ProtocolTexts();
    assert "udp" != "" && "udp" != "tcp" by { assert "udp"[0] != "tcp"[0]; }
  }

  lemma ProtocolTexts()
    ensures ToUpper("tcp") == "TCP" && ToUpper("TCP") == "TCP" && ToUpper("udp") == "UDP"
    ensures ToLower("tcp") == "tcp" && ToLower("udp") == "udp"
  {
  }

  // ----- Conservation -----

  function AllPorts(interfaces: seq<Interface>): seq<VmiPort> {
    if interfaces == [] then [] else interfaces[0].ports + AllPorts(interfaces[1..])
  }

  lemma {:induction false} InterfacePorts(nets: seq<NetworkSpec>)
    ensures AllPorts(Interfaces(nets)) == VmiPorts(AllForwards(nets))
    decreases |nets|
  {
    if nets != [] {
      InterfacePorts(nets[1..]);
      assert Interfaces(nets)[1..] == Interfaces(nets[1..]);
      PortsConcat(nets[0].portForwards, AllForwards(nets[1..]));
    }
  }

  lemma PortsConcat(a: seq<PortForward>, b: seq<PortForward>)
    ensures VmiPorts(a + b) == VmiPorts(a) + VmiPorts(b)
  {
  }

  lemma {:induction false} ForwardsAreValid(nets: seq<NetworkSpec>)
    requires forall i :: 0 <= i < |nets| ==> ValidNetwork(nets[i])
    ensures forall k :: 0 <= k < |AllForwards(nets)| ==> ValidForward(AllForwards(nets)[k])
    decreases |nets|
  {
    if nets != [] {
      ForwardsAreValid(nets[1..]);
    }
  }

  lemma ProtocolsAgree(p: string)
    ensures ToLower(ToUpper(if p == "" then "TCP" else p)) == ToLower(if p == "" then "tcp" else p)
  {
    if p == "" {
      assert ToLower(ToUpper("TCP")) == ToLower("tcp");
    } else {
      LowerOfUpper(p);
    }
  }

  /**
   Port conservation.  For a VM whose networks are validated the Podman mappings are, in order, all forwards of
   all networks, none truncated; they agree, port for port and up to protocol case, with the
   ports of the VMI's interfaces; and ssh without an override connects to the host port of the
   first forward to VM port 22, reporting a missing mapping exactly when there is none.
   */
  lemma PortsAreConserved(files: Files, m: Machine)
    requires (forall i :: 0 <= i < |m.networks| ==> ValidNetwork(m.networks[i])) && Convert(files, m).Ok?
    ensures var r := Convert(files, m).value;
      var pfs := AllForwards(m.networks);
      var pm, vp := Mappings(r.portForwards), AllPorts(r.vmi.interfaces);
      && |pm| == |vp| == |pfs|
      && (forall i :: 0 <= i < |pfs| ==>
            && pm[i].hostPort == pfs[i].hostPort && pm[i].containerPort == pfs[i].vmPort
            && vp[i].port == pfs[i].vmPort && ToLower(vp[i].protocol) == pm[i].protocol)
      && (SshPort(0, pm) == 0 <==> forall i :: 0 <= i < |pfs| ==> pfs[i].vmPort != 22)
      && (forall i :: 0 <= i < |pfs| && pfs[i].vmPort == 22 && (forall j :: 0 <= j < i ==> pfs[j].vmPort != 22)
            ==> SshPort(0, pm) == pfs[i].hostPort)
  {
    var pfs := AllForwards(m.networks);
    ConvertedPorts(files, m);
    ForwardsAreValid(m.networks);
    InterfacePorts(m.networks);
    MappingsAgree(pfs);
  }

  lemma ConvertedPorts(files: Files, m: Machine)
    requires Convert(files, m).Ok?
    ensures Convert(files, m).value.portForwards == AllForwards(m.networks)
    ensures Convert(files, m).value.vmi.interfaces == Interfaces(m.networks)
  {
    hide HostVolumes, HostMounts;
  }

  lemma MappingsAgree(pfs: seq<PortForward>)
    requires forall k :: 0 <= k < |pfs| ==> ValidForward(pfs[k])
    ensures var pm, vp := Mappings(pfs), VmiPorts(pfs);
      && (forall i :: 0 <= i < |pfs| ==>
            && pm[i].hostPort == pfs[i].hostPort && pm[i].containerPort == pfs[i].vmPort
            && vp[i].port == pfs[i].vmPort && ToLower(vp[i].protocol) == pm[i].protocol)
      && (SshPort(0, pm) == 0 <==> forall i :: 0 <= i < |pfs| ==> pfs[i].vmPort != 22)
      && (forall i :: 0 <= i < |pfs| && pfs[i].vmPort == 22 && (forall j :: 0 <= j < i ==> pfs[j].vmPort != 22)
            ==> SshPort(0, pm) == pfs[i].hostPort)
  {
    hide ToLower, ToUpper;
    var pm := Mappings(pfs);
    forall i | 0 <= i < |pfs|
      ensures ToLower(VmiPorts(pfs)[i].protocol) == pm[i].protocol
    {
      ProtocolsAgree(pfs[i].protocol);
    }
    SshPicksFirst(pm);
  }
}

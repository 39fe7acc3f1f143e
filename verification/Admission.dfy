/** The checks between the command line and the sockets. */
module Admission {
  import opened Options
  import opened Addresses
  import opened Ssm
  import opened Interfaces

  datatype Transport = Tcp | Udp

  /** Sources have already passed the parser's own check. */
  datatype Participant = Client(server: IpAddr) | Server(listen: IpAddr, sources: seq<IpAddr>)

  datatype Cli = Cli(transport: Transport, scope: nat, iface: Option<Selector>, kind: Participant)

  datatype CliError =
    | BadDestination(fault: DestinationFault)
    | SourcesMissing
    | ListenNotMulticast
    | FamilyMismatch(source: IpAddr)
    | InterfaceMissing

  predicate SameFamily(a: IpAddr, b: IpAddr) {
    a.V4? == b.V4?
  }

  /** What a server needs to be let through. */
  ghost predicate Admissible(listen: IpAddr, sources: seq<IpAddr>, iface: Option<Selector>) {
    && (IsSsm(listen) ==> DestinationFaultOf(listen).None? && sources != [])
    && (sources != [] ==>
          IsMulticast(listen) && iface.Some? && forall i | 0 <= i < |sources| :: SameFamily(sources[i], listen))
  }

  /** What is let through, by range. */
  lemma AdmissibleMeaning(listen: IpAddr, sources: seq<IpAddr>, iface: Option<Selector>)
    ensures sources == [] ==>
      (Admissible(listen, sources, iface) <==>
       match listen {
         case V4(v4) => v4.a != 232
         case V6(v6) => !((0xff30 <= v6.s0 <= 0xff3f || 0xffb0 <= v6.s0 <= 0xffbf) && v6.s1 % 0x100 == 0)
       })
    ensures sources != [] ==>
      (Admissible(listen, sources, iface) <==>
       && iface.Some?
       && match listen {
            case V4(v4) =>
              && 224 <= v4.a <= 239 && v4 != Ipv4(232, 0, 0, 0)
              && forall i | 0 <= i < |sources| :: sources[i].V4?
            case V6(v6) =>
              && v6.s0 >= 0xff00
              && ((0xff30 <= v6.s0 <= 0xff3f || 0xffb0 <= v6.s0 <= 0xffbf) && v6.s1 % 0x100 == 0 ==>
                    && v6.s0 % 16 >= 3
                    && !(v6.s2 == 0 && v6.s3 == 0 && v6.s4 == 0 && v6.s5 == 0 && v6.s6 == 0x4000 && v6.s7 == 0))
              && forall i | 0 <= i < |sources| :: sources[i].V6?
          })
  {
    SsmGroups(listen);
    MulticastRange(listen);
    UsableDestinations(listen);
  }

  method Validate(listen: IpAddr, sources: seq<IpAddr>, iface: Option<Selector>) returns (error: Option<CliError>)
    ensures error.None? <==> Admissible(listen, sources, iface)
    ensures error.Some? ==>
      match error.value {
        case BadDestination(fault) => IsSsm(listen) && DestinationFaultOf(listen) == Some(fault)
        case SourcesMissing => IsSsm(listen) && DestinationFaultOf(listen).None? && sources == []
        case ListenNotMulticast => sources != [] && !IsMulticast(listen)
        case FamilyMismatch(source) =>
          && IsMulticast(listen)
          && exists i :: 0 <= i < |sources| && source == sources[i] && sources[i].V4? != listen.V4?
                      && forall j | 0 <= j < i :: sources[j].V4? == listen.V4?
        case InterfaceMissing =>
          && IsMulticast(listen) && sources != [] && iface.None?
          && forall j | 0 <= j < |sources| :: sources[j].V4? == listen.V4?
      }
    ensures IsSsm(listen) && DestinationFaultOf(listen).Some? ==>
      error == Some(BadDestination(DestinationFaultOf(listen).value))
    // A server without sources is refused exactly on an SSM group.
    ensures sources == [] ==>
      (error.Some? <==>
       match listen {
         case V4(v4) => v4.a == 232
         case V6(v6) => (0xff30 <= v6.s0 <= 0xff3f || 0xffb0 <= v6.s0 <= 0xffbf) && v6.s1 % 0x100 == 0
       })
  {
    SourcesAreNotGroups(listen);
    AdmissibleMeaning(listen, sources, iface);
    var isSsm := IsSsm(listen);
    if isSsm && DestinationFaultOf(listen).Some? {
      return Some(BadDestination(DestinationFaultOf(listen).value));
    }
    if sources == [] {
      return if isSsm then Some(SourcesMissing) else None;
    }
    if !IsMulticast(listen) {
      return Some(ListenNotMulticast);
    }
    for i := 0 to |sources|
      invariant forall j | 0 <= j < i :: sources[j].V4? == listen.V4?
    {
      if !SameFamily(sources[i], listen) {
        return Some(FamilyMismatch(sources[i]));
      }
    }
    error := if iface.None? then Some(InterfaceMissing) else None;
  }

  datatype Launch = TcpMulticast | Invalid(error: CliError) | RunTcp | RunUdp

  /** The server's address, for either participant. */
  function Target(kind: Participant): IpAddr {
    match kind
    case Client(server) => server
    case Server(listen, _) => listen
  }

  /** The program's entry: the transport gate, then validation, then dispatch. */
  method Dispatch(cli: Cli) returns (launch: Launch)
    // The gate.
    ensures launch == TcpMulticast <==>
      && cli.transport == Tcp
      && match cli.kind { case Client(server) => IsMulticast(server) case Server(listen, _) => IsMulticast(listen) }
    // Past the gate, a client runs, and so does an admissible server; another is refused for the reason found.
    ensures launch == RunUdp ==> cli.transport == Udp
    ensures launch == RunTcp ==> cli.transport == Tcp
    ensures cli.kind.Client? ==> !launch.Invalid?
    ensures cli.kind.Server? && launch != TcpMulticast ==>
      (launch.Invalid? <==> !Admissible(cli.kind.listen, cli.kind.sources, cli.iface))
    ensures launch.Invalid? ==>
      var listen, sources := cli.kind.listen, cli.kind.sources;
      match launch.error {
        case BadDestination(fault) => IsSsm(listen) && DestinationFaultOf(listen) == Some(fault)
        case SourcesMissing => IsSsm(listen) && DestinationFaultOf(listen).None? && sources == []
        case ListenNotMulticast => sources != [] && !IsMulticast(listen)
        case FamilyMismatch(source) =>
          && IsMulticast(listen) && (IsSsm(listen) ==> DestinationFaultOf(listen).None?)
          && exists i :: 0 <= i < |sources| && source == sources[i] && sources[i].V4? != listen.V4?
                      && forall j | 0 <= j < i :: sources[j].V4? == listen.V4?
        case InterfaceMissing =>
          && IsMulticast(listen) && (IsSsm(listen) ==> DestinationFaultOf(listen).None?)
          && sources != [] && cli.iface.None? && forall j | 0 <= j < |sources| :: sources[j].V4? == listen.V4?
      }
    ensures launch == RunTcp && cli.kind.Server? ==> cli.kind.sources == []
  {
    if cli.transport == Tcp && IsMulticast(Target(cli.kind)) {
      return TcpMulticast;
    }
    if cli.kind.Server? {
      var error := Validate(cli.kind.listen, cli.kind.sources, cli.iface);
      if error.Some? {
        return Invalid(error.value);
      }
    }
    launch := if cli.transport == Tcp then RunTcp else RunUdp;
  }

  // ---------- The family filters ----------

  function SourcesV4(sources: seq<IpAddr>): seq<Ipv4> {
    if sources == [] then []
    else (if sources[0].V4? then [sources[0].v4] else []) + SourcesV4(sources[1..])
  }

  function SourcesV6(sources: seq<IpAddr>): seq<Ipv6> {
    if sources == [] then []
    else (if sources[0].V6? then [sources[0].v6] else []) + SourcesV6(sources[1..])
  }

  lemma FilterOne(source: IpAddr)
    ensures SourcesV4([]) == [] && SourcesV6([]) == []
    ensures SourcesV4([source]) == if source.V4? then [source.v4] else []
    ensures SourcesV6([source]) == if source.V6? then [source.v6] else []
  {
    assert [source][1..] == [];
  }

  /** Of a mixed list, each filter keeps its own family, in order. */
  lemma {:induction false} V4FilterConcat(a: seq<IpAddr>, b: seq<IpAddr>)
    ensures SourcesV4(a + b) == SourcesV4(a) + SourcesV4(b)
  {
    if a == [] {
      assert a + b == b;
    } else {
      V4FilterConcat(a[1..], b);
      assert (a + b)[1..] == a[1..] + b;
    }
  }

  lemma {:induction false} V6FilterConcat(a: seq<IpAddr>, b: seq<IpAddr>)
    ensures SourcesV6(a + b) == SourcesV6(a) + SourcesV6(b)
  {
    if a == [] {
      assert a + b == b;
    } else {
      V6FilterConcat(a[1..], b);
      assert (a + b)[1..] == a[1..] + b;
    }
  }

  /** The IPv4 filter keeps everything, in order, exactly when everything is IPv4. */
  lemma {:induction false} V4FilterLossless(sources: seq<IpAddr>)
    ensures |SourcesV4(sources)| <= |sources|
    ensures |SourcesV4(sources)| == |sources| <==> forall i | 0 <= i < |sources| :: sources[i].V4?
    ensures (forall i | 0 <= i < |sources| :: sources[i].V4?) ==>
      forall i | 0 <= i < |SourcesV4(sources)| :: V4(SourcesV4(sources)[i]) == sources[i]
  {
    if sources != [] {
      var rest := sources[1..];
      V4FilterLossless(rest);
      assert forall i | 1 <= i < |sources| :: sources[i] == rest[i - 1];
      assert forall i | 0 <= i < |rest| :: rest[i] == sources[i + 1];
    }
  }

  /** And so does the IPv6 filter. */
  lemma {:induction false} V6FilterLossless(sources: seq<IpAddr>)
    ensures |SourcesV6(sources)| <= |sources|
    ensures |SourcesV6(sources)| == |sources| <==> forall i | 0 <= i < |sources| :: sources[i].V6?
    ensures (forall i | 0 <= i < |sources| :: sources[i].V6?) ==>
      forall i | 0 <= i < |SourcesV6(sources)| :: V6(SourcesV6(sources)[i]) == sources[i]
  {
    if sources != [] {
      var rest := sources[1..];
      V6FilterLossless(rest);
      assert forall i | 1 <= i < |sources| :: sources[i] == rest[i - 1];
      assert forall i | 0 <= i < |rest| :: rest[i] == sources[i + 1];
    }
  }
}

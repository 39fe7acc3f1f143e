/** Opening the UDP server's socket: the system calls issued, in order, and what they join. */
module MulticastJoin {
  import opened Options
  import opened Addresses
  import opened Ssm
  import opened Interfaces
  import opened Admission

  datatype Call =
    | Socket4 | Socket6
    | ReuseAddress
    | Bind4(addr: Ipv4)
    | Bind6(addr6: Ipv6, scope: nat)
    | JoinAny4(group: Ipv4, iface: Ipv4)
    | JoinSource4(source: Ipv4, group: Ipv4, iface: Ipv4)
    | JoinAny6(group6: Ipv6, ifindex: nat)
    | Filter6(group6: Ipv6, ifindex: nat, sources: seq<Ipv6>)

  /** The calls really issued from `plan` when the first of them is call number `at`: up to the first refusal. */
  function Issued(grants: nat -> bool, at: nat, plan: seq<Call>): seq<Call>
    decreases |plan|
  {
    if plan == [] then []
    else if grants(at) then [plan[0]] + Issued(grants, at + 1, plan[1..])
    else [plan[0]]
  }

  predicate Granted(grants: nat -> bool, at: nat, plan: seq<Call>)
    decreases |plan|
  {
    plan == [] || (grants(at) && Granted(grants, at + 1, plan[1..]))
  }

  /** Whatever is refused, the calls issued are the first ones of the plan; when nothing is, they are all of it. */
  lemma {:induction false} IssuedIsPrefix(grants: nat -> bool, at: nat, plan: seq<Call>)
    ensures Issued(grants, at, plan) <= plan
    ensures Granted(grants, at, plan) ==> Issued(grants, at, plan) == plan
    decreases |plan|
  {
    if plan != [] {
      IssuedIsPrefix(grants, at + 1, plan[1..]);
    }
  }

  /** Call `i` of a plan is issued exactly when all calls before it are granted. */
  lemma {:induction false} IssuedReaches(grants: nat -> bool, at: nat, plan: seq<Call>, i: nat)
    requires i < |plan|
    ensures i < |Issued(grants, at, plan)| <==> Granted(grants, at, plan[..i])
    decreases |plan|
  {
    if i > 0 {
      IssuedReaches(grants, at + 1, plan[1..], i - 1);
      assert plan[..i][1..] == plan[1..][..i - 1];
    }
  }

  /** A plan is granted when each of its calls is. */
  lemma {:induction false} GrantedMeaning(grants: nat -> bool, at: nat, plan: seq<Call>)
    ensures Granted(grants, at, plan) <==> forall i | at <= i < at + |plan| :: grants(i)
    decreases |plan|
  {
    if plan != [] {
      GrantedMeaning(grants, at + 1, plan[1..]);
    }
  }

  /** The calls issued end with the first refused one, or with the plan. */
  lemma {:induction false} IssuedMeaning(grants: nat -> bool, at: nat, plan: seq<Call>)
    ensures var n := |Issued(grants, at, plan)|;
      && n <= |plan| && Issued(grants, at, plan) == plan[..n]
      && (n < |plan| ==> n > 0 && !Granted(grants, at, plan))
      && forall i | at <= i < at + n :: grants(i) <==> i < at + n - 1 || Granted(grants, at, plan)
    decreases |plan|
  {
    if plan != [] && grants(at) {
      IssuedMeaning(grants, at + 1, plan[1..]);
    }
  }

  /** The log `after`, and whether all went well, when `plan` is carried out on top of the log `before`. */
  ghost predicate Carried(grants: nat -> bool, before: seq<Call>, plan: seq<Call>, after: seq<Call>, ok: bool) {
    after == before + Issued(grants, |before|, plan) && ok == Granted(grants, |before|, plan)
  }

  lemma {:induction false} IssuedConcat(grants: nat -> bool, at: nat, first: seq<Call>, second: seq<Call>)
    ensures Issued(grants, at, first + second)
         == if Granted(grants, at, first) then first + Issued(grants, at + |first|, second)
            else Issued(grants, at, first)
    ensures Granted(grants, at, first + second) == (Granted(grants, at, first) && Granted(grants, at + |first|, second))
    ensures Granted(grants, at, first) ==> Issued(grants, at, first) == first
    decreases |first|
  {
    if first == [] {
      assert first + second == second;
    } else {
      assert (first + second)[1..] == first[1..] + second;
      IssuedConcat(grants, at + 1, first[1..], second);
    }
  }

  lemma Reassociate<T>(a: seq<T>, b: seq<T>, c: seq<T>)
    ensures (a + b) + c == a + (b + c)
  {
  }

  /** Carrying out one plan and, if it was granted, a second is carrying out both. */
  lemma Then(grants: nat -> bool, log: seq<Call>, first: seq<Call>, log1: seq<Call>, ok1: bool,
             second: seq<Call>, log2: seq<Call>, ok2: bool)
    requires Carried(grants, log, first, log1, ok1)
    requires if ok1 then Carried(grants, log1, second, log2, ok2) else log2 == log1 && !ok2
    ensures Carried(grants, log, first + second, log2, ok2)
  {
    IssuedConcat(grants, |log|, first, second);
    var issued := Issued(grants, |log|, first);
    if ok1 {
      Reassociate(log, issued, Issued(grants, |log1|, second));
    }
  }

  /** The socket layer: a log of calls, and whether the n-th call succeeds. */
  class Kernel {
    var calls: seq<Call>
    const grants: nat -> bool

    constructor (grants: nat -> bool)
      ensures calls == [] && this.grants == grants
    {
      calls, this.grants := [], grants;
    }

    method Issue(call: Call) returns (ok: bool)
      modifies this
      ensures calls == old(calls) + [call] && ok == grants(|old(calls)|)
      ensures Carried(grants, old(calls), [call], calls, ok)
    {
      ok := grants(|calls|);
      calls := calls + [call];
    }
  }

  /** Interface- and link-local groups carry the interface index as their scope; wider ones carry 0. */
  function ScopeId(group: Ipv6, ifindex: nat): nat {
    if (group.s0 & 0x000f) == 1 || (group.s0 & 0x000f) == 2 then ifindex else 0
  }

  function SourceJoins4(group: Ipv4, iface: Ipv4, sources: seq<Ipv4>): seq<Call> {
    seq(|sources|, i requires 0 <= i < |sources| => JoinSource4(sources[i], group, iface))
  }

  function Joins4(group: Ipv4, iface: Ipv4, sources: seq<Ipv4>): seq<Call> {
    if sources == [] then [JoinAny4(group, iface)] else SourceJoins4(group, iface, sources)
  }

  function Joins6(group: Ipv6, ifindex: nat, sources: seq<Ipv6>): seq<Call> {
    if sources == [] then [JoinAny6(group, ifindex)] else [Filter6(group, ifindex, sources)]
  }

  /** The calls up to the joins, and whether interface resolution lets the plan finish. */
  datatype Plan = Plan(calls: seq<Call>, resolved: bool)

  function Iface4(cli: Cli, host: Host): Option<Ipv4> {
    if cli.iface.None? then Some(UNSPECIFIED4) else SelectorV4(cli.iface.value, host)
  }

  function Iface6(cli: Cli, host: Host): Option<nat> {
    if cli.iface.None? then Some(0) else SelectorIndex(cli.iface.value, host)
  }

  function BindCalls(mcast: bool, bind: Call): seq<Call> {
    (if mcast then [ReuseAddress] else []) + [bind]
  }

  function PlanOf(cli: Cli, host: Host): Plan
    requires cli.kind.Server?
  {
    var mcast := IsMulticast(cli.kind.listen);
    match cli.kind.listen
    case V4(addr) => Plan4(cli, host, mcast, addr)
    case V6(addr) => Plan6(cli, host, mcast, addr)
  }

  function Plan4(cli: Cli, host: Host, mcast: bool, addr: Ipv4): Plan
    requires cli.kind.Server?
  {
    var opening := [Socket4] + BindCalls(mcast, Bind4(addr));
    if !mcast then Plan(opening, true)
    else if Iface4(cli, host).None? then Plan(opening, false)
    else Plan(opening + Joins4(addr, Iface4(cli, host).value, SourcesV4(cli.kind.sources)), true)
  }

  function Plan6(cli: Cli, host: Host, mcast: bool, addr: Ipv6): Plan
    requires cli.kind.Server?
  {
    if !mcast then Plan([Socket6] + BindCalls(false, Bind6(addr, cli.scope)), true)
    else if Iface6(cli, host).None? then Plan([Socket6], false)
    else
      var ifindex := Iface6(cli, host).value;
      Plan([Socket6] + BindCalls(true, Bind6(addr, ScopeId(addr, ifindex)))
           + Joins6(addr, ifindex, SourcesV6(cli.kind.sources)), true)
  }

  // ---------- The plan, call by call ----------

  /** Every plan of an IPv4 server, validated or not. Without a selector the joins go to 0.0.0.0. */
  lemma PlanIpv4(cli: Cli, host: Host)
    requires cli.kind.Server? && cli.kind.listen.V4?
    ensures var group, selector, plan := cli.kind.listen.v4, cli.iface, PlanOf(cli, host);
      var sources := SourcesV4(cli.kind.sources);
      if group.a < 224 || group.a > 239 then plan == Plan([Socket4, Bind4(group)], true)
      else if selector.Some? && SelectorV4(selector.value, host).None? then
        plan == Plan([Socket4, ReuseAddress, Bind4(group)], false)
      else
        var iface := if selector.None? then Ipv4(0, 0, 0, 0) else SelectorV4(selector.value, host).value;
        var joins := if sources == [] then [JoinAny4(group, iface)] else
          seq(|sources|, i requires 0 <= i < |sources| => JoinSource4(sources[i], group, iface));
        plan == Plan([Socket4, ReuseAddress, Bind4(group)] + joins, true)
  {
    var group, sources := cli.kind.listen.v4, SourcesV4(cli.kind.sources);
    assert [Socket4] + BindCalls(true, Bind4(group)) == [Socket4, ReuseAddress, Bind4(group)];
    assert [Socket4] + BindCalls(false, Bind4(group)) == [Socket4, Bind4(group)];
    if 224 <= group.a <= 239 && Iface4(cli, host).Some? {
      var iface := Iface4(cli, host).value;
      assert SourceJoins4(group, iface, sources)
          == seq(|sources|, i requires 0 <= i < |sources| => JoinSource4(sources[i], group, iface));
    }
  }

  /**
   And of an IPv6 server. The bind carries the command line's scope for a unicast
   address, and for an interface- or link-local group the interface index.
   */
  lemma PlanIpv6(cli: Cli, host: Host)
    requires cli.kind.Server? && cli.kind.listen.V6?
    ensures var group, selector, plan := cli.kind.listen.v6, cli.iface, PlanOf(cli, host);
      var sources := SourcesV6(cli.kind.sources);
      if group.s0 < 0xff00 then plan == Plan([Socket6, Bind6(group, cli.scope)], true)
      else if selector.Some? && SelectorIndex(selector.value, host).None? then plan == Plan([Socket6], false)
      else
        var ifindex := if selector.None? then 0 else SelectorIndex(selector.value, host).value;
        var scope := if group.s0 % 16 == 1 || group.s0 % 16 == 2 then ifindex else 0;
        var join := if sources == [] then JoinAny6(group, ifindex) else Filter6(group, ifindex, sources);
        plan == Plan([Socket6, ReuseAddress, Bind6(group, scope), join], true)
  {
    MulticastRange(cli.kind.listen);
    LowNibble(cli.kind.listen.v6.s0);
  }

  lemma LowNibble(s: bv16)
    ensures s & 0x000f == s % 16
  {
  }

  // ---------- What a validated server joins ----------

  ghost predicate Validated(cli: Cli) {
    cli.kind.Server? && Admissible(cli.kind.listen, cli.kind.sources, cli.iface)
  }

  ghost predicate IsAnySource(call: Call) {
    call.JoinAny4? || call.JoinAny6?
  }

  /** IPv4 with sources: one source join per configured source, in order, and no other join. */
  lemma SourceJoinsIpv4(cli: Cli, host: Host)
    requires Validated(cli) && cli.kind.listen.V4? && cli.kind.sources != [] && PlanOf(cli, host).resolved
    ensures var group, sources := cli.kind.listen.v4, cli.kind.sources;
      && (forall i | 0 <= i < |sources| :: sources[i].V4?)
      && cli.iface.Some? && SelectorV4(cli.iface.value, host).Some?
      && PlanOf(cli, host).calls
         == [Socket4, ReuseAddress, Bind4(group)]
          + seq(|sources|, i requires 0 <= i < |sources| =>
                  JoinSource4(sources[i].v4, group, SelectorV4(cli.iface.value, host).value))
  {
    var group, sources := cli.kind.listen.v4, cli.kind.sources;
    V4FilterLossless(sources);
    var iface := SelectorV4(cli.iface.value, host).value;
    assert [Socket4] + BindCalls(true, Bind4(group)) == [Socket4, ReuseAddress, Bind4(group)];
    assert forall i | 0 <= i < |sources| :: SourcesV4(sources)[i] == sources[i].v4;
    assert SourceJoins4(group, iface, SourcesV4(sources))
        == seq(|sources|, i requires 0 <= i < |sources| => JoinSource4(sources[i].v4, group, iface));
  }

  /** IPv6 with sources: one filter with the whole list, on a real interface, bound with scope 0 if the group is SSM. */
  lemma SourceFilterIpv6(cli: Cli, host: Host)
    requires Validated(cli) && cli.kind.listen.V6? && cli.kind.sources != [] && PlanOf(cli, host).resolved
    ensures var group, sources := cli.kind.listen.v6, cli.kind.sources;
      && (forall i | 0 <= i < |sources| :: sources[i].V6?)
      && cli.iface.Some? && SelectorIndex(cli.iface.value, host).Some?
      && var ifindex := SelectorIndex(cli.iface.value, host).value;
      && ifindex > 0
      && PlanOf(cli, host).calls
         == [Socket6, ReuseAddress, Bind6(group, ScopeId(group, ifindex)),
             Filter6(group, ifindex, seq(|sources|, i requires 0 <= i < |sources| => sources[i].v6))]
      && (IsSsm(cli.kind.listen) ==> ScopeId(group, ifindex) == 0)
  {
    var group, sources := cli.kind.listen.v6, cli.kind.sources;
    V6FilterLossless(sources);
    assert forall i | 0 <= i < |sources| :: SourcesV6(sources)[i] == sources[i].v6;
    assert SourcesV6(sources) == seq(|sources|, i requires 0 <= i < |sources| => sources[i].v6);
  }

  /**
   Past validation, an any-source join is planned exactly for a resolved
   multicast group without sources, as the last of four calls.
   */
  lemma AnySourcePlannedIff(cli: Cli, host: Host)
    requires Validated(cli)
    ensures var plan := PlanOf(cli, host);
      var anySource := IsMulticast(cli.kind.listen) && cli.kind.sources == [] && plan.resolved;
      && (anySource ==> |plan.calls| == 4)
      && forall i | 0 <= i < |plan.calls| :: IsAnySource(plan.calls[i]) <==> anySource && i == 3
  {
    var plan := PlanOf(cli, host);
    if cli.kind.sources != [] && plan.resolved {
      if cli.kind.listen.V4? {
        SourceJoinsIpv4(cli, host);
      } else {
        SourceFilterIpv6(cli, host);
      }
    }
  }

  /**
   And it is issued exactly when, besides, the three calls before it are
   granted. For an SSM group it is never issued, whatever is granted or refused.
   */
  lemma AnySourceIff(cli: Cli, host: Host, grants: nat -> bool, at: nat)
    requires Validated(cli)
    ensures var plan, issued := PlanOf(cli, host), Issued(grants, at, PlanOf(cli, host).calls);
      && ((exists i :: 0 <= i < |issued| && IsAnySource(issued[i]))
          <==> IsMulticast(cli.kind.listen) && cli.kind.sources == [] && plan.resolved
               && Granted(grants, at, plan.calls[..|plan.calls| - 1]))
      && (IsSsm(cli.kind.listen) ==> forall i | 0 <= i < |issued| :: !IsAnySource(issued[i]))
  {
    var plan, issued := PlanOf(cli, host), Issued(grants, at, PlanOf(cli, host).calls);
    AnySourcePlannedIff(cli, host);
    IssuedIsPrefix(grants, at, plan.calls);
    if IsMulticast(cli.kind.listen) && cli.kind.sources == [] && plan.resolved {
      IssuedReaches(grants, at, plan.calls, 3);
      assert 3 < |issued| ==> IsAnySource(issued[3]);
    }
  }

  /** The selector is 0.0.0.0, or by the host's list its interface has that as its first IPv4 address. */
  ghost predicate LeavesChoice(selector: Selector, host: Host) {
    match selector
    case Addr(V4(v4)) => v4 == UNSPECIFIED4
    case Addr(V6(v6)) =>
      host.list.Some?
      && exists base :: OwnedBy(host.list.value, V6(v6), base) && ListGives(host.list.value, base, UNSPECIFIED4)
    case Name(name) => host.list.Some? && ListGives(host.list.value, name, UNSPECIFIED4)
  }

  /**
   Validation asks for an interface so that the kernel does not pick one. For
   IPv4 it still may: some source join goes to 0.0.0.0 exactly when the selector
   leaves the choice, and then all of them do.
   */
  lemma JoinUnpinnedIff(cli: Cli, host: Host)
    requires Validated(cli) && cli.kind.listen.V4? && cli.kind.sources != []
    ensures (exists i :: 0 <= i < |PlanOf(cli, host).calls| && IsUnpinned(PlanOf(cli, host).calls[i]))
       <==> LeavesChoice(cli.iface.value, host)
    ensures LeavesChoice(cli.iface.value, host) ==>
      && PlanOf(cli, host).resolved && |PlanOf(cli, host).calls| == 3 + |cli.kind.sources|
      && forall i | 3 <= i < |PlanOf(cli, host).calls| :: IsUnpinned(PlanOf(cli, host).calls[i])
  {
    SelectorV4Meaning(cli.iface.value, host, UNSPECIFIED4);
    var plan := PlanOf(cli, host);
    if plan.resolved {
      SourceJoinsIpv4(cli, host);
      assert IsUnpinned(plan.calls[3]) <==> LeavesChoice(cli.iface.value, host);
    }
  }

  ghost predicate IsUnpinned(call: Call) {
    call.JoinSource4? && call.iface == UNSPECIFIED4
  }

  /** A validated command line that leaves the choice to the kernel. */
  lemma UnpinnedExample(host: Host)
    ensures var group, source := Ipv4(232, 0, 0, 1), Ipv4(10, 0, 0, 1);
      var cli := Cli(Udp, 0, Some(Addr(V4(UNSPECIFIED4))), Server(V4(group), [V4(source)]));
      && Validated(cli) && SourceFaultOf(V4(source)).None?
      && JoinSource4(source, group, UNSPECIFIED4) in PlanOf(cli, host).calls
  {
    var group, source := Ipv4(232, 0, 0, 1), Ipv4(10, 0, 0, 1);
    var cli := Cli(Udp, 0, Some(Addr(V4(UNSPECIFIED4))), Server(V4(group), [V4(source)]));
    SourceJoinsIpv4(cli, host);
    assert PlanOf(cli, host).calls[3] == JoinSource4(source, group, UNSPECIFIED4);
  }

  // ---------- The operations ----------

  /** The joins carried out: one each, in order, up to the first refusal, if any. */
  lemma CarriedJoins(grants: nat -> bool, before: seq<Call>, group: Ipv4, iface: Ipv4, sources: seq<Ipv4>,
                     after: seq<Call>, ok: bool)
    requires sources != [] && Carried(grants, before, SourceJoins4(group, iface, sources), after, ok)
    ensures var n := |after| - |before|;
      && 0 < n <= |sources|
      && after == before + seq(n, i requires 0 <= i < n => JoinSource4(sources[i], group, iface))
      && (forall i | |before| <= i < |after| - 1 :: grants(i)) && ok == grants(|after| - 1)
      && (n < |sources| ==> !ok)
  {
    var joins, n := SourceJoins4(group, iface, sources), |after| - |before|;
    IssuedMeaning(grants, |before|, joins);
    GrantedMeaning(grants, |before|, joins);
    assert joins[..n] == seq(n, i requires 0 <= i < n => JoinSource4(sources[i], group, iface));
  }

  method JoinV4(kernel: Kernel, group: Ipv4, iface: Ipv4, sources: seq<Ipv4>) returns (ok: bool)
    modifies kernel
    // Without sources, one any-source join.
    ensures sources == [] ==>
      kernel.calls == old(kernel.calls) + [JoinAny4(group, iface)] && ok == kernel.grants(|old(kernel.calls)|)
    // With sources, one join each up to the first refusal, if any.
    ensures sources != [] ==>
      var n := |kernel.calls| - |old(kernel.calls)|;
      && 0 < n <= |sources|
      && kernel.calls
         == old(kernel.calls) + seq(n, i requires 0 <= i < n => JoinSource4(sources[i], group, iface))
      && (forall i | |old(kernel.calls)| <= i < |kernel.calls| - 1 :: kernel.grants(i))
      && ok == kernel.grants(|kernel.calls| - 1)
      && (n < |sources| ==> !ok)
    ensures Carried(kernel.grants, old(kernel.calls), Joins4(group, iface, sources), kernel.calls, ok)
  {
    if sources == [] {
      ok := kernel.Issue(JoinAny4(group, iface));
    } else {
      ghost var before := kernel.calls;
      ok := JoinSources(kernel, group, iface, sources);
      CarriedJoins(kernel.grants, before, group, iface, sources, kernel.calls, ok);
    }
  }

  method JoinSources(kernel: Kernel, group: Ipv4, iface: Ipv4, sources: seq<Ipv4>) returns (ok: bool)
    modifies kernel
    ensures Carried(kernel.grants, old(kernel.calls), SourceJoins4(group, iface, sources), kernel.calls, ok)
  {
    ghost var before, joins := kernel.calls, SourceJoins4(group, iface, sources);
    var i := 0;
    while i < |sources|
      invariant 0 <= i <= |sources|
      invariant before + Issued(kernel.grants, |before|, joins)
             == kernel.calls + Issued(kernel.grants, |kernel.calls|, joins[i..])
      invariant Granted(kernel.grants, |before|, joins) == Granted(kernel.grants, |kernel.calls|, joins[i..])
    {
      assert joins[i..][1..] == joins[i + 1..];
      ok := kernel.Issue(JoinSource4(sources[i], group, iface));
      if !ok {
        return;
      }
      i := i + 1;
    }
    ok := true;
  }

  method JoinV6(kernel: Kernel, group: Ipv6, ifindex: nat, sources: seq<Ipv6>) returns (ok: bool)
    modifies kernel
    ensures kernel.calls == old(kernel.calls)
         + [if sources == [] then JoinAny6(group, ifindex) else Filter6(group, ifindex, sources)]
    ensures ok == kernel.grants(|old(kernel.calls)|)
    ensures Carried(kernel.grants, old(kernel.calls), Joins6(group, ifindex, sources), kernel.calls, ok)
  {
    if sources == [] {
      ok := kernel.Issue(JoinAny6(group, ifindex));
    } else {
      ok := kernel.Issue(Filter6(group, ifindex, sources));
    }
  }

  /** Reuse and bind, the calls that precede the joins. */
  method BindSocket(kernel: Kernel, mcast: bool, bind: Call) returns (ok: bool)
    modifies kernel
    ensures !mcast ==> kernel.calls == old(kernel.calls) + [bind] && ok == kernel.grants(|old(kernel.calls)|)
    ensures mcast && kernel.grants(|old(kernel.calls)|) ==>
      kernel.calls == old(kernel.calls) + [ReuseAddress, bind] && ok == kernel.grants(|old(kernel.calls)| + 1)
    ensures mcast && !kernel.grants(|old(kernel.calls)|) ==>
      kernel.calls == old(kernel.calls) + [ReuseAddress] && !ok
    ensures Carried(kernel.grants, old(kernel.calls), BindCalls(mcast, bind), kernel.calls, ok)
  {
    ghost var log := kernel.calls;
    ok := true;
    if mcast {
      ok := kernel.Issue(ReuseAddress);
    }
    ghost var log1, ok1 := kernel.calls, ok;
    if ok {
      ok := kernel.Issue(bind);
    }
    Then(kernel.grants, log, if mcast then [ReuseAddress] else [], log1, ok1, [bind], kernel.calls, ok);
  }

  method OpenServer4(kernel: Kernel, cli: Cli, host: Host, addr: Ipv4) returns (ok: bool)
    requires cli.kind.Server?
    modifies kernel
    ensures var plan := Plan4(cli, host, IsMulticast(V4(addr)), addr);
      && kernel.calls == old(kernel.calls) + Issued(kernel.grants, |old(kernel.calls)|, plan.calls)
      && ok == (plan.resolved && Granted(kernel.grants, |old(kernel.calls)|, plan.calls))
  {
    var mcast := IsMulticast(V4(addr));
    ghost var log, grants := kernel.calls, kernel.grants;
    ok := kernel.Issue(Socket4);
    ghost var log1, ok1 := kernel.calls, ok;
    if ok {
      ok := BindSocket(kernel, mcast, Bind4(addr));
    }
    ghost var log2, ok2 := kernel.calls, ok;
    Then(grants, log, [Socket4], log1, ok1, BindCalls(mcast, Bind4(addr)), log2, ok2);
    if ok && mcast {
      var iface := Iface4(cli, host);
      if iface.None? {
        return false;
      }
      ok := JoinV4(kernel, addr, iface.value, SourcesV4(cli.kind.sources));
    }
    if mcast && Iface4(cli, host).Some? {
      Then(grants, log, [Socket4] + BindCalls(mcast, Bind4(addr)), log2, ok2,
           Joins4(addr, Iface4(cli, host).value, SourcesV4(cli.kind.sources)), kernel.calls, ok);
    }
  }

  method OpenServer6(kernel: Kernel, cli: Cli, host: Host, addr: Ipv6) returns (ok: bool)
    requires cli.kind.Server?
    modifies kernel
    ensures var plan := Plan6(cli, host, IsMulticast(V6(addr)), addr);
      && kernel.calls == old(kernel.calls) + Issued(kernel.grants, |old(kernel.calls)|, plan.calls)
      && ok == (plan.resolved && Granted(kernel.grants, |old(kernel.calls)|, plan.calls))
  {
    var mcast := IsMulticast(V6(addr));
    ghost var log, grants := kernel.calls, kernel.grants;
    ok := kernel.Issue(Socket6);
    var ifindex := if mcast then Iface6(cli, host) else Some(0);
    if ifindex.None? {
      return false;
    }
    var scope := if mcast then ScopeId(addr, ifindex.value) else cli.scope;
    ghost var log1, ok1 := kernel.calls, ok;
    if ok {
      ok := BindSocket(kernel, mcast, Bind6(addr, scope));
    }
    ghost var log2, ok2 := kernel.calls, ok;
    Then(grants, log, [Socket6], log1, ok1, BindCalls(mcast, Bind6(addr, scope)), log2, ok2);
    if mcast {
      if ok {
        ok := JoinV6(kernel, addr, ifindex.value, SourcesV6(cli.kind.sources));
      }
      Then(grants, log, [Socket6] + BindCalls(mcast, Bind6(addr, scope)), log2, ok2,
           Joins6(addr, ifindex.value, SourcesV6(cli.kind.sources)), kernel.calls, ok);
    }
  }

  /** The calls after `before` are the plan's, up to the first refused. */
  lemma IssuedUpTo(grants: nat -> bool, before: seq<Call>, plan: seq<Call>, after: seq<Call>)
    requires after == before + Issued(grants, |before|, plan)
    ensures var n := |after| - |before|;
      && 0 <= n <= |plan| && after == before + plan[..n]
      && (forall i | |before| <= i < |after| - 1 :: grants(i))
      && (n < |plan| ==> n > 0 && !grants(|after| - 1))
  {
    IssuedMeaning(grants, |before|, plan);
  }

  /** Opens the server's socket, up to and including the joins. */
  method OpenServer(kernel: Kernel, cli: Cli, host: Host) returns (ok: bool)
    requires cli.kind.Server?
    modifies kernel
    // The calls issued are the planned ones up to the first refused, or all of them.
    ensures var plan, n := PlanOf(cli, host).calls, |kernel.calls| - |old(kernel.calls)|;
      && 0 <= n <= |plan| && kernel.calls == old(kernel.calls) + plan[..n]
      && (forall i | |old(kernel.calls)| <= i < |kernel.calls| - 1 :: kernel.grants(i))
      && (n < |plan| ==> n > 0 && !kernel.grants(|kernel.calls| - 1))
    // It succeeds when the interface resolves and every planned call is granted.
    ensures var plan, at := PlanOf(cli, host), |old(kernel.calls)|;
      ok <==> plan.resolved && forall i | at <= i < at + |plan.calls| :: kernel.grants(i)
    ensures ok ==> kernel.calls == old(kernel.calls) + PlanOf(cli, host).calls
    // A validated SSM server never issues an any-source join, even when refused part-way.
    ensures Validated(cli) && IsSsm(cli.kind.listen) ==>
      forall i | |old(kernel.calls)| <= i < |kernel.calls| :: !IsAnySource(kernel.calls[i])
  {
    ghost var before, calls := kernel.calls, PlanOf(cli, host).calls;
    IssuedIsPrefix(kernel.grants, |before|, calls);
    GrantedMeaning(kernel.grants, |before|, calls);
    if Validated(cli) {
      AnySourceIff(cli, host, kernel.grants, |before|);
    }
    match cli.kind.listen {
      case V4(addr) => ok := OpenServer4(kernel, cli, host, addr);
      case V6(addr) => ok := OpenServer6(kernel, cli, host, addr);
    }
    IssuedUpTo(kernel.grants, before, calls, kernel.calls);
  }
}

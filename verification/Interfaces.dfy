/** Resolving an interface selector against the host's list of addresses. */
module Interfaces {
  import opened Options
  import opened Addresses
  import opened Text

  /** A list entry; the name is absent when it is not UTF-8, the address when it is of another family. */
  datatype IfEntry = IfEntry(name: Option<string>, addr: Option<IpAddr>)

  datatype Selector = Name(name: string) | Addr(addr: IpAddr)

  /** What the host answers: the list, if it can be read, and the index of a name, 0 when there is none. */
  datatype Host = Host(list: Option<seq<IfEntry>>, indexOf: string -> nat)

  function BaseIfname(name: string): string {
    Before(name, ':')
  }

  /** `entryName` is `name` or a logical interface of it. */
  predicate IfnameMatches(entryName: string, name: string) {
    && name != ""
    && (entryName == name || (name <= entryName && |entryName| > |name| && entryName[|name|] == ':'))
  }

  function OwnerName(list: seq<IfEntry>, addr: IpAddr): Option<string> {
    if list == [] then None
    else if list[0].addr == Some(addr) then
      if list[0].name.Some? && BaseIfname(list[0].name.value) != "" then Some(BaseIfname(list[0].name.value)) else None
    else OwnerName(list[1..], addr)
  }

  predicate HasV4(e: IfEntry, name: string) {
    e.name.Some? && IfnameMatches(e.name.value, name) && e.addr.Some? && e.addr.value.V4?
  }

  function V4Addr(list: seq<IfEntry>, name: string): Option<Ipv4> {
    if list == [] then None
    else if HasV4(list[0], name) then Some(list[0].addr.value.v4)
    else V4Addr(list[1..], name)
  }

  function SelectorV4(selector: Selector, host: Host): Option<Ipv4> {
    match selector
    case Addr(V4(v4)) => Some(v4)
    case Addr(V6(v6)) =>
      if host.list.None? then None
      else
        var name := OwnerName(host.list.value, V6(v6));
        if name.None? then None else V4Addr(host.list.value, name.value)
    case Name(name) => if host.list.None? then None else V4Addr(host.list.value, name)
  }

  /** Empty names and names with a NUL never reach the system call. */
  function IndexOfName(name: string, host: Host): (r: Option<nat>)
    ensures r.Some? ==> r.value > 0
  {
    if name == "" || '\0' in name || host.indexOf(name) == 0 then None else Some(host.indexOf(name))
  }

  function SelectorIndex(selector: Selector, host: Host): (r: Option<nat>)
    ensures r.Some? ==> r.value > 0
  {
    match selector
    case Name(name) => IndexOfName(name, host)
    case Addr(addr) =>
      if host.list.None? then None
      else
        var name := OwnerName(host.list.value, addr);
        if name.None? then None else IndexOfName(name.value, host)
  }

  // ---------- What resolution finds ----------

  /** For any name: its own entry, and those that continue it with a colon. */
  lemma IfnameMatchesMeaning(entryName: string, name: string)
    ensures IfnameMatches(entryName, name)
       <==> name != "" && (entryName == name || exists rest: string :: entryName == name + ":" + rest)
  {
    if IfnameMatches(entryName, name) && entryName != name {
      assert entryName == name + ":" + entryName[|name| + 1..];
    }
    if rest: string :| entryName == name + ":" + rest {
      assert entryName[|name|] == ':';
    }
  }

  /** An entry with no more colons than the name, as `net0` or `net0:2` against `net0:1`, matches only if it is it. */
  lemma SuffixMatchesExactly(entryName: string, name: string)
    requires name != "" && multiset(entryName)[':'] <= multiset(name)[':']
    ensures IfnameMatches(entryName, name) <==> entryName == name
  {
    IfnameMatchesMeaning(entryName, name);
  }

  /** The part before the first colon, or the whole name. */
  lemma BaseIfnameMeaning(name: string)
    ensures ':' !in BaseIfname(name)
    ensures name == BaseIfname(name) || exists rest: string :: name == BaseIfname(name) + ":" + rest
  {
    BeforeMeaning(name, ':');
    if ':' in name {
      assert name == BaseIfname(name) + ":" + After(name, ':');
    }
  }

  /** An entry of the named interface, with an IPv4 address. */
  lemma HasV4Meaning(e: IfEntry, name: string)
    ensures HasV4(e, name) <==>
      && name != "" && e.addr.Some? && e.addr.value.V4? && e.name.Some?
      && (e.name.value == name || exists rest: string :: e.name.value == name + ":" + rest)
  {
    if e.name.Some? {
      IfnameMatchesMeaning(e.name.value, name);
    }
  }

  /** For a name without a suffix, matching is having it as the base. */
  lemma MatchesIffBase(entryName: string, name: string)
    requires name != "" && ':' !in name
    ensures IfnameMatches(entryName, name) <==> BaseIfname(entryName) == name
  {
    BeforeMeaning(entryName, ':');
    if IfnameMatches(entryName, name) && entryName != name {
      var rest := entryName[|name| + 1..];
      assert entryName == name + [':'] + rest;
      SplitGlued(name, ':', rest);
    }
  }

  /** Entry `i` is the first to hold `addr`. */
  ghost predicate FirstOwner(list: seq<IfEntry>, addr: IpAddr, i: nat)
    requires i < |list|
  {
    list[i].addr == Some(addr) && forall j | 0 <= j < i :: list[j].addr != Some(addr)
  }

  /** The owner is named by the first entry that holds the address, and by no later one. */
  lemma {:induction false} OwnerNameMeaning(list: seq<IfEntry>, addr: IpAddr, i: nat)
    requires i < |list| && list[i].addr == Some(addr) && forall j | 0 <= j < i :: list[j].addr != Some(addr)
    ensures OwnerName(list, addr).Some? <==> list[i].name.Some? && BaseIfname(list[i].name.value) != ""
    ensures OwnerName(list, addr).Some? ==> OwnerName(list, addr).value == BaseIfname(list[i].name.value)
  {
    if i > 0 {
      OwnerNameMeaning(list[1..], addr, i - 1);
    }
  }

  /** An address no entry holds has no owner. */
  lemma {:induction false} NoOwner(list: seq<IfEntry>, addr: IpAddr)
    requires forall i | 0 <= i < |list| :: list[i].addr != Some(addr)
    ensures OwnerName(list, addr).None?
  {
    if list != [] {
      NoOwner(list[1..], addr);
    }
  }

  lemma {:induction false} FindOwner(list: seq<IfEntry>, addr: IpAddr) returns (i: nat)
    requires OwnerName(list, addr).Some?
    ensures i < |list| && FirstOwner(list, addr, i)
  {
    if list[0].addr == Some(addr) {
      i := 0;
    } else {
      i := FindOwner(list[1..], addr);
      i := i + 1;
    }
  }

  /** Entry `i` is the first that matches `name` and has an IPv4 address. */
  ghost predicate FirstV4Matching(list: seq<IfEntry>, name: string, i: nat)
    requires i < |list|
  {
    HasV4(list[i], name) && forall j | 0 <= j < i :: !HasV4(list[j], name)
  }

  /** For any name, with or without a suffix: the first IPv4 address of a matching entry, or nothing if none matches. */
  lemma {:induction false} V4AddrMeaning(list: seq<IfEntry>, name: string)
    ensures V4Addr(list, name).None? <==> forall i | 0 <= i < |list| :: !HasV4(list[i], name)
    ensures forall i: nat | i < |list| && HasV4(list[i], name) && (forall j | 0 <= j < i :: !HasV4(list[j], name)) ::
              V4Addr(list, name) == Some(list[i].addr.value.v4)
  {
    if list != [] && !HasV4(list[0], name) {
      var rest := list[1..];
      V4AddrMeaning(rest, name);
      assert forall i {:trigger list[i]} :: 1 <= i < |list| ==> list[i] == rest[i - 1];
      assert forall i {:trigger rest[i]} :: 0 <= i < |rest| ==> rest[i] == list[i + 1];
      forall i: nat | i < |list| && FirstV4Matching(list, name, i)
        ensures V4Addr(list, name) == Some(list[i].addr.value.v4)
      {
        assert FirstV4Matching(rest, name, i - 1);
      }
    }
  }

  /** The list says that `name` stands for `v4`: its first matching entry with an IPv4 address holds it. */
  ghost predicate ListGives(list: seq<IfEntry>, name: string, v4: Ipv4) {
    exists i: nat :: i < |list| && FirstV4Matching(list, name, i) && list[i].addr.value.v4 == v4
  }

  lemma V4AddrIffListGives(list: seq<IfEntry>, name: string, v4: Ipv4)
    ensures V4Addr(list, name) == Some(v4) <==> ListGives(list, name, v4)
  {
    V4AddrMeaning(list, name);
    if V4Addr(list, name).Some? {
      var k :| 0 <= k < |list| && HasV4(list[k], name);
      var i := FirstMatching(list, name, k);
    }
  }

  /** A named interface, with or without a suffix, resolves to the address of its first entry that has one. */
  lemma NamedV4Meaning(name: string, list: seq<IfEntry>, indexOf: string -> nat, v4: Ipv4)
    ensures SelectorV4(Name(name), Host(Some(list), indexOf)) == Some(v4) <==>
      exists i: nat :: i < |list| && HasV4(list[i], name) && (forall j | 0 <= j < i :: !HasV4(list[j], name))
                    && list[i].addr.value.v4 == v4
  {
    V4AddrIffListGives(list, name, v4);
  }

  lemma FirstMatching(list: seq<IfEntry>, name: string, k: nat) returns (i: nat)
    requires k < |list| && HasV4(list[k], name)
    ensures i <= k && FirstV4Matching(list, name, i)
  {
    if j :| 0 <= j < k && HasV4(list[j], name) {
      i := FirstMatching(list, name, j);
    } else {
      i := k;
    }
  }

  /** Entry `i` is the first of interface `base` with an IPv4 address. */
  ghost predicate FirstV4OnBase(list: seq<IfEntry>, base: string, i: nat)
    requires i < |list|
  {
    && OnBase(list[i], base)
    && forall j | 0 <= j < i :: !OnBase(list[j], base)
  }

  ghost predicate OnBase(e: IfEntry, base: string) {
    e.name.Some? && BaseIfname(e.name.value) == base && e.addr.Some? && e.addr.value.V4?
  }

  lemma MatchingIsOnBase(e: IfEntry, base: string)
    requires base != "" && ':' !in base
    ensures HasV4(e, base) <==> OnBase(e, base)
  {
    if e.name.Some? {
      MatchesIffBase(e.name.value, base);
    }
  }

  /** For a name without a suffix, that is the first IPv4 address of the interface, logical ones included. */
  lemma V4AddrOfBase(list: seq<IfEntry>, base: string)
    requires base != "" && ':' !in base
    ensures V4Addr(list, base).None? <==> forall i | 0 <= i < |list| :: !OnBase(list[i], base)
    ensures forall i: nat | i < |list| && FirstV4OnBase(list, base, i) ::
              V4Addr(list, base) == Some(list[i].addr.value.v4)
  {
    V4AddrMeaning(list, base);
    forall e: IfEntry
      ensures HasV4(e, base) <==> OnBase(e, base)
    {
      MatchingIsOnBase(e, base);
    }
    assert forall i: nat | i < |list| :: FirstV4OnBase(list, base, i) <==> FirstV4Matching(list, base, i);
  }

  /** The name found for an IPv4 address resolves back to an IPv4 address of that interface. */
  lemma OwnerResolves(list: seq<IfEntry>, v4: Ipv4)
    requires OwnerName(list, V4(v4)).Some?
    ensures var name := OwnerName(list, V4(v4)).value;
      && name != "" && ':' !in name
      && V4Addr(list, name).Some?
      && exists i: nat :: i < |list| && FirstV4OnBase(list, name, i)
                        && V4Addr(list, name).value == list[i].addr.value.v4
  {
    var k := FindOwner(list, V4(v4));
    OwnerNameMeaning(list, V4(v4), k);
    var name := OwnerName(list, V4(v4)).value;
    V4AddrOfBase(list, name);
    assert OnBase(list[k], name);
    var i := FirstOnBase(list, name, k);
  }

  lemma FirstOnBase(list: seq<IfEntry>, base: string, k: nat) returns (i: nat)
    requires k < |list| && OnBase(list[k], base)
    ensures i <= k && FirstV4OnBase(list, base, i)
  {
    if j :| 0 <= j < k && OnBase(list[j], base) {
      i := FirstOnBase(list, base, j);
    } else {
      i := k;
    }
  }

  /** An IPv6 selector stands for the IPv4 address of the interface that owns it, if there is one. */
  lemma Ipv6SelectorStaysOnInterface(v6: Ipv6, host: Host)
    requires host.list.Some? && OwnerName(host.list.value, V6(v6)).Some?
    ensures var list, base := host.list.value, OwnerName(host.list.value, V6(v6)).value;
      && (SelectorV4(Addr(V6(v6)), host).None? <==> forall i | 0 <= i < |list| :: !OnBase(list[i], base))
      && forall i: nat | i < |list| && FirstV4OnBase(list, base, i) ::
           SelectorV4(Addr(V6(v6)), host) == Some(list[i].addr.value.v4)
  {
    var list := host.list.value;
    var k := FindOwner(list, V6(v6));
    OwnerNameMeaning(list, V6(v6), k);
    V4AddrOfBase(list, OwnerName(list, V6(v6)).value);
  }

  /** The first entry that holds `addr` names `base`. */
  ghost predicate OwnedBy(list: seq<IfEntry>, addr: IpAddr, base: string) {
    exists k: nat :: k < |list| && FirstOwner(list, addr, k) && list[k].name.Some?
                  && base == BaseIfname(list[k].name.value) != ""
  }

  lemma OwnerNameIffOwnedBy(list: seq<IfEntry>, addr: IpAddr, base: string)
    ensures OwnerName(list, addr) == Some(base) <==> OwnedBy(list, addr, base)
  {
    if OwnerName(list, addr) == Some(base) {
      var k := FindOwner(list, addr);
      OwnerNameMeaning(list, addr, k);
    }
    if OwnedBy(list, addr, base) {
      var k: nat :| k < |list| && FirstOwner(list, addr, k) && list[k].name.Some?
                    && base == BaseIfname(list[k].name.value) != "";
      OwnerNameMeaning(list, addr, k);
    }
  }

  /** Which interface's index it is: that of the name itself, or of the interface that owns the address. */
  lemma SelectorIndexMeaning(selector: Selector, host: Host, index: nat)
    ensures SelectorIndex(selector, host) == Some(index) <==>
      match selector {
        case Name(name) => name != "" && '\0' !in name && host.indexOf(name) == index && index > 0
        case Addr(addr) =>
          && host.list.Some?
          && exists base :: OwnedBy(host.list.value, addr, base)
                         && base != "" && '\0' !in base && host.indexOf(base) == index && index > 0
      }
  {
    if selector.Addr? && host.list.Some? {
      var list, addr := host.list.value, selector.addr;
      forall base: string
        ensures OwnerName(list, addr) == Some(base) <==> OwnedBy(list, addr, base)
      {
        OwnerNameIffOwnedBy(list, addr, base);
      }
    }
  }

  /**
   Which IPv4 address a selector stands for: of the named interface's entries in
   the list, or of those of the interface that owns the IPv6 address, the first
   with an IPv4 address gives it.
   */
  lemma SelectorV4Meaning(selector: Selector, host: Host, v4: Ipv4)
    ensures SelectorV4(selector, host) == Some(v4) <==>
      match selector {
        case Addr(V4(itself)) => v4 == itself
        case Addr(V6(v6)) =>
          host.list.Some?
          && exists base :: OwnedBy(host.list.value, V6(v6), base) && ListGives(host.list.value, base, v4)
        case Name(name) => host.list.Some? && ListGives(host.list.value, name, v4)
      }
  {
    if host.list.Some? {
      var list := host.list.value;
      forall name: string
        ensures V4Addr(list, name) == Some(v4) <==> ListGives(list, name, v4)
      {
        V4AddrIffListGives(list, name, v4);
      }
      if selector.Addr? {
        forall base: string
          ensures OwnerName(list, selector.addr) == Some(base) <==> OwnedBy(list, selector.addr, base)
        {
          OwnerNameIffOwnedBy(list, selector.addr, base);
        }
      }
    }
  }
}

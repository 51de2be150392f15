/** Address selection of the UDP discovery service: `findLocalIpAddress`
    and `getBroadcastAddress` over one snapshot of the device's network
    interfaces, taken in enumeration order. */
module Net {
  import opened Wrappers

  datatype Address =
    | Inet4(host: string, isLoopbackAddress: bool)
    | Inet6(host: string)

  /** One entry of an interface's `interfaceAddresses`; `broadcast` is
      null for interfaces without a broadcast address. */
  datatype InterfaceAddress = InterfaceAddress(address: Address, broadcast: Option<string>)

  /** A network interface: its flags, its `inetAddresses` enumeration and
      its `interfaceAddresses` list. */
  datatype NetInterface = NetInterface(
    isLoopback: bool,
    isUp: bool,
    inetAddresses: seq<Address>,
    interfaceAddresses: seq<InterfaceAddress>)

  /** The limited broadcast address, used when no subnet broadcast is found. */
  const LimitedBroadcast: string := "255.255.255.255"

  /** Concatenation of `f(x)` over `xs`, in order. */
  function FlatMap<T, U>(xs: seq<T>, f: T -> seq<U>): seq<U>
  {
    if |xs| == 0 then [] else f(xs[0]) + FlatMap(xs[1..], f)
  }

  lemma {:induction false} FlatMapAppend<T, U>(a: seq<T>, b: seq<T>, f: T -> seq<U>)
    ensures FlatMap(a + b, f) == FlatMap(a, f) + FlatMap(b, f)
  {
    if |a| == 0 {
      assert a + b == b;
    } else {
      assert (a + b)[1..] == a[1..] + b;
      FlatMapAppend(a[1..], b, f);
    }
  }

  /** Extending the scanned prefix by one element appends that element's image. */
  lemma FlatMapSnoc<T, U>(xs: seq<T>, i: nat, f: T -> seq<U>)
    requires i < |xs|
    ensures FlatMap(xs[..i + 1], f) == FlatMap(xs[..i], f) + f(xs[i])
  {
    assert xs[..i + 1] == xs[..i] + [xs[i]];
    FlatMapAppend(xs[..i], [xs[i]], f);
    assert FlatMap([xs[i]], f) == f(xs[i]) + FlatMap([xs[i]][1..], f);
  }

  /** The image of `xs` split around position `i`. */
  lemma FlatMapSplit<T, U>(xs: seq<T>, i: nat, f: T -> seq<U>)
    requires i < |xs|
    ensures FlatMap(xs, f) == FlatMap(xs[..i], f) + f(xs[i]) + FlatMap(xs[i + 1..], f)
  {
    assert xs == xs[..i] + xs[i..];
    FlatMapAppend(xs[..i], xs[i..], f);
    assert xs[i..][1..] == xs[i + 1..];
  }

  predicate StartsWith(s: string, prefix: string)
  {
    |prefix| <= |s| && s[..|prefix|] == prefix
  }

  /** The "typical WiFi range" test of both scans: a plain prefix check on
      the dotted host string, with no check of the octet after "172.". */
  predicate HasPrivatePrefix(ip: string)
  {
    StartsWith(ip, "192.168") || StartsWith(ip, "10.") || StartsWith(ip, "172.")
  }

  /** The test admits every host under "172.", all of 172.0.0.0/8, which
      is wider than the 172.16.0.0/12 block of section 3 of RFC 1918. */
  lemma PrefixTestAdmitsAll172(rest: string)
    ensures HasPrivatePrefix("172." + rest)
  {
  }

  /** Interfaces both scans look at: not loopback and up. */
  predicate Eligible(n: NetInterface)
  {
    !n.isLoopback && n.isUp
  }

  /** Addresses both scans look at: IPv4 and not a loopback address. */
  predicate Usable(a: Address)
  {
    a.Inet4? && !a.isLoopbackAddress
  }

  function HostIfUsable(a: Address): seq<string>
  {
    if Usable(a) then [a.host] else []
  }

  function HostsOf(n: NetInterface): seq<string>
  {
    if Eligible(n) then FlatMap(n.inetAddresses, HostIfUsable) else []
  }

  /** Every host string `findLocalIpAddress` may return, in the order its
      nested enumeration meets them. */
  function Candidates(ifaces: seq<NetInterface>): seq<string>
  {
    FlatMap(ifaces, HostsOf)
  }

  /** Position `k` holds the first private-prefix entry of `cs`. */
  predicate FirstPrivateAt(cs: seq<string>, k: int)
  {
    0 <= k < |cs| && HasPrivatePrefix(cs[k]) && forall j :: 0 <= j < k ==> !HasPrivatePrefix(cs[j])
  }

  function FirstPrivate(cs: seq<string>): (r: Option<string>)
    ensures r.None? <==> forall k :: 0 <= k < |cs| ==> !HasPrivatePrefix(cs[k])
    ensures r.Some? ==> exists k :: FirstPrivateAt(cs, k) && cs[k] == r.value
  {
    if |cs| == 0 then None
    else if HasPrivatePrefix(cs[0]) then
      assert FirstPrivateAt(cs, 0);
      Some(cs[0])
    else
      var r := FirstPrivate(cs[1..]);
      assert forall k :: 1 <= k < |cs| ==> cs[k] == cs[1..][k - 1];
      assert r.Some? ==> exists k :: FirstPrivateAt(cs[1..], k) && cs[1..][k] == r.value;
      assert forall k :: FirstPrivateAt(cs[1..], k) ==> FirstPrivateAt(cs, k + 1);
      r
  }

  lemma {:induction false} FirstPrivateAppend(a: seq<string>, b: seq<string>)
    ensures FirstPrivate(a + b) == if FirstPrivate(a).Some? then FirstPrivate(a) else FirstPrivate(b)
  {
    if |a| == 0 {
      assert a + b == b;
    } else {
      assert (a + b)[1..] == a[1..] + b;
      FirstPrivateAppend(a[1..], b);
    }
  }

  /** findLocalIpAddress: the first private-prefix candidate, else the first
      candidate of any prefix, else null. */
  function FindLocalIpAddress(ifaces: seq<NetInterface>): (r: Option<string>)
    ensures r.None? <==> |Candidates(ifaces)| == 0
    ensures r.Some? ==> r.value in Candidates(ifaces)
    ensures (exists k :: 0 <= k < |Candidates(ifaces)| && HasPrivatePrefix(Candidates(ifaces)[k])) ==>
              r.Some? && exists k :: FirstPrivateAt(Candidates(ifaces), k) && Candidates(ifaces)[k] == r.value
    ensures ((forall k :: 0 <= k < |Candidates(ifaces)| ==> !HasPrivatePrefix(Candidates(ifaces)[k])) &&
             |Candidates(ifaces)| > 0) ==> r == Some(Candidates(ifaces)[0])
  {
    var cs := Candidates(ifaces);
    match FirstPrivate(cs)
    case Some(ip) => Some(ip)
    case None => if |cs| > 0 then Some(cs[0]) else None
  }

  /** Interface `i` is eligible and its `k`-th inet address is usable. */
  predicate AddressAt(ifaces: seq<NetInterface>, i: int, k: int)
  {
    0 <= i < |ifaces| && Eligible(ifaces[i]) &&
    0 <= k < |ifaces[i].inetAddresses| && Usable(ifaces[i].inetAddresses[k])
  }

  lemma {:induction false} HostIfUsableOrigin(addrs: seq<Address>, ip: string)
    ensures ip in FlatMap(addrs, HostIfUsable) <==>
              exists k :: 0 <= k < |addrs| && Usable(addrs[k]) && addrs[k].host == ip
  {
    if |addrs| > 0 {
      HostIfUsableOrigin(addrs[1..], ip);
      assert forall k :: 1 <= k < |addrs| ==> addrs[k] == addrs[1..][k - 1];
      if exists k :: 0 <= k < |addrs| && Usable(addrs[k]) && addrs[k].host == ip {
        var k :| 0 <= k < |addrs| && Usable(addrs[k]) && addrs[k].host == ip;
        if k > 0 {
          assert addrs[1..][k - 1] == addrs[k];
        }
      }
    }
  }

  /** A host string is a candidate exactly when it is the host of a usable
      address on an eligible interface. */
  lemma {:induction false} CandidateOrigin(ifaces: seq<NetInterface>, ip: string)
    ensures ip in Candidates(ifaces) <==>
              exists i, k :: AddressAt(ifaces, i, k) && ifaces[i].inetAddresses[k].host == ip
  {
    if |ifaces| > 0 {
      CandidateOrigin(ifaces[1..], ip);
      HostIfUsableOrigin(ifaces[0].inetAddresses, ip);
      assert Candidates(ifaces) == HostsOf(ifaces[0]) + Candidates(ifaces[1..]);
      assert forall i, k :: AddressAt(ifaces[1..], i, k) ==> AddressAt(ifaces, i + 1, k);
      if exists i, k :: AddressAt(ifaces, i, k) && ifaces[i].inetAddresses[k].host == ip {
        var i, k :| AddressAt(ifaces, i, k) && ifaces[i].inetAddresses[k].host == ip;
        if i > 0 {
          assert AddressAt(ifaces[1..], i - 1, k);
        }
      }
    }
  }

  /** findLocalIpAddress as the source writes it: a first pass over the
      interfaces returning the first usable private-prefix address, then a
      second pass returning the first usable address of any prefix. */
  method ScanLocalIp(ifaces: seq<NetInterface>) returns (r: Option<string>)
    ensures r == FindLocalIpAddress(ifaces)
    ensures r.Some? ==> exists i, k :: AddressAt(ifaces, i, k) && ifaces[i].inetAddresses[k].host == r.value
  {
    var i := 0;
    while i < |ifaces|
      invariant 0 <= i <= |ifaces|
      invariant FirstPrivate(Candidates(ifaces[..i])) == None
    {
      var n := ifaces[i];
      FlatMapSnoc(ifaces, i, HostsOf);
      if Eligible(n) {
        var addrs := n.inetAddresses;
        var k := 0;
        while k < |addrs|
          invariant 0 <= k <= |addrs|
          invariant FirstPrivate(FlatMap(addrs[..k], HostIfUsable)) == None
        {
          var a := addrs[k];
          FlatMapSnoc(addrs, k, HostIfUsable);
          if Usable(a) && HasPrivatePrefix(a.host) {
            FlatMapSplit(ifaces, i, HostsOf);
            FlatMapSplit(addrs, k, HostIfUsable);
            FirstPrivateAppend(FlatMap(addrs[..k], HostIfUsable) + [a.host], FlatMap(addrs[k + 1..], HostIfUsable));
            FirstPrivateAppend(FlatMap(addrs[..k], HostIfUsable), [a.host]);
            FirstPrivateAppend(Candidates(ifaces[..i]) + HostsOf(n), Candidates(ifaces[i + 1..]));
            FirstPrivateAppend(Candidates(ifaces[..i]), HostsOf(n));
            assert AddressAt(ifaces, i, k);
            return Some(a.host);
          }
          FirstPrivateAppend(FlatMap(addrs[..k], HostIfUsable), HostIfUsable(a));
          k := k + 1;
        }
        assert addrs[..k] == addrs;
      }
      FirstPrivateAppend(Candidates(ifaces[..i]), HostsOf(n));
      i := i + 1;
    }
    assert ifaces[..i] == ifaces;

    i := 0;
    while i < |ifaces|
      invariant 0 <= i <= |ifaces|
      invariant Candidates(ifaces[..i]) == []
    {
      var n := ifaces[i];
      FlatMapSnoc(ifaces, i, HostsOf);
      if Eligible(n) {
        var addrs := n.inetAddresses;
        var k := 0;
        while k < |addrs|
          invariant 0 <= k <= |addrs|
          invariant FlatMap(addrs[..k], HostIfUsable) == []
        {
          var a := addrs[k];
          FlatMapSnoc(addrs, k, HostIfUsable);
          if Usable(a) {
            FlatMapSplit(ifaces, i, HostsOf);
            FlatMapSplit(addrs, k, HostIfUsable);
            assert Candidates(ifaces)[0] == a.host;
            assert AddressAt(ifaces, i, k);
            return Some(a.host);
          }
          k := k + 1;
        }
        assert addrs[..k] == addrs;
      }
      i := i + 1;
    }
    assert ifaces[..i] == ifaces;
    return None;
  }

  /** Interface `i` is eligible and its `k`-th interface address qualifies
      for the subnet broadcast: usable, with a broadcast address, and a
      private-prefix host. */
  predicate BroadcastAt(ifaces: seq<NetInterface>, i: int, k: int)
  {
    0 <= i < |ifaces| && Eligible(ifaces[i]) &&
    0 <= k < |ifaces[i].interfaceAddresses| && Qualifies(ifaces[i].interfaceAddresses[k])
  }

  predicate Qualifies(ia: InterfaceAddress)
  {
    Usable(ia.address) && ia.broadcast.Some? && HasPrivatePrefix(ia.address.host)
  }

  function BroadcastIfQualifies(ia: InterfaceAddress): seq<string>
  {
    if Qualifies(ia) then [ia.broadcast.value] else []
  }

  function BroadcastsOf(n: NetInterface): seq<string>
  {
    if Eligible(n) then FlatMap(n.interfaceAddresses, BroadcastIfQualifies) else []
  }

  /** Every broadcast address getBroadcastAddress may return, in order. */
  function BroadcastCandidates(ifaces: seq<NetInterface>): seq<string>
  {
    FlatMap(ifaces, BroadcastsOf)
  }

  lemma {:induction false} BroadcastIfQualifiesOrigin(ias: seq<InterfaceAddress>, b: string)
    ensures b in FlatMap(ias, BroadcastIfQualifies) <==>
              exists k :: 0 <= k < |ias| && Qualifies(ias[k]) && ias[k].broadcast == Some(b)
  {
    if |ias| > 0 {
      BroadcastIfQualifiesOrigin(ias[1..], b);
      assert forall k :: 1 <= k < |ias| ==> ias[k] == ias[1..][k - 1];
      if exists k :: 0 <= k < |ias| && Qualifies(ias[k]) && ias[k].broadcast == Some(b) {
        var k :| 0 <= k < |ias| && Qualifies(ias[k]) && ias[k].broadcast == Some(b);
        if k > 0 {
          assert ias[1..][k - 1] == ias[k];
        }
      }
    }
  }

  /** A broadcast address is a candidate exactly when some qualifying
      interface address on an eligible interface carries it. */
  lemma {:induction false} BroadcastOrigin(ifaces: seq<NetInterface>, b: string)
    ensures b in BroadcastCandidates(ifaces) <==>
              exists i, k :: BroadcastAt(ifaces, i, k) && ifaces[i].interfaceAddresses[k].broadcast == Some(b)
  {
    if |ifaces| > 0 {
      BroadcastOrigin(ifaces[1..], b);
      BroadcastIfQualifiesOrigin(ifaces[0].interfaceAddresses, b);
      assert BroadcastCandidates(ifaces) == BroadcastsOf(ifaces[0]) + BroadcastCandidates(ifaces[1..]);
      assert forall i, k :: BroadcastAt(ifaces[1..], i, k) ==> BroadcastAt(ifaces, i + 1, k);
      if exists i, k :: BroadcastAt(ifaces, i, k) && ifaces[i].interfaceAddresses[k].broadcast == Some(b) {
        var i, k :| BroadcastAt(ifaces, i, k) && ifaces[i].interfaceAddresses[k].broadcast == Some(b);
        if i > 0 {
          assert BroadcastAt(ifaces[1..], i - 1, k);
        }
      }
    }
  }

  /** getBroadcastAddress: the broadcast address of the first qualifying
      interface address, or null. There is no fallback to a non-private
      address here, unlike findLocalIpAddress. */
  function GetBroadcastAddress(ifaces: seq<NetInterface>): (r: Option<string>)
    ensures r.None? <==> forall i, k :: !BroadcastAt(ifaces, i, k)
    ensures r.Some? ==> exists i, k :: BroadcastAt(ifaces, i, k) && ifaces[i].interfaceAddresses[k].broadcast == r
  {
    var bs := BroadcastCandidates(ifaces);
    if |bs| == 0 then
      assert forall i, k :: BroadcastAt(ifaces, i, k) ==> ifaces[i].interfaceAddresses[k].broadcast.value in bs by {
        forall i, k | BroadcastAt(ifaces, i, k) {
          BroadcastOrigin(ifaces, ifaces[i].interfaceAddresses[k].broadcast.value);
        }
      }
      None
    else
      BroadcastOrigin(ifaces, bs[0]);
      Some(bs[0])
  }

  /** (i, k) comes no later than (i', k') in the nested enumeration. */
  predicate NoLater(i: int, k: int, i': int, k': int)
  {
    i < i' || (i == i' && k <= k')
  }

  /** A qualifying address with nothing qualifying before it supplies the
      first broadcast candidate. */
  lemma FirstBroadcast(ifaces: seq<NetInterface>, i: nat, k: nat)
    requires i < |ifaces| && Eligible(ifaces[i])
    requires k < |ifaces[i].interfaceAddresses| && Qualifies(ifaces[i].interfaceAddresses[k])
    requires BroadcastCandidates(ifaces[..i]) == []
    requires FlatMap(ifaces[i].interfaceAddresses[..k], BroadcastIfQualifies) == []
    ensures GetBroadcastAddress(ifaces) == ifaces[i].interfaceAddresses[k].broadcast
  {
    var ias := ifaces[i].interfaceAddresses;
    FlatMapSplit(ifaces, i, BroadcastsOf);
    FlatMapSplit(ias, k, BroadcastIfQualifies);
    assert BroadcastCandidates(ifaces)[0] == ias[k].broadcast.value;
  }

  /** getBroadcastAddress as the source writes it: a nested scan returning
      at the first qualifying interface address. */
  method ScanBroadcastAddress(ifaces: seq<NetInterface>) returns (r: Option<string>)
    ensures r == GetBroadcastAddress(ifaces)
    ensures r.Some? ==> exists i, k ::
              BroadcastAt(ifaces, i, k) && ifaces[i].interfaceAddresses[k].broadcast == r &&
              forall i', k' :: BroadcastAt(ifaces, i', k') ==> NoLater(i, k, i', k')
  {
    var i := 0;
    while i < |ifaces|
      invariant 0 <= i <= |ifaces|
      invariant BroadcastCandidates(ifaces[..i]) == []
      invariant forall i', k' :: BroadcastAt(ifaces, i', k') ==> i <= i'
    {
      FlatMapSnoc(ifaces, i, BroadcastsOf);
      if Eligible(ifaces[i]) {
        var ias := ifaces[i].interfaceAddresses;
        var k := FirstQualifying(ias);
        if k < |ias| {
          FirstBroadcast(ifaces, i, k);
          assert BroadcastAt(ifaces, i, k);
          assert forall i', k' :: BroadcastAt(ifaces, i', k') ==> NoLater(i, k, i', k');
          return ias[k].broadcast;
        }
        assert ias[..k] == ias;
      }
      i := i + 1;
    }
    assert ifaces[..i] == ifaces;
    return None;
  }

  /** The inner loop of getBroadcastAddress over one interface's addresses:
      the position of the first qualifying one, or the length when none
      qualifies. */
  method FirstQualifying(ias: seq<InterfaceAddress>) returns (k: nat)
    ensures k <= |ias|
    ensures forall j :: 0 <= j < k ==> !Qualifies(ias[j])
    ensures k < |ias| ==> Qualifies(ias[k])
    ensures FlatMap(ias[..k], BroadcastIfQualifies) == []
  {
    k := 0;
    while k < |ias|
      invariant 0 <= k <= |ias|
      invariant forall j :: 0 <= j < k ==> !Qualifies(ias[j])
      invariant FlatMap(ias[..k], BroadcastIfQualifies) == []
    {
      var ia := ias[k];
      if Usable(ia.address) && ia.broadcast.Some? && HasPrivatePrefix(ia.address.host) {
        return;
      }
      FlatMapSnoc(ias, k, BroadcastIfQualifies);
      k := k + 1;
    }
  }

  /** The prefix test admits all of 172.0.0.0/8, wider than the
      172.16.0.0/12 block of RFC 1918 section 3: an address such as
      172.32.0.1 is preferred over an earlier non-private one. */
  lemma PrefixWiderThanRfc1918()
    ensures var wlan := NetInterface(false, true, [Inet4("100.64.0.7", false), Inet4("172.32.0.1", false)], []);
            FindLocalIpAddress([wlan]) == Some("172.32.0.1")
  {
    var wlan := NetInterface(false, true, [Inet4("100.64.0.7", false), Inet4("172.32.0.1", false)], []);
    assert FlatMap(wlan.inetAddresses, HostIfUsable) == ["100.64.0.7", "172.32.0.1"] by {
      assert wlan.inetAddresses[1..][1..] == [];
    }
    SingleInterface(wlan);
    NotPrivate100();
    assert HasPrivatePrefix("172.32.0.1") by {
      assert "172.32.0.1"[..4] == "172.";
    }
    assert FirstPrivate(["100.64.0.7", "172.32.0.1"]) == Some("172.32.0.1") by {
      assert ["100.64.0.7", "172.32.0.1"][1..] == ["172.32.0.1"];
    }
  }

  lemma NotPrivate100()
    ensures !HasPrivatePrefix("100.64.0.7")
  {
    assert "100.64.0.7"[2] == '0' && "10."[2] == '.';
    assert "100.64.0.7"[..3] != "10.";
    assert "100.64.0.7"[1] == '0' && "172."[1] == '7';
    assert "100.64.0.7"[..4] != "172.";
    assert "192.168"[0] == '1' && "100.64.0.7"[1] == '0' && "192.168"[1] == '9';
    assert "100.64.0.7"[..7] != "192.168";
  }

  lemma SingleInterface(n: NetInterface)
    ensures Candidates([n]) == HostsOf(n)
    ensures BroadcastCandidates([n]) == BroadcastsOf(n)
  {
    assert [n][1..] == [];
    assert FlatMap([n], HostsOf) == HostsOf(n) + FlatMap([n][1..], HostsOf);
    assert FlatMap([n], BroadcastsOf) == BroadcastsOf(n) + FlatMap([n][1..], BroadcastsOf);
  }

  /** Unlike the local-address search, the broadcast search has no
      non-private fallback: an interface whose only address is outside
      the private prefixes yields a local address but no broadcast. */
  lemma BroadcastHasNoFallback()
    ensures var a := Inet4("100.64.0.7", false);
            var wlan := NetInterface(false, true, [a], [InterfaceAddress(a, Some("100.64.0.255"))]);
            FindLocalIpAddress([wlan]) == Some("100.64.0.7") && GetBroadcastAddress([wlan]) == None
  {
    var a := Inet4("100.64.0.7", false);
    var wlan := NetInterface(false, true, [a], [InterfaceAddress(a, Some("100.64.0.255"))]);
    NotPrivate100();
    SingleInterface(wlan);
    assert FlatMap(wlan.inetAddresses, HostIfUsable) == ["100.64.0.7"] by {
      assert wlan.inetAddresses[1..] == [];
    }
    assert FlatMap(wlan.interfaceAddresses, BroadcastIfQualifies) == [] by {
      assert wlan.interfaceAddresses[1..] == [];
    }
  }
}

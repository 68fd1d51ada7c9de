/** `getLocalIP`: the address shown in the banner as the one other machines
    on the network can reach, chosen from the interface addresses in three
    passes of decreasing preference, with `localhost` when nothing fits. */
module LocalAddr {
  import opened Wrappers
  import opened GoStrings

  /** An interface address as `net.InterfaceAddrs` returns it. Only
      `*net.IPNet` values are considered; for those, whether the IP is a
      loopback address and, when `To4()` is non-nil, the dotted text of the
      IPv4 form. */
  datatype InterfaceAddr =
    | IPNet(isLoopback: bool, ipv4: Option<string>)
    | OtherAddr

  /** An address every pass looks at: an `IPNet`, not loopback, with an
      IPv4 form. */
  predicate IsCandidate(a: InterfaceAddr) {
    a.IPNet? && !a.isLoopback && a.ipv4.Some?
  }

  /** The three passes, in order of preference. */
  datatype Tier = HomeNetwork | NotVirtual | AnyIPv4

  /** Whether a candidate's text is accepted by a pass: the first wants
      `192.168.`, the second refuses Docker's `172.17.` and VirtualBox's
      `192.168.56.`, the third takes any. */
  predicate Accepts(t: Tier, ip: string) {
    match t
    case HomeNetwork => HasPrefix(ip, "192.168.")
    case NotVirtual => !HasPrefix(ip, "172.17.") && !HasPrefix(ip, "192.168.56.")
    case AnyIPv4 => true
  }

  predicate InTier(a: InterfaceAddr, t: Tier) {
    IsCandidate(a) && Accepts(t, a.ipv4.value)
  }

  /** The position of the first address in tier `t`, or `|addrs|` when
      there is none. */
  function FirstIn(addrs: seq<InterfaceAddr>, t: Tier): (k: nat)
    ensures k <= |addrs|
    ensures k < |addrs| ==> InTier(addrs[k], t)
    ensures forall j :: 0 <= j < k ==> !InTier(addrs[j], t)
    decreases |addrs|
  {
    if addrs == [] then 0
    else if InTier(addrs[0], t) then 0
    else 1 + FirstIn(addrs[1..], t)
  }

  /** The text of the first address in tier `t`, if there is one. */
  function Pick(addrs: seq<InterfaceAddr>, t: Tier): Option<string> {
    var k := FirstIn(addrs, t);
    if k < |addrs| then Some(addrs[k].ipv4.value) else None
  }

  /** The address `getLocalIP` chooses, given what `net.InterfaceAddrs`
      returned. */
  function Preferred(listing: Result<seq<InterfaceAddr>>): string {
    if listing.Err? then "localhost"
    else
      var addrs := listing.value;
      match Pick(addrs, HomeNetwork)
      case Some(ip) => ip
      case None =>
        match Pick(addrs, NotVirtual)
        case Some(ip) => ip
        case None =>
          match Pick(addrs, AnyIPv4)
          case Some(ip) => ip
          case None => "localhost"
  }

  /** Any position satisfying the contract of `FirstIn` is `FirstIn`. */
  lemma FirstInUnique(addrs: seq<InterfaceAddr>, t: Tier, k: nat)
    requires k <= |addrs|
    requires k < |addrs| ==> InTier(addrs[k], t)
    requires forall j :: 0 <= j < k ==> !InTier(addrs[j], t)
    ensures FirstIn(addrs, t) == k
  {
  }

  /** The three passes of `getLocalIP`, each returning the first address it
      accepts. */
  method GetLocalIP(listing: Result<seq<InterfaceAddr>>) returns (ip: string)
    ensures ip == Preferred(listing)
  {
    if listing.Err? {
      return "localhost";
    }
    var addrs := listing.value;

    for i := 0 to |addrs|
      invariant forall j :: 0 <= j < i ==> !InTier(addrs[j], HomeNetwork)
    {
      var addr := addrs[i];
      if addr.IPNet? && !addr.isLoopback {
        if addr.ipv4.Some? {
          if HasPrefix(addr.ipv4.value, "192.168.") {
            FirstInUnique(addrs, HomeNetwork, i);
            return addr.ipv4.value;
          }
        }
      }
    }
    FirstInUnique(addrs, HomeNetwork, |addrs|);

    for i := 0 to |addrs|
      invariant forall j :: 0 <= j < i ==> !InTier(addrs[j], NotVirtual)
    {
      var addr := addrs[i];
      if addr.IPNet? && !addr.isLoopback {
        if addr.ipv4.Some? {
          var text := addr.ipv4.value;
          if !HasPrefix(text, "172.17.") && !HasPrefix(text, "192.168.56.") {
            FirstInUnique(addrs, NotVirtual, i);
            return text;
          }
        }
      }
    }
    FirstInUnique(addrs, NotVirtual, |addrs|);

    for i := 0 to |addrs|
      invariant forall j :: 0 <= j < i ==> !InTier(addrs[j], AnyIPv4)
    {
      var addr := addrs[i];
      if addr.IPNet? && !addr.isLoopback {
        if addr.ipv4.Some? {
          FirstInUnique(addrs, AnyIPv4, i);
          return addr.ipv4.value;
        }
      }
    }
    FirstInUnique(addrs, AnyIPv4, |addrs|);
    return "localhost";
  }

  /** A `192.168.` candidate wins: the result is the first of them. */
  lemma PrefersHomeNetwork(addrs: seq<InterfaceAddr>, k: nat)
    requires k < |addrs| && InTier(addrs[k], HomeNetwork)
    requires forall j :: 0 <= j < k ==> !InTier(addrs[j], HomeNetwork)
    ensures Preferred(Ok(addrs)) == addrs[k].ipv4.value
  {
  }

  /** Without a `192.168.` candidate, the first candidate outside Docker's
      and VirtualBox's ranges wins. */
  lemma ThenNotVirtual(addrs: seq<InterfaceAddr>, k: nat)
    requires forall j :: 0 <= j < |addrs| ==> !InTier(addrs[j], HomeNetwork)
    requires k < |addrs| && InTier(addrs[k], NotVirtual)
    requires forall j :: 0 <= j < k ==> !InTier(addrs[j], NotVirtual)
    ensures Preferred(Ok(addrs)) == addrs[k].ipv4.value
  {
  }

  /** Failing both, the first candidate of any kind wins. */
  lemma ThenAnyIPv4(addrs: seq<InterfaceAddr>, k: nat)
    requires forall j :: 0 <= j < |addrs| ==> !InTier(addrs[j], HomeNetwork)
    requires forall j :: 0 <= j < |addrs| ==> !InTier(addrs[j], NotVirtual)
    requires k < |addrs| && IsCandidate(addrs[k])
    requires forall j :: 0 <= j < k ==> !IsCandidate(addrs[j])
    ensures Preferred(Ok(addrs)) == addrs[k].ipv4.value
  {
  }

  /** With candidates present the result is the text of one of them; with
      none, or when the interfaces cannot be listed, it is `localhost`. */
  lemma PreferredIsCandidate(listing: Result<seq<InterfaceAddr>>)
    ensures listing.Ok? && (exists k :: 0 <= k < |listing.value| && IsCandidate(listing.value[k])) ==>
              exists k :: 0 <= k < |listing.value| && IsCandidate(listing.value[k]) &&
                Preferred(listing) == listing.value[k].ipv4.value
    ensures (listing.Err? || forall k :: 0 <= k < |listing.value| ==> !IsCandidate(listing.value[k])) ==>
              Preferred(listing) == "localhost"
  {
  }

  /** Every `192.168.56.` address also starts with `192.168.`. */
  lemma VirtualBoxIsHomePrefixed(ip: string)
    requires HasPrefix(ip, "192.168.56.")
    ensures HasPrefix(ip, "192.168.")
  {
    assert ip[..8] == ip[..11][..8];
  }

  /** The second pass is reached only when no candidate starts with
      `192.168.`, so its VirtualBox exclusion never decides anything: there
      it accepts exactly the candidates outside Docker's `172.17.`, public
      addresses included. */
  lemma NotVirtualAfterHomeNetwork(addrs: seq<InterfaceAddr>, k: nat)
    requires FirstIn(addrs, HomeNetwork) == |addrs|
    requires k < |addrs|
    ensures InTier(addrs[k], NotVirtual) <==>
              IsCandidate(addrs[k]) && !HasPrefix(addrs[k].ipv4.value, "172.17.")
  {
    assert !InTier(addrs[k], HomeNetwork);
    if IsCandidate(addrs[k]) && HasPrefix(addrs[k].ipv4.value, "192.168.56.") {
      VirtualBoxIsHomePrefixed(addrs[k].ipv4.value);
    }
  }

  /** The first pass does not exclude VirtualBox: a host-only
      `192.168.56.` address listed before a home-network `192.168.1.`
      address is the one chosen. */
  lemma VirtualBoxCanWin()
    ensures Preferred(Ok([IPNet(false, Some("192.168.56.1")), IPNet(false, Some("192.168.1.10"))]))
            == "192.168.56.1"
  {
  }
}

/** The handoff between the network agent and the gateway: which IPv4 networks are acceptable, and when a status
    record authorizes the use of an address. */
module NetConfig {
  import opened Basics

  /** An IPv4 address as the number its four bytes spell; an address text is Some exactly when it parses as one. */
  type Ip = n: int | 0 <= n < 0x1_0000_0000

  function Pow2(k: nat): (r: nat)
    ensures r > 0
  {
    if k == 0 then 1 else 2 * Pow2(k - 1)
  }

  lemma Pow2Of32()
    ensures Pow2(32) == 0x1_0000_0000
  {
    assert Pow2(8) == 256;
    assert Pow2(16) == 0x1_0000;
    assert Pow2(24) == 0x100_0000;
  }

  /** Global unicast, not loopback, not link-local, not in 0/8. */
  predicate Usable(ip: Ip) {
    var first := ip / 0x100_0000;
    0 < first < 224 && first != 127 && ip / 0x1_0000 != 169 * 256 + 254
  }

  /** Number of addresses in a network whose prefix has the given length. */
  function NetworkSize(bits: int): (size: nat)
    requires 1 <= bits <= 30
    ensures size > 0
  {
    Pow2(32 - bits)
  }

  /** Two different numbers of one block of the given size, neither of them its first or its last. */
  predicate HostPair(a: int, r: int, size: nat)
    requires size > 0
  {
    var network := a - a % size;
    && a != network && a != network + size - 1
    && r - r % size == network && r != a && r != network && r != network + size - 1
  }

  predicate ValidAddress(address: Option<Ip>, bits: int, router: Option<Ip>) {
    && address.Some? && Usable(address.value) && 1 <= bits <= 30
    && router.Some? && Usable(router.value) && HostPair(address.value, router.value, NetworkSize(bits))
  }

  /** Hosts of the k-th network of the given size: neither its first number nor its last one. */
  ghost predicate HostsOf(k: int, size: int, a: int, b: int) {
    size * k < a < size * k + size - 1 && size * k < b < size * k + size - 1
  }

  /** An acceptable address and its router are two different usable hosts of one network, so exchanging their
      roles changes nothing. */
  lemma ValidAddressIsHostPair(a: Ip, bits: int, r: Ip)
    ensures ValidAddress(Some(a), bits, Some(r)) <==>
            (&& 1 <= bits <= 30 && Usable(a) && Usable(r) && a != r
             && exists k :: HostsOf(k, NetworkSize(bits), a, r))
    ensures ValidAddress(Some(a), bits, Some(r)) <==> ValidAddress(Some(r), bits, Some(a))
  {
    hide Usable, NetworkSize, HostPair, HostsOf;
    if 1 <= bits <= 30 {
      HostPairs(a, r, NetworkSize(bits));
      HostPairs(r, a, NetworkSize(bits));
    }
  }

  lemma HostPairs(a: int, r: int, size: nat)
    requires size > 0
    ensures HostPair(a, r, size) <==> a != r && exists k :: HostsOf(k, size, a, r)
    ensures HostPair(a, r, size) ==> HostPair(r, a, size)
  {
    BaseOf(a, size);
    BaseOf(r, size);
    if HostPair(a, r, size) {
      assert HostsOf(a / size, size, a, r);
    }
    if k :| HostsOf(k, size, a, r) {
      QuotientIs(k, size, a);
      QuotientIs(k, size, r);
    }
  }

  lemma BaseOf(a: int, size: int)
    requires size > 0
    ensures a - a % size == size * (a / size) && 0 <= a % size < size
  {
  }

  lemma QuotientIs(k: int, size: int, a: int)
    requires size > 0 && size * k <= a < size * k + size
    ensures a / size == k
  {
    var q := a / size;
    BaseOf(a, size);
    if q > k {
      MulMono(size, k + 1, q);
    } else if q < k {
      MulMono(size, q + 1, k);
    }
  }

  lemma MulMono(size: int, a: int, b: int)
    requires size > 0 && a <= b
    ensures size * a <= size * b
    decreases b - a
  {
    if a < b {
      MulMono(size, a, b - 1);
    }
  }

  /** A record that authorizes the use of an already configured address for a few seconds. */
  datatype Status = Status(generation: string, sequence: int, address: Option<Ip>, prefix: int, router: Option<Ip>,
                           validUntil: int)
  {
    predicate Valid(now: int) {
      && |generation| == 32 && sequence != 0 && now < validUntil <= now + 5 * SECOND
      && (forall c :: c in generation ==> '0' <= c <= '9' || 'a' <= c <= 'f')
      && ValidAddress(address, prefix, router)
    }

    predicate SameNetwork(other: Status) {
      generation == other.generation && address == other.address && prefix == other.prefix && router == other.router
    }
  }
}

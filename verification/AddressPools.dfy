/** Address pools: a lazy subnet generator that serves "next free prefix"
    requests directly and "n-th prefix" requests through a cache
    (netsim/augment/addressing.py).  Subnets are numbered from the start of the
    pool; AddressOf turns a number into an address. */
module AddressPools {
  import opened Arithmetic
  import opened Options
  import opened Sequences

  datatype AddressFamily = IPv4 | IPv6

  function Width(af: AddressFamily): nat {
    if af == IPv4 then 32 else 128
  }

  /** Generator position, and the cache of an address family. */
  datatype PoolState = PoolState(pos: nat, cache: seq<nat>)

  /** create_pool_generators throws away the first subnet of host-prefix pools
      and of the loopback pool. */
  function InitialSkip(af: AddressFamily, plen: nat, isLoopback: bool): nat {
    if (af == IPv4 && plen == 32) || (af == IPv6 && plen >= 127) || isLoopback then 1 else 0
  }

  /** Consecutive subnet numbers. */
  function Span(from: nat, to: nat): (s: seq<nat>)
    requires from <= to
    ensures |s| == to - from && forall i | 0 <= i < |s| :: s[i] == from + i
  {
    seq(to - from, i requires 0 <= i < to - from => from + i)
  }

  /** What one request does: n = 0 asks for the next prefix (0 is falsy in the
      source, exactly like a missing n), n > 0 for the n-th one. */
  function Serve(count: nat, s: PoolState, n: nat): (PoolState, Option<nat>)
    requires s.pos <= count
  {
    if n == 0 then
      if s.pos < count then (s.(pos := s.pos + 1), Some(s.pos)) else (s, None)
    else
      var missing := if n <= |s.cache| then 0 else n - |s.cache|;
      var fetched := if missing <= count - s.pos then missing else count - s.pos;
      var s' := PoolState(s.pos + fetched, s.cache + Span(s.pos, s.pos + fetched));
      (s', if n <= |s'.cache| then Some(s'.cache[n - 1]) else None)
  }

  class SubnetPool {
    const af: AddressFamily
    const base: int
    const blockSize: nat
    const count: nat
    var pos: nat
    var cache: seq<nat>

    function State(): PoolState
      reads this
    {
      PoolState(pos, cache)
    }

    /** A pool of the given prefix length cut into subnets of length plen. */
    constructor (af: AddressFamily, base: int, poolLen: nat, plen: nat, isLoopback: bool)
      requires poolLen <= plen <= Width(af)
      ensures this.af == af && this.base == base && count == Pow2(plen - poolLen) && blockSize == Pow2(Width(af) - plen)
      ensures State() == PoolState(InitialSkip(af, plen, isLoopback), [])
      ensures pos <= count && IsPowerOfTwo(blockSize)
    {
      Pow2IsPowerOfTwo(Width(af) - plen);
      this.af, this.base := af, base;
      count := Pow2(plen - poolLen);
      blockSize := Pow2(Width(af) - plen);
      pos := InitialSkip(af, plen, isLoopback);
      cache := [];
    }

    /** next(generator) */
    method NextSubnet() returns (r: Option<nat>)
      requires pos <= count
      modifies this`pos
      ensures pos <= count
      ensures (State(), r) == Serve(count, old(State()), 0)
    {
      if pos == count {
        return None;
      }
      pos := pos + 1;
      return Some(pos - 1);
    }

    /** get_nth_subnet: the generator is pulled until the cache is long enough;
        when it runs dry the cache keeps what was pulled. */
    method NthSubnet(n: nat) returns (r: Option<nat>)
      requires n > 0 && pos <= count
      modifies this`pos, this`cache
      ensures pos <= count
      ensures (State(), r) == Serve(count, old(State()), n)
    {
      while |cache| < n
        invariant old(pos) <= pos <= count
        invariant |cache| == |old(cache)| + (pos - old(pos))
        invariant pos > old(pos) ==> |cache| <= n
        invariant cache == old(cache) + Span(old(pos), pos)
        decreases n - |cache|
      {
        var subnet := NextSubnet();
        if subnet.None? {
          return None;
        }
        cache := cache + [subnet.value];
      }
      return Some(cache[n - 1]);
    }

    /** get_pool_prefix for one address family. */
    method GetPrefix(n: nat) returns (r: Option<nat>)
      requires pos <= count
      modifies this`pos, this`cache
      ensures pos <= count
      ensures (State(), r) == Serve(count, old(State()), n)
    {
      if n > 0 {
        r := NthSubnet(n);
      } else {
        r := NextSubnet();
      }
    }

    function AddressOf(subnet: nat): int {
      base + subnet * blockSize
    }
  }

  // ----- whole runs: any interleaving of next and n-th requests

  function Run(count: nat, skip: nat, reqs: seq<nat>): (r: (PoolState, seq<Option<nat>>))
    requires skip <= count
    ensures r.0.pos <= count && |r.1| == |reqs|
  {
    if reqs == [] then (PoolState(skip, []), []) else
      var (s, rs) := Run(count, skip, reqs[..|reqs| - 1]);
      var (s', r) := Serve(count, s, reqs[|reqs| - 1]);
      (s', rs + [r])
  }

  /** Subnet b was handed out by a "next" request. */
  ghost predicate HandedOut(reqs: seq<nat>, rs: seq<Option<nat>>, b: nat)
    requires |reqs| == |rs|
  {
    exists i :: 0 <= i < |reqs| && reqs[i] == 0 && rs[i] == Some(b)
  }

  /** Every generated subnet is in the cache or was handed out by "next", never
      both; the cache has no duplicates and answers every n-th request. */
  ghost predicate PoolInvariant(skip: nat, s: PoolState, reqs: seq<nat>, rs: seq<Option<nat>>)
    requires |reqs| == |rs|
  {
    && skip <= s.pos
    && Distinct(s.cache)
    && (forall b: nat :: skip <= b < s.pos <==> b in s.cache || HandedOut(reqs, rs, b))
    && (forall b: nat :: !(b in s.cache && HandedOut(reqs, rs, b)))
    && (forall i | 0 <= i < |reqs| && reqs[i] > 0 && rs[i].Some? ::
          reqs[i] <= |s.cache| && rs[i].value == s.cache[reqs[i] - 1])
    && (forall i, j | 0 <= i < j < |reqs| && reqs[i] == 0 && reqs[j] == 0 && rs[i].Some? :: rs[i] != rs[j])
  }

  lemma HandedOutGrows(reqs: seq<nat>, rs: seq<Option<nat>>, n: nat, r: Option<nat>)
    requires |reqs| == |rs|
    ensures forall b: nat :: HandedOut(reqs + [n], rs + [r], b) <==> HandedOut(reqs, rs, b) || (n == 0 && r == Some(b))
  {
    var reqs', rs' := reqs + [n], rs + [r];
    forall b: nat
      ensures HandedOut(reqs', rs', b) <==> HandedOut(reqs, rs, b) || (n == 0 && r == Some(b))
    {
      assert reqs'[|reqs|] == n && rs'[|reqs|] == r;
      if i :| 0 <= i < |reqs| && reqs[i] == 0 && rs[i] == Some(b) {
        assert reqs'[i] == 0 && rs'[i] == Some(b);
      }
    }
  }

  lemma CacheGrows(count: nat, s: PoolState, n: nat)
    requires s.pos <= count && Distinct(s.cache) && forall b | b in s.cache :: b < s.pos
    ensures var s' := Serve(count, s, n).0;
            && s.cache <= s'.cache && Distinct(s'.cache)
            && forall b: nat :: b in s'.cache <==> b in s.cache || (n > 0 && s.pos <= b < s'.pos)
  {
    var s' := Serve(count, s, n).0;
    forall b: nat ensures b in s'.cache <==> b in s.cache || (n > 0 && s.pos <= b < s'.pos) {
      if n > 0 && s.pos <= b < s'.pos {
        assert s'.cache[|s.cache| + b - s.pos] == b;
      }
    }
    forall i, j | 0 <= i < j < |s'.cache| ensures s'.cache[i] != s'.cache[j] {
      if i < |s.cache| <= j {
        assert s.cache[i] in s.cache;
      }
    }
  }

  lemma ServeKeepsInvariant(count: nat, skip: nat, s: PoolState, reqs: seq<nat>, rs: seq<Option<nat>>, n: nat)
    requires |reqs| == |rs| && s.pos <= count
    requires PoolInvariant(skip, s, reqs, rs)
    ensures var (s', r) := Serve(count, s, n);
            PoolInvariant(skip, s', reqs + [n], rs + [r])
  {
    var (s', r) := Serve(count, s, n);
    HandedOutGrows(reqs, rs, n, r);
    CacheGrows(count, s, n);
    assert forall i | 0 <= i < |reqs| :: (reqs + [n])[i] == reqs[i] && (rs + [r])[i] == rs[i];
    forall i | 0 <= i < |reqs| && n == 0 && reqs[i] == 0 && rs[i].Some? ensures rs[i] != r {
      assert HandedOut(reqs, rs, rs[i].value);
    }
  }

  lemma {:induction false} RunKeepsInvariant(count: nat, skip: nat, reqs: seq<nat>)
    requires skip <= count
    ensures var (s, rs) := Run(count, skip, reqs); PoolInvariant(skip, s, reqs, rs)
  {
    if reqs == [] {
    } else {
      var front := reqs[..|reqs| - 1];
      RunKeepsInvariant(count, skip, front);
      var (s, rs) := Run(count, skip, front);
      ServeKeepsInvariant(count, skip, s, front, rs, reqs[|reqs| - 1]);
      assert front + [reqs[|reqs| - 1]] == reqs;
    }
  }

  /** Two answers of a run name the same subnet exactly when both answer an n-th
      request with the same n. */
  lemma SubnetsSharedOnlyByEqualN(count: nat, skip: nat, reqs: seq<nat>, i: nat, j: nat)
    requires skip <= count && i < j < |reqs|
    requires var rs := Run(count, skip, reqs).1; rs[i].Some? && rs[j].Some?
    ensures var rs := Run(count, skip, reqs).1;
            rs[i] == rs[j] <==> reqs[i] == reqs[j] > 0
  {
    RunKeepsInvariant(count, skip, reqs);
    var (s, rs) := Run(count, skip, reqs);
    if reqs[i] == 0 {
      assert HandedOut(reqs, rs, rs[i].value);
    }
    if reqs[j] == 0 {
      assert HandedOut(reqs, rs, rs[j].value);
    }
  }

  /** A request fails only when the generator is used up, so a pool never
      reports exhaustion while it still has an unassigned subnet. */
  lemma FailureMeansExhausted(count: nat, skip: nat, reqs: seq<nat>, n: nat)
    requires skip <= count
    ensures var (s, rs) := Run(count, skip, reqs);
            var (s', r) := Serve(count, s, n);
            r.None? ==> forall b: nat | skip <= b < count ::
                          b in s'.cache || HandedOut(reqs + [n], rs + [r], b)
  {
    RunKeepsInvariant(count, skip, reqs);
    var (s, rs) := Run(count, skip, reqs);
    ServeKeepsInvariant(count, skip, s, reqs, rs, n);
  }

  /** A cache that holds everything generated so far answers with the n-th subnet
      after the skipped one. */
  lemma ServeNth(count: nat, skip: nat, s: PoolState, n: nat)
    requires skip <= s.pos <= count && s.cache == Span(skip, s.pos) && n > 0
    ensures var (s', r) := Serve(count, s, n);
            && skip <= s'.pos <= count && s'.cache == Span(skip, s'.pos)
            && r == if skip + n <= count then Some(skip + n - 1) else None
  {
  }

  /** Without "next" requests the answer depends on n alone, whatever the order
      of the requests. */
  lemma {:induction false} NthOnlyClosedForm(count: nat, skip: nat, reqs: seq<nat>)
    requires skip <= count
    requires forall i | 0 <= i < |reqs| :: reqs[i] > 0
    ensures var (s, rs) := Run(count, skip, reqs);
            && skip <= s.pos && s.cache == Span(skip, s.pos)
            && forall i | 0 <= i < |reqs| ::
                 rs[i] == if skip + reqs[i] <= count then Some(skip + reqs[i] - 1) else None
  {
    if reqs == [] {
    } else {
      var front := reqs[..|reqs| - 1];
      NthOnlyClosedForm(count, skip, front);
      ServeNth(count, skip, Run(count, skip, front).0, reqs[|reqs| - 1]);
    }
  }

  /** Subnets are disjoint address blocks. */
  lemma SubnetsDisjoint(base: int, blockSize: nat, b: nat, c: nat, x: int)
    requires base + b * blockSize <= x < base + b * blockSize + blockSize
    requires base + c * blockSize <= x < base + c * blockSize + blockSize
    ensures b == c
  {
    if b < c {
      MulSuccessor(b, c, blockSize);
    } else if c < b {
      MulSuccessor(c, b, blockSize);
    }
  }

  // ----- loopback addresses

  /** augment_loopback_interface: the subnet itself when it is a host prefix,
      its first host address otherwise. */
  function LoopbackAddress(base: int, blockSize: nat, subnet: nat): int {
    base + subnet * blockSize + if blockSize == 1 then 0 else 1
  }

  /** The closed form: the order of the nodes does not matter. */
  function LoopbackOfId(base: int, blockSize: nat, count: nat, skip: nat, id: nat): Option<int>
    requires id > 0
  {
    if skip + id > count then None else Some(LoopbackAddress(base, blockSize, skip + id - 1))
  }

  method AssignLoopbacks(pool: SubnetPool, nodeIds: seq<nat>) returns (loopbacks: seq<Option<int>>)
    requires pool.pos <= pool.count && pool.cache == []
    requires forall i | 0 <= i < |nodeIds| :: nodeIds[i] > 0
    modifies pool
    ensures |loopbacks| == |nodeIds|
    ensures forall i | 0 <= i < |nodeIds| ::
              loopbacks[i] == LoopbackOfId(pool.base, pool.blockSize, pool.count, old(pool.pos), nodeIds[i])
  {
    ghost var skip := pool.pos;
    loopbacks := [];
    for k := 0 to |nodeIds|
      invariant skip <= pool.pos <= pool.count && pool.cache == Span(skip, pool.pos)
      invariant |loopbacks| == k
      invariant forall i | 0 <= i < k ::
                  loopbacks[i] == LoopbackOfId(pool.base, pool.blockSize, pool.count, skip, nodeIds[i])
    {
      ServeNth(pool.count, skip, pool.State(), nodeIds[k]);
      var subnet := pool.GetPrefix(nodeIds[k]);
      loopbacks := loopbacks + [match subnet
                                case None => None
                                case Some(b) => Some(LoopbackAddress(pool.base, pool.blockSize, b))];
    }
  }

  /** Distinct nodes get distinct loopback addresses. */
  lemma LoopbacksDistinct(base: int, blockSize: nat, skip: nat, id: nat, id': nat)
    requires blockSize >= 1 && id > 0 && id' > 0
    requires LoopbackAddress(base, blockSize, skip + id - 1) == LoopbackAddress(base, blockSize, skip + id' - 1)
    ensures id == id'
  {
    SubnetsDisjoint(base, blockSize, skip + id - 1, skip + id' - 1, LoopbackAddress(base, blockSize, skip + id - 1));
  }

  /** The loopback of node id: in pools of host prefixes the address id above the
      start of the pool, so that the start itself stays unused; in pools of larger
      prefixes the first host address of subnet number id. */
  lemma LoopbackExact(af: AddressFamily, base: int, plen: nat, count: nat, id: nat)
    requires plen <= Width(af) && 0 < id < count
    ensures var skip := InitialSkip(af, plen, true);
            LoopbackOfId(base, Pow2(Width(af) - plen), count, skip, id) ==
            Some(if plen == Width(af) then base + id else base + id * Pow2(Width(af) - plen) + 1)
  {
    if plen < Width(af) {
      Pow2Grows(0, Width(af) - plen);
    } else {
      assert Pow2(Width(af) - plen) == 1;
    }
  }

  /** Other pools start with their first subnet, unless they hand out host
      prefixes or, in IPv6, pairs of addresses. */
  lemma FirstSubnetSkipped(af: AddressFamily, plen: nat)
    requires plen <= Width(af)
    ensures InitialSkip(af, plen, false) == if plen == Width(af) || (af == IPv6 && plen == Width(af) - 1) then 1 else 0
    ensures InitialSkip(af, plen, true) == 1
  {
  }
}

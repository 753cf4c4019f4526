/** Node identifiers: the global ID variable of netsim/modules/_dataplane.py, the
    gateway IDs reserved in it by the gateway module, and the two passes that
    give every node an ID. */
module NodeIds {
  import opened Options

  datatype IdResult = Id(value: int) | NotInitialised | Exhausted

  /** A named ID variable: identifiers in use and the auto-assign counter. */
  class IdVar {
    var value: set<int>
    var next: Option<int>
    var max: int

    constructor ()
      ensures value == {} && next == None
    {
      value, next, max := {}, None, 0;
    }

    /** reserve_id: False, and no change, when the ID is taken already. */
    method ReserveId(n: int) returns (ok: bool)
      modifies this`value
      ensures ok <==> n !in old(value)
      ensures value == old(value) + {n}
    {
      if n in value {
        return false;
      }
      value := value + {n};
      return true;
    }

    method SetCounter(start: int, maxValue: int)
      modifies this`next, this`max
      ensures next == Some(start) && max == maxValue
    {
      next, max := Some(start), maxValue;
    }

    /** get_next_id: the least unused identifier at or above the counter.  The
        counter is compared with the maximum only after it moved, so the
        starting value itself is never range-checked. */
    method GetNextId() returns (r: IdResult)
      modifies this`value, this`next
      ensures r.NotInitialised? <==> old(next).None?
      ensures r.Id? ==>
                && old(next).value <= r.value
                && (r.value == old(next).value || r.value <= max)
                && r.value !in old(value)
                && (forall j | old(next).value <= j < r.value :: j in old(value))
                && value == old(value) + {r.value} && next == Some(r.value)
      ensures r.Exhausted? ==>
                && old(next).value in old(value)
                && (forall j | old(next).value <= j <= max :: j in old(value))
      ensures !r.Id? ==> value == old(value)
    {
      if next.None? {
        return NotInitialised;
      }
      while true
        invariant next.Some? && old(next).value <= next.value
        invariant next.value == old(next).value || next.value <= max
        invariant value == old(value)
        invariant forall j | old(next).value <= j < next.value :: j in value
        decreases max - next.value
      {
        if next.value !in value {
          value := value + {next.value};
          return Id(next.value);
        }
        next := Some(next.value + 1);
        if next.value > max {
          return Exhausted;
        }
      }
    }
  }

  /** process_gw_id over the global, link and VLAN gateway settings: negative IDs
      count from the end of the subnet and need no reservation. */
  method ReserveGatewayIds(idvar: IdVar, gatewayIds: seq<Option<int>>)
    modifies idvar`value
    ensures idvar.value == old(idvar.value) + ReservedGateways(gatewayIds)
  {
    for i := 0 to |gatewayIds|
      invariant idvar.value == old(idvar.value) + ReservedGateways(gatewayIds[..i])
    {
      assert gatewayIds[..i + 1] == gatewayIds[..i] + [gatewayIds[i]];
      ReservedGatewaysSnoc(gatewayIds[..i], gatewayIds[i]);
      if gatewayIds[i].Some? && gatewayIds[i].value >= 0 {
        var _ := idvar.ReserveId(gatewayIds[i].value);
      }
    }
    assert gatewayIds[..|gatewayIds|] == gatewayIds;
  }

  function ReservedGateways(gatewayIds: seq<Option<int>>): set<int> {
    set g | g in gatewayIds && g.Some? && g.value >= 0 :: g.value
  }

  lemma ReservedGatewaysSnoc(gs: seq<Option<int>>, g: Option<int>)
    ensures ReservedGateways(gs + [g]) ==
            ReservedGateways(gs) + if g.Some? && g.value >= 0 then {g.value} else {}
  {
    var longer := gs + [g];
    assert longer[|gs|] == g;
    forall x | x in ReservedGateways(gs) ensures x in ReservedGateways(longer) {
      assert Some(x) in longer;
    }
  }

  /** IDs given explicitly by the first k nodes. */
  function StaticIds(ids: seq<Option<int>>, k: nat): set<int>
    requires k <= |ids|
  {
    set i | 0 <= i < k && ids[i].Some? :: ids[i].value
  }

  /** What the first pass demands of the static IDs. */
  ghost predicate StaticIdsOk(ids: seq<Option<int>>, k: nat, reserved: set<int>, maxId: int)
    requires k <= |ids|
  {
    && (forall i | 0 <= i < k && ids[i].Some? :: 1 <= ids[i].value <= maxId && ids[i].value !in reserved)
    && (forall i, j | 0 <= i < j < k && ids[i].Some? && ids[j].Some? :: ids[i] != ids[j])
  }

  /** Nodes without a static ID among the first k. */
  function MissingIds(ids: seq<Option<int>>, k: nat): nat
    requires k <= |ids|
  {
    if k == 0 then 0 else MissingIds(ids, k - 1) + if ids[k - 1].None? then 1 else 0
  }

  /** Numbers in 1..n outside the used set. */
  function FreeUpTo(used: set<int>, n: int): nat
    decreases if n < 0 then 0 else n
  {
    if n <= 0 then 0 else FreeUpTo(used, n - 1) + if n in used then 0 else 1
  }

  /** v is the k-th smallest identifier outside the used set. */
  ghost predicate IsKthFree(used: set<int>, v: int, k: nat) {
    v >= 1 && v !in used && FreeUpTo(used, v) == k
  }

  lemma {:induction false} FreeUpToMonotone(used: set<int>, a: int, b: int)
    requires a <= b
    ensures FreeUpTo(used, a) <= FreeUpTo(used, b)
    decreases b - a
  {
    if a == b {
    } else {
      FreeUpToMonotone(used, a, b - 1);
    }
  }

  /** Nothing free between a and b leaves the count unchanged. */
  lemma {:induction false} FreeUpToSkips(used: set<int>, a: int, b: int)
    requires a <= b && forall j | a < j <= b :: j in used
    ensures FreeUpTo(used, a) == FreeUpTo(used, b)
    decreases b - a
  {
    if a == b {
    } else {
      FreeUpToSkips(used, a, b - 1);
    }
  }

  /** The rank determines the identifier: later nodes get larger identifiers. */
  lemma KthFreeOrdered(used: set<int>, v: int, k: nat, w: int, l: nat)
    requires IsKthFree(used, v, k) && IsKthFree(used, w, l)
    ensures v < w <==> k < l
    ensures v == w <==> k == l
  {
    if v < w {
      FreeUpToMonotone(used, v, w - 1);
    } else if w < v {
      FreeUpToMonotone(used, w, v - 1);
    }
  }

  lemma {:induction false} MissingIdsMonotone(ids: seq<Option<int>>, i: nat, j: nat)
    requires i <= j <= |ids|
    ensures MissingIds(ids, i) <= MissingIds(ids, j)
    decreases j
  {
    if i == j {
    } else {
      MissingIdsMonotone(ids, i, j - 1);
    }
  }

  function IdLimit(maxId: int): int {
    if maxId < 1 then 1 else maxId
  }

  /** The k-th node without an ID received the k-th smallest free one. */
  ghost predicate Assigned(before: seq<Option<int>>, after: seq<Option<int>>, k: nat, used: set<int>, maxId: int)
    requires k <= |before| == |after|
  {
    forall i | 0 <= i < k ::
      if before[i].Some? then after[i] == before[i]
      else
        && after[i].Some?
        && after[i].value <= IdLimit(maxId)
        && IsKthFree(used, after[i].value, MissingIds(before, i) + 1)
  }

  /** transform: reserve the static IDs, then hand out the free ones in node
      order.  Any error ends the program, so only the successful outcome
      constrains the final IDs. */
  method AssignNodeIds(ids: array<Option<int>>, idvar: IdVar, maxId: int) returns (ok: bool)
    modifies ids, idvar
    ensures ok <==>
            var before := old(ids[..]);
            && StaticIdsOk(before, |before|, old(idvar.value), maxId)
            && MissingIds(before, |before|) <=
               FreeUpTo(old(idvar.value) + StaticIds(before, |before|), IdLimit(maxId))
    ensures ok ==>
              var before := old(ids[..]);
              Assigned(before, ids[..], |before|, old(idvar.value) + StaticIds(before, |before|), maxId)
  {
    ghost var before, reserved := ids[..], idvar.value;
    ok := true;
    for i := 0 to ids.Length
      invariant ids[..] == before
      invariant ok <==> StaticIdsOk(before, i, reserved, maxId)
      invariant ok ==> idvar.value == reserved + StaticIds(before, i)
    {
      if ids[i].Some? {
        if 1 <= ids[i].value <= maxId {
          var unused := idvar.ReserveId(ids[i].value);
          ok := ok && unused;
        } else {
          ok := false;
        }
      }
    }
    if !ok {
      return;
    }
    ok := AssignMissingIds(ids, idvar, maxId);
  }

  /** Progress of the counter: everything up to the identifier handed out last
      is in use, everything above it is as it was, and count identifiers were
      free up to there. */
  ghost predicate Frontier(value: set<int>, used: set<int>, last: nat, count: nat) {
    && (forall j | 1 <= j <= last :: j in value)
    && (forall j | j > last :: j in value <==> j in used)
    && FreeUpTo(used, last) == count
  }

  lemma FrontierAdvances(value: set<int>, used: set<int>, last: nat, count: nat, v: int)
    requires Frontier(value, used, last, count)
    requires v > last && v !in value && forall j | last < j < v :: j in value
    ensures IsKthFree(used, v, count + 1)
    ensures Frontier(value + {v}, used, v, count + 1)
  {
    FreeUpToSkips(used, last, v - 1);
  }

  /** When the counter has run past the limit there are too few free IDs. */
  lemma TooFewFree(before: seq<Option<int>>, k: nat, value: set<int>, used: set<int>, last: nat, limit: int)
    requires k < |before| && before[k].None?
    requires Frontier(value, used, last, MissingIds(before, k)) && last <= limit
    requires forall j | last < j <= limit :: j in value
    ensures FreeUpTo(used, limit) < MissingIds(before, |before|)
  {
    FreeUpToSkips(used, last, limit);
    MissingIdsMonotone(before, k + 1, |before|);
  }

  /** State of the second pass before node k. */
  ghost predicate PassState(before: seq<Option<int>>, after: seq<Option<int>>, k: nat,
                            value: set<int>, used: set<int>, last: nat, maxId: int) {
    && k <= |before| == |after|
    && after[k..] == before[k..]
    && Assigned(before, after, k, used, maxId)
    && last <= IdLimit(maxId)
    && Frontier(value, used, last, MissingIds(before, k))
  }

  lemma NodeWithId(before: seq<Option<int>>, after: seq<Option<int>>, k: nat, value: set<int>, used: set<int>, last: nat, maxId: int)
    requires PassState(before, after, k, value, used, last, maxId)
    requires k < |before| && before[k].Some?
    ensures PassState(before, after, k + 1, value, used, last, maxId)
  {
    assert after[k] == after[k..][0] == before[k..][0] == before[k];
  }

  lemma NodeWithoutId(before: seq<Option<int>>, after: seq<Option<int>>, k: nat, value: set<int>, used: set<int>, last: nat, maxId: int, v: int)
    requires PassState(before, after, k, value, used, last, maxId)
    requires k < |before| && before[k].None? && v <= IdLimit(maxId)
    requires v > last && v !in value && forall j | last < j < v :: j in value
    ensures PassState(before, after[k := Some(v)], k + 1, value + {v}, used, v, maxId)
  {
    FrontierAdvances(value, used, last, MissingIds(before, k), v);
    assert after[k := Some(v)][k + 1..] == after[k..][1..];
  }

  /** The second pass on its own. */
  method AssignMissingIds(ids: array<Option<int>>, idvar: IdVar, maxId: int) returns (ok: bool)
    modifies ids, idvar
    ensures ok <==> MissingIds(old(ids[..]), ids.Length) <= FreeUpTo(old(idvar.value), IdLimit(maxId))
    ensures ok ==> Assigned(old(ids[..]), ids[..], ids.Length, old(idvar.value), maxId)
  {
    ghost var before, used := ids[..], idvar.value;
    ghost var last: nat := 0;   // the identifier handed out most recently
    idvar.SetCounter(1, maxId);
    for i := 0 to ids.Length
      invariant PassState(before, ids[..], i, idvar.value, used, last, maxId)
      invariant idvar.max == maxId && idvar.next == Some(if last == 0 then 1 else last)
    {
      ghost var held, partial := idvar.value, ids[..];
      assert ids[i] == partial[i..][0] == before[i..][0] == before[i];
      if ids[i].None? {
        var r := idvar.GetNextId();
        if !r.Id? {
          TooFewFree(before, i, held, used, last, IdLimit(maxId));
          return false;
        }
        NodeWithoutId(before, partial, i, held, used, last, maxId, r.value);
        last := r.value;
        ids[i] := Some(r.value);
        assert ids[..] == partial[i := Some(r.value)];
      } else {
        NodeWithId(before, partial, i, held, used, last, maxId);
      }
    }
    FreeUpToMonotone(used, last, IdLimit(maxId));
    return true;
  }

  /** All identifiers are distinct, in range, and none is a reserved gateway ID. */
  lemma AssignedIdsDistinct(before: seq<Option<int>>, after: seq<Option<int>>, reserved: set<int>, maxId: int)
    requires |before| == |after|
    requires maxId >= 1
    requires StaticIdsOk(before, |before|, reserved, maxId)
    requires Assigned(before, after, |before|, reserved + StaticIds(before, |before|), maxId)
    ensures forall i | 0 <= i < |after| ::
              after[i].Some? && 1 <= after[i].value <= maxId && after[i].value !in reserved
    ensures forall i, j | 0 <= i < j < |after| :: after[i] != after[j]
  {
    var used := reserved + StaticIds(before, |before|);
    forall i, j | 0 <= i < j < |after| ensures after[i] != after[j] {
      if before[i].None? && before[j].None? {
        MissingIdsMonotone(before, i + 1, j);
        KthFreeOrdered(used, after[i].value, MissingIds(before, i) + 1, after[j].value, MissingIds(before, j) + 1);
      }
    }
  }
}

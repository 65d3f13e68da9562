/**
 * One node of the distance-vector routing exercise (hw5/entity.py): a cost
 * table and a next-hop table indexed by destination, relaxed Bellman-Ford
 * style by the cost vectors neighbours advertise, and a map of direct link
 * costs kept in insertion order like a Python dict.
 */
module Routing {
  import opened Common

  /** A path cost: a number or `math.inf`. */
  datatype Cost = Finite(amount: int) | Infinite

  /** `a + b` on costs: anything plus infinity is infinity. */
  function Plus(a: Cost, b: Cost): (r: Cost)
    ensures r.Infinite? <==> a.Infinite? || b.Infinite?
    ensures r.Finite? ==> r.amount == a.amount + b.amount
  {
    if a.Infinite? || b.Infinite? then Infinite else Finite(a.amount + b.amount)
  }

  /** `a < b` on costs: every number is below infinity, and infinity is below nothing. */
  predicate Below(a: Cost, b: Cost) {
    match (a, b)
    case (Finite(x), Finite(y)) => x < y
    case (Finite(_), Infinite) => true
    case (Infinite, _) => false
  }

  /** `Below` is a strict total order. */
  lemma BelowOrder(a: Cost, b: Cost, c: Cost)
    ensures !Below(a, a)
    ensures Below(a, b) ==> !Below(b, a)
    ensures Below(a, b) && Below(b, c) ==> Below(a, c)
    ensures a != b ==> Below(a, b) || Below(b, a)
  {
  }

  /** One relaxation step: keep the current cost unless the offered one is strictly lower. */
  function Relax(current: Cost, offered: Cost): (r: Cost)
    ensures r == current || r == offered
    ensures !Below(current, r) && !Below(offered, r)
    ensures r != current <==> Below(offered, current)
  {
    if Below(offered, current) then offered else current
  }

  /** Relaxing twice with the same offer is relaxing once; two offers give the same result in either order. */
  lemma RelaxLaws(current: Cost, a: Cost, b: Cost)
    ensures Relax(Relax(current, a), a) == Relax(current, a)
    ensures Relax(Relax(current, a), b) == Relax(Relax(current, b), a)
  {
    BelowOrder(current, a, b);
    BelowOrder(a, b, current);
    BelowOrder(b, current, a);
    BelowOrder(current, b, a);
    BelowOrder(a, current, b);
    BelowOrder(b, a, current);
  }

  /** A packet the entity hands to the simulator: `Packet(destination=k, costs=costs)`. */
  datatype Advert = Advert(destination: int, costs: seq<Cost>)

  /** A packet arriving at the entity: the simulator stamps the neighbour that sent it. */
  datatype Arrival = Arrival(source: int, costs: seq<Cost>)

  /** No key occurs twice. */
  predicate Distinct(keys: seq<int>) {
    forall i, j :: 0 <= i < j < |keys| ==> keys[i] != keys[j]
  }

  /** `keys` without `k`, order kept. */
  function Drop(keys: seq<int>, k: int): (r: seq<int>)
    ensures forall j :: j in r <==> j in keys && j != k
    ensures Distinct(keys) ==> Distinct(r)
  {
    if keys == [] then []
    else if keys[0] == k then Drop(keys[1..], k)
    else
      var rest := Drop(keys[1..], k);
      assert Distinct(keys) ==> keys[0] !in keys[1..] && Distinct(keys[1..]);
      [keys[0]] + rest
  }

  /**
   * The neighbour-cost dict: its keys in insertion order and the cost stored
   * under each key.
   */
  datatype Dict = Dict(keys: seq<int>, values: map<int, Cost>) {
    /** The key list and the map describe the same keys, each listed once. */
    ghost predicate Valid() {
      && (forall k :: k in keys <==> k in values)
      && Distinct(keys)
    }

    /** `d[k] = v`: a new key goes to the end; an existing key keeps its place and takes the new value. */
    function Put(k: int, v: Cost): (d: Dict)
      ensures Valid() ==> d.Valid()
      ensures k in d.values && d.values[k] == v
      ensures forall j :: j != k ==> (j in d.values <==> j in values)
      ensures forall j :: j != k && j in values ==> d.values[j] == values[j]
      ensures k in values ==> d.keys == keys
      ensures k !in values ==> d.keys == keys + [k]
    {
      Dict(if k in values then keys else keys + [k], values[k := v])
    }

    /** `del d[k]` for a key that is present: every other entry stays, in order. */
    function Remove(k: int): (d: Dict)
      ensures Valid() ==> d.Valid()
      ensures k !in d.values
      ensures forall j :: j != k ==> (j in d.values <==> j in values)
      ensures forall j :: j != k && j in values ==> d.values[j] == values[j]
    {
      Dict(Drop(keys, k), values - {k})
    }
  }

  /** The dict after `d[k] = v` for every pair, in order. */
  function PutAll(d: Dict, pairs: seq<(int, Cost)>): (r: Dict)
    ensures d.Valid() ==> r.Valid()
    decreases |pairs|
  {
    if pairs == [] then d
    else
      var last := pairs[|pairs| - 1];
      PutAll(d, pairs[..|pairs| - 1]).Put(last.0, last.1)
  }

  /** The index of the last pair whose key is `k`, or -1 when no pair names `k`. */
  function LastWith(pairs: seq<(int, Cost)>, k: int): (i: int)
    ensures -1 <= i < |pairs|
    ensures i >= 0 ==> pairs[i].0 == k
    ensures forall j :: i < j < |pairs| ==> pairs[j].0 != k
  {
    if pairs == [] then -1
    else if pairs[|pairs| - 1].0 == k then |pairs| - 1
    else
      var front := pairs[..|pairs| - 1];
      assert forall j :: 0 <= j < |front| ==> front[j] == pairs[j];
      LastWith(front, k)
  }

  /** After storing the pairs, a key holds the value of its last pair; a key no pair names keeps its entry. */
  lemma {:induction false} PutAllLookup(d: Dict, pairs: seq<(int, Cost)>, k: int)
    ensures var i := LastWith(pairs, k);
      i >= 0 ==> k in PutAll(d, pairs).values && PutAll(d, pairs).values[k] == pairs[i].1
    ensures LastWith(pairs, k) < 0 ==>
      (k in PutAll(d, pairs).values <==> k in d.values) && (k in d.values ==> PutAll(d, pairs).values[k] == d.values[k])
    decreases |pairs|
  {
    if pairs != [] {
      PutAllLookup(d, pairs[..|pairs| - 1], k);
    }
  }

  /**
   * The costs after one advertisement: entry `d` becomes the lower of its
   * old value and the link cost plus the advertised cost to `d`; entries the
   * advertisement does not reach stay.
   */
  function RelaxedCosts(table: seq<Cost>, link: Cost, costs: seq<Cost>): seq<Cost> {
    seq(|table|, d requires 0 <= d < |table| => if d < |costs| then Relax(table[d], Plus(link, costs[d])) else table[d])
  }

  /** The next hops after one advertisement: `source` wherever the cost strictly dropped. */
  function RoutedHops(table: seq<Cost>, hops: seq<Option<int>>, link: Cost, costs: seq<Cost>, source: int): seq<Option<int>>
    requires |hops| == |table|
  {
    seq(|hops|, d requires 0 <= d < |hops| =>
      if d < |costs| && Below(Plus(link, costs[d]), table[d]) then Some(source) else hops[d])
  }

  /**
   * Costs never increase: every entry ends at or below its old value and, where
   * the advertisement reaches, at or below the path through the sender.
   */
  lemma CostsNeverIncrease(table: seq<Cost>, link: Cost, costs: seq<Cost>)
    ensures |RelaxedCosts(table, link, costs)| == |table|
    ensures forall d :: 0 <= d < |table| ==> !Below(table[d], RelaxedCosts(table, link, costs)[d])
    ensures forall d :: 0 <= d < |table| && d < |costs| ==> !Below(Plus(link, costs[d]), RelaxedCosts(table, link, costs)[d])
  {
  }

  /** The next hop to `d` becomes the sender exactly when the cost to `d` strictly drops; otherwise it stays. */
  lemma HopFollowsImprovement(table: seq<Cost>, hops: seq<Option<int>>, link: Cost, costs: seq<Cost>, source: int)
    requires |hops| == |table|
    ensures forall d :: 0 <= d < |table| && Below(RelaxedCosts(table, link, costs)[d], table[d]) ==>
      RoutedHops(table, hops, link, costs, source)[d] == Some(source)
    ensures forall d :: 0 <= d < |table| && !Below(RelaxedCosts(table, link, costs)[d], table[d]) ==>
      RoutedHops(table, hops, link, costs, source)[d] == hops[d]
  {
    forall d | 0 <= d < |table|
      ensures Below(RelaxedCosts(table, link, costs)[d], table[d]) <==> d < |costs| && Below(Plus(link, costs[d]), table[d])
    {
      if d < |costs| {
        BelowOrder(table[d], table[d], table[d]);
      }
    }
  }

  /** The same advertisement arriving twice changes nothing the second time. */
  lemma UpdateIdempotent(table: seq<Cost>, hops: seq<Option<int>>, link: Cost, costs: seq<Cost>, source: int)
    requires |hops| == |table|
    ensures var t := RelaxedCosts(table, link, costs);
      RelaxedCosts(t, link, costs) == t && RoutedHops(t, RoutedHops(table, hops, link, costs, source), link, costs, source) == RoutedHops(table, hops, link, costs, source)
  {
    var t := RelaxedCosts(table, link, costs);
    var h := RoutedHops(table, hops, link, costs, source);
    forall d | 0 <= d < |table| && d < |costs|
      ensures RelaxedCosts(t, link, costs)[d] == t[d] && !Below(Plus(link, costs[d]), t[d])
    {
      RelaxLaws(table[d], Plus(link, costs[d]), Plus(link, costs[d]));
    }
    assert RelaxedCosts(t, link, costs) == t;
    assert RoutedHops(t, h, link, costs, source) == h;
  }

  /** The costs after two advertisements do not depend on the order in which they arrive. */
  lemma CostsCommute(table: seq<Cost>, link1: Cost, costs1: seq<Cost>, link2: Cost, costs2: seq<Cost>)
    ensures RelaxedCosts(RelaxedCosts(table, link1, costs1), link2, costs2)
         == RelaxedCosts(RelaxedCosts(table, link2, costs2), link1, costs1)
  {
    var a := RelaxedCosts(RelaxedCosts(table, link1, costs1), link2, costs2);
    var b := RelaxedCosts(RelaxedCosts(table, link2, costs2), link1, costs1);
    forall d | 0 <= d < |table|
      ensures a[d] == b[d]
    {
      if d < |costs1| && d < |costs2| {
        RelaxLaws(table[d], Plus(link1, costs1[d]), Plus(link2, costs2[d]));
      }
    }
  }

  /** A relaxation step at destination `at`, then the rest. */
  lemma RelaxStep(table: seq<Cost>, hops: seq<Option<int>>, link: Cost, costs: seq<Cost>, source: int, at: nat, next: nat)
    requires |hops| == |table| && at < |table| && at < |costs| && next == at + 1
    ensures var offered := Plus(link, costs[at]);
      var t := RelaxedCosts(table, link, costs[..at]);
      var h := RoutedHops(table, hops, link, costs[..at], source);
      && t[at] == table[at]
      && RelaxedCosts(table, link, costs[..next]) == (if Below(offered, t[at]) then t[at := offered] else t)
      && RoutedHops(table, hops, link, costs[..next], source) == (if Below(offered, t[at]) then h[at := Some(source)] else h)
  {
  }

  /** An advertisement longer than the table acts only on the entries the table has. */
  lemma RelaxTruncated(table: seq<Cost>, hops: seq<Option<int>>, link: Cost, costs: seq<Cost>, source: int)
    requires |hops| == |table| <= |costs|
    ensures RelaxedCosts(table, link, costs[..|table|]) == RelaxedCosts(table, link, costs)
    ensures RoutedHops(table, hops, link, costs[..|table|], source) == RoutedHops(table, hops, link, costs, source)
  {
  }

  /** Python `s[i]`: negative indices count from the end; anything else out of range raises. */
  function PyIndex<T>(s: seq<T>, i: int): (r: Result<T>)
    ensures 0 <= i < |s| ==> r == Ok(s[i])
    ensures -|s| <= i < 0 ==> r == Ok(s[|s| + i])
    ensures r.Raise? <==> i < -|s| || |s| <= i
    ensures r.Raise? ==> r.error == IndexError
  {
    if 0 <= i < |s| then Ok(s[i]) else if -|s| <= i < 0 then Ok(s[|s| + i]) else Raise(IndexError)
  }

  /** `Entity`: one router of the simulated network. */
  class Entity {
    const index: int
    const numberOfEntities: int
    var costTable: seq<Cost>
    var nextHopTable: seq<Option<int>>
    /** The neighbour-cost dict, or `None` once `delete_neighbor` has deleted the attribute. */
    var neighborCostMap: Option<Dict>

    /** `len(range(number_of_entities))`. */
    function Size(): nat {
      if numberOfEntities < 0 then 0 else numberOfEntities
    }

    /** Both tables have one entry per entity, and the dict is well formed. */
    ghost predicate Valid()
      reads this
    {
      && |costTable| == Size()
      && |nextHopTable| == Size()
      && (neighborCostMap.Some? ==> neighborCostMap.value.Valid())
    }

    /** `__init__`: every cost infinite, no next hops, no neighbours. */
    constructor(entityIndex: int, numberEntities: int)
      ensures index == entityIndex && numberOfEntities == numberEntities
      ensures Valid()
      ensures forall d :: 0 <= d < Size() ==> costTable[d] == Infinite && nextHopTable[d] == None
      ensures neighborCostMap == Some(Dict([], map[]))
    {
      index := entityIndex;
      numberOfEntities := numberEntities;
      var n := if numberEntities < 0 then 0 else numberEntities;
      costTable := seq(n, _ => Infinite);
      nextHopTable := seq(n, _ => None);
      neighborCostMap := Some(Dict([], map[]));
    }

    /** Every entity other than this one has a direct link in `d`. */
    predicate LinksAll(d: Dict) {
      forall i :: 0 <= i < Size() && i != index ==> i in d.values
    }

    /**
     * `initialize_costs`: stores every (neighbour, cost) pair, then advertises
     * to each neighbour, in dict order, the vector that is 0 at this entity
     * and the direct link cost everywhere else. An entity that is not a
     * neighbour raises KeyError while the vector is built; the tables are not
     * touched.
     */
    method InitializeCosts(neighborCosts: seq<(int, Cost)>) returns (r: Result<seq<Advert>>)
      requires Valid()
      modifies this
      ensures Valid()
      ensures costTable == old(costTable) && nextHopTable == old(nextHopTable)
      ensures old(neighborCostMap).None? ==> neighborCostMap.None? && r == Raise(AttributeError)
      ensures old(neighborCostMap).Some? ==>
        && neighborCostMap == Some(PutAll(old(neighborCostMap).value, neighborCosts))
        && (r.Ok? <==> LinksAll(neighborCostMap.value))
        && (r.Raise? ==> r.error == KeyError)
      ensures r.Ok? ==>
        && neighborCostMap.Some?
        && |r.value| == |neighborCostMap.value.keys|
        && forall j :: 0 <= j < |r.value| ==>
          && r.value[j].destination == neighborCostMap.value.keys[j]
          && |r.value[j].costs| == Size()
          && forall i :: 0 <= i < Size() ==>
            r.value[j].costs[i] == if i == index then Finite(0) else neighborCostMap.value.values[i]
    {
      // Without the dict attribute the first store, or else the first lookup
      // or the walk over the keys, raises.
      if neighborCostMap.None? {
        return Raise(AttributeError);
      }
      var k := 0;
      assert neighborCosts[..0] == [];
      while k < |neighborCosts|
        invariant 0 <= k <= |neighborCosts|
        invariant Valid() && costTable == old(costTable) && nextHopTable == old(nextHopTable)
        invariant neighborCostMap == Some(PutAll(old(neighborCostMap).value, neighborCosts[..k]))
      {
        var pair := neighborCosts[k];
        neighborCostMap := Some(neighborCostMap.value.Put(pair.0, pair.1));
        assert neighborCosts[..k + 1][..k] == neighborCosts[..k];
        k := k + 1;
      }
      assert neighborCosts[..k] == neighborCosts;
      var links := neighborCostMap.value;
      var vector := LinkVector(links);
      if vector.Raise? {
        return Raise(vector.error);
      }
      var packets := AdvertiseTo(links.keys, vector.value);
      r := Ok(packets);
    }

    /** The cost-vector loop of `initialize_costs`: 0 here, the direct link cost elsewhere. */
    method LinkVector(links: Dict) returns (r: Result<seq<Cost>>)
      ensures r.Ok? <==> LinksAll(links)
      ensures r.Raise? ==> r.error == KeyError
      ensures r.Ok? ==> |r.value| == Size()
      ensures r.Ok? ==> forall i :: 0 <= i < Size() ==> r.value[i] == if i == index then Finite(0) else links.values[i]
    {
      var costs: seq<Cost> := [];
      var i := 0;
      while i < Size()
        invariant 0 <= i <= Size() && |costs| == i
        invariant forall t :: 0 <= t < i && t != index ==> t in links.values
        invariant forall t :: 0 <= t < i ==> costs[t] == if t == index then Finite(0) else links.values[t]
      {
        if i == index {
          costs := costs + [Finite(0)];
        } else {
          if i !in links.values {
            return Raise(KeyError);
          }
          costs := costs + [links.values[i]];
        }
        i := i + 1;
      }
      r := Ok(costs);
    }

    /** The sending loop of `initialize_costs`: one packet per neighbour, in dict order, all with the same vector. */
    method AdvertiseTo(keys: seq<int>, costs: seq<Cost>) returns (packets: seq<Advert>)
      ensures |packets| == |keys|
      ensures forall j :: 0 <= j < |keys| ==> packets[j] == Advert(keys[j], costs)
    {
      packets := [];
      var j := 0;
      while j < |keys|
        invariant 0 <= j <= |keys| && |packets| == j
        invariant forall t :: 0 <= t < j ==> packets[t] == Advert(keys[t], costs)
      {
        packets := packets + [Advert(keys[j], costs)];
        j := j + 1;
      }
    }

    /**
     * `update`: for every destination the packet reaches, the cost becomes
     * the lower of the old cost and the link cost to the sender plus the
     * advertised cost, and the next hop becomes the sender where that is a
     * strict improvement. The first entry already needs the link cost, so an
     * unknown sender (KeyError) or a deleted dict (AttributeError) leaves
     * both tables alone; an advertisement longer than the table raises
     * IndexError after relaxing every entry the table has.
     */
    method Update(pkt: Arrival) returns (r: Result<seq<Advert>>)
      requires Valid()
      modifies this
      ensures Valid() && neighborCostMap == old(neighborCostMap)
      ensures pkt.costs == [] ==> r == Ok([]) && costTable == old(costTable) && nextHopTable == old(nextHopTable)
      ensures pkt.costs != [] && Size() == 0 ==> r == Raise(IndexError) && costTable == old(costTable) && nextHopTable == old(nextHopTable)
      ensures pkt.costs != [] && Size() > 0 && neighborCostMap.None? ==>
        r == Raise(AttributeError) && costTable == old(costTable) && nextHopTable == old(nextHopTable)
      ensures pkt.costs != [] && Size() > 0 && neighborCostMap.Some? && pkt.source !in neighborCostMap.value.values ==>
        r == Raise(KeyError) && costTable == old(costTable) && nextHopTable == old(nextHopTable)
      ensures pkt.costs != [] && Size() > 0 && neighborCostMap.Some? && pkt.source in neighborCostMap.value.values ==>
        var link := neighborCostMap.value.values[pkt.source];
        && costTable == RelaxedCosts(old(costTable), link, pkt.costs)
        && nextHopTable == RoutedHops(old(costTable), old(nextHopTable), link, pkt.costs, pkt.source)
        && r == if |pkt.costs| <= Size() then Ok([]) else Raise(IndexError)
    {
      ghost var table, hops := costTable, nextHopTable;
      ghost var link: Cost := Infinite;
      if neighborCostMap.Some? && pkt.source in neighborCostMap.value.values {
        link := neighborCostMap.value.values[pkt.source];
      }
      var d := 0;
      assert pkt.costs[..0] == [];
      assert RelaxedCosts(table, link, []) == table && RoutedHops(table, hops, link, [], pkt.source) == hops;
      while d < |pkt.costs|
        invariant 0 <= d <= |pkt.costs| && d <= Size()
        invariant Valid() && neighborCostMap == old(neighborCostMap)
        invariant d > 0 ==> neighborCostMap.Some? && pkt.source in neighborCostMap.value.values
        invariant costTable == RelaxedCosts(table, link, pkt.costs[..d])
        invariant nextHopTable == RoutedHops(table, hops, link, pkt.costs[..d], pkt.source)
      {
        if d >= |costTable| {
          RelaxTruncated(table, hops, link, pkt.costs, pkt.source);
          return Raise(IndexError);
        }
        var oldPathCost := costTable[d];
        if neighborCostMap.None? {
          return Raise(AttributeError);
        }
        if pkt.source !in neighborCostMap.value.values {
          return Raise(KeyError);
        }
        var newPathCost := Plus(neighborCostMap.value.values[pkt.source], pkt.costs[d]);
        if Below(newPathCost, oldPathCost) {
          costTable := costTable[d := newPathCost];
          nextHopTable := nextHopTable[d := Some(pkt.source)];
        }
        ghost var at := d;
        d := d + 1;
        RelaxStep(table, hops, link, pkt.costs, pkt.source, at, d);
      }
      assert pkt.costs[..d] == pkt.costs;
      r := Ok([]);
    }

    /** `periodic_update`: sends nothing. */
    method PeriodicUpdate() returns (r: seq<Advert>)
      ensures r == []
    {
      r := [];
    }

    /** `add_neighbor`: stores the link cost and nothing else. */
    method AddNeighbor(neighborIndex: int, linkCost: Cost) returns (r: Result<seq<Advert>>)
      requires Valid()
      modifies this
      ensures Valid()
      ensures costTable == old(costTable) && nextHopTable == old(nextHopTable)
      ensures old(neighborCostMap).None? ==> r == Raise(AttributeError) && neighborCostMap.None?
      ensures old(neighborCostMap).Some? ==> r == Ok([]) && neighborCostMap == Some(old(neighborCostMap).value.Put(neighborIndex, linkCost))
    {
      if neighborCostMap.None? {
        return Raise(AttributeError);
      }
      neighborCostMap := Some(neighborCostMap.value.Put(neighborIndex, linkCost));
      r := Ok([]);
    }

    /**
     * `delete_neighbor` as written: deletes the whole neighbour dict rather
     * than the one link, so every later lookup of a link cost raises
     * AttributeError; a second deletion raises it too.
     */
    method DeleteNeighbor(neighborIndex: int) returns (r: Result<seq<Advert>>)
      requires Valid()
      modifies this
      ensures Valid()
      ensures costTable == old(costTable) && nextHopTable == old(nextHopTable)
      ensures neighborCostMap.None?
      ensures r == if old(neighborCostMap).Some? then Ok([]) else Raise(AttributeError)
    {
      if neighborCostMap.None? {
        return Raise(AttributeError);
      }
      neighborCostMap := None;
      r := Ok([]);
    }

    /** Deleting the one link, `del self.neighbor_cost_map[neighbor_index]`: every other link stays. */
    method RemoveLink(neighborIndex: int) returns (r: Result<seq<Advert>>)
      requires Valid()
      modifies this
      ensures Valid()
      ensures costTable == old(costTable) && nextHopTable == old(nextHopTable)
      ensures old(neighborCostMap).None? ==> r == Raise(AttributeError) && neighborCostMap.None?
      ensures old(neighborCostMap).Some? && neighborIndex !in old(neighborCostMap).value.values ==>
        r == Raise(KeyError) && neighborCostMap == old(neighborCostMap)
      ensures old(neighborCostMap).Some? && neighborIndex in old(neighborCostMap).value.values ==>
        && r == Ok([])
        && neighborCostMap.Some?
        && neighborIndex !in neighborCostMap.value.values
        && forall j :: j != neighborIndex && j in old(neighborCostMap).value.values ==>
          j in neighborCostMap.value.values && neighborCostMap.value.values[j] == old(neighborCostMap).value.values[j]
    {
      if neighborCostMap.None? {
        return Raise(AttributeError);
      }
      if neighborIndex !in neighborCostMap.value.values {
        return Raise(KeyError);
      }
      neighborCostMap := Some(neighborCostMap.value.Remove(neighborIndex));
      r := Ok([]);
    }

    /** `forward_next_hop`: this entity for itself, else the next-hop entry (Python indexing). */
    function ForwardNextHop(destination: int): (r: Result<Option<int>>)
      reads this
      requires Valid()
      ensures destination == index ==> r == Ok(Some(index))
      ensures destination != index ==> (r.Ok? <==> -(Size() as int) <= destination < Size())
      ensures destination != index && 0 <= destination < Size() ==> r == Ok(nextHopTable[destination])
    {
      if destination == index then Ok(Some(index)) else PyIndex(nextHopTable, destination)
    }

    /** `get_all_costs`: (next hop, cost) for every destination, in index order. */
    method GetAllCosts() returns (r: seq<(Option<int>, Cost)>)
      requires Valid()
      ensures |r| == Size()
      ensures forall d :: 0 <= d < Size() ==>
        r[d] == (if d == index then Some(index) else nextHopTable[d], costTable[d])
    {
      r := [];
      var d := 0;
      while d < Size()
        invariant 0 <= d <= Size() && |r| == d
        invariant forall t :: 0 <= t < d ==> r[t] == (if t == index then Some(index) else nextHopTable[t], costTable[t])
      {
        var nextHop := ForwardNextHop(d);
        r := r + [(nextHop.value, costTable[d])];
        d := d + 1;
      }
    }
  }

  /**
   * Entity 0 of three, linked to 1 (cost 5) and 2 (cost 3): after
   * `delete_neighbor(1)` an advertisement from 2 raises AttributeError.
   */
  method DeleteNeighborLosesEveryLink() returns (r: Result<seq<Advert>>)
    ensures r == Raise(AttributeError)
  {
    var e := new Entity(0, 3);
    var _ := e.AddNeighbor(1, Finite(5));
    var _ := e.AddNeighbor(2, Finite(3));
    var _ := e.DeleteNeighbor(1);
    r := e.Update(Arrival(2, [Finite(3), Finite(4), Finite(0)]));
  }

  /** The same run with only link 1 removed: the advertisement from 2 is used, and entity 2 costs 3 via 2. */
  method RemoveLinkKeepsOthers() returns (r: Result<seq<Advert>>, cost: Cost, hop: Option<int>)
    ensures r == Ok([]) && cost == Finite(3) && hop == Some(2)
  {
    var e := new Entity(0, 3);
    var _ := e.AddNeighbor(1, Finite(5));
    var _ := e.AddNeighbor(2, Finite(3));
    var _ := e.RemoveLink(1);
    r := e.Update(Arrival(2, [Finite(3), Finite(4), Finite(0)]));
    cost := e.costTable[2];
    hop := e.nextHopTable[2];
  }
}

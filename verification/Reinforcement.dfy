/** What an update does to the hops of a destination. */
module Reinforcement {
  import opened Addresses
  import opened Reals
  import opened Evaporation
  import opened RouteTable
  import opened RouteRuns

  /** How many hops a packet that started with the default ttl has travelled, its last one included. */
  function HopCount(cfg: Config, ttl: uint8): int {
    cfg.defaultTtl - ttl + 1
  }

  /**
   An update is discarded exactly if pruning is on, it announces a route rather than removing one, and the route takes
   more hops than the best one listed by more than the factor allows. best is the largest ttl of the listed hops.
   */
  lemma DiscardedIff(cfg: Config, t: Table, dst: Address, nexthop: Address, iface: Iface, delta: real, ttl: uint8,
                     best: uint8)
    requires cfg.Valid() && TableOk(cfg, t) && IsMaxTtl(HopsOf(t, dst), best)
    ensures var detour := HopCount(cfg, ttl) - HopCount(cfg, best) + 1;
      Update(cfg, t, dst, nexthop, iface, delta, ttl).1 == Discarded <==>
      && cfg.pruneRoutes > 0.0 && delta > 0.0 && ttl > 0
      && (if detour > 0 then detour else 0) as real > HopCount(cfg, best) as real * cfg.pruneRoutes
    ensures ttl >= best && HopCount(cfg, best) >= 1 ==>
      Update(cfg, t, dst, nexthop, iface, delta, ttl).1 != Discarded
  {
    hide Pruned, Update;
    if dst in t {
      LargestIsOne(t[dst].hops, t[dst].maxTtl, best);
    }
    UpdateDiscards(cfg, t, dst, nexthop, iface, delta, ttl);
    PrunedIff(cfg, best, delta, ttl);
  }

  lemma UpdateDiscards(cfg: Config, t: Table, dst: Address, nexthop: Address, iface: Iface, delta: real, ttl: uint8)
    requires cfg.Valid()
    ensures Update(cfg, t, dst, nexthop, iface, delta, ttl).1 == Discarded <==>
      Pruned(cfg, if dst in t then t[dst].maxTtl else 0, delta, ttl)
  {
    hide Find, Sorted;
    EmptyIsNotPruned(cfg, delta, ttl);
    hide Pruned;
  }

  lemma PrunedIff(cfg: Config, best: uint8, delta: real, ttl: uint8)
    requires cfg.Valid()
    ensures var detour := HopCount(cfg, ttl) - HopCount(cfg, best) + 1;
      Pruned(cfg, best, delta, ttl) <==>
      && cfg.pruneRoutes > 0.0 && delta > 0.0 && ttl > 0
      && (if detour > 0 then detour else 0) as real > HopCount(cfg, best) as real * cfg.pruneRoutes
    ensures ttl >= best && HopCount(cfg, best) >= 1 ==> !Pruned(cfg, best, delta, ttl)
  {
    FactorNotBelow(HopCount(cfg, best), cfg.pruneRoutes);
  }

  lemma LargestIsOne(hops: seq<Hop>, a: uint8, b: uint8)
    requires IsMaxTtl(hops, a) && IsMaxTtl(hops, b)
    ensures a == b
  {
  }

  lemma FactorNotBelow(n: int, factor: real)
    ensures n >= 1 && factor >= 1.0 ==> n as real * factor >= 1.0
  {
    if n >= 1 && factor >= 1.0 {
      Products(n as real, factor - 1.0);
    }
  }

  /** What becomes of the hop that an update names. */
  ghost predicate IsReinforced(cfg: Config, h: Hop, h': Hop, delta: real, ttl: uint8) {
    && h'.nexthop == h.nexthop && h'.iface == h.iface
    && (delta < 0.0 ==> h'.pheromone == 0.0)
    && (delta >= 0.0 && cfg.mode == Classic ==> h'.pheromone == h.pheromone + delta)
    && (delta >= 0.0 && cfg.mode != Classic && h.pheromone + delta < 1.0 ==> h'.pheromone == h.pheromone + delta)
    && (delta >= 0.0 && cfg.mode != Classic && h.pheromone + delta >= 1.0 ==> h'.pheromone == 1.0)
    && h'.credit == (if h.credit + cfg.creditInc > 255.0 then 255.0 else h.credit + cfg.creditInc)
    && h'.ttl == (if ttl > h.ttl then ttl else h.ttl)
  }

  /** One entry changes its hops, and with them the counters; everything else in the table stays. */
  ghost predicate OnlyHopsOf(t: Table, t': Table, dst: Address) {
    && dst in t' && t' - {dst} == t - {dst}
    && t'[dst].sendBant == (dst in t ==> t[dst].sendBant)
  }

  /** An update of a listed hop that is not pruned reinforces that hop and leaves all others as they were. */
  lemma UpdateReinforces(cfg: Config, t: Table, dst: Address, nexthop: Address, iface: Iface, delta: real, ttl: uint8)
    returns (h: Hop, h': Hop)
    requires cfg.Valid() && TableOk(cfg, t) && dst in t
    requires exists x :: x in t[dst].hops && Matches(x, nexthop, iface)
    requires Update(cfg, t, dst, nexthop, iface, delta, ttl).1 != Discarded
    ensures var (t', r) := Update(cfg, t, dst, nexthop, iface, delta, ttl);
      && r == Updated && OnlyHopsOf(t, t', dst)
      && h in t[dst].hops && Matches(h, nexthop, iface) && h' in t'[dst].hops && IsReinforced(cfg, h, h', delta, ttl)
      && multiset(t'[dst].hops) == multiset(t[dst].hops) - multiset{h} + multiset{h'}
      && t'[dst].numNexthops == t[dst].numNexthops
  {
    var hops := t[dst].hops;
    var k := FindsListed(hops, nexthop, iface);
    h := hops[k];
    HopInRange(cfg, t, dst, h);
    h' := UpdatedHop(cfg, h, delta, ttl);
    UpdatedIsReinforced(cfg, h, delta, ttl);
    UpdateOk(cfg, t, dst, nexthop, iface, delta, ttl);
    UpdateReplaces(cfg, t, dst, nexthop, iface, delta, ttl);
    hide TableOk, Update, UpdatedHop, Sorted, IsReinforced, Find;
    SortedIsPermutation(hops[k := h']);
    SortedIsSorted(hops[k := h']);
    Exchanged(hops, k, h');
  }

  lemma UpdateReplaces(cfg: Config, t: Table, dst: Address, nexthop: Address, iface: Iface, delta: real, ttl: uint8)
    requires dst in t && Find(t[dst].hops, nexthop, iface) < |t[dst].hops|
    requires Update(cfg, t, dst, nexthop, iface, delta, ttl).1 != Discarded
    ensures var (t', r) := Update(cfg, t, dst, nexthop, iface, delta, ttl);
      var hops, k := t[dst].hops, Find(t[dst].hops, nexthop, iface);
      && r == Updated && dst in t' && t' - {dst} == t - {dst}
      && t'[dst].hops == Sorted(hops[k := UpdatedHop(cfg, hops[k], delta, ttl)])
      && t'[dst].numNexthops == t[dst].numNexthops
  {
    hide Find, Pruned, Sorted, UpdatedHop;
  }

  lemma FindsListed(hops: seq<Hop>, nexthop: Address, iface: Iface) returns (k: nat)
    requires exists x :: x in hops && Matches(x, nexthop, iface)
    ensures k == Find(hops, nexthop, iface) && k < |hops| && Matches(hops[k], nexthop, iface)
  {
    k := Find(hops, nexthop, iface);
  }

  lemma HopInRange(cfg: Config, t: Table, dst: Address, h: Hop)
    requires TableOk(cfg, t) && dst in t && h in t[dst].hops
    ensures InRange(cfg, h.pheromone)
  {
  }

  lemma UpdatedIsReinforced(cfg: Config, h: Hop, delta: real, ttl: uint8)
    requires InRange(cfg, h.pheromone)
    ensures IsReinforced(cfg, h, UpdatedHop(cfg, h, delta, ttl), delta, ttl)
  {
  }

  lemma Exchanged<T>(s: seq<T>, k: nat, x: T)
    requires k < |s|
    ensures multiset(s[k := x]) == multiset(s) - multiset{s[k]} + multiset{x}
    ensures x in s[k := x]
  {
    assert s == s[..k] + [s[k]] + s[k + 1..];
    assert s[k := x] == s[..k] + [x] + s[k + 1..];
    assert s[k := x][k] == x;
  }

  /** An update of a hop that is not listed adds it, unless it is pruned or meant to remove it. */
  lemma UpdateAdds(cfg: Config, t: Table, dst: Address, nexthop: Address, iface: Iface, delta: real, ttl: uint8)
    requires cfg.Valid() && TableOk(cfg, t) && delta >= 0.0
    requires !exists x :: x in HopsOf(t, dst) && Matches(x, nexthop, iface)
    requires Update(cfg, t, dst, nexthop, iface, delta, ttl).1 != Discarded
    ensures var (t', r) := Update(cfg, t, dst, nexthop, iface, delta, ttl);
      var h := Hop(nexthop, iface, if cfg.mode == Classic then delta else 0.6, cfg.missCredit, ttl);
      && r == Updated && OnlyHopsOf(t, t', dst)
      && multiset(t'[dst].hops) == multiset(HopsOf(t, dst)) + multiset{h}
  {
    NotFoundIfNotListed(HopsOf(t, dst), nexthop, iface);
    UpdateAppends(cfg, t, dst, nexthop, iface, delta, ttl);
    UpdateOk(cfg, t, dst, nexthop, iface, delta, ttl);
    hide TableOk, Update, Sorted, Find;
    SortedIsPermutation(HopsOf(t, dst) + [NewHop(cfg, nexthop, iface, delta, ttl)]);
  }

  lemma NotFoundIfNotListed(hops: seq<Hop>, nexthop: Address, iface: Iface)
    requires !exists x :: x in hops && Matches(x, nexthop, iface)
    ensures Find(hops, nexthop, iface) == |hops|
  {
    assert forall i | 0 <= i < |hops| :: hops[i] in hops;
  }

  lemma UpdateAppends(cfg: Config, t: Table, dst: Address, nexthop: Address, iface: Iface, delta: real, ttl: uint8)
    requires Find(HopsOf(t, dst), nexthop, iface) == |HopsOf(t, dst)| && delta >= 0.0
    requires Update(cfg, t, dst, nexthop, iface, delta, ttl).1 != Discarded
    ensures var (t', r) := Update(cfg, t, dst, nexthop, iface, delta, ttl);
      && r == Updated && dst in t' && t' - {dst} == t - {dst}
      && t'[dst].hops == Sorted(HopsOf(t, dst) + [NewHop(cfg, nexthop, iface, delta, ttl)])
  {
    hide Find, Pruned, Sorted;
  }

  /** Only the removal of a hop that is not listed fails. */
  lemma FailedIff(cfg: Config, t: Table, dst: Address, nexthop: Address, iface: Iface, delta: real, ttl: uint8)
    ensures Update(cfg, t, dst, nexthop, iface, delta, ttl).1 == Failed <==>
      delta < 0.0 && !exists x :: x in HopsOf(t, dst) && Matches(x, nexthop, iface)
  {
    var hops := HopsOf(t, dst);
    var k := Find(hops, nexthop, iface);
    assert forall i | 0 <= i < |hops| :: hops[i] in hops;
  }

  // ----- Sorting keeps hops of equal pheromone in order -----

  function WithPheromone(s: seq<Hop>, p: real): seq<Hop> {
    if s == [] then [] else (if s[0].pheromone == p then [s[0]] else []) + WithPheromone(s[1..], p)
  }

  lemma WithOneMore(x: Hop, s: seq<Hop>, p: real)
    ensures WithPheromone([x] + s, p) == (if x.pheromone == p then [x] else []) + WithPheromone(s, p)
  {
    assert ([x] + s)[1..] == s;
  }

  lemma {:induction false} InsertIsStable(h: Hop, s: seq<Hop>, p: real)
    ensures WithPheromone(Insert(h, s), p) == (if h.pheromone == p then [h] else []) + WithPheromone(s, p)
  {
    hide WithPheromone;
    if s == [] || h.pheromone >= s[0].pheromone {
      WithOneMore(h, s, p);
    } else {
      var rest := Insert(h, s[1..]);
      assert Insert(h, s) == [s[0]] + rest && s == [s[0]] + s[1..];
      InsertIsStable(h, s[1..], p);
      WithOneMore(s[0], rest, p);
      WithOneMore(s[0], s[1..], p);
    }
  }

  lemma {:induction false} SortedIsStable(s: seq<Hop>, p: real)
    ensures WithPheromone(Sorted(s), p) == WithPheromone(s, p)
  {
    if s != [] {
      SortedIsStable(s[1..], p);
      InsertIsStable(s[0], Sorted(s[1..]), p);
      assert WithPheromone(s, p) == (if s[0].pheromone == p then [s[0]] else []) + WithPheromone(s[1..], p);
    }
  }
}

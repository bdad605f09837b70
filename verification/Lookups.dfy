/** What the lookups of the routing table hand out. */
module Lookups {
  import opened Addresses
  import opened Evaporation
  import opened Options
  import opened RouteTable
  import opened RouteRuns

  /** h is handed out, with the mark of dst, which is cleared; nothing else changes in the table. */
  ghost predicate HandsOut(t: Table, dst: Address, t': Table, r: Lookup, h: Hop) {
    && dst in t && h in t[dst].hops && r == Found(h, t[dst].sendBant)
    && t' == t[dst := Entry(t[dst].hops, false, t[dst].numNexthops, t[dst].maxTtl)]
  }

  ghost predicate HasValid(cfg: Config, hops: seq<Hop>) {
    exists h :: h in hops && h.pheromone >= cfg.minPheromone
  }

  // ----- Best -----

  /**
   After any run from the empty table the best lookup hands out a valid hop that no hop of the destination exceeds, or
   there is no valid one and it changes nothing.
   */
  lemma BestIsBest(cfg: Config, ops: seq<Op>, dst: Address)
    requires cfg.Valid()
    ensures var t := Run(cfg, map[], ops);
      var (t', r) := Answer(t, dst, BestIndex(cfg, t, dst));
      if HasValid(cfg, HopsOf(t, dst))
      then r.Found? && HandsOut(t, dst, t', r, r.hop) && r.hop.pheromone >= cfg.minPheromone &&
           forall h | h in HopsOf(t, dst) :: h.pheromone <= r.hop.pheromone
      else r == NotFound && t' == t
  {
    hide Run;
    RunKeepsTable(cfg, map[], ops);
    var t := Run(cfg, map[], ops);
    if dst in t {
      var hops := t[dst].hops;
      assert hops[0] in hops;
      assert forall h | h in hops :: h.pheromone <= hops[0].pheromone;
    }
  }

  // ----- Weighted -----

  /** The sums grow by the pheromone of each valid hop and stay where a hop is not valid. */
  lemma SumsStep(cfg: Config, hops: seq<Hop>, i: nat)
    requires i < |hops|
    ensures Before(cfg, hops, 0) == 0.0
    ensures Before(cfg, hops, i + 1) - Before(cfg, hops, i) ==
      if hops[i].pheromone >= cfg.minPheromone then hops[i].pheromone else 0.0
  {
    assert hops[..i + 1][..i] == hops[..i];
  }

  /**
   The draws from [0, 1] are divided among the valid hops in the ratio of their pheromones: hop i is handed out exactly
   for draws above the share of the valid hops before it, up to that share plus its own; hop 0 also for draw 0.
   */
  lemma WeightedShares(cfg: Config, t: Table, dst: Address, dice: real, i: nat)
    requires cfg.Valid() && TableOk(cfg, t) && dst in t && 0.0 <= dice <= 1.0
    requires i < |t[dst].hops| && t[dst].hops[i].pheromone >= cfg.minPheromone
    ensures var hops := t[dst].hops;
      var (t', r) := Answer(t, dst, WeightedIndex(cfg, t, dst, dice));
      var total := Before(cfg, hops, |hops|);
      && total > 0.0
      && (HandsOut(t, dst, t', r, hops[i]) <==>
            (Before(cfg, hops, i) / total < dice || i == 0) && dice <= Before(cfg, hops, i + 1) / total)
  {
    hide ValidSum, PickFrom, ListOk;
    var hops := t[dst].hops;
    var total := Before(cfg, hops, |hops|);
    assert Descending(hops) && NoRepeat(hops) by { ListIsOk(cfg, t, dst); }
    TotalIsPositive(cfg, hops, i);
    assert hops[..|hops|] == hops;
    var target := Target(cfg, hops, dice);
    assert target == total * dice;
    ShareIff(Before(cfg, hops, i), total, dice);
    ShareIff(Before(cfg, hops, i + 1), total, dice);
    Products(total, dice);
    WeightedPartition(cfg, hops, target, i);
    PositionIff(cfg, t, dst, PickFrom(cfg, hops, target, 0), i);
  }

  lemma ListIsOk(cfg: Config, t: Table, dst: Address)
    requires TableOk(cfg, t) && dst in t
    ensures ListOk(cfg, t[dst]) && Descending(t[dst].hops) && NoRepeat(t[dst].hops)
  {
  }

  lemma TotalIsPositive(cfg: Config, hops: seq<Hop>, i: nat)
    requires cfg.minPheromone > 0.0 && i < |hops| && hops[i].pheromone >= cfg.minPheromone
    ensures Before(cfg, hops, |hops|) > 0.0
  {
    hide ValidSum;
    SumsStep(cfg, hops, i);
    SumsGrow(cfg, hops, i, i);
    SumsGrow(cfg, hops, i + 1, |hops|);
  }

  lemma ShareIff(sum: real, total: real, dice: real)
    requires total > 0.0
    ensures sum / total < dice <==> sum < total * dice
    ensures dice <= sum / total <==> total * dice <= sum
  {
    var q := sum / total;
    assert q * total == sum;
    if q < dice {
      assert q * total < dice * total;
    } else {
      assert q * total >= dice * total;
    }
  }

  /** Hops are told apart by their names, so handing out hop i means having picked position i. */
  lemma PositionIff(cfg: Config, t: Table, dst: Address, k: Option<nat>, i: nat)
    requires dst in t && NoRepeat(t[dst].hops) && i < |t[dst].hops|
    requires k.Some? ==> k.value < |t[dst].hops|
    ensures var (t', r) := Answer(t, dst, k); HandsOut(t, dst, t', r, t[dst].hops[i]) <==> k == Some(i)
  {
    var hops := t[dst].hops;
    assert hops[i] in hops;
    if k.Some? && k.value < i {
      assert !Matches(hops[k.value], hops[i].nexthop, hops[i].iface);
    } else if k.Some? && i < k.value {
      assert !Matches(hops[i], hops[k.value].nexthop, hops[k.value].iface);
    }
  }

  /** With a draw from [0, 1] a valid hop is handed out, or there is none and nothing changes. */
  lemma WeightedAnswers(cfg: Config, t: Table, dst: Address, dice: real)
    requires cfg.Valid() && TableOk(cfg, t) && 0.0 <= dice <= 1.0
    ensures var (t', r) := Answer(t, dst, WeightedIndex(cfg, t, dst, dice));
      if HasValid(cfg, HopsOf(t, dst))
      then r.Found? && HandsOut(t, dst, t', r, r.hop) && r.hop.pheromone >= cfg.minPheromone
      else r == NotFound && t' == t
  {
    hide PickFrom, ListOk;
    if dst in t {
      var hops := t[dst].hops;
      assert Descending(hops) by { ListIsOk(cfg, t, dst); }
      WeightedFindsIff(cfg, hops, dice);
      PickedIsValid(cfg, hops, Target(cfg, hops, dice), 0);
      var k := PickHop(cfg, hops, dice);
      assert k.Some? ==> hops[k.value] in hops;
    }
  }

  // ----- Random -----

  /** The hop at position draw modulo the 8-bit length is handed out if it is valid; otherwise nothing changes. */
  lemma RandomAnswers(cfg: Config, t: Table, dst: Address, draw: nat)
    requires TableOk(cfg, t)
    ensures var hops := HopsOf(t, dst);
      var n := |hops| % 0x100;
      var (t', r) := Answer(t, dst, RandomIndex(cfg, t, dst, draw));
      if n > 0 && hops[draw % n].pheromone >= cfg.minPheromone
      then HandsOut(t, dst, t', r, hops[draw % n])
      else r == NotFound && t' == t
  {
    hide Descending, NoRepeat, IsMaxTtl;
    if dst in t {
      var hops := t[dst].hops;
      var n := |hops| % 0x100;
      assert t[dst].numNexthops == n;
      if n > 0 {
        RemainderIsSmaller(draw, n);
        assert hops[draw % n] in hops;
      }
    }
  }
}

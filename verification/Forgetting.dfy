/** How long the routing table remembers a next hop that no update reinforces. */
module Forgetting {
  import opened Addresses
  import opened Evaporation
  import opened RouteTable
  import opened RouteRuns

  ghost predicate HasHop(t: Table, dst: Address, nexthop: Address, iface: Iface) {
    dst in t && exists h :: h in t[dst].hops && Matches(h, nexthop, iface)
  }

  /** Every hop (dst, nexthop, iface) of the table has a pheromone that k ticks leave of p0 at most. */
  ghost predicate Decayed(cfg: Config, t: Table, dst: Address, nexthop: Address, iface: Iface, p0: real, k: nat) {
    dst in t ==> forall h | h in t[dst].hops && Matches(h, nexthop, iface) :: AtMostAfter(cfg, h.pheromone, p0, k)
  }

  /** The slowest k ticks can make p0 decay; adaptive mode may halve every step. */
  ghost predicate AtMostAfter(cfg: Config, p: real, p0: real, k: nat) {
    && InRange(cfg, p) && (k > 0 ==> p >= cfg.minPheromone)
    && match cfg.mode
       case Classic => p <= p0 * Pow(cfg.deltaQ, k)
       case Linear => p <= 1.0 - Elapsed(0.0, cfg.deltaQ * 0.5, k)
       case Cubic => Elapsed(0.0, cfg.deltaQ * 0.5, k) <= TimeOf(p, cfg.root)
  }

  /** A number of ticks that is enough: 2 / delta, or in CLASSIC mode by how much p0 exceeds the minimum. */
  ghost predicate EnoughTicks(cfg: Config, p0: real, k: nat) {
    k > 0 &&
    match cfg.mode
    case Classic => p0 < cfg.minPheromone * (1.0 + k as real * (1.0 - cfg.deltaQ))
    case _ => k as real * cfg.deltaQ >= 2.0
  }

  // ----- One value -----

  lemma EvaporationDecays(cfg: Config, p: real, p0: real, k: nat, slow: real)
    requires cfg.Valid() && SlowFactor(slow) && AtMostAfter(cfg, p, p0, k)
    requires Evaporated(cfg, p, slow) >= cfg.minPheromone
    ensures AtMostAfter(cfg, Evaporated(cfg, p, slow), p0, k + 1)
  {
    EvaporationIsMonotone(cfg, p, p, slow);
    match cfg.mode
    case Classic =>
      Products(p0 * Pow(cfg.deltaQ, k) - p, cfg.deltaQ);
      assert p0 * Pow(cfg.deltaQ, k) * cfg.deltaQ == p0 * Pow(cfg.deltaQ, k + 1);
    case Linear =>
    case Cubic => CubicDecays(cfg, p, k, slow);
  }

  lemma CubicDecays(cfg: Config, p: real, k: nat, slow: real)
    requires cfg.Valid() && cfg.mode == Cubic && SlowFactor(slow) && 0.0 <= p <= 1.0
    requires Elapsed(0.0, cfg.deltaQ * 0.5, k) <= TimeOf(p, cfg.root)
    requires Evaporated(cfg, p, slow) >= cfg.minPheromone
    ensures Elapsed(0.0, cfg.deltaQ * 0.5, k + 1) <= TimeOf(Evaporated(cfg, p, slow), cfg.root)
  {
    hide Ttop, TimeOf;
    var s := cfg.deltaQ * slow;
    var t := TimeOf(p, cfg.root);
    TimeReverses(p, p, cfg.plateau, cfg.root);
    TimeInvertsCurve(p, t, cfg.plateau, cfg.root);
    DecreaseIsShift(t, s, cfg.plateau, cfg.root);
    TimeInvertsCurve(p, t + s, cfg.plateau, cfg.root);
  }

  /** Bernoulli's inequality, turned over. */
  lemma {:induction false} PowerDecays(q: real, k: nat)
    requires 0.0 < q < 1.0
    ensures Pow(q, k) > 0.0
    ensures Pow(q, k) * (1.0 + k as real * (1.0 - q)) <= 1.0
  {
    PowPositive(q, k);
    if k > 0 {
      PowerDecays(q, k - 1);
      PowPositive(q, k - 1);
      var d, a, x := 1.0 - q, Pow(q, k - 1), 1.0 + (k - 1) as real * (1.0 - q);
      assert 1.0 + k as real * (1.0 - q) == x + d by {
        assert k as real == (k - 1) as real + 1.0;
      }
      Products((k - 1) as real, d);
      OneMoreFactor(q, x);
      Products(a, x - q * (x + d));
      assert Pow(q, k) * (x + d) == a * (q * (x + d));
    }
  }

  lemma OneMoreFactor(q: real, x: real)
    requires 0.0 < q < 1.0 && x >= 1.0
    ensures q * (x + (1.0 - q)) <= x
  {
    var d := 1.0 - q;
    Products(d, x - q);
    assert x - q * (x + d) == d * (x - q);
  }

  lemma EnoughIsBelowMinimum(cfg: Config, p: real, p0: real, k: nat)
    requires cfg.Valid() && EnoughTicks(cfg, p0, k)
    ensures !AtMostAfter(cfg, p, p0, k)
  {
    if AtMostAfter(cfg, p, p0, k) {
      match cfg.mode
      case Classic => ClassicBelowMinimum(cfg, p0, k);
      case Linear => ElapsedIsProduct(0.0, cfg.deltaQ * 0.5, k);
      case Cubic =>
        ElapsedIsProduct(0.0, cfg.deltaQ * 0.5, k);
        assert TimeOf(p, cfg.root) >= 1.0;
        CurveAtTime(p, cfg.plateau, cfg.root);
        CurveEnds(cfg.plateau);
        if TimeOf(p, cfg.root) > 1.0 {
          CurveFalls(1.0, TimeOf(p, cfg.root), cfg.plateau);
        }
    }
  }

  lemma ClassicBelowMinimum(cfg: Config, p0: real, k: nat)
    requires cfg.Valid() && cfg.mode == Classic && EnoughTicks(cfg, p0, k)
    ensures p0 * Pow(cfg.deltaQ, k) < cfg.minPheromone
  {
    PowerDecays(cfg.deltaQ, k);
    var a, x, m := Pow(cfg.deltaQ, k), 1.0 + k as real * (1.0 - cfg.deltaQ), cfg.minPheromone;
    BelowByFactor(p0, a, x, m);
  }

  lemma BelowByFactor(p: real, a: real, x: real, m: real)
    requires a > 0.0 && m > 0.0 && p < m * x && a * x <= 1.0
    ensures p * a < m
  {
  }

  // ----- One step of the table -----

  predicate Reinforces(op: Op, dst: Address, nexthop: Address, iface: Iface) {
    op.DoUpdate? && op.dst == dst && op.nexthop == nexthop && op.iface == iface
  }

  lemma KeptHopComesFrom(cfg: Config, e: Entry, h: Hop) returns (g: Hop)
    requires h in KeptHops(cfg, e)
    ensures g in e.hops && h == g.(pheromone := Evaporated(cfg, g.pheromone, SlowDown(cfg, e)))
    ensures h.pheromone >= cfg.minPheromone
  {
    hide Evaporated;
    var hops := EvaporatedHops(cfg, e.hops, SlowDown(cfg, e));
    StrongMembers(cfg, hops);
    var i :| 0 <= i < |hops| && hops[i] == h;
    g := e.hops[i];
  }

  lemma TickDecays(cfg: Config, t: Table, dst: Address, nexthop: Address, iface: Iface, p0: real, k: nat)
    requires cfg.Valid() && Decayed(cfg, t, dst, nexthop, iface, p0, k)
    ensures Decayed(cfg, Tick(cfg, t), dst, nexthop, iface, p0, k + 1)
  {
    hide AtMostAfter, Evaporated, KeptHops, SlowDown;
    if dst in Tick(cfg, t) {
      var e := t[dst];
      assert SlowFactor(SlowDown(cfg, e)) by { SlowDownIsFactor(cfg, e); }
      forall h | h in KeptHops(cfg, e) && Matches(h, nexthop, iface)
        ensures AtMostAfter(cfg, h.pheromone, p0, k + 1)
      {
        var g := KeptHopComesFrom(cfg, e, h);
        EvaporationDecays(cfg, g.pheromone, p0, k, SlowDown(cfg, e));
      }
    }
  }

  lemma SlowDownIsFactor(cfg: Config, e: Entry)
    ensures SlowFactor(SlowDown(cfg, e))
  {
  }

  /** A step that is neither a tick nor an update of the hop leaves the hop's pheromone alone, or removes the hop. */
  lemma OtherStepKeeps(cfg: Config, t: Table, op: Op, dst: Address, nexthop: Address, iface: Iface, h: Hop)
    requires !op.DoTick? && !Reinforces(op, dst, nexthop, iface)
    requires dst in Step(cfg, t, op) && h in Step(cfg, t, op)[dst].hops && Matches(h, nexthop, iface)
    ensures dst in t && exists g :: g in t[dst].hops && Matches(g, nexthop, iface) && g.pheromone == h.pheromone
  {
    match op
    case DoUpdate(d, n, i, delta, ttl) => UpdateKeepsOthers(cfg, t, op, dst, nexthop, iface, h);
    case DoDelete(d, n, i) =>
    case DoCredit(d, n, i, amount) =>
      if d == dst && t[dst].hops != [] {
        var k := CreditedIndex(t[dst].hops, n, i);
        var hops := Step(cfg, t, op)[dst].hops;
        var j :| 0 <= j < |hops| && hops[j] == h;
        assert t[dst].hops[j] in t[dst].hops && t[dst].hops[j].pheromone == h.pheromone;
      }
    case _ =>
  }

  lemma UpdateKeepsOthers(cfg: Config, t: Table, op: Op, dst: Address, nexthop: Address, iface: Iface, h: Hop)
    requires op.DoUpdate? && !Reinforces(op, dst, nexthop, iface)
    requires dst in Step(cfg, t, op) && h in Step(cfg, t, op)[dst].hops && Matches(h, nexthop, iface)
    ensures dst in t && h in t[dst].hops
  {
    if op.dst == dst {
      var e := if dst in t then t[dst] else EmptyEntry();
      var k := Find(e.hops, op.nexthop, op.iface);
      var added := if k == |e.hops| then NewHop(cfg, op.nexthop, op.iface, op.delta, op.ttl)
                   else UpdatedHop(cfg, e.hops[k], op.delta, op.ttl);
      assert Matches(added, op.nexthop, op.iface);
      SortedIsSorted(if k == |e.hops| then e.hops + [added] else e.hops[k := added]);
      assert h == added || h in e.hops;
    }
  }

  lemma StepDecays(cfg: Config, t: Table, op: Op, dst: Address, nexthop: Address, iface: Iface, p0: real, k: nat)
    requires cfg.Valid() && TableOk(cfg, t) && Decayed(cfg, t, dst, nexthop, iface, p0, k)
    requires !Reinforces(op, dst, nexthop, iface)
    ensures Decayed(cfg, Step(cfg, t, op), dst, nexthop, iface, p0, if op.DoTick? then k + 1 else k)
  {
    if op.DoTick? {
      TickDecays(cfg, t, dst, nexthop, iface, p0, k);
    } else if dst in Step(cfg, t, op) {
      forall h | h in Step(cfg, t, op)[dst].hops && Matches(h, nexthop, iface)
        ensures AtMostAfter(cfg, h.pheromone, p0, k)
      {
        OtherStepKeeps(cfg, t, op, dst, nexthop, iface, h);
      }
    }
  }

  // ----- Runs -----

  function TickCount(ops: seq<Op>): nat {
    if ops == [] then 0 else (if ops[0].DoTick? then 1 else 0) + TickCount(ops[1..])
  }

  lemma {:induction false} RunDecays(cfg: Config, t: Table, ops: seq<Op>, dst: Address, nexthop: Address,
                                     iface: Iface, p0: real, k: nat)
    requires cfg.Valid() && TableOk(cfg, t) && Decayed(cfg, t, dst, nexthop, iface, p0, k)
    requires forall op | op in ops :: !Reinforces(op, dst, nexthop, iface)
    ensures Decayed(cfg, Run(cfg, t, ops), dst, nexthop, iface, p0, k + TickCount(ops))
    decreases |ops|
  {
    if ops != [] {
      StepDecays(cfg, t, ops[0], dst, nexthop, iface, p0, k);
      StepOk(cfg, t, ops[0]);
      RunDecays(cfg, Step(cfg, t, ops[0]), ops[1..], dst, nexthop, iface, p0, if ops[0].DoTick? then k + 1 else k);
    }
  }

  /** p0 bounds every pheromone of the table. */
  ghost predicate BoundedBy(t: Table, p0: real) {
    forall d, h | d in t && h in t[d].hops :: h.pheromone <= p0
  }

  /**
   Whatever else happens to the table: a hop that no update reinforces is gone after enough ticks, in LINEAR and CUBIC
   mode after 2 / rt_delta_q of them, adaptive evaporation or not.
   */
  lemma UnreinforcedHopIsForgotten(cfg: Config, t: Table, ops: seq<Op>, dst: Address, nexthop: Address, iface: Iface,
                                   p0: real)
    requires cfg.Valid() && TableOk(cfg, t) && BoundedBy(t, p0)
    requires forall op | op in ops :: !Reinforces(op, dst, nexthop, iface)
    requires EnoughTicks(cfg, p0, TickCount(ops))
    ensures !HasHop(Run(cfg, t, ops), dst, nexthop, iface)
  {
    if dst in t {
      forall h | h in t[dst].hops && Matches(h, nexthop, iface)
        ensures AtMostAfter(cfg, h.pheromone, p0, 0)
      {
        if cfg.mode == Cubic {
          TimeReverses(h.pheromone, h.pheromone, cfg.plateau, cfg.root);
        }
      }
    }
    RunDecays(cfg, t, ops, dst, nexthop, iface, p0, 0);
    var t' := Run(cfg, t, ops);
    if HasHop(t', dst, nexthop, iface) {
      var h :| h in t'[dst].hops && Matches(h, nexthop, iface);
      EnoughIsBelowMinimum(cfg, h.pheromone, p0, TickCount(ops));
    }
  }

  /** Without any update the whole table empties. */
  lemma UnreinforcedTableEmpties(cfg: Config, t: Table, ops: seq<Op>, p0: real)
    requires cfg.Valid() && TableOk(cfg, t) && BoundedBy(t, p0)
    requires (forall op | op in ops :: !op.DoUpdate?) && EnoughTicks(cfg, p0, TickCount(ops))
    ensures Run(cfg, t, ops) == map[]
  {
    var t' := Run(cfg, t, ops);
    RunKeepsTable(cfg, t, ops);
    forall d | d in t' ensures false {
      var h := t'[d].hops[0];
      assert h in t'[d].hops && Matches(h, h.nexthop, h.iface);
      UnreinforcedHopIsForgotten(cfg, t, ops, d, h.nexthop, h.iface, p0);
      assert HasHop(t', d, h.nexthop, h.iface);
    }
  }

  /** In every mode some number of ticks is enough. */
  lemma SomeTicksAreEnough(cfg: Config, p0: real) returns (k: nat)
    requires cfg.Valid() && p0 >= 0.0
    ensures EnoughTicks(cfg, p0, k)
  {
    var step := if cfg.mode == Classic then cfg.minPheromone * (1.0 - cfg.deltaQ) else cfg.deltaQ;
    var goal := if cfg.mode == Classic then p0 else 2.0;
    Products(cfg.minPheromone, 1.0 - cfg.deltaQ);
    k := (goal / step).Floor + 1;
    var x := k as real;
    assert x >= goal / step;
    Products(x - goal / step, step);
    assert goal / step * step == goal;
    assert x * step >= goal;
    if cfg.mode == Classic {
      assert cfg.minPheromone * (1.0 + x * (1.0 - cfg.deltaQ)) == cfg.minPheromone + x * step;
    }
  }
}

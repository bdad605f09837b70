/** What ticks do to the hops of a destination: the pheromone follows the law of its mode. */
module TickRuns {
  import opened Addresses
  import opened Evaporation
  import opened RouteTable
  import opened RouteRuns

  /** The age one tick adds to a list of n hops: half of deltaQ in adaptive mode while fewer than 3 are counted. */
  function TickStep(cfg: Config, n: nat): real {
    if cfg.adaptive && n % 0x100 < 3 then cfg.deltaQ / 2.0 else cfg.deltaQ
  }

  /**
   What n ticks that age by s together leave of pheromone p: in CUBIC mode the curve's value s further along its time
   axis, in LINEAR mode s less, in CLASSIC mode the share deltaQ of it n times over.
   */
  function After(cfg: Config, p: real, n: nat, s: real): real {
    match cfg.mode
    case Classic => p * Pow(cfg.deltaQ, n)
    case Linear => p - s
    case Cubic =>
      var u := TimeOf(p, cfg.root) + s;
      if u <= 1.0 then Ttop(u, cfg.plateau) else 0.0
  }

  /** A pheromone that is still valid in CUBIC mode has moved along the time axis by exactly s. */
  lemma TimeGrows(cfg: Config, p: real, n: nat, s: real)
    requires cfg.Valid() && cfg.mode == Cubic && After(cfg, p, n, s) >= cfg.minPheromone
    ensures TimeOf(After(cfg, p, n, s), cfg.root) == TimeOf(p, cfg.root) + s
    ensures TimeOf(p, cfg.root) + s <= 1.0
  {
    hide TimeOf, Ttop;
    TimeInvertsCurve(p, TimeOf(p, cfg.root) + s, cfg.plateau, cfg.root);
  }

  lemma AfterNothing(cfg: Config, p: real)
    requires cfg.Valid() && InRange(cfg, p)
    ensures After(cfg, p, 0, 0.0) == p
  {
    if cfg.mode == Cubic {
      TimeReverses(p, p, cfg.plateau, cfg.root);
      CurveAtTime(p, cfg.plateau, cfg.root);
    }
  }

  lemma EvaporatedIsAfter(cfg: Config, e: Entry, p: real)
    requires cfg.Valid() && e.numNexthops == |e.hops| % 0x100 && InRange(cfg, p)
    ensures Evaporated(cfg, p, SlowDown(cfg, e)) == After(cfg, p, 1, TickStep(cfg, |e.hops|))
  {
    var s := cfg.deltaQ * SlowDown(cfg, e);
    assert s == TickStep(cfg, |e.hops|) && s > 0.0;
    match cfg.mode
    case Classic => assert Pow(cfg.deltaQ, 1) == cfg.deltaQ * Pow(cfg.deltaQ, 0);
    case Linear =>
    case Cubic =>
      hide TimeOf, Ttop, CubicDecrease;
      TimeReverses(p, p, cfg.plateau, cfg.root);
      CurveAtTime(p, cfg.plateau, cfg.root);
      DecreaseIsShift(TimeOf(p, cfg.root), s, cfg.plateau, cfg.root);
  }

  /** Two stretches of ticks in a row are one. */
  lemma AfterTwice(cfg: Config, p: real, n: nat, s: real, m: nat, r: real)
    requires cfg.Valid() && (After(cfg, p, n, s) >= cfg.minPheromone || (n == 0 && s == 0.0 && InRange(cfg, p)))
    ensures After(cfg, After(cfg, p, n, s), m, r) == After(cfg, p, n + m, s + r)
  {
    match cfg.mode
    case Classic => PowSum(cfg.deltaQ, n, m); Associate(p, Pow(cfg.deltaQ, n), Pow(cfg.deltaQ, m));
    case Linear =>
    case Cubic =>
      if n == 0 && s == 0.0 && InRange(cfg, p) {
        AfterNothing(cfg, p);
      } else {
        TimeGrows(cfg, p, n, s);
      }
  }

  lemma {:induction false} PowSum(x: real, n: nat, m: nat)
    ensures Pow(x, n) * Pow(x, m) == Pow(x, n + m)
  {
    if n > 0 {
      PowSum(x, n - 1, m);
      Associate(x, Pow(x, n - 1), Pow(x, m));
    }
  }

  lemma Associate(a: real, b: real, c: real)
    ensures a * b * c == a * (b * c)
  {
  }

  /** What is valid after more ticks was valid before them. */
  lemma AfterFalls(cfg: Config, p: real, n: nat, s: real, r: real)
    requires cfg.Valid() && InRange(cfg, p) && r >= 0.0
    ensures After(cfg, p, n + 1, s + r) >= cfg.minPheromone ==> After(cfg, p, n, s) >= cfg.minPheromone
  {
    match cfg.mode
    case Classic =>
      PowPositive(cfg.deltaQ, n);
      Products(p, Pow(cfg.deltaQ, n));
      Products(p * Pow(cfg.deltaQ, n), 1.0 - cfg.deltaQ);
      Associate(p, Pow(cfg.deltaQ, n), cfg.deltaQ);
    case Linear =>
    case Cubic =>
      var u := TimeOf(p, cfg.root) + s;
      if r > 0.0 {
        CurveFalls(u, u + r, cfg.plateau);
      }
  }

  // ----- One tick -----

  /** The new list holds exactly what n ticks that age by s leave of the hops of the old one, if it is still valid. */
  ghost predicate Aged(cfg: Config, hops: seq<Hop>, hops': seq<Hop>, n: nat, s: real) {
    forall x :: x in hops' <==> exists h :: h in hops && Ages(cfg, h, x, n, s)
  }

  /** Only the pheromone of a hop changes, and not below the minimum. */
  ghost predicate Ages(cfg: Config, h: Hop, x: Hop, n: nat, s: real) {
    && x == Hop(h.nexthop, h.iface, After(cfg, h.pheromone, n, s), h.credit, h.ttl)
    && (n > 0 ==> x.pheromone >= cfg.minPheromone)
  }

  lemma EvaporatedHopsAge(cfg: Config, e: Entry)
    requires cfg.Valid() && ListOk(cfg, e)
    ensures var hops := EvaporatedHops(cfg, e.hops, SlowDown(cfg, e));
      forall i | 0 <= i < |hops| ::
        hops[i] == e.hops[i].(pheromone := After(cfg, e.hops[i].pheromone, 1, TickStep(cfg, |e.hops|)))
  {
    hide After, Evaporated, TickStep, SlowDown;
    var hops := EvaporatedHops(cfg, e.hops, SlowDown(cfg, e));
    forall i | 0 <= i < |hops|
      ensures hops[i] == e.hops[i].(pheromone := After(cfg, e.hops[i].pheromone, 1, TickStep(cfg, |e.hops|)))
    {
      assert e.hops[i] in e.hops;
      EvaporatedIsAfter(cfg, e, e.hops[i].pheromone);
    }
  }

  /** Aged one by one, then filtered. */
  lemma FilteredAreAged(cfg: Config, before: seq<Hop>, hops: seq<Hop>, kept: seq<Hop>, s: real)
    requires |hops| == |before|
    requires forall i | 0 <= i < |hops| :: hops[i] == before[i].(pheromone := After(cfg, before[i].pheromone, 1, s))
    requires forall x :: x in kept <==> x in hops && x.pheromone >= cfg.minPheromone
    ensures Aged(cfg, before, kept, 1, s)
  {
    hide After;
    forall x ensures x in kept <==> exists h :: h in before && Ages(cfg, h, x, 1, s) {
      if x in kept {
        var i :| 0 <= i < |hops| && hops[i] == x;
        assert before[i] in before && Ages(cfg, before[i], x, 1, s);
      }
      if h :| h in before && Ages(cfg, h, x, 1, s) {
        var i :| 0 <= i < |before| && before[i] == h;
        assert hops[i] == x;
      }
    }
  }

  lemma KeptAreAged(cfg: Config, e: Entry)
    requires cfg.Valid() && ListOk(cfg, e)
    ensures Aged(cfg, e.hops, KeptHops(cfg, e), 1, TickStep(cfg, |e.hops|))
  {
    hide After, Evaporated, TickStep, SlowDown, ListOk, Aged, Strong;
    var hops := EvaporatedHops(cfg, e.hops, SlowDown(cfg, e));
    EvaporatedHopsAge(cfg, e);
    StrongMembers(cfg, hops);
    FilteredAreAged(cfg, e.hops, hops, KeptHops(cfg, e), TickStep(cfg, |e.hops|));
  }

  /**
   After a tick the hops of an entry that stays are exactly what the law of the mode leaves valid of the ones before;
   with at most 255 hops the entry goes only if that is none.
   */
  lemma TickIsExact(cfg: Config, t: Table, dst: Address)
    requires cfg.Valid() && TableOk(cfg, t)
    ensures var t', hops := Tick(cfg, t), HopsOf(t, dst);
      && |HopsOf(t', dst)| <= |hops|
      && (dst in t' || |hops| <= 0xFF ==> Aged(cfg, hops, HopsOf(t', dst), 1, TickStep(cfg, |hops|)))
  {
    if dst in t {
      EntryTicked(cfg, t, dst);
    } else {
      hide TickStep;
      assert Aged(cfg, [], [], 1, TickStep(cfg, 0));
    }
  }

  lemma EntryTicked(cfg: Config, t: Table, dst: Address)
    requires cfg.Valid() && TableOk(cfg, t) && dst in t
    ensures var t', hops := Tick(cfg, t), t[dst].hops;
      && |HopsOf(t', dst)| <= |hops|
      && (dst in t' || |hops| <= 0xFF ==> Aged(cfg, hops, HopsOf(t', dst), 1, TickStep(cfg, |hops|)))
  {
    hide TickStep, ListOk, Aged, Strong, EvaporatedHops, SlowDown;
    KeptAreAged(cfg, t[dst]);
    TickDropsIff(cfg, t, dst);
    StrongMembers(cfg, EvaporatedHops(cfg, t[dst].hops, SlowDown(cfg, t[dst])));
  }

  // ----- Runs of ticks -----

  function Ticks(n: nat): seq<Op> {
    if n == 0 then [] else Ticks(n - 1) + [DoTick]
  }

  /** By how much n ticks age the hops of dst together. */
  function Spent(cfg: Config, t: Table, dst: Address, n: nat): (s: real)
  {
    if n == 0 then 0.0
    else Spent(cfg, t, dst, n - 1) + TickStep(cfg, |HopsOf(Run(cfg, t, Ticks(n - 1)), dst)|)
  }

  lemma OneMoreTick(cfg: Config, t: Table, n: nat)
    requires n > 0
    ensures Run(cfg, t, Ticks(n)) == Tick(cfg, Run(cfg, t, Ticks(n - 1)))
  {
    RunAppended(cfg, t, Ticks(n - 1), DoTick);
  }

  lemma NoTick(cfg: Config, t: Table, dst: Address)
    requires cfg.Valid() && TableOk(cfg, t) && dst in t
    ensures Aged(cfg, t[dst].hops, t[dst].hops, 0, 0.0)
  {
    hide After;
    forall h | h in t[dst].hops ensures Ages(cfg, h, h, 0, 0.0) {
      AfterNothing(cfg, h.pheromone);
    }
    forall h, x | h in t[dst].hops && Ages(cfg, h, x, 0, 0.0) ensures x == h {
      AfterNothing(cfg, h.pheromone);
    }
  }

  /** Hops aged over n ticks and then over one more have aged over n + 1. */
  lemma AgedTwice(cfg: Config, a: seq<Hop>, b: seq<Hop>, c: seq<Hop>, n: nat, s: real, r: real)
    requires cfg.Valid() && r >= 0.0 && (n == 0 ==> s == 0.0)
    requires forall h | h in a :: InRange(cfg, h.pheromone)
    requires Aged(cfg, a, b, n, s) && Aged(cfg, b, c, 1, r)
    ensures Aged(cfg, a, c, n + 1, s + r)
  {
    hide After;
    forall x ensures x in c <==> exists h :: h in a && Ages(cfg, h, x, n + 1, s + r) {
      if x in c {
        var m :| m in b && Ages(cfg, m, x, 1, r);
        var h :| h in a && Ages(cfg, h, m, n, s);
        AfterTwice(cfg, h.pheromone, n, s, 1, r);
        assert Ages(cfg, h, x, n + 1, s + r);
      }
      if h :| h in a && Ages(cfg, h, x, n + 1, s + r) {
        AfterFalls(cfg, h.pheromone, n, s, r);
        AfterTwice(cfg, h.pheromone, n, s, 1, r);
        var m := h.(pheromone := After(cfg, h.pheromone, n, s));
        assert Ages(cfg, h, m, n, s) && Ages(cfg, m, x, 1, r);
      }
    }
  }

  lemma TickStepIsPositive(cfg: Config, n: nat)
    requires cfg.Valid()
    ensures TickStep(cfg, n) > 0.0
  {
  }

  /**
   After n ticks the hops of a destination are exactly what the law of the mode leaves valid of those before the first;
   with at most 255 hops this holds when the entry is gone as well: then nothing is valid.
   */
  lemma {:induction false} TicksAreExact(cfg: Config, t: Table, dst: Address, n: nat)
    requires cfg.Valid() && TableOk(cfg, t) && dst in t
    ensures var t', hops := Run(cfg, t, Ticks(n)), t[dst].hops;
      && TableOk(cfg, t') && |HopsOf(t', dst)| <= |hops|
      && (dst in t' || |hops| <= 0xFF ==> Aged(cfg, hops, HopsOf(t', dst), n, Spent(cfg, t, dst, n)))
  {
    hide TableOk, Aged, Run, Ticks, KeptHops, TickStep;
    if n == 0 {
      NoTick(cfg, t, dst);
      EmptyRun(cfg, t);
    } else {
      TicksAreExact(cfg, t, dst, n - 1);
      OneMoreTick(cfg, t, n);
      assert n == 1 ==> Spent(cfg, t, dst, 0) == 0.0;
      MoreExact(cfg, t, dst, n - 1, Run(cfg, t, Ticks(n - 1)), Run(cfg, t, Ticks(n)), Spent(cfg, t, dst, n - 1));
    }
  }

  lemma EmptyRun(cfg: Config, t: Table)
    ensures Run(cfg, t, Ticks(0)) == t
  {
  }

  lemma MoreExact(cfg: Config, t: Table, dst: Address, n: nat, u: Table, u': Table, s: real)
    requires cfg.Valid() && TableOk(cfg, t) && dst in t && TableOk(cfg, u) && u' == Tick(cfg, u)
    requires |HopsOf(u, dst)| <= |t[dst].hops| && (n == 0 ==> s == 0.0)
    requires dst in u || |t[dst].hops| <= 0xFF ==> Aged(cfg, t[dst].hops, HopsOf(u, dst), n, s)
    ensures TableOk(cfg, u') && |HopsOf(u', dst)| <= |t[dst].hops|
    ensures dst in u' || |t[dst].hops| <= 0xFF ==>
      Aged(cfg, t[dst].hops, HopsOf(u', dst), n + 1, s + TickStep(cfg, |HopsOf(u, dst)|))
  {
    hide *;
    var hops := t[dst].hops;
    AllInRange(cfg, t, dst);
    TickOk(cfg, u);
    TickStepIsPositive(cfg, |HopsOf(u, dst)|);
    TickAddsNothing(cfg, u, dst);
    TickIsExact(cfg, u, dst);
    if dst in u' || |hops| <= 0xFF {
      AgedTwice(cfg, hops, HopsOf(u, dst), HopsOf(u', dst), n, s, TickStep(cfg, |HopsOf(u, dst)|));
    }
  }

  lemma TickAddsNothing(cfg: Config, t: Table, dst: Address)
    ensures dst in Tick(cfg, t) ==> dst in t
  {
    hide TickedEntry;
  }

  lemma AllInRange(cfg: Config, t: Table, dst: Address)
    requires TableOk(cfg, t) && dst in t
    ensures forall h | h in t[dst].hops :: InRange(cfg, h.pheromone)
  {
  }

  /** Outside adaptive mode n ticks age by n * deltaQ; in adaptive mode, for one or two hops, by half of it. */
  lemma {:induction false} SpentIsProduct(cfg: Config, t: Table, dst: Address, n: nat)
    requires cfg.Valid() && TableOk(cfg, t) && dst in t
    ensures !cfg.adaptive ==> Spent(cfg, t, dst, n) == n as real * cfg.deltaQ
    ensures cfg.adaptive && |t[dst].hops| < 3 ==> Spent(cfg, t, dst, n) == n as real * cfg.deltaQ / 2.0
  {
    hide Run, Ticks, TableOk;
    if n > 0 {
      SpentIsProduct(cfg, t, dst, n - 1);
      TicksAreExact(cfg, t, dst, n - 1);
      assert n as real == (n - 1) as real + 1.0;
      assert n as real * cfg.deltaQ == (n - 1) as real * cfg.deltaQ + cfg.deltaQ;
    }
  }
}

/** Runs that reach the inputs on which the 8-bit counter and the credit search of the routing table go wrong. */
module LongLists {
  import opened Addresses
  import opened RouteTable
  import opened RouteRuns

  /** A neighbour that announces the destination, and the interface it is heard on. */
  type Way = (Address, Iface)

  ghost predicate Different(ways: seq<Way>) {
    forall i, j | 0 <= i < j < |ways| :: ways[i] != ways[j]
  }

  function Announcements(dst: Address, ways: seq<Way>): seq<Op> {
    if ways == [] then [] else
      var n := |ways| - 1;
      Announcements(dst, ways[..n]) + [DoUpdate(dst, ways[n].0, ways[n].1, 0.0, 0)]
  }

  /** One hop for every way, all with the pheromone of a new hop. */
  ghost predicate HoldsWays(cfg: Config, hops: seq<Hop>, ways: seq<Way>) {
    && |hops| == |ways|
    && forall h | h in hops :: (h.nexthop, h.iface) in ways && h.pheromone == NewPheromone(cfg)
  }

  function NewPheromone(cfg: Config): real {
    if cfg.mode == Classic then 0.0 else INITIAL_PHEROMONE
  }

  lemma AnnouncedOnceMore(cfg: Config, t: Table, dst: Address, ways: seq<Way>, way: Way)
    requires HoldsWays(cfg, HopsOf(t, dst), ways) && way !in ways
    ensures HoldsWays(cfg, HopsOf(Update(cfg, t, dst, way.0, way.1, 0.0, 0).0, dst), ways + [way])
  {
    var e := if dst in t then t[dst] else EmptyEntry();
    var h := NewHop(cfg, way.0, way.1, 0.0, 0);
    var k := Find(e.hops, way.0, way.1);
    assert forall i | 0 <= i < |e.hops| :: e.hops[i] in e.hops;
    SortedIsSorted(e.hops + [h]);
    hide Sorted, Find, Descending, NoRepeat;
  }

  /** As many different ways are announced, as many hops the list holds. */
  lemma {:induction false} AnnouncedWaysAreHeld(cfg: Config, dst: Address, ways: seq<Way>)
    requires Different(ways)
    ensures HoldsWays(cfg, HopsOf(Run(cfg, map[], Announcements(dst, ways)), dst), ways)
  {
    hide Update, HoldsWays, Run;
    if ways == [] {
      NothingHeld(cfg, dst);
    } else {
      var n := |ways| - 1;
      AnnouncedWaysAreHeld(cfg, dst, ways[..n]);
      var before := Announcements(dst, ways[..n]);
      RunAppended(cfg, map[], before, DoUpdate(dst, ways[n].0, ways[n].1, 0.0, 0));
      AnnouncedOnceMore(cfg, Run(cfg, map[], before), dst, ways[..n], ways[n]);
      assert ways[..n] + [ways[n]] == ways;
    }
  }

  lemma NothingHeld(cfg: Config, dst: Address)
    ensures HoldsWays(cfg, HopsOf(Run(cfg, map[], []), dst), [])
  {
  }

  lemma {:induction false} StrongKeepsAll(cfg: Config, hops: seq<Hop>)
    requires forall h | h in hops :: h.pheromone >= cfg.minPheromone
    ensures Strong(cfg, hops) == hops
  {
    if hops != [] {
      var n := |hops| - 1;
      StrongKeepsAll(cfg, hops[..n]);
      assert hops == hops[..n] + [hops[n]];
    }
  }

  /**
   After 256 different ways were announced the counter says 0: no lookup at random finds a hop, a deletion runs into
   its assertion, and a LINEAR tick that leaves all 256 hops valid drops the entry.
   */
  lemma FullListIsLost(cfg: Config, dst: Address, ways: seq<Way>, draw: nat)
    requires cfg.Valid() && Different(ways) && |ways| == 0x100
    ensures var t := Run(cfg, map[], Announcements(dst, ways));
      && dst in t && |t[dst].hops| == 0x100 && t[dst].numNexthops == 0
      && RandomIndex(cfg, t, dst, draw).None?
      && Delete(t, dst, t[dst].hops[0].nexthop, t[dst].hops[0].iface) == (t, Aborted)
      && (cfg.mode == Linear && INITIAL_PHEROMONE - cfg.deltaQ >= cfg.minPheromone ==>
            |KeptHops(cfg, t[dst])| == 0x100 && dst !in Tick(cfg, t))
  {
    hide Run, Announcements, Delete, KeptHops, Different;
    var t := Run(cfg, map[], Announcements(dst, ways));
    AnnouncedWaysAreHeld(cfg, dst, ways);
    RunKeepsTable(cfg, map[], Announcements(dst, ways));
    FullListAborts(cfg, t, dst);
    if cfg.mode == Linear && INITIAL_PHEROMONE - cfg.deltaQ >= cfg.minPheromone {
      NewHopsAreKept(cfg, t[dst], ways);
      TickDropsIff(cfg, t, dst);
    }
  }

  lemma FullListAborts(cfg: Config, t: Table, dst: Address)
    requires TableOk(cfg, t) && dst in t && |t[dst].hops| == 0x100
    ensures t[dst].numNexthops == 0
    ensures Delete(t, dst, t[dst].hops[0].nexthop, t[dst].hops[0].iface) == (t, Aborted)
  {
    hide Descending, NoRepeat, IsMaxTtl;
  }

  lemma NewHopsAreKept(cfg: Config, e: Entry, ways: seq<Way>)
    requires cfg.Valid() && cfg.mode == Linear && HoldsWays(cfg, e.hops, ways)
    requires INITIAL_PHEROMONE - cfg.deltaQ >= cfg.minPheromone
    ensures |KeptHops(cfg, e)| == |ways|
  {
    var hops := EvaporatedHops(cfg, e.hops, SlowDown(cfg, e));
    forall h | h in hops ensures h.pheromone >= cfg.minPheromone {
      var i :| 0 <= i < |hops| && hops[i] == h;
      assert e.hops[i] in e.hops;
    }
    StrongKeepsAll(cfg, hops);
  }

  /** A deletion of one of 257 hops drops the other 256 with it. */
  lemma DeletionDropsTheOthers(cfg: Config, dst: Address, ways: seq<Way>)
    requires cfg.Valid() && Different(ways) && |ways| == 0x101
    ensures var t := Run(cfg, map[], Announcements(dst, ways));
      && dst in t && |t[dst].hops| == 0x101
      && dst !in Delete(t, dst, t[dst].hops[0].nexthop, t[dst].hops[0].iface).0
  {
    hide Run, Announcements, Delete, Different, TableOk;
    var t := Run(cfg, map[], Announcements(dst, ways));
    AnnouncedWaysAreHeld(cfg, dst, ways);
    RunKeepsTable(cfg, map[], Announcements(dst, ways)) by { EmptyTableOk(cfg); }
    DeleteCases(cfg, t, dst, t[dst].hops[0].nexthop, t[dst].hops[0].iface);
    OthersLackNamed(t[dst].hops, t[dst].hops[0].nexthop, t[dst].hops[0].iface);
  }

  lemma EmptyTableOk(cfg: Config)
    ensures TableOk(cfg, map[])
  {
  }

  /** One hop is known, another is named: the known one loses the credit. */
  lemma AnotherHopIsCredited(cfg: Config, dst: Address, a: Address, b: Address, iface: Iface, amount: real)
    requires a != b
    ensures var t := Run(cfg, map[], [DoUpdate(dst, a, iface, 0.0, 0), DoCredit(dst, b, iface, amount)]);
      dst in t && |t[dst].hops| == 1 && t[dst].hops[0].nexthop == a && t[dst].hops[0].credit == cfg.missCredit + amount
  {
    var h := NewHop(cfg, a, iface, 0.0, 0);
    var t := Update(cfg, map[], dst, a, iface, 0.0, 0).0;
    assert Sorted([] + [h]) == [h] by {
      assert [] + [h] == [h] && [h][1..] == [];
    }
    assert t[dst].hops == [h];
    var ops := [DoUpdate(dst, a, iface, 0.0, 0), DoCredit(dst, b, iface, amount)];
    assert ops[1..] == [DoCredit(dst, b, iface, amount)];
    RunAppended(cfg, map[], [ops[0]], ops[1]);
    assert ops == [ops[0]] + [ops[1]];
    RunAppended(cfg, map[], [], ops[0]);
    assert [] + [ops[0]] == [ops[0]];
  }
}

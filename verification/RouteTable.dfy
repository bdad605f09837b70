/**
 The ARA routing table: per destination a list of next hops kept sorted by pheromone. Every step is written as a
 function on values; class RoutingTable carries them out on the list and the table.
 */
module RouteTable {
  import opened Addresses
  import opened Evaporation
  import opened Options

  type Iface(==, !new)
  type uint8 = n: nat | n < 0x100

  datatype Mode = Classic | Cubic | Linear

  /** The parameters of a run. root stands for pow(x, 1.0 / plateau). */
  datatype Config = Config(mode: Mode, minPheromone: real, deltaQ: real, pruneRoutes: real, defaultTtl: uint8,
                           adaptive: bool, plateau: nat, root: real -> real, missCredit: real, creditInc: real)
  {
    /** What the command line interface lets through; the plateau factor must be odd. */
    ghost predicate Valid() {
      && minPheromone > 0.0
      && 0.0 < deltaQ < 1.0
      && (pruneRoutes == 0.0 || pruneRoutes >= 1.0)
      && plateau % 2 == 1 && IsRoot(root, plateau)
    }
  }

  const INITIAL_PHEROMONE: real := 0.6
  const CREDIT_MAX: real := 255.0
  const CREDIT_MIN: real := 0.0

  datatype Hop = Hop(nexthop: Address, iface: Iface, pheromone: real, credit: real, ttl: uint8)

  datatype Entry = Entry(hops: seq<Hop>, sendBant: bool, numNexthops: uint8, maxTtl: uint8)

  type Table = map<Address, Entry>

  datatype Result =
    | Failed | New | Updated | Discarded | CreditDecreased | CreditDepleted | CreditIncreased | CreditMax | Deleted
    | Aborted // a C assertion does not hold

  function Wrap8(n: int): uint8 {
    n % 0x100
  }

  function Max(a: uint8, b: uint8): uint8 {
    if a > b then a else b
  }

  predicate Matches(h: Hop, nexthop: Address, iface: Iface) {
    h.nexthop == nexthop && h.iface == iface
  }

  /** Position of the first matching hop, or the length of the list. */
  function Find(hops: seq<Hop>, nexthop: Address, iface: Iface): (k: nat)
    ensures k <= |hops|
    ensures k < |hops| ==> Matches(hops[k], nexthop, iface)
    ensures forall i | 0 <= i < k :: !Matches(hops[i], nexthop, iface)
  {
    if hops == [] || Matches(hops[0], nexthop, iface) then 0 else 1 + Find(hops[1..], nexthop, iface)
  }

  // ----- DL_SORT with the pheromone comparison: a stable descending sort -----

  function Insert(h: Hop, s: seq<Hop>): seq<Hop> {
    if s == [] || h.pheromone >= s[0].pheromone then [h] + s else [s[0]] + Insert(h, s[1..])
  }

  function Sorted(s: seq<Hop>): seq<Hop> {
    if s == [] then [] else Insert(s[0], Sorted(s[1..]))
  }

  ghost predicate Descending(s: seq<Hop>) {
    forall i, j | 0 <= i < j < |s| :: s[i].pheromone >= s[j].pheromone
  }

  ghost predicate NoRepeat(s: seq<Hop>) {
    forall i, j | 0 <= i < j < |s| :: !Matches(s[i], s[j].nexthop, s[j].iface)
  }

  lemma {:induction false} InsertIsSorted(h: Hop, s: seq<Hop>)
    requires Descending(s)
    ensures Descending(Insert(h, s)) && |Insert(h, s)| == |s| + 1
    ensures forall x :: x in Insert(h, s) <==> x == h || x in s
  {
    if s != [] && !(h.pheromone >= s[0].pheromone) {
      InsertIsSorted(h, s[1..]);
      forall x | x in Insert(h, s[1..])
        ensures s[0].pheromone >= x.pheromone
      {
        assert x == h || exists i :: 0 < i < |s| && s[i] == x;
      }
    }
  }

  lemma {:induction false} InsertNoRepeat(h: Hop, s: seq<Hop>)
    requires Descending(s) && NoRepeat(s) && (forall x | x in s :: !Matches(x, h.nexthop, h.iface))
    ensures NoRepeat(Insert(h, s))
  {
    if s == [] || h.pheromone >= s[0].pheromone {
      assert forall j | 0 <= j < |s| :: s[j] in s;
    } else {
      InsertNoRepeat(h, s[1..]);
      InsertIsSorted(h, s[1..]);
      var rest := Insert(h, s[1..]);
      forall x | x in rest
        ensures !Matches(s[0], x.nexthop, x.iface)
      {
        assert x == h || exists i :: 0 < i < |s| && s[i] == x;
      }
    }
  }

  lemma {:induction false} SortedIsSorted(s: seq<Hop>)
    ensures Descending(Sorted(s)) && |Sorted(s)| == |s|
    ensures forall x :: x in Sorted(s) <==> x in s
    ensures NoRepeat(s) ==> NoRepeat(Sorted(s))
  {
    if s != [] {
      SortedIsSorted(s[1..]);
      InsertIsSorted(s[0], Sorted(s[1..]));
      if NoRepeat(s) {
        InsertNoRepeat(s[0], Sorted(s[1..]));
      }
    }
  }

  lemma {:induction false} SortedIsPermutation(s: seq<Hop>)
    ensures multiset(Sorted(s)) == multiset(s)
  {
    if s != [] {
      SortedIsPermutation(s[1..]);
      InsertAdds(s[0], Sorted(s[1..]));
      assert s == [s[0]] + s[1..];
    }
  }

  lemma {:induction false} InsertAdds(h: Hop, s: seq<Hop>)
    ensures multiset(Insert(h, s)) == multiset(s) + multiset{h}
  {
    if s != [] && !(h.pheromone >= s[0].pheromone) {
      InsertAdds(h, s[1..]);
      assert s == [s[0]] + s[1..];
    }
  }

  // ----- ara_rt_update -----

  predicate Pruned(cfg: Config, maxTtl: uint8, delta: real, ttl: uint8) {
    var behind := maxTtl - ttl + 1;
    && cfg.pruneRoutes != 0.0 && delta > 0.0 && ttl > 0
    && (if behind > 0 then behind else 0) as real > (cfg.defaultTtl - maxTtl + 1) as real * cfg.pruneRoutes
  }

  function Reinforced(cfg: Config, p: real, delta: real): real {
    if !(delta >= 0.0) then 0.0
    else if cfg.mode == Classic then p + delta
    else Clamp(p + delta)
  }

  function NewHop(cfg: Config, nexthop: Address, iface: Iface, delta: real, ttl: uint8): Hop {
    Hop(nexthop, iface, if cfg.mode == Classic then delta else INITIAL_PHEROMONE, cfg.missCredit, ttl)
  }

  function UpdatedHop(cfg: Config, h: Hop, delta: real, ttl: uint8): Hop {
    var credit := h.credit + cfg.creditInc;
    h.(pheromone := Reinforced(cfg, h.pheromone, delta), ttl := Max(ttl, h.ttl),
       credit := if credit > CREDIT_MAX then CREDIT_MAX else credit)
  }

  function EmptyEntry(): Entry {
    Entry([], true, 0, 0)
  }

  /** The step on an entry that was found or has just been made. */
  function UpdateEntry(cfg: Config, e: Entry, nexthop: Address, iface: Iface, delta: real, ttl: uint8): (Entry,
                       Result) {
    var k := Find(e.hops, nexthop, iface);
    if Pruned(cfg, e.maxTtl, delta, ttl) then
      (e, Discarded)
    else if k == |e.hops| then
      if delta < 0.0 then (e, Failed)
      else
        (e.(hops := Sorted(e.hops + [NewHop(cfg, nexthop, iface, delta, ttl)]),
            maxTtl := Max(ttl, e.maxTtl), numNexthops := Wrap8(e.numNexthops + 1)), Updated)
    else
      var h := UpdatedHop(cfg, e.hops[k], delta, ttl);
      (e.(hops := Sorted(e.hops[k := h]), maxTtl := Max(h.ttl, e.maxTtl)), Updated)
  }

  function Update(cfg: Config, t: Table, dst: Address, nexthop: Address, iface: Iface, delta: real,
                  ttl: uint8): (Table, Result) {
    if dst !in t && delta < 0.0 then (t, Failed)
    else
      var (e, r) := UpdateEntry(cfg, if dst in t then t[dst] else EmptyEntry(), nexthop, iface, delta, ttl);
      (t[dst := e], r)
  }

  // ----- ara_rt_delete, ara_rt_modify_credit -----

  function MaxTtl(hops: seq<Hop>): uint8 {
    if hops == [] then 0 else Max(MaxTtl(hops[..|hops| - 1]), hops[|hops| - 1].ttl)
  }

  function Delete(t: Table, dst: Address, nexthop: Address, iface: Iface): (Table, Result) {
    if dst !in t then (t, Failed)
    else
      var e := t[dst];
      var k := Find(e.hops, nexthop, iface);
      if k == |e.hops| then (t, Failed)
      else if e.numNexthops == 0 then (t, Aborted)
      else if e.numNexthops == 1 then (t - {dst}, Deleted)
      else
        var hops := e.hops[..k] + e.hops[k + 1..];
        (t[dst := e.(hops := hops, numNexthops := e.numNexthops - 1, maxTtl := MaxTtl(hops))], Deleted)
  }

  /** The search stops at the last hop whether it matches or not. */
  function CreditedIndex(hops: seq<Hop>, nexthop: Address, iface: Iface): (k: nat)
    requires hops != []
    ensures k < |hops|
  {
    var k := Find(hops, nexthop, iface);
    if k == |hops| then |hops| - 1 else k
  }

  function CreditResult(credit: real, amount: real): Result {
    if amount >= 0.0 then (if credit >= CREDIT_MAX then CreditMax else CreditIncreased)
    else if credit <= CREDIT_MIN then CreditDepleted else CreditDecreased
  }

  function ModifyCredit(t: Table, dst: Address, nexthop: Address, iface: Iface, amount: real): (Table, Result) {
    if dst !in t || t[dst].hops == [] then (t, Failed)
    else
      var hops := t[dst].hops;
      var k := CreditedIndex(hops, nexthop, iface);
      var h := hops[k].(credit := hops[k].credit + amount);
      (t[dst := t[dst].(hops := hops[k := h])], CreditResult(h.credit, amount))
  }

  // ----- ara_rt_tick -----

  function SlowDown(cfg: Config, e: Entry): real {
    if cfg.adaptive && e.numNexthops < 3 then 0.5 else 1.0
  }

  function Evaporated(cfg: Config, p: real, slow: real): real {
    match cfg.mode
    case Classic => p * cfg.deltaQ
    case Linear => p - cfg.deltaQ * slow
    case Cubic => CubicDecrease(p, cfg.deltaQ * slow, cfg.plateau, cfg.root)
  }

  function EvaporatedHops(cfg: Config, hops: seq<Hop>, slow: real): (r: seq<Hop>)
    ensures |r| == |hops|
    ensures forall i | 0 <= i < |r| :: r[i] == hops[i].(pheromone := Evaporated(cfg, hops[i].pheromone, slow))
  {
    if hops == [] then []
    else
      var h := hops[|hops| - 1];
      EvaporatedHops(cfg, hops[..|hops| - 1], slow) + [h.(pheromone := Evaporated(cfg, h.pheromone, slow))]
  }

  function Strong(cfg: Config, hops: seq<Hop>): seq<Hop> {
    if hops == [] then [] else
      var h := hops[|hops| - 1];
      Strong(cfg, hops[..|hops| - 1]) + (if h.pheromone < cfg.minPheromone then [] else [h])
  }

  function KeptHops(cfg: Config, e: Entry): seq<Hop> {
    Strong(cfg, EvaporatedHops(cfg, e.hops, SlowDown(cfg, e)))
  }

  function TickedEntry(cfg: Config, e: Entry): Entry {
    var kept := KeptHops(cfg, e);
    e.(hops := kept, numNexthops := Wrap8(e.numNexthops - (|e.hops| - |kept|)), maxTtl := MaxTtl(kept))
  }

  function Tick(cfg: Config, t: Table): Table {
    map d | d in t && TickedEntry(cfg, t[d]).numNexthops > 0 :: TickedEntry(cfg, t[d])
  }

  // ----- Lookups -----

  datatype Lookup = NotFound | Found(hop: Hop, bant: bool)

  /** The flag asks for a BANT once: a successful lookup reports and clears it. */
  function Answer(t: Table, dst: Address, k: Option<nat>): (Table, Lookup)
    requires k.Some? ==> dst in t && k.value < |t[dst].hops|
  {
    match k
    case None => (t, NotFound)
    case Some(i) => (t[dst := t[dst].(sendBant := false)], Found(t[dst].hops[i], t[dst].sendBant))
  }

  function BestIndex(cfg: Config, t: Table, dst: Address): (k: Option<nat>)
    ensures k.Some? ==> dst in t && k.value < |t[dst].hops|
  {
    if dst in t && t[dst].hops != [] && t[dst].hops[0].pheromone >= cfg.minPheromone then Some(0) else None
  }

  function ValidSum(cfg: Config, hops: seq<Hop>): real {
    if hops == [] then 0.0 else
      var p := hops[|hops| - 1].pheromone;
      ValidSum(cfg, hops[..|hops| - 1]) + (if p < cfg.minPheromone then 0.0 else p)
  }

  function Sum(hops: seq<Hop>): real {
    if hops == [] then 0.0 else Sum(hops[..|hops| - 1]) + hops[|hops| - 1].pheromone
  }

  /** First valid hop from position i on at which the running sum of all pheromones reaches target. */
  function PickFrom(cfg: Config, hops: seq<Hop>, target: real, i: nat): (k: Option<nat>)
    requires i <= |hops|
    ensures k.Some? ==> i <= k.value < |hops|
    decreases |hops| - i
  {
    if i == |hops| then None
    else if Sum(hops[..i + 1]) >= target && hops[i].pheromone >= cfg.minPheromone then Some(i)
    else PickFrom(cfg, hops, target, i + 1)
  }

  /** The draw scaled to the valid pheromone; dice is random() / RAND_MAX. */
  function Target(cfg: Config, hops: seq<Hop>, dice: real): real {
    ValidSum(cfg, hops) * dice
  }

  function PickHop(cfg: Config, hops: seq<Hop>, dice: real): (k: Option<nat>)
    ensures k.Some? ==> k.value < |hops|
  {
    PickFrom(cfg, hops, Target(cfg, hops, dice), 0)
  }

  function WeightedIndex(cfg: Config, t: Table, dst: Address, dice: real): (k: Option<nat>)
    ensures k.Some? ==> dst in t && k.value < |t[dst].hops|
  {
    if dst !in t then None else PickHop(cfg, t[dst].hops, dice)
  }

  function RandomIndex(cfg: Config, t: Table, dst: Address, dice: nat): (k: Option<nat>)
    ensures k.Some? ==> dst in t && k.value < |t[dst].hops|
  {
    if dst !in t || t[dst].numNexthops == 0 then None
    else
      var i := dice % t[dst].numNexthops;
      if i < |t[dst].hops| && t[dst].hops[i].pheromone >= cfg.minPheromone then Some(i) else None
  }

  // ----- The table as the daemon works on it -----

  class RoutingTable {
    const cfg: Config
    var newrt: Table

    constructor (c: Config)
      ensures cfg == c && newrt == map[]
    {
      cfg, newrt := c, map[];
    }

    method FindHop(hops: seq<Hop>, nexthop: Address, iface: Iface) returns (k: nat)
      ensures k == Find(hops, nexthop, iface)
    {
      k := 0;
      while k < |hops| && !Matches(hops[k], nexthop, iface)
        invariant k <= |hops| && Find(hops, nexthop, iface) == k + Find(hops[k..], nexthop, iface)
      {
        assert hops[k..][1..] == hops[k + 1..];
        k := k + 1;
      }
    }

    method LongestTtl(hops: seq<Hop>) returns (m: uint8)
      ensures m == MaxTtl(hops)
    {
      m := 0;
      for i := 0 to |hops|
        invariant m == MaxTtl(hops[..i])
      {
        assert hops[..i + 1][..i] == hops[..i];
        m := Max(m, hops[i].ttl);
      }
      assert hops[..|hops|] == hops;
    }

    method UpdateRoute(dst: Address, nexthop: Address, iface: Iface, delta: real, ttl: uint8) returns (ret: Result)
      modifies this`newrt
      ensures (newrt, ret) == Update(cfg, old(newrt), dst, nexthop, iface, delta, ttl)
    {
      ret := Failed;
      if dst !in newrt {
        if delta < 0.0 {
          return;
        }
        newrt := newrt[dst := EmptyEntry()];
        ret := New;
      }
      var e := newrt[dst];
      var k := FindHop(e.hops, nexthop, iface);
      if Pruned(cfg, e.maxTtl, delta, ttl) {
        ret := Discarded;
      } else {
        if k == |e.hops| {
          if delta < 0.0 {
            assert newrt == newrt[dst := e];
            ret := Failed;
            return;
          }
          var cur := NewHop(cfg, nexthop, iface, delta, ttl);
          e := e.(hops := e.hops + [cur], maxTtl := Max(ttl, e.maxTtl), numNexthops := Wrap8(e.numNexthops + 1));
        } else {
          var cur := UpdatedHop(cfg, e.hops[k], delta, ttl);
          e := e.(hops := e.hops[k := cur], maxTtl := Max(cur.ttl, e.maxTtl));
        }
        ret := Updated;
        e := e.(hops := Sorted(e.hops));
      }
      newrt := newrt[dst := e];
      assert newrt == old(newrt)[dst := e];
    }

    method DeleteRoute(dst: Address, nexthop: Address, iface: Iface) returns (ret: Result)
      modifies this`newrt
      ensures (newrt, ret) == Delete(old(newrt), dst, nexthop, iface)
    {
      ret := Failed;
      if dst in newrt {
        var e := newrt[dst];
        var k := FindHop(e.hops, nexthop, iface);
        if k < |e.hops| {
          if e.numNexthops == 0 {
            return Aborted;
          }
          var num := e.numNexthops - 1;
          if num <= 0 {
            newrt := newrt - {dst};
          } else {
            var hops := e.hops[..k] + e.hops[k + 1..];
            var m := LongestTtl(hops);
            newrt := newrt[dst := e.(hops := hops, numNexthops := num, maxTtl := m)];
          }
          ret := Deleted;
        }
      }
    }

    method ModifyHopCredit(dst: Address, nexthop: Address, iface: Iface, amount: real) returns (res: Result)
      modifies this`newrt
      ensures (newrt, res) == ModifyCredit(old(newrt), dst, nexthop, iface, amount)
    {
      res := Failed;
      if dst in newrt {
        var hops := newrt[dst].hops;
        var k := 0;
        while k + 1 < |hops| && !Matches(hops[k], nexthop, iface)
          invariant k < |hops| || hops == []
          invariant hops != [] ==> Find(hops, nexthop, iface) == k + Find(hops[k..], nexthop, iface)
        {
          assert hops[k..][1..] == hops[k + 1..];
          k := k + 1;
        }
        if k < |hops| {
          var cur := hops[k].(credit := hops[k].credit + amount);
          newrt := newrt[dst := newrt[dst].(hops := hops[k := cur])];
          res := CreditResult(cur.credit, amount);
        }
      }
    }

    method EvaporateHops(hops0: seq<Hop>, slow: real) returns (hops: seq<Hop>)
      ensures hops == EvaporatedHops(cfg, hops0, slow)
    {
      hops := [];
      for i := 0 to |hops0|
        invariant hops == EvaporatedHops(cfg, hops0[..i], slow)
      {
        assert hops0[..i + 1][..i] == hops0[..i];
        hops := hops + [hops0[i].(pheromone := Evaporated(cfg, hops0[i].pheromone, slow))];
      }
      assert hops0[..|hops0|] == hops0;
    }

    method DropWeak(hops: seq<Hop>, num0: uint8) returns (kept: seq<Hop>, num: uint8)
      ensures kept == Strong(cfg, hops) && num == Wrap8(num0 - (|hops| - |kept|))
    {
      kept := [];
      var n: int := num0;
      for i := 0 to |hops|
        invariant kept == Strong(cfg, hops[..i]) && |kept| <= i
        invariant n == Wrap8(num0 - (i - |kept|))
      {
        assert hops[..i + 1][..i] == hops[..i];
        if hops[i].pheromone < cfg.minPheromone {
          n := Wrap8(n - 1);
        } else {
          kept := kept + [hops[i]];
        }
      }
      assert hops[..|hops|] == hops;
      num := n;
    }

    /** The body of the loop over destinations: evaporate every hop, drop the weak ones, recompute the counters. */
    method TickEntry(e: Entry) returns (r: Entry)
      ensures r == TickedEntry(cfg, e)
    {
      var slow := 1.0;
      if cfg.adaptive && e.numNexthops < 3 {
        slow := 0.5;
      }
      var hops := EvaporateHops(e.hops, slow);
      var kept, num := DropWeak(hops, e.numNexthops);
      var m := LongestTtl(kept);
      r := e.(hops := kept, numNexthops := num, maxTtl := m);
    }

    method TickTable()
      modifies this`newrt
      ensures newrt == Tick(cfg, old(newrt))
    {
      hide TickedEntry;
      var before, todo := newrt, newrt.Keys;
      while todo != {}
        invariant todo <= before.Keys && newrt.Keys <= before.Keys
        invariant forall d | d in todo :: d in newrt && newrt[d] == before[d]
        invariant forall d | d in before && d !in todo :: d in newrt <==> TickedEntry(cfg, before[d]).numNexthops > 0
        invariant forall d | d in newrt && d !in todo :: newrt[d] == TickedEntry(cfg, before[d])
      {
        var d :| d in todo;
        var e := TickEntry(newrt[d]);
        if e.numNexthops <= 0 {
          newrt := newrt - {d};
        } else {
          newrt := newrt[d := e];
        }
        todo := todo - {d};
      }
    }

    method GetBest(dst: Address) returns (r: Lookup)
      modifies this`newrt
      ensures (newrt, r) == Answer(old(newrt), dst, BestIndex(cfg, old(newrt), dst))
    {
      r := NotFound;
      if dst in newrt && newrt[dst].hops != [] {
        var best := newrt[dst].hops[0];
        if best.pheromone >= cfg.minPheromone {
          r := Found(best, newrt[dst].sendBant);
          newrt := newrt[dst := newrt[dst].(sendBant := false)];
        }
      }
    }

    method GetWeighted(dst: Address, dice: real) returns (r: Lookup)
      modifies this`newrt
      ensures (newrt, r) == Answer(old(newrt), dst, WeightedIndex(cfg, old(newrt), dst, dice))
    {
      r := NotFound;
      if dst !in newrt {
        return;
      }
      var hops := newrt[dst].hops;
      var total := 0.0;
      for i := 0 to |hops|
        invariant total == ValidSum(cfg, hops[..i])
      {
        assert hops[..i + 1][..i] == hops[..i];
        if !(hops[i].pheromone < cfg.minPheromone) {
          total := total + hops[i].pheromone;
        }
      }
      assert hops[..|hops|] == hops;
      assert total == ValidSum(cfg, hops);
      var target := total * dice;
      assert target == Target(cfg, hops, dice);
      assert PickHop(cfg, hops, dice) == PickFrom(cfg, hops, target, 0);
      var psum, cur := 0.0, 0;
      while cur < |hops|
        invariant newrt == old(newrt) && r == NotFound
        invariant 0 <= cur <= |hops| && psum == Sum(hops[..cur])
        invariant PickFrom(cfg, hops, target, 0) == PickFrom(cfg, hops, target, cur)
      {
        assert hops[..cur + 1][..cur] == hops[..cur];
        psum := psum + hops[cur].pheromone;
        assert psum == Sum(hops[..cur + 1]);
        if psum >= target && hops[cur].pheromone >= cfg.minPheromone {
          assert PickFrom(cfg, hops, target, cur) == Some(cur);
          r := Found(hops[cur], newrt[dst].sendBant);
          newrt := newrt[dst := newrt[dst].(sendBant := false)];
          return;
        }
        cur := cur + 1;
      }
    }

    method GetRandom(dst: Address, dice: nat) returns (r: Lookup)
      modifies this`newrt
      ensures (newrt, r) == Answer(old(newrt), dst, RandomIndex(cfg, old(newrt), dst, dice))
    {
      r := NotFound;
      if dst !in newrt || newrt[dst].numNexthops == 0 {
        return;
      }
      var hops := newrt[dst].hops;
      var randNextHop := dice % newrt[dst].numNexthops;
      for i := 0 to |hops|
        invariant newrt == old(newrt) && r == NotFound
        invariant randNextHop < i ==> hops[randNextHop].pheromone < cfg.minPheromone
      {
        if i == randNextHop && hops[i].pheromone >= cfg.minPheromone {
          r := Found(hops[i], newrt[dst].sendBant);
          newrt := newrt[dst := newrt[dst].(sendBant := false)];
          return;
        }
      }
    }
  }
}

/** What every run of routing-table steps keeps, and what the lookups may rely on. */
module RouteRuns {
  import opened Addresses
  import opened Evaporation
  import opened Options
  import opened RouteTable

  datatype Op =
    | DoUpdate(dst: Address, nexthop: Address, iface: Iface, delta: real, ttl: uint8)
    | DoDelete(dst: Address, nexthop: Address, iface: Iface)
    | DoCredit(dst: Address, nexthop: Address, iface: Iface, amount: real)
    | DoTick
    | DoBest(dst: Address)
    | DoWeighted(dst: Address, dice: real)
    | DoRandom(dst: Address, draw: nat)

  /** The position a lookup step answers with. */
  function Choice(cfg: Config, t: Table, op: Op): (k: Option<nat>)
    ensures k.Some? ==> !op.DoTick? && op.dst in t && k.value < |t[op.dst].hops|
  {
    match op
    case DoBest(dst) => BestIndex(cfg, t, dst)
    case DoWeighted(dst, dice) => WeightedIndex(cfg, t, dst, dice)
    case DoRandom(dst, draw) => RandomIndex(cfg, t, dst, draw)
    case _ => None
  }

  function Step(cfg: Config, t: Table, op: Op): Table {
    match op
    case DoUpdate(dst, nexthop, iface, delta, ttl) => Update(cfg, t, dst, nexthop, iface, delta, ttl).0
    case DoDelete(dst, nexthop, iface) => Delete(t, dst, nexthop, iface).0
    case DoCredit(dst, nexthop, iface, amount) => ModifyCredit(t, dst, nexthop, iface, amount).0
    case DoTick => Tick(cfg, t)
    case _ => Answer(t, op.dst, Choice(cfg, t, op)).0
  }

  function Run(cfg: Config, t: Table, ops: seq<Op>): Table
    decreases |ops|
  {
    if ops == [] then t else Run(cfg, Step(cfg, t, ops[0]), ops[1..])
  }

  lemma {:induction false} RunAppended(cfg: Config, t: Table, ops: seq<Op>, op: Op)
    ensures Run(cfg, t, ops + [op]) == Step(cfg, Run(cfg, t, ops), op)
    decreases |ops|
  {
    if ops == [] {
      assert [] + [op] == [op];
      assert Run(cfg, t, [op]) == Run(cfg, Step(cfg, t, op), []);
    } else {
      assert (ops + [op])[1..] == ops[1..] + [op];
      RunAppended(cfg, Step(cfg, t, ops[0]), ops[1..], op);
    }
  }

  // ----- The table invariant -----

  ghost predicate InRange(cfg: Config, p: real) {
    0.0 <= p && (cfg.mode != Classic ==> p <= 1.0)
  }

  ghost predicate IsMaxTtl(hops: seq<Hop>, m: uint8) {
    && (forall h | h in hops :: h.ttl <= m)
    && (hops == [] ==> m == 0)
    && (hops != [] ==> exists h :: h in hops && h.ttl == m)
  }

  /** The list of an entry, empty or not. */
  ghost predicate ListOk(cfg: Config, e: Entry) {
    && Descending(e.hops) && NoRepeat(e.hops)
    && (forall h | h in e.hops :: InRange(cfg, h.pheromone))
    && IsMaxTtl(e.hops, e.maxTtl)
    && e.numNexthops == Wrap8(|e.hops|)
  }

  ghost predicate TableOk(cfg: Config, t: Table) {
    forall d | d in t :: ListOk(cfg, t[d]) && t[d].hops != []
  }

  /** The 8-bit counter is the length of the list exactly while the list is short enough for it. */
  lemma CounterIsLengthIff(cfg: Config, e: Entry)
    requires ListOk(cfg, e)
    ensures e.numNexthops == |e.hops| <==> |e.hops| <= 0xFF
  {
  }

  lemma {:induction false} MaxTtlIsMax(hops: seq<Hop>)
    ensures IsMaxTtl(hops, MaxTtl(hops))
  {
    if hops != [] {
      var n := |hops| - 1;
      MaxTtlIsMax(hops[..n]);
      assert hops == hops[..n] + [hops[n]];
      assert hops[n] in hops;
    }
  }

  // ----- Update -----

  lemma ReinforcedInRange(cfg: Config, p: real, delta: real)
    requires InRange(cfg, p)
    ensures InRange(cfg, Reinforced(cfg, p, delta))
  {
  }

  lemma AppendedOk(cfg: Config, e: Entry, h: Hop)
    requires ListOk(cfg, e) && Find(e.hops, h.nexthop, h.iface) == |e.hops| && InRange(cfg, h.pheromone)
    ensures ListOk(cfg, e.(hops := Sorted(e.hops + [h]), maxTtl := Max(h.ttl, e.maxTtl),
        numNexthops := Wrap8(e.numNexthops + 1)))
  {
    hide Sorted, Descending, InRange, IsMaxTtl;
    var s := e.hops + [h];
    assert NoRepeat(s);
    SortedListOk(cfg, s) by {
      assert forall x | x in s :: x in e.hops || x == h;
    }
    AppendedTtl(e.hops, e.maxTtl, h);
    SameTtlSet(s, Sorted(s), Max(h.ttl, e.maxTtl));
  }

  lemma SortedListOk(cfg: Config, s: seq<Hop>)
    requires NoRepeat(s) && forall h | h in s :: InRange(cfg, h.pheromone)
    ensures Descending(Sorted(s)) && NoRepeat(Sorted(s)) && |Sorted(s)| == |s|
    ensures forall h :: h in Sorted(s) <==> h in s
    ensures forall h | h in Sorted(s) :: InRange(cfg, h.pheromone)
  {
    SortedIsSorted(s);
  }

  lemma SameTtlSet(a: seq<Hop>, b: seq<Hop>, m: uint8)
    requires IsMaxTtl(a, m) && |a| == |b| && forall h :: h in b <==> h in a
    ensures IsMaxTtl(b, m)
  {
  }

  lemma AppendedTtl(hops: seq<Hop>, m: uint8, h: Hop)
    requires IsMaxTtl(hops, m)
    ensures IsMaxTtl(hops + [h], Max(h.ttl, m))
  {
    var s := hops + [h];
    assert h in s;
    if hops != [] {
      var x :| x in hops && x.ttl == m;
      assert x in s;
    }
  }

  lemma ReplacedOk(cfg: Config, e: Entry, k: nat, h: Hop)
    requires ListOk(cfg, e) && k < |e.hops| && InRange(cfg, h.pheromone)
    requires Matches(h, e.hops[k].nexthop, e.hops[k].iface) && h.ttl >= e.hops[k].ttl
    ensures ListOk(cfg, e.(hops := Sorted(e.hops[k := h]), maxTtl := Max(h.ttl, e.maxTtl)))
  {
    hide Sorted, Descending, InRange, IsMaxTtl;
    var s := e.hops[k := h];
    assert NoRepeat(s);
    SortedListOk(cfg, s) by {
      assert forall x | x in s :: x in e.hops || x == h;
    }
    ReplacedTtl(e.hops, e.maxTtl, k, h);
    SameTtlSet(s, Sorted(s), Max(h.ttl, e.maxTtl));
  }

  lemma ReplacedTtl(hops: seq<Hop>, m: uint8, k: nat, h: Hop)
    requires IsMaxTtl(hops, m) && k < |hops| && h.ttl >= hops[k].ttl
    ensures IsMaxTtl(hops[k := h], Max(h.ttl, m))
  {
    var s := hops[k := h];
    assert s[k] == h;
    var x :| x in hops && x.ttl == m;
    var i :| 0 <= i < |hops| && hops[i] == x;
    assert s[i] == if i == k then h else x;
    assert s[i] in s && s[k] in s;
  }

  /** A new list is never pruned, so an update leaves no empty entry behind. */
  lemma EmptyIsNotPruned(cfg: Config, delta: real, ttl: uint8)
    requires cfg.Valid()
    ensures !Pruned(cfg, 0, delta, ttl)
  {
  }

  lemma UpdateEntryOk(cfg: Config, e: Entry, nexthop: Address, iface: Iface, delta: real, ttl: uint8)
    requires cfg.Valid() && ListOk(cfg, e) && (e.hops == [] ==> delta >= 0.0)
    ensures var (e', r) := UpdateEntry(cfg, e, nexthop, iface, delta, ttl);
      && ListOk(cfg, e') && e'.hops != [] && e'.sendBant == e.sendBant
      && (r == Updated || r == Discarded || r == Failed)
      && (r != Updated ==> e' == e)
  {
    EmptyIsNotPruned(cfg, delta, ttl);
    var k := Find(e.hops, nexthop, iface);
    if Pruned(cfg, e.maxTtl, delta, ttl) {
    } else if k == |e.hops| {
      if delta >= 0.0 {
        AppendedOk(cfg, e, NewHop(cfg, nexthop, iface, delta, ttl));
        SortedIsSorted(e.hops + [NewHop(cfg, nexthop, iface, delta, ttl)]);
      }
    } else {
      ReinforcedInRange(cfg, e.hops[k].pheromone, delta) by { assert e.hops[k] in e.hops; }
      ReplacedOk(cfg, e, k, UpdatedHop(cfg, e.hops[k], delta, ttl));
      SortedIsSorted(e.hops[k := UpdatedHop(cfg, e.hops[k], delta, ttl)]);
    }
  }

  /** Anything but a successful update changes nothing, and the answer is never New: it is overwritten. */
  lemma UpdateOk(cfg: Config, t: Table, dst: Address, nexthop: Address, iface: Iface, delta: real, ttl: uint8)
    requires cfg.Valid() && TableOk(cfg, t)
    ensures var (t', r) := Update(cfg, t, dst, nexthop, iface, delta, ttl);
      && TableOk(cfg, t')
      && (r == Updated || r == Discarded || r == Failed)
      && (r != Updated ==> t' == t)
      && (r == Updated ==> dst in t' && t'[dst].sendBant == (dst in t ==> t[dst].sendBant))
  {
    if dst in t {
      UpdateEntryOk(cfg, t[dst], nexthop, iface, delta, ttl);
    } else if delta >= 0.0 {
      UpdateEntryOk(cfg, EmptyEntry(), nexthop, iface, delta, ttl);
      EmptyIsNotPruned(cfg, delta, ttl);
    }
  }

  // ----- Delete and credit -----

  lemma RemovedOk(cfg: Config, e: Entry, k: nat)
    requires ListOk(cfg, e) && k < |e.hops| && e.numNexthops > 1
    ensures var hops := e.hops[..k] + e.hops[k + 1..];
      hops != [] && ListOk(cfg, e.(hops := hops, numNexthops := e.numNexthops - 1, maxTtl := MaxTtl(hops)))
  {
    hide Descending, NoRepeat, IsMaxTtl;
    var hops := e.hops[..k] + e.hops[k + 1..];
    MaxTtlIsMax(hops);
    RemovedKeepsOrder(e.hops, k);
  }

  lemma RemovedKeepsOrder(s: seq<Hop>, k: nat)
    requires Descending(s) && NoRepeat(s) && k < |s|
    ensures Descending(s[..k] + s[k + 1..]) && NoRepeat(s[..k] + s[k + 1..])
    ensures forall h | h in s[..k] + s[k + 1..] :: h in s
  {
  }

  lemma DeleteOk(cfg: Config, t: Table, dst: Address, nexthop: Address, iface: Iface)
    requires TableOk(cfg, t)
    ensures TableOk(cfg, Delete(t, dst, nexthop, iface).0)
  {
    hide ListOk, MaxTtl;
    if dst in t {
      var e := t[dst];
      var k := Find(e.hops, nexthop, iface);
      if k < |e.hops| && e.numNexthops > 1 {
        RemovedOk(cfg, e, k);
      }
    }
  }

  // ----- What a deletion removes -----

  /** The hops of a destination, none if it has no entry. */
  function HopsOf(t: Table, dst: Address): seq<Hop> {
    if dst in t then t[dst].hops else []
  }

  /** The hops with another name, in order. */
  function Others(hops: seq<Hop>, nexthop: Address, iface: Iface): seq<Hop> {
    if hops == [] then [] else
      Others(hops[..|hops| - 1], nexthop, iface) +
      (if Matches(hops[|hops| - 1], nexthop, iface) then [] else [hops[|hops| - 1]])
  }

  lemma {:induction false} OthersAreAll(hops: seq<Hop>, nexthop: Address, iface: Iface)
    requires forall i | 0 <= i < |hops| :: !Matches(hops[i], nexthop, iface)
    ensures Others(hops, nexthop, iface) == hops
  {
    if hops != [] {
      var n := |hops| - 1;
      OthersAreAll(hops[..n], nexthop, iface);
      assert hops == hops[..n] + [hops[n]];
    }
  }

  lemma {:induction false} OthersWithoutOne(hops: seq<Hop>, nexthop: Address, iface: Iface, k: nat)
    requires k < |hops| && Matches(hops[k], nexthop, iface)
    requires forall i | 0 <= i < |hops| && i != k :: !Matches(hops[i], nexthop, iface)
    ensures Others(hops, nexthop, iface) == hops[..k] + hops[k + 1..]
  {
    var n := |hops| - 1;
    if k == n {
      OthersAreAll(hops[..n], nexthop, iface);
    } else {
      OthersWithoutOne(hops[..n], nexthop, iface, k);
      assert hops[..k] + hops[k + 1..] == hops[..n][..k] + hops[..n][k + 1..] + [hops[n]];
    }
  }

  /**
   A deletion fails exactly if the hop is not in the list. The 8-bit counter runs into its assertion exactly if the
   number of hops is a multiple of 256, and drops the whole entry exactly if it is one more; otherwise exactly the
   other hops stay.
   */
  lemma DeleteCases(cfg: Config, t: Table, dst: Address, nexthop: Address, iface: Iface)
    requires TableOk(cfg, t)
    ensures var (t', r) := Delete(t, dst, nexthop, iface);
      var n, others := |HopsOf(t, dst)|, Others(HopsOf(t, dst), nexthop, iface);
      && (r == Failed <==> others == HopsOf(t, dst))
      && (r == Aborted <==> others != HopsOf(t, dst) && n % 0x100 == 0)
      && (r == Deleted <==> others != HopsOf(t, dst) && n % 0x100 != 0)
      && (r != Deleted ==> t' == t)
      && (r == Deleted ==> (dst !in t' <==> n % 0x100 == 1) && |others| == n - 1)
      && (r == Deleted && dst in t' ==> t'[dst].hops == others)
      && t' - {dst} == t - {dst}
  {
    hide IsMaxTtl, Descending;
    var hops := HopsOf(t, dst);
    var k := Find(hops, nexthop, iface);
    if k < |hops| {
      assert forall i | k < i < |hops| :: !Matches(hops[k], hops[i].nexthop, hops[i].iface);
      OthersWithoutOne(hops, nexthop, iface, k);
    } else {
      OthersAreAll(hops, nexthop, iface);
    }
  }

  /** A deletion leaves exactly the hops with another name, and every other destination alone. */
  ghost predicate DeletesNamedHopOnly(t: Table, dst: Address, nexthop: Address, iface: Iface, t': Table) {
    && HopsOf(t', dst) == Others(HopsOf(t, dst), nexthop, iface)
    && t' - {dst} == t - {dst}
  }

  /** It does so exactly if the hop is not there, is the only one, or the counter is neither 0 nor 1. */
  lemma DeleteIsExactIff(cfg: Config, t: Table, dst: Address, nexthop: Address, iface: Iface)
    requires TableOk(cfg, t)
    ensures var n := |HopsOf(t, dst)|;
      DeletesNamedHopOnly(t, dst, nexthop, iface, Delete(t, dst, nexthop, iface).0) <==>
      (forall h | h in HopsOf(t, dst) :: !Matches(h, nexthop, iface)) || n == 1 || n % 0x100 > 1
  {
    hide Delete, TableOk;
    var hops := HopsOf(t, dst);
    DeleteCases(cfg, t, dst, nexthop, iface);
    if h :| h in hops && Matches(h, nexthop, iface) {
      OthersLackNamed(hops, nexthop, iface);
    } else {
      assert forall i | 0 <= i < |hops| :: hops[i] in hops;
      OthersAreAll(hops, nexthop, iface);
    }
  }

  lemma {:induction false} OthersLackNamed(hops: seq<Hop>, nexthop: Address, iface: Iface)
    ensures forall h :: h in Others(hops, nexthop, iface) <==> h in hops && !Matches(h, nexthop, iface)
  {
    if hops != [] {
      var n := |hops| - 1;
      OthersLackNamed(hops[..n], nexthop, iface);
      assert hops == hops[..n] + [hops[n]];
    }
  }

  /** The named hop is credited exactly when it is in the list; otherwise it is the last, weakest one. */
  lemma CreditGoesToNamedHopIff(t: Table, dst: Address, nexthop: Address, iface: Iface, amount: real)
    requires dst in t && t[dst].hops != []
    ensures var hops, k := t[dst].hops, CreditedIndex(t[dst].hops, nexthop, iface);
      && ModifyCredit(t, dst, nexthop, iface, amount).0 ==
           t[dst := t[dst].(hops := hops[k := hops[k].(credit := hops[k].credit + amount)])]
      && (Matches(hops[k], nexthop, iface) <==> exists i :: 0 <= i < |hops| && Matches(hops[i], nexthop, iface))
      && (!Matches(hops[k], nexthop, iface) ==> k == |hops| - 1)
  {
  }

  /** The result tells the direction, and whether the credit has reached the bound on that side. */
  lemma CreditResultIff(t: Table, dst: Address, nexthop: Address, iface: Iface, amount: real)
    ensures var (t', r) := ModifyCredit(t, dst, nexthop, iface, amount);
      && (r == Failed <==> HopsOf(t, dst) == [])
      && (HopsOf(t, dst) != [] ==>
            var k := CreditedIndex(HopsOf(t, dst), nexthop, iface);
            && |HopsOf(t', dst)| == |HopsOf(t, dst)|
            && var credit := HopsOf(t', dst)[k].credit;
               && (r == CreditMax <==> amount >= 0.0 && credit >= 255.0)
               && (r == CreditIncreased <==> amount >= 0.0 && credit < 255.0)
               && (r == CreditDepleted <==> amount < 0.0 && credit <= 0.0)
               && (r == CreditDecreased <==> amount < 0.0 && credit > 0.0))
  {
  }

  lemma CreditOk(cfg: Config, t: Table, dst: Address, nexthop: Address, iface: Iface, amount: real)
    requires TableOk(cfg, t)
    ensures TableOk(cfg, ModifyCredit(t, dst, nexthop, iface, amount).0)
  {
    hide ListOk;
    if dst in t {
      var e := t[dst];
      var k := CreditedIndex(e.hops, nexthop, iface);
      CreditedListOk(cfg, e, k, e.hops[k].(credit := e.hops[k].credit + amount));
    }
  }

  lemma CreditedListOk(cfg: Config, e: Entry, k: nat, h: Hop)
    requires ListOk(cfg, e) && k < |e.hops| && h == e.hops[k].(credit := h.credit)
    ensures ListOk(cfg, e.(hops := e.hops[k := h]))
  {
    var hops := e.hops[k := h];
    SameTtls(e.hops, hops, e.maxTtl);
    forall x | x in hops ensures InRange(cfg, x.pheromone) {
      var i :| 0 <= i < |hops| && hops[i] == x;
      assert e.hops[i] in e.hops;
    }
  }

  lemma SameTtls(a: seq<Hop>, b: seq<Hop>, m: uint8)
    requires |a| == |b| && (forall i | 0 <= i < |a| :: a[i].ttl == b[i].ttl) && IsMaxTtl(a, m)
    ensures IsMaxTtl(b, m)
  {
  }

  // ----- Tick -----

  ghost predicate SlowFactor(slow: real) {
    slow == 0.5 || slow == 1.0
  }

  /** Evaporation never raises a pheromone in range and keeps the order of two. */
  lemma EvaporationIsMonotone(cfg: Config, p: real, q: real, slow: real)
    requires cfg.Valid() && SlowFactor(slow) && InRange(cfg, p) && InRange(cfg, q) && p <= q
    ensures Evaporated(cfg, p, slow) <= Evaporated(cfg, q, slow)
    ensures Evaporated(cfg, p, slow) <= p
  {
    hide CubicDecrease, IsRoot;
    match cfg.mode
    case Classic =>
      Products(q - p, cfg.deltaQ);
      Products(p, 1.0 - cfg.deltaQ);
    case Linear =>
    case Cubic =>
      DecreaseIsMonotone(p, q, cfg.deltaQ * slow, cfg.plateau, cfg.root);
  }

  lemma EvaporatedListIsOrdered(cfg: Config, hops: seq<Hop>, slow: real)
    requires cfg.Valid() && SlowFactor(slow) && Descending(hops) && NoRepeat(hops)
    requires forall h | h in hops :: InRange(cfg, h.pheromone)
    ensures Descending(EvaporatedHops(cfg, hops, slow)) && NoRepeat(EvaporatedHops(cfg, hops, slow))
    ensures forall h | h in EvaporatedHops(cfg, hops, slow) :: cfg.mode != Classic ==> h.pheromone <= 1.0
  {
    var r := EvaporatedHops(cfg, hops, slow);
    forall i, j | 0 <= i < j < |r| ensures r[i].pheromone >= r[j].pheromone {
      assert hops[i] in hops && hops[j] in hops;
      EvaporationIsMonotone(cfg, hops[j].pheromone, hops[i].pheromone, slow);
    }
    forall h | h in r ensures cfg.mode != Classic ==> h.pheromone <= 1.0 {
      var i :| 0 <= i < |r| && r[i] == h;
      assert hops[i] in hops;
      EvaporationIsMonotone(cfg, hops[i].pheromone, hops[i].pheromone, slow);
    }
  }

  lemma {:induction false} StrongMembers(cfg: Config, hops: seq<Hop>)
    ensures |Strong(cfg, hops)| <= |hops|
    ensures forall h :: h in Strong(cfg, hops) <==> h in hops && h.pheromone >= cfg.minPheromone
  {
    if hops != [] {
      var n := |hops| - 1;
      StrongMembers(cfg, hops[..n]);
      assert hops == hops[..n] + [hops[n]];
    }
  }

  lemma {:induction false} StrongKeepsOrder(cfg: Config, hops: seq<Hop>)
    requires Descending(hops) && NoRepeat(hops)
    ensures Descending(Strong(cfg, hops)) && NoRepeat(Strong(cfg, hops))
  {
    if hops != [] {
      var n := |hops| - 1;
      StrongKeepsOrder(cfg, hops[..n]);
      StrongMembers(cfg, hops[..n]);
      var before := Strong(cfg, hops[..n]);
      forall h | h in before
        ensures h.pheromone >= hops[n].pheromone && !Matches(h, hops[n].nexthop, hops[n].iface)
      {
        var i :| 0 <= i < n && hops[i] == h;
      }
      OneMoreInOrder(before, hops[n]);
    }
  }

  lemma OneMoreInOrder(s: seq<Hop>, h: Hop)
    requires Descending(s) && NoRepeat(s)
    requires forall x | x in s :: x.pheromone >= h.pheromone && !Matches(x, h.nexthop, h.iface)
    ensures Descending(s + [h]) && NoRepeat(s + [h])
  {
    assert forall i | 0 <= i < |s| :: s[i] in s;
  }

  lemma CounterFollows(before: nat, after: nat)
    ensures Wrap8(Wrap8(before) - (before - after)) == Wrap8(after)
  {
  }

  lemma TickedEntryOk(cfg: Config, e: Entry)
    requires cfg.Valid() && ListOk(cfg, e)
    ensures ListOk(cfg, TickedEntry(cfg, e))
    ensures forall h | h in KeptHops(cfg, e) :: h.pheromone >= cfg.minPheromone
  {
    hide Evaporated, EvaporatedHops, Strong, MaxTtl, Descending, NoRepeat, IsMaxTtl, Wrap8;
    var slow := SlowDown(cfg, e);
    var hops := EvaporatedHops(cfg, e.hops, slow);
    EvaporatedListIsOrdered(cfg, e.hops, slow);
    StrongMembers(cfg, hops);
    StrongKeepsOrder(cfg, hops);
    MaxTtlIsMax(KeptHops(cfg, e));
    CounterFollows(|e.hops|, |KeptHops(cfg, e)|);
  }

  /** An entry leaves the table exactly when the number of its surviving hops is a multiple of 256. */
  lemma TickDropsIff(cfg: Config, t: Table, d: Address)
    requires cfg.Valid() && TableOk(cfg, t) && d in t
    ensures d in Tick(cfg, t) <==> |KeptHops(cfg, t[d])| % 0x100 != 0
  {
    TickedEntryOk(cfg, t[d]);
  }

  lemma TickOk(cfg: Config, t: Table)
    requires cfg.Valid() && TableOk(cfg, t)
    ensures TableOk(cfg, Tick(cfg, t))
  {
    hide ListOk, KeptHops;
    forall d | d in Tick(cfg, t) ensures ListOk(cfg, Tick(cfg, t)[d]) && Tick(cfg, t)[d].hops != [] {
      TickedEntryOk(cfg, t[d]);
      TickDropsIff(cfg, t, d);
    }
  }

  // ----- Runs -----

  lemma StepOk(cfg: Config, t: Table, op: Op)
    requires cfg.Valid() && TableOk(cfg, t)
    ensures TableOk(cfg, Step(cfg, t, op))
  {
    match op
    case DoUpdate(dst, nexthop, iface, delta, ttl) => UpdateOk(cfg, t, dst, nexthop, iface, delta, ttl);
    case DoDelete(dst, nexthop, iface) => DeleteOk(cfg, t, dst, nexthop, iface);
    case DoCredit(dst, nexthop, iface, amount) => CreditOk(cfg, t, dst, nexthop, iface, amount);
    case DoTick => TickOk(cfg, t);
    case _ =>
  }

  /** Every run of steps keeps all lists non-empty, sorted, free of repeats, in range, and their counters right. */
  lemma {:induction false} RunKeepsTable(cfg: Config, t: Table, ops: seq<Op>)
    requires cfg.Valid() && TableOk(cfg, t)
    ensures TableOk(cfg, Run(cfg, t, ops))
    decreases |ops|
  {
    if ops != [] {
      StepOk(cfg, t, ops[0]);
      RunKeepsTable(cfg, Step(cfg, t, ops[0]), ops[1..]);
    }
  }

  // ----- Lookups -----

  /** Pheromone of the valid hops among the first n of the list. */
  function Before(cfg: Config, hops: seq<Hop>, n: nat): real
    requires n <= |hops|
  {
    ValidSum(cfg, hops[..n])
  }

  /** In a sorted list the running sum of all pheromones and of the valid ones agree as long as hops are valid. */
  lemma {:induction false} SumsAgree(cfg: Config, hops: seq<Hop>, n: nat)
    requires Descending(hops) && n <= |hops| && (n > 0 ==> hops[n - 1].pheromone >= cfg.minPheromone)
    ensures Sum(hops[..n]) == Before(cfg, hops, n)
  {
    if n > 0 {
      assert hops[..n][..n - 1] == hops[..n - 1];
      SumsAgree(cfg, hops, n - 1);
    }
  }

  lemma {:induction false} SumsGrow(cfg: Config, hops: seq<Hop>, m: nat, n: nat)
    requires cfg.minPheromone > 0.0 && m <= n <= |hops|
    ensures 0.0 <= Before(cfg, hops, m) <= Before(cfg, hops, n)
    decreases n
  {
    if n > 0 {
      assert hops[..n][..n - 1] == hops[..n - 1];
      if m < n {
        SumsGrow(cfg, hops, m, n - 1);
      } else {
        SumsGrow(cfg, hops, n - 1, n - 1);
      }
    }
  }

  /**
   The draws are divided among the valid hops: hop i is chosen exactly for targets above the pheromone of the hops
   before it and not above that sum plus its own; hop 0 takes target 0 as well.
   */
  lemma WeightedPartition(cfg: Config, hops: seq<Hop>, target: real, i: nat)
    requires cfg.minPheromone > 0.0 && Descending(hops) && target >= 0.0
    requires i < |hops| && hops[i].pheromone >= cfg.minPheromone
    ensures PickFrom(cfg, hops, target, 0) == Some(i) <==>
      (Before(cfg, hops, i) < target || i == 0) && target <= Before(cfg, hops, i + 1)
    ensures Before(cfg, hops, i + 1) - Before(cfg, hops, i) == hops[i].pheromone
  {
    assert hops[..i + 1][..i] == hops[..i];
    SumsAgree(cfg, hops, i + 1);
    SumsAgree(cfg, hops, i);
    if Before(cfg, hops, i) < target || i == 0 {
      SkipsTo(cfg, hops, target, i);
    } else {
      StopsBefore(cfg, hops, target, 0, i - 1);
    }
  }

  /** No hop before position i is chosen when the sum up to i is too small. */
  lemma {:induction false} SkipsTo(cfg: Config, hops: seq<Hop>, target: real, i: nat)
    requires cfg.minPheromone > 0.0 && Descending(hops)
    requires i < |hops| && hops[i].pheromone >= cfg.minPheromone && (Before(cfg, hops, i) < target || i == 0)
    ensures PickFrom(cfg, hops, target, 0) == PickFrom(cfg, hops, target, i)
  {
    if i > 0 {
      SumsGrow(cfg, hops, i - 1, i);
      SkipsTo(cfg, hops, target, i - 1);
      SumsAgree(cfg, hops, i);
    }
  }

  lemma {:induction false} StopsBefore(cfg: Config, hops: seq<Hop>, target: real, j: nat, i: nat)
    requires Descending(hops) && j <= i < |hops| && hops[i].pheromone >= cfg.minPheromone
    requires target <= Before(cfg, hops, i + 1)
    ensures var k := PickFrom(cfg, hops, target, j); k.Some? && k.value <= i
    decreases i - j
  {
    if j < i {
      StopsBefore(cfg, hops, target, j + 1, i);
    } else {
      SumsAgree(cfg, hops, i + 1);
    }
  }

  /** With a draw in [0, 1] the weighted lookup finds a hop exactly when a valid one exists. */
  lemma WeightedFindsIff(cfg: Config, hops: seq<Hop>, dice: real)
    requires cfg.minPheromone > 0.0 && Descending(hops) && 0.0 <= dice <= 1.0
    ensures PickHop(cfg, hops, dice).Some? <==> exists h :: h in hops && h.pheromone >= cfg.minPheromone
  {
    var k := PickHop(cfg, hops, dice);
    if k.Some? {
      PickedIsValid(cfg, hops, Target(cfg, hops, dice), 0);
      assert hops[k.value] in hops;
    }
    if h :| h in hops && h.pheromone >= cfg.minPheromone {
      var n := LastValid(cfg, hops);
      assert hops[..|hops|] == hops;
      SumsGrow(cfg, hops, 0, |hops|);
      Products(ValidSum(cfg, hops), 1.0 - dice);
      StopsBefore(cfg, hops, Target(cfg, hops, dice), 0, n);
    }
  }

  lemma {:induction false} PickedIsValid(cfg: Config, hops: seq<Hop>, target: real, i: nat)
    requires i <= |hops|
    ensures var k := PickFrom(cfg, hops, target, i); k.Some? ==> hops[k.value].pheromone >= cfg.minPheromone
    decreases |hops| - i
  {
    if i < |hops| {
      PickedIsValid(cfg, hops, target, i + 1);
    }
  }

  lemma {:induction false} LastValid(cfg: Config, hops: seq<Hop>) returns (n: nat)
    requires exists h :: h in hops && h.pheromone >= cfg.minPheromone
    ensures n < |hops| && hops[n].pheromone >= cfg.minPheromone
    ensures Before(cfg, hops, n + 1) == ValidSum(cfg, hops)
    decreases |hops|
  {
    var m := |hops| - 1;
    assert hops == hops[..m] + [hops[m]];
    if hops[m].pheromone >= cfg.minPheromone {
      n := m;
      assert hops[..n + 1] == hops;
    } else {
      n := LastValid(cfg, hops[..m]);
      assert hops[..m][..n + 1] == hops[..n + 1];
    }
  }

  // ----- The random lookup -----

  /** Some draw picks the hop at position i exactly if the 8-bit counter, the length modulo 256, reaches beyond i. */
  lemma RandomReachesIff(cfg: Config, t: Table, dst: Address, i: nat)
    requires TableOk(cfg, t) && dst in t && i < |t[dst].hops|
    ensures (exists draw :: RandomIndex(cfg, t, dst, draw) == Some(i)) <==>
      i < |t[dst].hops| % 0x100 && t[dst].hops[i].pheromone >= cfg.minPheromone
  {
    hide Descending, NoRepeat, IsMaxTtl;
    var n := t[dst].numNexthops;
    assert n == |t[dst].hops| % 0x100;
    forall draw | RandomIndex(cfg, t, dst, draw) == Some(i)
      ensures i < n && t[dst].hops[i].pheromone >= cfg.minPheromone
    {
      RemainderIsSmaller(draw, n);
    }
    if i < n && t[dst].hops[i].pheromone >= cfg.minPheromone {
      RemainderOfSmaller(i, n);
      assert RandomIndex(cfg, t, dst, i) == Some(i);
    }
  }

  lemma RemainderIsSmaller(draw: nat, n: nat)
    requires n > 0
    ensures draw % n < n
  {
  }

  lemma RemainderOfSmaller(i: nat, n: nat)
    requires i < n
    ensures i % n == i
  {
  }

  /** Some draw finds a hop exactly if there is a valid one and the number of hops is not a multiple of 256. */
  lemma RandomFindsIff(cfg: Config, t: Table, dst: Address)
    requires TableOk(cfg, t)
    ensures (exists draw :: RandomIndex(cfg, t, dst, draw).Some?) <==>
      |HopsOf(t, dst)| % 0x100 != 0 && exists h :: h in HopsOf(t, dst) && h.pheromone >= cfg.minPheromone
  {
    if dst in t {
      var hops := t[dst].hops;
      forall draw | RandomIndex(cfg, t, dst, draw).Some?
        ensures |hops| % 0x100 != 0 && exists h :: h in hops && h.pheromone >= cfg.minPheromone
      {
        assert hops[RandomIndex(cfg, t, dst, draw).value] in hops;
      }
      if |hops| % 0x100 != 0 && exists h :: h in hops && h.pheromone >= cfg.minPheromone {
        FirstIsValid(cfg, hops);
        RandomReachesIff(cfg, t, dst, 0);
        var draw :| RandomIndex(cfg, t, dst, draw) == Some(0);
        assert RandomIndex(cfg, t, dst, draw).Some?;
      }
    }
  }

  lemma FirstIsValid(cfg: Config, hops: seq<Hop>)
    requires Descending(hops) && exists h :: h in hops && h.pheromone >= cfg.minPheromone
    ensures |hops| > 0 && hops[0].pheromone >= cfg.minPheromone
  {
  }

  /** Every valid hop of the destination can be drawn. */
  ghost predicate AllDrawable(cfg: Config, t: Table, dst: Address)
    requires dst in t
  {
    forall i | 0 <= i < |t[dst].hops| && t[dst].hops[i].pheromone >= cfg.minPheromone ::
      exists draw :: RandomIndex(cfg, t, dst, draw) == Some(i)
  }

  /** The valid hops come first, so none is out of reach exactly if there are no more of them than the counter says. */
  lemma AllDrawableIff(cfg: Config, t: Table, dst: Address)
    requires TableOk(cfg, t) && dst in t
    ensures var hops := t[dst].hops;
      AllDrawable(cfg, t, dst) <==>
      forall i | |hops| % 0x100 <= i < |hops| :: hops[i].pheromone < cfg.minPheromone
    ensures |t[dst].hops| <= 0xFF ==> AllDrawable(cfg, t, dst)
  {
    hide RandomIndex, TableOk;
    var hops := t[dst].hops;
    forall i | 0 <= i < |hops|
      ensures (exists draw :: RandomIndex(cfg, t, dst, draw) == Some(i)) <==>
        i < |hops| % 0x100 && hops[i].pheromone >= cfg.minPheromone
    {
      RandomReachesIff(cfg, t, dst, i);
    }
  }

  // ----- One BANT per lifetime of an entry -----

  predicate IsLookupOf(op: Op, dst: Address) {
    (op.DoBest? || op.DoWeighted? || op.DoRandom?) && op.dst == dst
  }

  /** The step is a lookup of dst that finds a hop. */
  predicate Succeeds(cfg: Config, t: Table, op: Op, dst: Address) {
    IsLookupOf(op, dst) && Choice(cfg, t, op).Some?
  }

  /** dst has an entry before and after every step. */
  predicate Persists(cfg: Config, t: Table, ops: seq<Op>, dst: Address)
    decreases |ops|
  {
    dst in t && (ops == [] || Persists(cfg, Step(cfg, t, ops[0]), ops[1..], dst))
  }

  function Successes(cfg: Config, t: Table, ops: seq<Op>, dst: Address): nat
    decreases |ops|
  {
    if ops == [] then 0
    else (if Succeeds(cfg, t, ops[0], dst) then 1 else 0) + Successes(cfg, Step(cfg, t, ops[0]), ops[1..], dst)
  }

  /** Lookups of dst that answer 1: send a BANT first. */
  function Bants(cfg: Config, t: Table, ops: seq<Op>, dst: Address): nat
    decreases |ops|
  {
    if ops == [] then 0
    else
      var asks := Succeeds(cfg, t, ops[0], dst) && Answer(t, dst, Choice(cfg, t, ops[0])).1.bant;
      (if asks then 1 else 0) + Bants(cfg, Step(cfg, t, ops[0]), ops[1..], dst)
  }

  lemma FlagStep(cfg: Config, t: Table, op: Op, dst: Address)
    requires cfg.Valid() && TableOk(cfg, t) && dst in t && dst in Step(cfg, t, op)
    ensures Step(cfg, t, op)[dst].sendBant == (t[dst].sendBant && !Succeeds(cfg, t, op, dst))
  {
    hide TableOk, UpdateEntry, KeptHops, Find, BestIndex, WeightedIndex, RandomIndex;
    match op
    case DoUpdate(d, nexthop, iface, delta, ttl) => FlagUpdate(cfg, t, d, nexthop, iface, delta, ttl, dst);
    case _ =>
  }

  lemma FlagUpdate(cfg: Config, t: Table, d: Address, nexthop: Address, iface: Iface, delta: real, ttl: uint8,
                   dst: Address)
    requires cfg.Valid() && TableOk(cfg, t) && dst in t
    ensures var t' := Update(cfg, t, d, nexthop, iface, delta, ttl).0;
      dst in t' && t'[dst].sendBant == t[dst].sendBant
  {
    hide UpdateEntry, ListOk;
    UpdateOk(cfg, t, d, nexthop, iface, delta, ttl);
  }

  /**
   While an entry lives, of all its best, weighted and random lookups only the first successful one asks for a BANT,
   and only if the entry still carries the mark it was created with.
   */
  lemma {:induction false} OneBantPerLifetime(cfg: Config, t: Table, ops: seq<Op>, dst: Address)
    requires cfg.Valid() && TableOk(cfg, t) && Persists(cfg, t, ops, dst)
    ensures dst in Run(cfg, t, ops)
    ensures Run(cfg, t, ops)[dst].sendBant <==> t[dst].sendBant && Successes(cfg, t, ops, dst) == 0
    ensures Bants(cfg, t, ops, dst) == if t[dst].sendBant && Successes(cfg, t, ops, dst) > 0 then 1 else 0
    decreases |ops|
  {
    if ops != [] {
      FlagStep(cfg, t, ops[0], dst);
      StepOk(cfg, t, ops[0]);
      OneBantPerLifetime(cfg, Step(cfg, t, ops[0]), ops[1..], dst);
    }
  }
}

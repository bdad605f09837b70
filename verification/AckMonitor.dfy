/** Packets waiting for an acknowledgement, and what a missing one costs the route it was sent over. */
module AckMonitor {
  import opened Addresses
  import opened RouteTable
  import opened RouteRuns
  import opened Forgetting
  import opened Reinforcement

  type uint32 = n: nat | n < 0x1_0000_0000

  function Wrap32(n: nat): uint32 {
    n % 0x1_0000_0000
  }

  lemma WrapNext(n: nat)
    ensures Wrap32(Wrap32(n) + 1) == Wrap32(n + 1)
  {
  }

  datatype AckMode = Link | Passive | Network | Disabled

  /** The key is (src, number, nexthop); several entries may carry the same key. */
  datatype Wait = Wait(src: Address, number: nat, nexthop: Address, dst: Address, iface: Iface, deadline: int)

  predicate HasKey(w: Wait, src: Address, number: nat, nexthop: Address) {
    w.src == src && w.number == number && w.nexthop == nexthop
  }

  predicate Expired(w: Wait, now: int) {
    now >= w.deadline
  }

  function StillWaiting(ws: seq<Wait>, now: int): seq<Wait> {
    if ws == [] then [] else
      var w := ws[|ws| - 1];
      StillWaiting(ws[..|ws| - 1], now) + (if Expired(w, now) then [] else [w])
  }

  /** A missing acknowledgement costs one credit; a hop without credit is deleted. */
  function Missed(t: Table, mode: AckMode, dst: Address, nexthop: Address, iface: Iface): Table {
    if mode == Link || mode == Disabled then t else
      var (t', res) := ModifyCredit(t, dst, nexthop, iface, -1.0);
      if res == CreditDepleted then Delete(t', dst, nexthop, iface).0 else t'
  }

  /** The table after a tick that finds the expired ones among ws. */
  function AfterMisses(t: Table, mode: AckMode, ws: seq<Wait>, now: int): Table {
    if ws == [] then t else
      var w := ws[|ws| - 1];
      var t' := AfterMisses(t, mode, ws[..|ws| - 1], now);
      if Expired(w, now) then Missed(t', mode, w.dst, w.nexthop, w.iface) else t'
  }

  /** What the acknowledgement of an entry does to the table; the distance is not known, so the ttl is 0. */
  function Reinforce(cfg: Config, t: Table, w: Wait, inc: real): Table {
    Update(cfg, t, w.dst, w.nexthop, w.iface, inc, 0).0
  }

  class Monitor {
    const mode: AckMode
    const waitTime: nat
    const rt: RoutingTable
    var wait: seq<Wait>
    var ackMissed: uint32
    // how many packets were ever registered, acknowledged, missed, flushed
    ghost var registered: nat
    ghost var acknowledged: nat
    ghost var missed: nat
    ghost var flushed: nat

    /** Every registered packet is waiting, acknowledged, missed or flushed; the counter shows the missed ones. */
    ghost predicate Valid()
      reads this
    {
      registered == |wait| + acknowledged + missed + flushed && ackMissed == Wrap32(missed)
    }

    constructor (m: AckMode, w: nat, table: RoutingTable)
      ensures Valid() && wait == [] && rt == table && mode == m && waitTime == w && registered == 0
    {
      mode, waitTime, rt, wait, ackMissed := m, w, table, [], 0;
      registered, acknowledged, missed, flushed := 0, 0, 0, 0;
    }

    method WaitFor(src: Address, number: nat, nexthop: Address, dst: Address, iface: Iface, now: int) returns (ret: int)
      requires Valid()
      modifies this
      ensures Valid()
      ensures mode == Disabled ==> ret == -1 && wait == old(wait) && registered == old(registered)
      ensures mode != Disabled ==> ret == 0 && registered == old(registered) + 1
      ensures mode != Disabled ==> wait == old(wait) + [Wait(src, number, nexthop, dst, iface, now + waitTime)]
      ensures acknowledged == old(acknowledged) && missed == old(missed) && flushed == old(flushed)
    {
      if mode == Disabled {
        return -1;
      }
      wait := wait + [Wait(src, number, nexthop, dst, iface, now + waitTime)];
      registered := registered + 1;
      ret := 0;
    }

    /** An overheard packet acknowledges one waiting entry with its key and reinforces the route. */
    method EvalPacket(src: Address, number: nat, nexthop: Address, inc: real) returns (ret: int, ghost k: nat)
      requires Valid()
      modifies this, rt
      ensures Valid() && registered == old(registered) && missed == old(missed) && flushed == old(flushed)
      ensures ret == 1 || ret == 0
      ensures ret == 0 <==> exists w :: w in old(wait) && w.src == src && w.number == number && w.nexthop == nexthop
      ensures ret == 1 ==> wait == old(wait) && rt.newrt == old(rt.newrt)
      ensures ret == 0 ==> k < |old(wait)| && old(wait)[k].src == src && old(wait)[k].number == number
      ensures ret == 0 ==> old(wait)[k].nexthop == nexthop
      ensures ret == 0 ==> wait == old(wait)[..k] + old(wait)[k + 1..] && acknowledged == old(acknowledged) + 1
      ensures ret == 0 ==> rt.newrt == Reinforce(rt.cfg, old(rt.newrt), old(wait)[k], inc)
    {
      k := 0;
      if exists i :: 0 <= i < |wait| && HasKey(wait[i], src, number, nexthop) {
        var i :| 0 <= i < |wait| && HasKey(wait[i], src, number, nexthop);
        var entry := wait[i];
        assert entry in wait;
        wait := wait[..i] + wait[i + 1..];
        var res := rt.UpdateRoute(entry.dst, nexthop, entry.iface, inc, 0);
        acknowledged := acknowledged + 1;
        ret, k := 0, i;
      } else {
        ret := 1;
      }
    }

    /** Exactly the expired entries are removed and counted as missed, each at the cost of a credit. */
    method Tick(now: int)
      requires Valid()
      modifies this, rt
      ensures Valid() && registered == old(registered) && acknowledged == old(acknowledged) && flushed == old(flushed)
      ensures wait == StillWaiting(old(wait), now) && missed == old(missed) + |old(wait)| - |wait|
      ensures rt.newrt == AfterMisses(old(rt.newrt), mode, old(wait), now)
    {
      hide Wrap32, Missed;
      var all, left := wait, [];
      for i := 0 to |all|
        invariant left == StillWaiting(all[..i], now) && |left| <= i
        invariant missed == old(missed) + i - |left| && ackMissed == Wrap32(missed)
        invariant registered == old(registered) && acknowledged == old(acknowledged) && flushed == old(flushed)
        invariant rt.newrt == AfterMisses(old(rt.newrt), mode, all[..i], now)
      {
        assert all[..i + 1][..i] == all[..i];
        if Expired(all[i], now) {
          Miss(all[i]);
          WrapNext(missed);
          ackMissed, missed := Wrap32(ackMissed + 1), missed + 1;
        } else {
          left := left + [all[i]];
        }
      }
      assert all[..|all|] == all;
      wait := left;
    }

    method Miss(w: Wait)
      modifies rt
      ensures rt.newrt == Missed(old(rt.newrt), mode, w.dst, w.nexthop, w.iface)
    {
      if mode == Network || mode == Passive {
        var res := rt.ModifyHopCredit(w.dst, w.nexthop, w.iface, -1.0);
        if res == CreditDepleted {
          res := rt.DeleteRoute(w.dst, w.nexthop, w.iface);
        }
      }
    }

    method Flush()
      requires Valid()
      modifies this
      ensures Valid() && wait == [] && flushed == old(flushed) + |old(wait)|
      ensures registered == old(registered) && acknowledged == old(acknowledged) && missed == old(missed)
    {
      flushed := flushed + |wait|;
      wait := [];
    }
  }

  /** Every entry is kept as often as it was registered if its time is not over, and not at all otherwise. */
  lemma {:induction false} StillWaitingExact(ws: seq<Wait>, now: int, w: Wait)
    ensures multiset(StillWaiting(ws, now))[w] == if now >= w.deadline then 0 else multiset(ws)[w]
  {
    if ws != [] {
      StillWaitingExact(ws[..|ws| - 1], now, w);
      assert ws == ws[..|ws| - 1] + [ws[|ws| - 1]];
    }
  }

  /** An acknowledgement is never pruned: it raises the pheromone and the credit of the hop it came back over. */
  lemma AckReinforces(cfg: Config, t: Table, w: Wait, inc: real) returns (h: Hop, h': Hop)
    requires cfg.Valid() && TableOk(cfg, t) && inc >= 0.0 && HasHop(t, w.dst, w.nexthop, w.iface)
    ensures var t' := Reinforce(cfg, t, w, inc);
      && OnlyHopsOf(t, t', w.dst) && h in t[w.dst].hops && Matches(h, w.nexthop, w.iface)
      && IsReinforced(cfg, h, h', inc, h.ttl) && h'.pheromone >= h.pheromone
      && multiset(t'[w.dst].hops) == multiset(t[w.dst].hops) - multiset{h} + multiset{h'}
  {
    hide TableOk, Update, Pruned;
    UpdateDiscards(cfg, t, w.dst, w.nexthop, w.iface, inc, 0);
    PrunedIff(cfg, if w.dst in t then t[w.dst].maxTtl else 0, inc, 0);
    h, h' := UpdateReinforces(cfg, t, w.dst, w.nexthop, w.iface, inc, 0);
    HopInRange(cfg, t, w.dst, h);
  }

  /** Without acknowledgements from the network or the next hop a tick costs no route anything. */
  lemma {:induction false} OtherModesCostNothing(t: Table, mode: AckMode, ws: seq<Wait>, now: int)
    requires mode != Passive && mode != Network
    ensures AfterMisses(t, mode, ws, now) == t
  {
    if ws != [] {
      OtherModesCostNothing(t, mode, ws[..|ws| - 1], now);
    }
  }

  lemma MissedOk(cfg: Config, t: Table, mode: AckMode, dst: Address, nexthop: Address, iface: Iface)
    requires TableOk(cfg, t)
    ensures TableOk(cfg, Missed(t, mode, dst, nexthop, iface))
  {
    hide TableOk;
    CreditOk(cfg, t, dst, nexthop, iface, -1.0);
    DeleteOk(cfg, ModifyCredit(t, dst, nexthop, iface, -1.0).0, dst, nexthop, iface);
  }

  /** A tick of the monitor keeps the routing table in order. */
  lemma {:induction false} AfterMissesOk(cfg: Config, t: Table, mode: AckMode, ws: seq<Wait>, now: int)
    requires TableOk(cfg, t)
    ensures TableOk(cfg, AfterMisses(t, mode, ws, now))
  {
    if ws != [] {
      var w := ws[|ws| - 1];
      AfterMissesOk(cfg, t, mode, ws[..|ws| - 1], now);
      MissedOk(cfg, AfterMisses(t, mode, ws[..|ws| - 1], now), mode, w.dst, w.nexthop, w.iface);
    }
  }

  // ----- How many acknowledgements may be missed -----

  function MissedTimes(t: Table, mode: AckMode, dst: Address, nexthop: Address, iface: Iface, n: nat): Table {
    if n == 0 then t else Missed(MissedTimes(t, mode, dst, nexthop, iface, n - 1), mode, dst, nexthop, iface)
  }

  /** A tick whose expired packets all went over one hop counts as many misses of it as entries left the ledger. */
  lemma {:induction false} TickIsMisses(t: Table, mode: AckMode, ws: seq<Wait>, now: int, dst: Address,
                                        nexthop: Address, iface: Iface)
    requires forall w | w in ws && Expired(w, now) :: w.dst == dst && w.nexthop == nexthop && w.iface == iface
    ensures |StillWaiting(ws, now)| <= |ws|
    ensures AfterMisses(t, mode, ws, now) ==
      MissedTimes(t, mode, dst, nexthop, iface, |ws| - |StillWaiting(ws, now)|)
  {
    hide Missed;
    if ws != [] {
      var n := |ws| - 1;
      assert forall w | w in ws[..n] :: w in ws;
      TickIsMisses(t, mode, ws[..n], now, dst, nexthop, iface);
      assert ws[n] in ws;
    }
  }

  /** The hop is in the table, with this credit, in a list of this length. */
  ghost predicate HasCredit(cfg: Config, t: Table, dst: Address, nexthop: Address, iface: Iface, credit: real,
                            length: nat) {
    && TableOk(cfg, t) && dst in t && |t[dst].hops| == length
    && var k := Find(t[dst].hops, nexthop, iface);
       k < |t[dst].hops| && t[dst].hops[k].credit == credit
  }

  lemma SameKeysSameFind(a: seq<Hop>, b: seq<Hop>, nexthop: Address, iface: Iface)
    requires |a| == |b| && (forall i | 0 <= i < |a| :: a[i].nexthop == b[i].nexthop && a[i].iface == b[i].iface)
    ensures Find(a, nexthop, iface) == Find(b, nexthop, iface)
  {
    var i, j := Find(a, nexthop, iface), Find(b, nexthop, iface);
    assert i < |a| ==> Matches(b[i], nexthop, iface);
    assert j < |b| ==> Matches(a[j], nexthop, iface);
  }

  /** Without credit the hop goes, unless the counter of a list of 256 hops, or a multiple, stops the deletion. */
  lemma MissStep(cfg: Config, t: Table, mode: AckMode, dst: Address, nexthop: Address, iface: Iface, credit: real,
                 length: nat)
    requires mode == Passive || mode == Network
    requires HasCredit(cfg, t, dst, nexthop, iface, credit, length)
    ensures var t' := Missed(t, mode, dst, nexthop, iface);
      if credit > 1.0 || length % 0x100 == 0 then HasCredit(cfg, t', dst, nexthop, iface, credit - 1.0, length)
      else !HasHop(t', dst, nexthop, iface)
  {
    hide ListOk, Delete;
    CreditLowered(cfg, t, dst, nexthop, iface, credit, length);
    if credit <= 1.0 {
      DeletedHopIsGone(cfg, ModifyCredit(t, dst, nexthop, iface, -1.0).0, dst, nexthop, iface);
    }
  }

  lemma CreditLowered(cfg: Config, t: Table, dst: Address, nexthop: Address, iface: Iface, credit: real, length: nat)
    requires HasCredit(cfg, t, dst, nexthop, iface, credit, length)
    ensures var (t', res) := ModifyCredit(t, dst, nexthop, iface, -1.0);
      HasCredit(cfg, t', dst, nexthop, iface, credit - 1.0, length) && (res == CreditDepleted <==> credit <= 1.0)
  {
    hide ListOk;
    var hops := t[dst].hops;
    var k := Find(hops, nexthop, iface);
    var hops' := hops[k := hops[k].(credit := credit - 1.0)];
    var t' := ModifyCredit(t, dst, nexthop, iface, -1.0).0;
    assert t'[dst] == t[dst].(hops := hops');
    SameKeysSameFind(hops, hops', nexthop, iface);
    CreditOk(cfg, t, dst, nexthop, iface, -1.0);
  }

  lemma DeletedHopIsGone(cfg: Config, t: Table, dst: Address, nexthop: Address, iface: Iface)
    requires TableOk(cfg, t) && dst in t && Find(t[dst].hops, nexthop, iface) < |t[dst].hops|
    ensures var t' := Delete(t, dst, nexthop, iface).0;
      if |t[dst].hops| % 0x100 == 0 then t' == t else !HasHop(t', dst, nexthop, iface)
  {
    hide Delete, TableOk;
    DeleteCases(cfg, t, dst, nexthop, iface);
    OthersLackNamed(t[dst].hops, nexthop, iface);
    var k := Find(t[dst].hops, nexthop, iface);
    assert t[dst].hops[k] in t[dst].hops;
  }

  lemma MissAddsNoHop(t: Table, mode: AckMode, dst: Address, nexthop: Address, iface: Iface)
    ensures HasHop(Missed(t, mode, dst, nexthop, iface), dst, nexthop, iface) ==> HasHop(t, dst, nexthop, iface)
  {
    var t' := Missed(t, mode, dst, nexthop, iface);
    if HasHop(t', dst, nexthop, iface) {
      var h :| h in t'[dst].hops && Matches(h, nexthop, iface);
      var hops := t[dst].hops;
      assert forall i | 0 <= i < |hops| :: hops[i] in hops;
    }
  }

  /**
   A hop survives n missed acknowledgements in a row exactly as long as its credit exceeds n, or if the number of hops
   in its list is a multiple of 256; it has n credits less then.
   */
  lemma {:induction false} CreditIsMissesAllowed(cfg: Config, t: Table, mode: AckMode, dst: Address, nexthop: Address,
                                                 iface: Iface, credit: real, length: nat, n: nat)
    requires mode == Passive || mode == Network
    requires HasCredit(cfg, t, dst, nexthop, iface, credit, length)
    ensures var t' := MissedTimes(t, mode, dst, nexthop, iface, n);
      if n == 0 || credit > n as real || length % 0x100 == 0
      then HasCredit(cfg, t', dst, nexthop, iface, credit - n as real, length)
      else !HasHop(t', dst, nexthop, iface)
  {
    hide HasCredit, HasHop, Missed;
    if n > 0 {
      CreditIsMissesAllowed(cfg, t, mode, dst, nexthop, iface, credit, length, n - 1);
      var before := MissedTimes(t, mode, dst, nexthop, iface, n - 1);
      if n == 1 || credit > (n - 1) as real || length % 0x100 == 0 {
        MissStep(cfg, before, mode, dst, nexthop, iface, credit - (n - 1) as real, length);
      } else {
        MissAddsNoHop(before, mode, dst, nexthop, iface);
      }
    }
  }
}

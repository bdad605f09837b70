/** Undeliverable packets wait per destination in a slot array that ends with an empty slot and grows in chunks. */
module PacketTrap {
  import opened Addresses

  type Payload(==, !new)

  const SLOT_CHUNK: nat := 32

  /** trapcount counts how often the packet has been trapped. */
  datatype Packet = Packet(payload: Payload, trapcount: nat)

  /** A slot whose message pointer is null ends the list. */
  datatype Slot = Null | Full(packet: Packet)

  /** Slots allocated for n packets and the terminator. */
  function Capacity(n: nat): nat {
    SLOT_CHUNK * (n / SLOT_CHUNK + 1)
  }

  /** Room for the terminator; one packet more needs another chunk only where this one ends. */
  lemma CapacityIs(n: nat)
    ensures Capacity(n) == 32 * (n / 32 + 1) > n
    ensures n % 32 != 31 ==> Capacity(n + 1) == Capacity(n)
  {
  }

  class Trap {
    var pkgs: array<Slot>
    ghost var contents: seq<Packet>

    ghost predicate Valid()
      reads this, pkgs
    {
      && pkgs.Length == Capacity(|contents|)
      && (forall i | 0 <= i < |contents| :: pkgs[i] == Full(contents[i]))
      && pkgs[|contents|] == Null
    }

    constructor ()
      ensures Valid() && contents == [] && fresh(pkgs)
    {
      pkgs := new Slot[SLOT_CHUNK];
      contents := [];
      new;
      pkgs[0] := Null;
    }

    method FreeSlot() returns (i: nat)
      requires Valid()
      ensures i == |contents|
    {
      i := 0;
      while pkgs[i] != Null
        invariant i <= |contents|
        decreases |contents| - i
      {
        i := i + 1;
      }
    }

    /** realloc: a larger array with the same first slots. */
    method Grow(i: nat)
      requires Valid() && i == |contents| && i % SLOT_CHUNK == SLOT_CHUNK - 1
      modifies this`pkgs
      ensures fresh(pkgs) && pkgs.Length == Capacity(i + 1)
      ensures forall k | 0 <= k < i :: pkgs[k] == Full(contents[k])
    {
      var bigger, slots := new Slot[i + SLOT_CHUNK + 1], pkgs;
      for k := 0 to i
        invariant pkgs == slots
        invariant forall j | 0 <= j < k :: bigger[j] == Full(contents[j])
      {
        bigger[k] := pkgs[k];
      }
      pkgs := bigger;
    }

    method Append(p: Packet) returns (count: nat)
      requires Valid()
      modifies this, pkgs
      ensures Valid() && contents == old(contents) + [p] && count == |contents|
      ensures pkgs.Length == 32 * (count / 32 + 1)
      ensures pkgs == old(pkgs) || fresh(pkgs)
    {
      hide Capacity;
      var i := FreeSlot();
      CapacityIs(i);
      CapacityIs(i + 1);
      if i % SLOT_CHUNK == SLOT_CHUNK - 1 {
        Grow(i);
      }
      assert pkgs.Length == Capacity(i + 1);
      pkgs[i] := Full(p);
      pkgs[i + 1] := Null;
      contents := contents + [p];
      count := i + 1;
    }
  }

  // ----- What the trap holds, as a value -----

  type Contents = map<Address, seq<Packet>>

  function WaitingFor(c: Contents, dst: Address): seq<Packet> {
    if dst in c then c[dst] else []
  }

  function Again(p: Packet): Packet {
    p.(trapcount := p.trapcount + 1)
  }

  /** trap_packet: the packet goes to the end of its destination's list, unless it was trapped too often. */
  function Trapped(c: Contents, dst: Address, p: Packet, retryMax: nat): Contents {
    if p.trapcount + 1 > retryMax then c else c[dst := WaitingFor(c, dst) + [Again(p)]]
  }

  /** What is trapped anew while the packets are released in order; delivered tells which of them found a route. */
  function Retrapped(ps: seq<Packet>, delivered: seq<bool>, retryMax: nat): seq<Packet>
    requires |ps| == |delivered|
  {
    if ps == [] then [] else
      var n := |ps| - 1;
      Retrapped(ps[..n], delivered[..n], retryMax) +
      (if delivered[n] || ps[n].trapcount + 1 > retryMax then [] else [Again(ps[n])])
  }

  function Released(c: Contents, dst: Address, again: seq<Packet>): Contents {
    if again == [] then c - {dst} else (c - {dst})[dst := again]
  }

  /** No list is empty, and every waiting packet has been trapped at least once and at most retryMax times. */
  ghost predicate InBounds(c: Contents, retryMax: nat) {
    && (forall a | a in c :: c[a] != [])
    && (forall a, p | a in c && p in c[a] :: 1 <= p.trapcount <= retryMax)
  }

  lemma TrappedInBounds(c: Contents, dst: Address, p: Packet, retryMax: nat)
    requires InBounds(c, retryMax)
    ensures InBounds(Trapped(c, dst, p, retryMax), retryMax)
  {
  }

  lemma RemovedInBounds(c: Contents, dst: Address, retryMax: nat)
    requires InBounds(c, retryMax)
    ensures InBounds(c - {dst}, retryMax)
  {
  }

  class PacketTrap {
    const retryMax: nat
    var traps: map<Address, Trap>
    ghost var model: Contents
    ghost var Repr: set<object>

    /** The objects are in good order and hold what model says. */
    ghost predicate Holds()
      reads this, Repr
    {
      && this in Repr && model.Keys == traps.Keys
      && (forall a | a in traps ::
            && traps[a] in Repr && traps[a].pkgs in Repr
            && traps[a].Valid() && traps[a].contents == model[a])
      && (forall a, b | a in traps && b in traps && a != b :: traps[a] != traps[b] && traps[a].pkgs != traps[b].pkgs)
    }

    ghost predicate Valid()
      reads this, Repr
      ensures Valid() ==> this in Repr
    {
      Holds() && InBounds(model, retryMax)
    }

    constructor (retryMax0: nat)
      ensures Valid() && fresh(Repr) && model == map[] && retryMax == retryMax0
    {
      retryMax, traps, model, Repr := retryMax0, map[], map[], {this};
    }

    /** Returns the number of packets waiting for dst, or -1 if the packet was discarded. */
    method TrapPacket(dst: Address, p: Packet) returns (wp: int)
      requires Valid()
      modifies Repr
      ensures Valid() && fresh(Repr - old(Repr))
      ensures model == Trapped(old(model), dst, p, retryMax)
      ensures wp == if p.trapcount + 1 > retryMax then -1 else |model[dst]|
    {
      hide Holds, InBounds;
      var p' := Again(p);
      if p'.trapcount > retryMax {
        return -1;
      }
      HoldsModel();
      TrappedInBounds(model, dst, p, retryMax);
      MakeTrap(dst);
      wp := AppendTo(dst, p');
      assert model == Trapped(old(model), dst, p, retryMax);
    }

    lemma HoldsModel()
      requires Holds()
      ensures model.Keys == traps.Keys
    {
    }

    method AppendTo(dst: Address, p: Packet) returns (wp: nat)
      requires Holds() && dst in traps
      modifies Repr
      ensures Holds() && fresh(Repr - old(Repr))
      ensures model == old(model)[dst := old(model)[dst] + [p]] && wp == |model[dst]|
    {
      hide Capacity;
      wp := traps[dst].Append(p);
      model := model[dst := model[dst] + [p]];
      Repr := Repr + {traps[dst].pkgs};
      OthersHold(dst);
    }

    /** What holds of the traps that were not touched still holds. */
    twostate lemma OthersHold(dst: Address)
      requires old(Holds()) && dst in traps && traps == old(traps) && old(Repr) <= Repr
      requires dst in model && model == old(model)[dst := model[dst]]
      requires forall o: object | o in old(Repr) && o != this && o != traps[dst] && o != old(traps[dst].pkgs) ::
                 unchanged(o)
      requires traps[dst].Valid() && traps[dst].contents == model[dst]
      requires traps[dst].pkgs in Repr && (traps[dst].pkgs == old(traps[dst].pkgs) || fresh(traps[dst].pkgs))
      ensures Holds()
    {
      hide Trap.Valid;
      forall a | a in traps && a != dst ensures unchanged(traps[a]) && unchanged(traps[a].pkgs) {
      }
    }

    /** Makes an empty trap for dst unless there is one. */
    method MakeTrap(dst: Address)
      requires Holds()
      modifies this
      ensures Holds() && fresh(Repr - old(Repr)) && dst in traps
      ensures model == old(model)[dst := WaitingFor(old(model), dst)]
    {
      if dst !in traps {
        hide Capacity;
        var t := new Trap();
        traps, model, Repr := traps[dst := t], model[dst := []], Repr + {t, t.pkgs};
        AllHold(dst);
      }
      assert model == old(model)[dst := WaitingFor(old(model), dst)];
    }

    /** A fresh trap beside those that held before. */
    twostate lemma AllHold(dst: Address)
      requires old(Holds()) && dst !in old(traps) && dst in traps && old(Repr) <= Repr
      requires traps == old(traps)[dst := traps[dst]] && model == old(model)[dst := traps[dst].contents]
      requires forall o: object | o in old(Repr) && o != this :: unchanged(o)
      requires fresh(traps[dst]) && fresh(traps[dst].pkgs) && {traps[dst], traps[dst].pkgs} <= Repr
      requires traps[dst].Valid()
      ensures Holds()
    {
      hide Trap.Valid;
      forall a | a in old(traps) ensures unchanged(traps[a]) && unchanged(traps[a].pkgs) {
      }
    }

    /** Takes the trap of dst out of the table, if there is one. */
    method Detach(dst: Address) returns (t: Trap?)
      requires Valid()
      modifies this
      ensures Valid() && model == old(model) - {dst} && fresh(Repr - old(Repr))
      ensures if dst in old(model) then t != null && t.Valid() && t.contents == old(model)[dst] else t == null
      ensures t != null ==> t !in Repr && t.pkgs !in Repr
    {
      hide InBounds, Capacity;
      t := null;
      RemovedInBounds(model, dst, retryMax);
      if dst !in traps {
        assert model - {dst} == model;
        return;
      }
      t := traps[dst];
      traps, model, Repr := traps - {dst}, model - {dst}, Repr - {t, t.pkgs};
    }

    /**
     Takes the list of dst out of the table and calls back once for every packet on it, in the order of arrival.
     The callback forwards the packet, or finds no route and traps it anew; which, is left open.
     */
    method UntrapPackets(dst: Address) returns (i: nat, ghost visited: seq<Packet>, ghost delivered: seq<bool>)
      requires Valid()
      modifies Repr
      ensures Valid() && fresh(Repr - old(Repr))
      ensures visited == WaitingFor(old(model), dst) && i == |visited| == |delivered|
      ensures model == Released(old(model), dst, Retrapped(visited, delivered, retryMax))
    {
      hide Holds, InBounds, Retrapped, Released, Trapped, WaitingFor;
      i, visited, delivered := 0, [], [];
      NothingRetrapped(model, dst, retryMax);
      var mytrap := Detach(dst);
      if mytrap != null {
        ghost var all := mytrap.contents;
        while mytrap.pkgs[i] != Null
          invariant Valid() && fresh(Repr - old(Repr))
          invariant mytrap !in Repr && mytrap.pkgs !in Repr
          invariant mytrap.Valid() && mytrap.contents == all && i <= |all|
          invariant visited == all[..i] && |delivered| == i
          invariant model == Released(old(model), dst, Retrapped(visited, delivered, retryMax))
          decreases |all| - i
        {
          var packet := mytrap.pkgs[i].packet;
          var found: bool := *;
          RetrappedMore(old(model), dst, visited, delivered, packet, found, retryMax);
          if !found {
            var wp := TrapPacket(dst, packet);
          }
          visited, delivered := visited + [packet], delivered + [found];
          i := i + 1;
        }
      }
    }
  }

  lemma NothingRetrapped(c: Contents, dst: Address, retryMax: nat)
    ensures Released(c, dst, Retrapped([], [], retryMax)) == c - {dst}
    ensures WaitingFor(c, dst) == if dst in c then c[dst] else []
  {
  }

  lemma RetrappedMore(c: Contents, dst: Address, ps: seq<Packet>, delivered: seq<bool>, p: Packet, found: bool,
                      retryMax: nat)
    requires |ps| == |delivered|
    ensures var before := Released(c, dst, Retrapped(ps, delivered, retryMax));
      Released(c, dst, Retrapped(ps + [p], delivered + [found], retryMax)) ==
        if found then before else Trapped(before, dst, p, retryMax)
  {
    assert (ps + [p])[..|ps|] == ps && (delivered + [found])[..|ps|] == delivered;
    assert (ps + [p])[|ps|] == p && (delivered + [found])[|ps|] == found;
    var again := Retrapped(ps, delivered, retryMax);
    if found || p.trapcount + 1 > retryMax {
      assert Retrapped(ps + [p], delivered + [found], retryMax) == again;
    } else {
      assert Retrapped(ps + [p], delivered + [found], retryMax) == again + [Again(p)];
      assert WaitingFor(Released(c, dst, again), dst) == again;
    }
  }

  // ----- No packet waits forever -----

  /** The callback's luck with the first n packets of a release. */
  function Luck(found: nat -> bool, n: nat): (luck: seq<bool>)
    ensures |luck| == n
  {
    seq(n, i requires 0 <= i < n => found(i))
  }

  datatype Event = Arrives(dst: Address, p: Packet) | Release(dst: Address, found: nat -> bool)

  function Step(c: Contents, e: Event, retryMax: nat): Contents {
    match e
    case Arrives(dst, p) => Trapped(c, dst, p, retryMax)
    case Release(dst, found) =>
      var ps := WaitingFor(c, dst);
      Released(c, dst, Retrapped(ps, Luck(found, |ps|), retryMax))
  }

  function Run(c: Contents, es: seq<Event>, retryMax: nat): Contents {
    if es == [] then c else Step(Run(c, es[..|es| - 1], retryMax), es[|es| - 1], retryMax)
  }

  function Releases(es: seq<Event>, dst: Address): nat {
    if es == [] then 0 else
      var e := es[|es| - 1];
      Releases(es[..|es| - 1], dst) + (if e.Release? && e.dst == dst then 1 else 0)
  }

  lemma {:induction false} RetrappedCounts(ps: seq<Packet>, delivered: seq<bool>, retryMax: nat)
    requires |ps| == |delivered|
    ensures forall q | q in Retrapped(ps, delivered, retryMax) ::
              q.trapcount <= retryMax && exists p :: p in ps && q == Again(p)
    ensures |Retrapped(ps, delivered, retryMax)| <= |ps|
  {
    if ps != [] {
      var n := |ps| - 1;
      RetrappedCounts(ps[..n], delivered[..n], retryMax);
      assert ps[n] in ps && forall p | p in ps[..n] :: p in ps;
    }
  }

  lemma StepInBounds(c: Contents, e: Event, retryMax: nat)
    requires InBounds(c, retryMax)
    ensures InBounds(Step(c, e, retryMax), retryMax)
  {
    match e
    case Arrives(dst, p) => TrappedInBounds(c, dst, p, retryMax);
    case Release(dst, found) =>
      hide Retrapped;
      var ps := WaitingFor(c, dst);
      RetrappedCounts(ps, Luck(found, |ps|), retryMax);
      RemovedInBounds(c, dst, retryMax);
  }

  /** A packet is taken in exactly if it has been trapped fewer than retryMax times; it waits behind the others then. */
  lemma TrappedIff(c: Contents, dst: Address, p: Packet, retryMax: nat)
    ensures var c' := Trapped(c, dst, p, retryMax);
      && c' - {dst} == c - {dst}
      && WaitingFor(c', dst) ==
           WaitingFor(c, dst) + (if p.trapcount < retryMax then [Packet(p.payload, p.trapcount + 1)] else [])
  {
  }

  function NoRoute(n: nat): bool {
    false
  }

  function Unlucky(dst: Address, n: nat): seq<Event> {
    if n == 0 then [] else Unlucky(dst, n - 1) + [Release(dst, NoRoute)]
  }

  lemma UnluckyStep(c: Contents, dst: Address, n: nat, retryMax: nat)
    requires n > 0
    ensures Run(c, Unlucky(dst, n), retryMax) ==
      Step(Run(c, Unlucky(dst, n - 1), retryMax), Release(dst, NoRoute), retryMax)
  {
    hide Step;
    var es := Unlucky(dst, n);
    assert es[..|es| - 1] == Unlucky(dst, n - 1) && es[|es| - 1] == Release(dst, NoRoute);
  }

  lemma ReleasedWaits(c: Contents, dst: Address, retryMax: nat)
    ensures var ps := WaitingFor(c, dst);
      WaitingFor(Step(c, Release(dst, NoRoute), retryMax), dst) == Retrapped(ps, Luck(NoRoute, |ps|), retryMax)
  {
    hide Retrapped;
  }

  /** What a packet that never finds a route leaves waiting after n releases. */
  function Undelivered(p: Packet, retryMax: nat, n: nat): seq<Packet> {
    if n < retryMax then [Packet(p.payload, n + 1)] else []
  }

  lemma TrappedFirst(dst: Address, p: Packet, retryMax: nat)
    requires p.trapcount == 0
    ensures WaitingFor(Run(Trapped(map[], dst, p, retryMax), Unlucky(dst, 0), retryMax), dst) ==
      Undelivered(p, retryMax, 0)
  {
    hide Trapped, Step;
    TrappedIff(map[], dst, p, retryMax);
  }

  lemma TrappedAgain(p: Packet, retryMax: nat, n: nat)
    requires n > 0
    ensures var ps := Undelivered(p, retryMax, n - 1);
      Retrapped(ps, Luck(NoRoute, |ps|), retryMax) == Undelivered(p, retryMax, n)
  {
    hide Retrapped;
    UnluckyRelease(Undelivered(p, retryMax, n - 1), NoRoute, retryMax);
  }

  /** A new packet that never finds a route waits through exactly retryMax - 1 releases. */
  lemma {:induction false} UndeliveredStays(dst: Address, p: Packet, retryMax: nat, n: nat)
    requires p.trapcount == 0
    ensures WaitingFor(Run(Trapped(map[], dst, p, retryMax), Unlucky(dst, n), retryMax), dst) ==
      Undelivered(p, retryMax, n)
  {
    hide *;
    if n == 0 {
      TrappedFirst(dst, p, retryMax);
    } else {
      UndeliveredStays(dst, p, retryMax, n - 1);
      UnluckyStep(Trapped(map[], dst, p, retryMax), dst, n, retryMax);
      ReleasedWaits(Run(Trapped(map[], dst, p, retryMax), Unlucky(dst, n - 1), retryMax), dst, retryMax);
      TrappedAgain(p, retryMax, n);
    }
  }

  lemma UnluckyRelease(ps: seq<Packet>, found: nat -> bool, retryMax: nat)
    requires |ps| <= 1 && !found(0)
    ensures Retrapped(ps, Luck(found, |ps|), retryMax) ==
      if ps != [] && ps[0].trapcount < retryMax then [Packet(ps[0].payload, ps[0].trapcount + 1)] else []
  {
    if ps != [] {
      assert Retrapped(ps[..0], Luck(found, 1)[..0], retryMax) == [];
    }
  }

  /** No packet is ever stored more than retryMax times, and no list is left empty. */
  lemma {:induction false} RunInBounds(c: Contents, es: seq<Event>, retryMax: nat)
    requires InBounds(c, retryMax)
    ensures InBounds(Run(c, es, retryMax), retryMax)
  {
    hide Step, InBounds;
    if es != [] {
      RunInBounds(c, es[..|es| - 1], retryMax);
      StepInBounds(Run(c, es[..|es| - 1], retryMax), es[|es| - 1], retryMax);
    }
  }

  /** Packets with this payload that wait for dst have been trapped more than n times. */
  ghost predicate TrappedOver(c: Contents, dst: Address, payload: Payload, n: nat) {
    forall q | q in WaitingFor(c, dst) && q.payload == payload :: n < q.trapcount
  }

  /** The payload does not arrive anew for dst; anything else may. */
  ghost predicate NoNewArrival(es: seq<Event>, dst: Address, payload: Payload) {
    forall e | e in es && e.Arrives? && e.dst == dst :: e.p.payload != payload
  }

  lemma StepCounts(c: Contents, e: Event, dst: Address, payload: Payload, retryMax: nat, n: nat)
    requires TrappedOver(c, dst, payload, n) && (e.Arrives? && e.dst == dst ==> e.p.payload != payload)
    ensures TrappedOver(Step(c, e, retryMax), dst, payload, if e.Release? && e.dst == dst then n + 1 else n)
  {
    if e.Release? && e.dst == dst {
      hide Retrapped;
      var ps := WaitingFor(c, dst);
      RetrappedCounts(ps, Luck(e.found, |ps|), retryMax);
    }
  }

  lemma {:induction false} RunCounts(c: Contents, es: seq<Event>, dst: Address, payload: Payload, retryMax: nat)
    requires InBounds(c, retryMax) && NoNewArrival(es, dst, payload)
    ensures TrappedOver(Run(c, es, retryMax), dst, payload, Releases(es, dst))
  {
    hide Step, TrappedOver;
    if es == [] {
      StartCounts(c, dst, payload, retryMax);
    } else {
      var n := |es| - 1;
      assert forall e | e in es[..n] :: e in es;
      RunCounts(c, es[..n], dst, payload, retryMax);
      assert es[n] in es;
      StepCounts(Run(c, es[..n], retryMax), es[n], dst, payload, retryMax, Releases(es[..n], dst));
    }
  }

  lemma StartCounts(c: Contents, dst: Address, payload: Payload, retryMax: nat)
    requires InBounds(c, retryMax)
    ensures TrappedOver(c, dst, payload, 0)
  {
  }

  /**
   Whatever else arrives, for this destination or another, and whatever the callbacks find: a payload that is not
   trapped as a new packet again has left after retryMax releases of its destination.
   */
  lemma NothingWaitsForever(c: Contents, es: seq<Event>, dst: Address, payload: Payload, retryMax: nat)
    requires InBounds(c, retryMax) && NoNewArrival(es, dst, payload) && Releases(es, dst) >= retryMax
    ensures forall q | q in WaitingFor(Run(c, es, retryMax), dst) :: q.payload != payload
  {
    RunInBounds(c, es, retryMax);
    RunCounts(c, es, dst, payload, retryMax);
  }
}

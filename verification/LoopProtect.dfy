/**
 Duplicate detection: per source a 16-bit highest sequence number, a 64-bit window of packets seen below it,
 and a time to live.
 */
module LoopProtect {
  import opened Addresses
  import opened Words

  type uint16 = n: nat | n < 0x1_0000

  const WINDOW: nat := 64

  datatype Entry = Entry(last: uint16, seen: nat, ttl: uint16)

  datatype Answer = Ok | Late | Looping

  type Table = map<Address, Entry>

  /** ara_seq_overflow: x lies more than half the number space above y. */
  predicate SeqOverflow(x: uint16, y: uint16) {
    x > y && x - y > 0xFFFF / 2
  }

  function Wrap(n: int): uint16 {
    n % 0x1_0000
  }

  function NewEntry(sn: uint16, ttl: uint16): Entry {
    Entry(Wrap(sn - 1), 0, ttl)
  }

  /** The decision on one packet, for an entry that exists. */
  function Decide(e: Entry, sn: uint16): (Entry, Answer) {
    var ds := Wrap(e.last - sn);
    if e.last < sn || SeqOverflow(e.last, sn) then
      (e.(last := sn, seen := SetBit(ShiftLeft(e.seen, Wrap(sn - e.last), WINDOW), 0)), Ok)
    else if ds < WINDOW && !Bit(e.seen, ds) then
      (e.(seen := SetBit(e.seen, ds)), Late)
    else
      (e, Looping)
  }

  function Check(t: Table, src: Address, sn: uint16, ttl: uint16): (Table, Answer) {
    var e := if src in t then t[src] else NewEntry(sn, ttl);
    var (e', answer) := Decide(e.(ttl := ttl), sn);
    (t[src := e'], answer)
  }

  function Aged(t: Table): Table {
    map a | a in t && Wrap(t[a].ttl - 1) > 0 :: t[a].(ttl := Wrap(t[a].ttl - 1))
  }

  class LoopProtection {
    var lptt: Table
    const ttl: uint16

    constructor (loopprotectTtl: uint16)
      ensures lptt == map[] && ttl == loopprotectTtl
    {
      lptt, ttl := map[], loopprotectTtl;
    }

    method CheckDuplicate(src: Address, sn: uint16) returns (answer: Answer)
      modifies this`lptt
      ensures (lptt, answer) == Check(old(lptt), src, sn, ttl)
    {
      if src !in lptt {
        lptt := lptt[src := NewEntry(sn, ttl)];
      }
      var lp := lptt[src].(ttl := ttl);
      var ds := Wrap(lp.last - sn);
      if lp.last < sn || SeqOverflow(lp.last, sn) {
        var nseen := ShiftLeft(lp.seen, Wrap(sn - lp.last), WINDOW);
        lp := lp.(last := sn, seen := SetBit(nseen, 0));
        answer := Ok;
      } else if ds < WINDOW && !Bit(lp.seen, ds) {
        lp := lp.(seen := SetBit(lp.seen, ds));
        answer := Late;
      } else {
        answer := Looping;
      }
      lptt := lptt[src := lp];
      assert lptt == old(lptt)[src := lp];
    }

    method Tick()
      modifies this`lptt
      ensures lptt == Aged(old(lptt))
    {
      var before, todo := lptt, lptt.Keys;
      while todo != {}
        invariant todo <= before.Keys && lptt.Keys <= before.Keys
        invariant forall a | a in todo :: a in lptt && lptt[a] == before[a]
        invariant forall a | a in before && a !in todo ::
            if Wrap(before[a].ttl - 1) > 0 then a in lptt && lptt[a] == before[a].(ttl := Wrap(before[a].ttl - 1))
            else a !in lptt
      {
        var a :| a in todo;
        var left := Wrap(lptt[a].ttl - 1);
        if left <= 0 {
          lptt := lptt - {a};
        } else {
          lptt := lptt[a := lptt[a].(ttl := left)];
        }
        todo := todo - {a};
      }
    }

    method Flush()
      modifies this`lptt
      ensures lptt == map[]
    {
      lptt := map[];
    }
  }

  // ----- One entry against the plain set of accepted packets -----

  /** hi is the highest accepted packet number, accepted all of them; numbers are not wrapped here. */
  ghost predicate Refines(e: Entry, hi: int, accepted: set<int>) {
    && e.last == Wrap(hi) && e.seen < Pow2(WINDOW)
    && (forall k: nat | k < WINDOW :: Bit(e.seen, k) <==> hi - k in accepted)
    && (forall n | n in accepted :: n <= hi)
  }

  predicate SameEpoch(a: int, b: int) {
    a / 0x1_0000 == b / 0x1_0000
  }

  /**
   Packet n can be told apart from what came before: ahead of hi by less than the number space, and by at most
   half of it if the numbers wrap in between; or behind hi by less than half of it with no wrap in between.
   */
  predicate Fits(hi: int, n: int) {
    || (hi < n < hi + 0x1_0000 && (SameEpoch(hi, n) || n - hi <= 0x8000))
    || (n <= hi < n + 0x8000 && SameEpoch(hi, n))
  }

  lemma WrapOfDifference(hi: int, n: int)
    ensures Wrap(Wrap(hi) - Wrap(n)) == Wrap(hi - n)
    ensures SameEpoch(hi, n) ==> Wrap(hi) - Wrap(n) == hi - n
    ensures 0 < n - hi < 0x1_0000 && !SameEpoch(hi, n) ==> Wrap(hi) - Wrap(n) == hi - n + 0x1_0000
    ensures 0 < hi - n < 0x1_0000 && !SameEpoch(hi, n) ==> Wrap(hi) - Wrap(n) == hi - n - 0x1_0000
  {
  }

  /** Which packets are taken for new: exact for every hi and every n less than the number space away from it. */
  lemma NewExactlyWhenFits(hi: int, n: int)
    requires -0x1_0000 < n - hi < 0x1_0000
    ensures ((Wrap(hi) < Wrap(n) || SeqOverflow(Wrap(hi), Wrap(n))) <==> n > hi) <==> Fits(hi, n)
  {
  }

  /** A late packet from before the wrap is taken for a new one. */
  lemma LateAcrossWrapIsTakenForNew()
    ensures Refines(Entry(0, 1, 30), 0x1_0000, {0x1_0000})
    ensures Decide(Entry(0, 1, 30), Wrap(0xFFFF)).1 == Ok && 0xFFFF < 0x1_0000
    ensures !Fits(0x1_0000, 0xFFFF)
  {
    assert Pow2(WINDOW) > 1;
    forall k: nat | k < WINDOW ensures Bit(1, k) <==> 0x1_0000 - k == 0x1_0000 {
      if k > 0 {
        NoBits(k - 1);
      }
    }
  }

  /** The answer the plain set of accepted packets calls for. */
  function Ideal(hi: int, accepted: set<int>, n: int): Answer {
    if n > hi then Ok
    else if hi - n < WINDOW && n !in accepted then Late
    else Looping
  }

  function Accept(accepted: set<int>, n: int, a: Answer): set<int> {
    if a == Looping then accepted else accepted + {n}
  }

  function Highest(hi: int, n: int): int {
    if n > hi then n else hi
  }

  lemma DecideRefines(e: Entry, hi: int, accepted: set<int>, n: int)
    requires Refines(e, hi, accepted) && Fits(hi, n)
    ensures var (e', a) := Decide(e, Wrap(n));
      && a == Ideal(hi, accepted, n)
      && Refines(e', Highest(hi, n), Accept(accepted, n, a))
      && e'.ttl == e.ttl
  {
    hide Bit, SetBit, ShiftLeft;
    WrapOfDifference(hi, n);
    WrapOfDifference(n, hi);
    NewExactlyWhenFits(hi, n);
    if n > hi {
      AdvanceRefines(e, hi, accepted, n);
    } else if hi - n < WINDOW && n !in accepted {
      LateRefines(e, hi, accepted, n);
    }
  }

  /** Looping means received before, exactly for packets inside the window and for those that were received. */
  lemma LoopingMeansReceivedIff(e: Entry, hi: int, accepted: set<int>, n: int)
    requires Refines(e, hi, accepted) && Fits(hi, n)
    ensures (Decide(e, Wrap(n)).1 == Looping <==> n in accepted) <==> hi - n < 64 || n in accepted
  {
    hide Decide;
    DecideRefines(e, hi, accepted, n);
  }

  /** A packet 64 behind that was never received is answered Looping. */
  lemma NeverReceivedIsLooping()
    ensures Refines(Entry(100, 1, 30), 100, {100}) && Fits(100, 36) && 36 !in {100}
    ensures Decide(Entry(100, 1, 30), Wrap(36)).1 == Looping
  {
    OneAccepted(100);
  }

  lemma OneAccepted(hi: uint16)
    ensures Refines(Entry(hi, 1, 30), hi, {hi as int})
  {
    assert Pow2(WINDOW) > 1;
    forall k: nat | k < WINDOW ensures Bit(1, k) <==> hi - k == hi {
      if k > 0 {
        NoBits(k - 1);
      }
    }
  }

  lemma LateRefines(e: Entry, hi: int, accepted: set<int>, n: int)
    requires Refines(e, hi, accepted) && n <= hi < n + WINDOW
    ensures Refines(e.(seen := SetBit(e.seen, hi - n)), hi, accepted + {n})
  {
    SetBitFits(e.seen, hi - n, WINDOW);
    var seen := SetBit(e.seen, hi - n);
    forall k: nat | k < WINDOW
      ensures Bit(seen, k) <==> hi - k in accepted + {n}
    {
      BitOfSetBit(e.seen, hi - n, k);
    }
  }

  lemma AdvanceRefines(e: Entry, hi: int, accepted: set<int>, n: int)
    requires Refines(e, hi, accepted) && n > hi
    ensures Refines(e.(last := Wrap(n), seen := SetBit(ShiftLeft(e.seen, n - hi, WINDOW), 0)), n, accepted + {n})
  {
    var shifted := ShiftLeft(e.seen, n - hi, WINDOW);
    SetBitFits(shifted, 0, WINDOW);
    forall k: nat | k < WINDOW ensures Bit(SetBit(shifted, 0), k) <==> n - k in accepted + {n} {
      BitOfShiftLeft(e.seen, n - hi, WINDOW, k);
      BitOfSetBit(shifted, 0, k);
      if k >= n - hi {
        assert n - k == hi - (k - (n - hi));
      }
    }
  }

  // ----- Whole runs -----

  datatype Event = Arrive(src: Address, n: int) | Tick | Flush

  function Step(t: Table, ttl: uint16, ev: Event): Table {
    match ev
    case Arrive(src, n) => Check(t, src, Wrap(n), ttl).0
    case Tick => Aged(t)
    case Flush => map[]
  }

  function Run(t: Table, ttl: uint16, evs: seq<Event>): Table
    decreases |evs|
  {
    if evs == [] then t else Run(Step(t, ttl, evs[0]), ttl, evs[1..])
  }

  /** What the table stands for: per source the accepted packets and the ticks since its last arrival. */
  datatype Track = Track(hi: int, accepted: set<int>, idle: nat)
  type Tracks = map<Address, Track>

  /** Ticks an entry survives without an arrival: the counter is decremented before it is compared with 0. */
  function Lifetime(ttl: uint16): nat {
    if ttl == 0 then 0x1_0000 else ttl
  }

  function IdealStep(s: Tracks, ttl: uint16, ev: Event): Tracks {
    match ev
    case Arrive(src, n) =>
      if src in s then
        var x := s[src];
        s[src := Track(Highest(x.hi, n), Accept(x.accepted, n, Ideal(x.hi, x.accepted, n)), 0)]
      else
        s[src := Track(n, {n}, 0)]
    case Tick => map a | a in s && s[a].idle + 1 < Lifetime(ttl) :: s[a].(idle := s[a].idle + 1)
    case Flush => map[]
  }

  function IdealRun(s: Tracks, ttl: uint16, evs: seq<Event>): Tracks
    decreases |evs|
  {
    if evs == [] then s else IdealRun(IdealStep(s, ttl, evs[0]), ttl, evs[1..])
  }

  ghost predicate Agree(t: Table, s: Tracks, ttl: uint16) {
    && t.Keys == s.Keys
    && forall a | a in t ::
        && Refines(t[a], s[a].hi, s[a].accepted)
        && s[a].idle < Lifetime(ttl) && t[a].ttl == Wrap(ttl - s[a].idle)
  }

  /** Every arrival fits what is known of its source at that moment. */
  predicate AllFit(s: Tracks, ttl: uint16, evs: seq<Event>)
    decreases |evs|
  {
    evs == [] ||
    (&& (evs[0].Arrive? && evs[0].src in s ==> Fits(s[evs[0].src].hi, evs[0].n))
     && AllFit(IdealStep(s, ttl, evs[0]), ttl, evs[1..]))
  }

  function IdealAnswer(s: Tracks, src: Address, n: int): Answer {
    if src in s then Ideal(s[src].hi, s[src].accepted, n) else Ok
  }

  lemma StepAgrees(t: Table, s: Tracks, ttl: uint16, ev: Event)
    requires Agree(t, s, ttl)
    requires ev.Arrive? && ev.src in s ==> Fits(s[ev.src].hi, ev.n)
    ensures Agree(Step(t, ttl, ev), IdealStep(s, ttl, ev), ttl)
    ensures ev.Arrive? ==> Check(t, ev.src, Wrap(ev.n), ttl).1 == IdealAnswer(s, ev.src, ev.n)
  {
    match ev
    case Arrive(src, n) => ArrivalAgrees(t, s, ttl, src, n);
    case Tick => TickAgrees(t, s, ttl);
    case Flush =>
  }

  lemma TickAgrees(t: Table, s: Tracks, ttl: uint16)
    requires Agree(t, s, ttl)
    ensures Agree(Aged(t), IdealStep(s, ttl, Tick), ttl)
  {
    hide Refines;
    forall a | a in t
      ensures Wrap(t[a].ttl - 1) == Wrap(ttl - (s[a].idle + 1))
      ensures Wrap(t[a].ttl - 1) > 0 <==> s[a].idle + 1 < Lifetime(ttl)
      ensures Refines(t[a].(ttl := Wrap(t[a].ttl - 1)), s[a].hi, s[a].accepted)
    {
      CounterTick(ttl, s[a].idle);
      TtlIsFree(t[a], s[a].hi, s[a].accepted, Wrap(t[a].ttl - 1));
    }
  }

  lemma CounterTick(ttl: uint16, idle: nat)
    requires idle < Lifetime(ttl)
    ensures Wrap(Wrap(ttl - idle) - 1) == Wrap(ttl - (idle + 1))
    ensures Wrap(ttl - (idle + 1)) > 0 <==> idle + 1 < Lifetime(ttl)
  {
  }

  lemma TtlIsFree(e: Entry, hi: int, accepted: set<int>, ttl: uint16)
    requires Refines(e, hi, accepted)
    ensures Refines(e.(ttl := ttl), hi, accepted)
  {
  }

  lemma ArrivalAgrees(t: Table, s: Tracks, ttl: uint16, src: Address, n: int)
    requires Agree(t, s, ttl) && (src in s ==> Fits(s[src].hi, n))
    ensures Agree(Check(t, src, Wrap(n), ttl).0, IdealStep(s, ttl, Arrive(src, n)), ttl)
    ensures Check(t, src, Wrap(n), ttl).1 == IdealAnswer(s, src, n)
  {
    hide Refines, Decide, Fits, Agree, Wrap;
    if src in s {
      AgreesAt(t, s, ttl, src);
      TtlIsFree(t[src], s[src].hi, s[src].accepted, ttl);
      DecideRefines(t[src].(ttl := ttl), s[src].hi, s[src].accepted, n);
    } else {
      AgreesAt(t, s, ttl, src);
      FreshRefines(n, ttl);
      DecideRefines(NewEntry(Wrap(n), ttl), n - 1, {}, n);
      assert {} + {n} == {n};
    }
    AgreesAfter(t, s, ttl, src, Check(t, src, Wrap(n), ttl).0[src], IdealStep(s, ttl, Arrive(src, n))[src]);
  }

  lemma AgreesAt(t: Table, s: Tracks, ttl: uint16, src: Address)
    requires Agree(t, s, ttl)
    ensures src in t <==> src in s
    ensures src in s ==> Refines(t[src], s[src].hi, s[src].accepted)
  {
  }

  lemma AgreesAfter(t: Table, s: Tracks, ttl: uint16, src: Address, e: Entry, x: Track)
    requires Agree(t, s, ttl) && Refines(e, x.hi, x.accepted) && x.idle == 0 && e.ttl == ttl
    ensures Agree(t[src := e], s[src := x], ttl)
  {
    hide Refines;
  }

  lemma FreshRefines(n: int, ttl: uint16)
    ensures Refines(NewEntry(Wrap(n), ttl), n - 1, {}) && Fits(n - 1, n)
  {
    WrapOfDifference(n, 1);
    forall k: nat | k < WINDOW ensures !Bit(0, k) {
      NoBits(k);
    }
  }

  /** From the empty table, the 16-bit table follows the ideal one through every run of fitting arrivals. */
  lemma {:induction false} RunAgrees(t: Table, s: Tracks, ttl: uint16, evs: seq<Event>)
    requires Agree(t, s, ttl) && AllFit(s, ttl, evs)
    ensures Agree(Run(t, ttl, evs), IdealRun(s, ttl, evs), ttl)
    decreases |evs|
  {
    if evs != [] {
      StepAgrees(t, s, ttl, evs[0]);
      RunAgrees(Step(t, ttl, evs[0]), IdealStep(s, ttl, evs[0]), ttl, evs[1..]);
    }
  }

  /** src is never forgotten during evs: no flush, and never Lifetime ticks in a row without an arrival from src. */
  predicate Alive(idle: nat, evs: seq<Event>, src: Address, life: nat)
    decreases |evs|
  {
    evs == [] ||
    match evs[0]
    case Flush => false
    case Tick => idle + 1 < life && Alive(idle + 1, evs[1..], src, life)
    case Arrive(a, _) => Alive(if a == src then 0 else idle, evs[1..], src, life)
  }

  lemma {:induction false} AcceptedIsRemembered(s: Tracks, ttl: uint16, evs: seq<Event>, src: Address, n: int)
    requires src in s && n in s[src].accepted && Alive(s[src].idle, evs, src, Lifetime(ttl))
    ensures var s' := IdealRun(s, ttl, evs); src in s' && n in s'[src].accepted
    decreases |evs|
  {
    if evs != [] {
      AcceptedIsRemembered(IdealStep(s, ttl, evs[0]), ttl, evs[1..], src, n);
    }
  }

  lemma {:induction false} RunSplits(t: Table, s: Tracks, ttl: uint16, a: seq<Event>, b: seq<Event>)
    ensures Run(t, ttl, a + b) == Run(Run(t, ttl, a), ttl, b)
    ensures IdealRun(s, ttl, a + b) == IdealRun(IdealRun(s, ttl, a), ttl, b)
    ensures AllFit(s, ttl, a + b) ==> AllFit(s, ttl, a) && AllFit(IdealRun(s, ttl, a), ttl, b)
    decreases |a|
  {
    if a == [] {
      assert a + b == b;
    } else {
      assert (a + b)[0] == a[0] && (a + b)[1..] == a[1..] + b;
      RunSplits(Step(t, ttl, a[0]), IdealStep(s, ttl, a[0]), ttl, a[1..], b);
    }
  }

  /**
   Over any run from the empty table: a packet that was accepted is answered Looping when it comes again,
   unless its source was forgotten in between.
   */
  lemma NoDoubleAccept(ttl: uint16, before: seq<Event>, between: seq<Event>, src: Address, n: int)
    requires AllFit(map[], ttl, before + [Arrive(src, n)] + between + [Arrive(src, n)])
    requires Check(Run(map[], ttl, before), src, Wrap(n), ttl).1 != Looping
    requires Alive(0, between, src, Lifetime(ttl))
    ensures Check(Run(map[], ttl, before + [Arrive(src, n)] + between), src, Wrap(n), ttl).1 == Looping
  {
    var first := before + [Arrive(src, n)];
    var evs := first + between;
    RunSplits(map[], map[], ttl, evs, [Arrive(src, n)]);
    RunSplits(map[], map[], ttl, first, between);
    RunSplits(map[], map[], ttl, before, [Arrive(src, n)]);
    var s0 := IdealRun(map[], ttl, before);
    var s1 := IdealStep(s0, ttl, Arrive(src, n));
    assert IdealRun(s0, ttl, [Arrive(src, n)]) == s1;
    RunAgrees(map[], map[], ttl, before);
    StepAgrees(Run(map[], ttl, before), s0, ttl, Arrive(src, n));
    AcceptedIsRemembered(s1, ttl, between, src, n);
    RunAgrees(map[], map[], ttl, evs);
    StepAgrees(Run(map[], ttl, evs), IdealRun(map[], ttl, evs), ttl, Arrive(src, n));
  }

  function TickCount(evs: seq<Event>): nat {
    if evs == [] then 0 else (if evs[0] == Tick then 1 else 0) + TickCount(evs[1..])
  }

  predicate SilentFrom(evs: seq<Event>, src: Address) {
    forall e | e in evs :: !(e.Arrive? && e.src == src)
  }

  /** Forgetting src takes a flush, or a stretch without an arrival from src that holds Lifetime ticks. */
  lemma {:induction false} ForgettingTakesSilence(idle: nat, evs: seq<Event>, src: Address, life: nat)
    requires !Alive(idle, evs, src, life) && Flush !in evs
    ensures exists i, j :: 0 <= i <= j <= |evs| && SilentFrom(evs[i..j], src) &&
              TickCount(evs[i..j]) + (if i == 0 then idle else 0) >= life
    decreases |evs|
  {
    var rest := evs[1..];
    match evs[0]
    case Tick =>
      if idle + 1 >= life {
        assert evs[0..1] == [Tick] && TickCount([Tick]) == 1;
        assert SilentFrom(evs[0..1], src);
      } else {
        ForgettingTakesSilence(idle + 1, rest, src, life);
        var i, j :| 0 <= i <= j <= |rest| && SilentFrom(rest[i..j], src) &&
          TickCount(rest[i..j]) + (if i == 0 then idle + 1 else 0) >= life;
        Shifted(evs, i, j);
        if i == 0 {
          assert evs[0..j + 1] == [Tick] + rest[0..j];
          assert SilentFrom(evs[0..j + 1], src) && TickCount(evs[0..j + 1]) == 1 + TickCount(rest[0..j]);
        }
      }
    case Arrive(a, m) =>
      ForgettingTakesSilence(if a == src then 0 else idle, rest, src, life);
      var i, j :| 0 <= i <= j <= |rest| && SilentFrom(rest[i..j], src) &&
        TickCount(rest[i..j]) + (if i == 0 then (if a == src then 0 else idle) else 0) >= life;
      Shifted(evs, i, j);
      if i == 0 && a != src {
        assert evs[0..j + 1] == [evs[0]] + rest[0..j];
        assert SilentFrom(evs[0..j + 1], src) && TickCount(evs[0..j + 1]) == TickCount(rest[0..j]);
      }
  }

  lemma Shifted(evs: seq<Event>, i: nat, j: nat)
    requires |evs| > 0 && i <= j <= |evs| - 1
    ensures evs[i + 1..j + 1] == evs[1..][i..j]
  {
    var a, b := evs[i + 1..j + 1], evs[1..][i..j];
    assert |a| == |b| == j - i;
    assert forall k | 0 <= k < j - i :: a[k] == evs[1..][i + k] == b[k];
  }
}

/** The gossip simulation: round-based flooding in which every forwarding decision and every link is a random draw. */
module Gossip {
  import opened Graphs

  /** A directed graph whose edges carry a packet delivery ratio. */
  datatype Net = Net(nodes: set<Node>, out: map<Node, set<Node>>, weight: map<(Node, Node), real>) {
    ghost predicate Valid() {
      && out.Keys == nodes
      && (forall u | u in out :: out[u] <= nodes)
      && (forall u, v | u in out && v in out[u] :: (u, v) in weight)
    }
  }

  /** Who transmitted in one flood, and the draw of each link that was used. */
  datatype Log = Log(sent: set<Node>, bond: map<(Node, Node), real>)

  /** The coins each node flipped, in order. */
  type Flips = map<Node, seq<real>>

  /** u transmitted and its link to v won the draw, if links can lose at all. */
  ghost predicate Delivered(net: Net, loss: bool, log: Log, u: Node, v: Node) {
    && u in log.sent && u in net.out && v in net.out[u]
    && (loss ==> (u, v) in net.weight && (u, v) in log.bond && net.weight[(u, v)] > log.bond[(u, v)])
  }

  ghost predicate Trail(net: Net, loss: bool, log: Log, p: seq<Node>) {
    |p| > 0 && forall i | 0 <= i < |p| - 1 :: Delivered(net, loss, log, p[i], p[i + 1])
  }

  /** A chain of delivered links leads from src to v. */
  ghost predicate Reached(net: Net, loss: bool, log: Log, src: Node, v: Node) {
    exists p :: Trail(net, loss, log, p) && p[0] == src && p[|p| - 1] == v
  }

  ghost predicate Heard(net: Net, loss: bool, log: Log, v: Node) {
    exists u :: Delivered(net, loss, log, u, v)
  }

  /** v is reached by a transmission of one of these senders. */
  ghost predicate HeardFrom(net: Net, loss: bool, log: Log, senders: set<Node>, v: Node) {
    exists u :: u in senders && Delivered(net, loss, log, u, v)
  }

  /** The senders of log0 deliver as before; gained is what those that have joined since deliver. */
  ghost predicate Gained(net: Net, loss: bool, log0: Log, log: Log, gained: set<Node>) {
    && log0.sent <= log.sent
    && (forall u, v | u in log0.sent :: Delivered(net, loss, log, u, v) <==> Delivered(net, loss, log0, u, v))
    && (forall v :: v in gained <==> HeardFrom(net, loss, log, log.sent - log0.sent, v))
  }

  /** R holds src and everything delivered so far, and every transmission so far came from R. */
  ghost predicate Consistent(net: Net, loss: bool, log: Log, src: Node, R: set<Node>) {
    && src in log.sent && log.sent <= R <= net.nodes
    && (forall v :: v in R <==> v == src || Heard(net, loss, log, v))
    && (forall v | v in R :: Reached(net, loss, log, src, v))
    && (loss ==> forall e | e in log.bond :: e.0 in log.sent)
    && (loss ==> forall u, v | u in log.sent && u in net.out && v in net.out[u] :: (u, v) in log.bond)
  }

  function AddSender(log: Log, u: Node, bond: map<(Node, Node), real>): Log {
    Log(log.sent + {u}, log.bond + bond)
  }

  /** What one transmission of u draws, and whom it reaches. */
  ghost predicate Transmission(net: Net, loss: bool, u: Node, bond: map<(Node, Node), real>, hit: set<Node>) {
    && net.Valid() && u in net.nodes
    && (forall e | e in bond :: e.0 == u && e.1 in net.out[u])
    && (loss ==> forall v | v in net.out[u] :: (u, v) in bond)
    && (forall v :: v in hit <==> v in net.out[u] && (loss ==> net.weight[(u, v)] > bond[(u, v)]))
  }

  lemma TransmissionExtends(net: Net, loss: bool, log: Log, src: Node, R: set<Node>, u: Node,
                            bond: map<(Node, Node), real>, hit: set<Node>)
    requires Consistent(net, loss, log, src, R) && u in R && u !in log.sent
    requires Transmission(net, loss, u, bond, hit)
    ensures Consistent(net, loss, AddSender(log, u, bond), src, R + hit)
    ensures Gained(net, loss, log, AddSender(log, u, bond), hit)
  {
    TransmissionDelivers(net, loss, log, src, R, u, bond, hit);
    TransmissionReaches(net, loss, log, src, R, u, bond, hit);
    TransmissionGains(net, loss, log, AddSender(log, u, bond), u, hit);
    TransmissionDraws(net, loss, log, src, R, u, bond, hit);
    hide Delivered, Reached, Heard;
    var log' := AddSender(log, u, bond);
    forall v ensures v in R + hit <==> v == src || Heard(net, loss, log', v) {
      assert v in R <==> v == src || Heard(net, loss, log, v);
    }
  }

  lemma TransmissionDraws(net: Net, loss: bool, log: Log, src: Node, R: set<Node>, u: Node,
                          bond: map<(Node, Node), real>, hit: set<Node>)
    requires Consistent(net, loss, log, src, R) && u in R && Transmission(net, loss, u, bond, hit)
    ensures var log' := AddSender(log, u, bond);
      && src in log'.sent && log'.sent <= R + hit <= net.nodes
      && (loss ==> forall e | e in log'.bond :: e.0 in log'.sent)
      && (loss ==> forall x, v | x in log'.sent && x in net.out && v in net.out[x] :: (x, v) in log'.bond)
  {
    hide Reached, Heard;
  }

  lemma TransmissionGains(net: Net, loss: bool, log: Log, log': Log, u: Node, hit: set<Node>)
    requires u !in log.sent && log'.sent == log.sent + {u}
    requires forall x, v :: Delivered(net, loss, log', x, v) <==>
                            Delivered(net, loss, log, x, v) || (x == u && v in hit)
    ensures Gained(net, loss, log, log', hit)
  {
    assert log'.sent - log.sent == {u};
    assert forall v :: !Delivered(net, loss, log, u, v);
    hide Delivered;
    forall v ensures v in hit <==> HeardFrom(net, loss, log', {u}, v) {
      assert v in hit ==> Delivered(net, loss, log', u, v);
    }
  }

  lemma TransmissionReaches(net: Net, loss: bool, log: Log, src: Node, R: set<Node>, u: Node,
                            bond: map<(Node, Node), real>, hit: set<Node>)
    requires Consistent(net, loss, log, src, R) && u in R && u !in log.sent
    requires Transmission(net, loss, u, bond, hit)
    ensures forall v | v in R + hit :: Reached(net, loss, AddSender(log, u, bond), src, v)
  {
    var log' := AddSender(log, u, bond);
    TransmissionDelivers(net, loss, log, src, R, u, bond, hit);
    hide Delivered;
    forall v | v in R
      ensures Reached(net, loss, log', src, v)
    {
      var p :| Trail(net, loss, log, p) && p[0] == src && p[|p| - 1] == v;
      assert Trail(net, loss, log', p);
    }
    forall v | v in hit
      ensures Reached(net, loss, log', src, v)
    {
      var p :| Trail(net, loss, log', p) && p[0] == src && p[|p| - 1] == u;
      assert Trail(net, loss, log', p + [v]);
      assert (p + [v])[|p + [v]| - 1] == v;
    }
  }

  lemma TransmissionDelivers(net: Net, loss: bool, log: Log, src: Node, R: set<Node>, u: Node,
                             bond: map<(Node, Node), real>, hit: set<Node>)
    requires Consistent(net, loss, log, src, R) && u in R && u !in log.sent
    requires Transmission(net, loss, u, bond, hit)
    ensures var log' := AddSender(log, u, bond);
      && (forall x, v :: Delivered(net, loss, log', x, v) <==>
            Delivered(net, loss, log, x, v) || (x == u && v in hit))
      && (forall v :: Heard(net, loss, log', v) <==> Heard(net, loss, log, v) || v in hit)
  {
    var log' := AddSender(log, u, bond);
    forall x, v
      ensures Delivered(net, loss, log', x, v) <==> Delivered(net, loss, log, x, v) || (x == u && v in hit)
    {
    }
    forall v | v in hit
      ensures Heard(net, loss, log', v)
    {
      assert Delivered(net, loss, log', u, v);
    }
    forall v | Heard(net, loss, log, v)
      ensures Heard(net, loss, log', v)
    {
      var x :| Delivered(net, loss, log, x, v);
      assert Delivered(net, loss, log', x, v);
    }
  }

  lemma StartConsistent(net: Net, loss: bool, src: Node, bond: map<(Node, Node), real>, hit: set<Node>)
    requires Transmission(net, loss, src, bond, hit)
    ensures Consistent(net, loss, Log({src}, bond), src, {src} + hit)
    ensures forall v :: Heard(net, loss, Log({src}, bond), v) <==> v in hit
    ensures forall v :: HeardFrom(net, loss, Log({src}, bond), {src}, v) <==> v in hit
  {
    var log := Log({src}, bond);
    assert Trail(net, loss, log, [src]);
    forall v | v in hit
      ensures Heard(net, loss, log, v) && Reached(net, loss, log, src, v)
    {
      assert Delivered(net, loss, log, src, v);
      assert Trail(net, loss, log, [src, v]);
      assert [src, v][|[src, v]| - 1] == v;
    }
    forall v | Heard(net, loss, log, v)
      ensures v in hit
    {
      var u :| Delivered(net, loss, log, u, v);
    }
  }

  /** With every transmission accounted for, R is exactly the set reached over delivered links. */
  lemma ConsistentIsCluster(net: Net, loss: bool, log: Log, src: Node, R: set<Node>)
    requires Consistent(net, loss, log, src, R)
    ensures forall v :: v in R <==> Reached(net, loss, log, src, v)
  {
    forall v | Reached(net, loss, log, src, v)
      ensures v in R
    {
      var p :| Trail(net, loss, log, p) && p[0] == src && p[|p| - 1] == v;
      if |p| > 1 {
        assert Delivered(net, loss, log, p[|p| - 2], p[|p| - 1]);
      }
    }
  }

  // ----- Percolation: the same cluster read off a complete random configuration -----

  /** A site is open when its draw lies below p, a link when its draw lies below its delivery ratio. */
  ghost predicate OpenTrail(net: Net, p: real, loss: bool, src: Node,
                            site: Node -> real, bond: (Node, Node) -> real, t: seq<Node>)
  {
    && |t| > 0 && t[0] == src
    && forall i | 0 <= i < |t| - 1 :: Open(net, p, loss, src, site, bond, t[i], t[i + 1])
  }

  ghost predicate Open(net: Net, p: real, loss: bool, src: Node,
                       site: Node -> real, bond: (Node, Node) -> real, u: Node, v: Node)
  {
    && u in net.out && v in net.out[u] && (u, v) in net.weight
    && (u == src || p > site(u))
    && (loss ==> net.weight[(u, v)] > bond(u, v))
  }

  ghost predicate InCluster(net: Net, p: real, loss: bool, src: Node,
                            site: Node -> real, bond: (Node, Node) -> real, v: Node)
  {
    exists t :: OpenTrail(net, p, loss, src, site, bond, t) && t[|t| - 1] == v
  }

  /** The configuration shows, at every node and link that was drawn, the value that was drawn. */
  ghost predicate Shows(log: Log, flips: Flips, site: Node -> real, bond: (Node, Node) -> real) {
    && (forall n | n in flips && flips[n] != [] :: site(n) == flips[n][0])
    && (forall e | e in log.bond :: bond(e.0, e.1) == log.bond[e])
  }

  /** Every receiver but src flipped one coin; exactly the winners and src transmitted. */
  ghost predicate OneCoinEach(p: real, log: Log, flips: Flips, src: Node, R: set<Node>) {
    && flips.Keys == R - {src}
    && (forall n | n in flips :: |flips[n]| == 1)
    && (forall n :: n in log.sent <==> n == src || (n in flips && p > flips[n][0]))
  }

  /** From every node of R exactly the open links were delivered. */
  ghost predicate DeliversOpen(net: Net, p: real, loss: bool, log: Log, src: Node, R: set<Node>,
                               site: Node -> real, bond: (Node, Node) -> real)
  {
    forall u, v | u in R :: Delivered(net, loss, log, u, v) <==> Open(net, p, loss, src, site, bond, u, v)
  }

  lemma ClusterIsWhatDelivered(net: Net, p: real, loss: bool, log: Log, src: Node, R: set<Node>,
                               site: Node -> real, bond: (Node, Node) -> real)
    requires Consistent(net, loss, log, src, R) && DeliversOpen(net, p, loss, log, src, R, site, bond)
    ensures forall v :: v in R <==> InCluster(net, p, loss, src, site, bond, v)
  {
    forall v | v in R
      ensures InCluster(net, p, loss, src, site, bond, v)
    {
      var t :| Trail(net, loss, log, t) && t[0] == src && t[|t| - 1] == v;
      forall i | 0 <= i < |t| - 1 ensures Open(net, p, loss, src, site, bond, t[i], t[i + 1]) {
        assert Delivered(net, loss, log, t[i], t[i + 1]);
      }
      assert OpenTrail(net, p, loss, src, site, bond, t);
    }
    forall v | InCluster(net, p, loss, src, site, bond, v)
      ensures v in R
    {
      var t :| OpenTrail(net, p, loss, src, site, bond, t) && t[|t| - 1] == v;
      OpenTrailStays(net, p, loss, log, src, R, site, bond, t);
    }
  }

  lemma {:induction false} OpenTrailStays(net: Net, p: real, loss: bool, log: Log, src: Node, R: set<Node>,
                                          site: Node -> real, bond: (Node, Node) -> real, t: seq<Node>)
    requires Consistent(net, loss, log, src, R) && DeliversOpen(net, p, loss, log, src, R, site, bond)
    requires OpenTrail(net, p, loss, src, site, bond, t)
    ensures t[|t| - 1] in R
    decreases |t|
  {
    if |t| > 1 {
      var u, v := t[|t| - 2], t[|t| - 1];
      assert OpenTrail(net, p, loss, src, site, bond, t[..|t| - 1]);
      OpenTrailStays(net, p, loss, log, src, R, site, bond, t[..|t| - 1]);
      assert Open(net, p, loss, src, site, bond, u, v);
      assert Delivered(net, loss, log, u, v);
    }
  }

  /** With one coin per node, the flood computes the site/bond percolation cluster of src in every configuration that
      agrees with the draws it made. */
  lemma FloodIsPercolation(net: Net, p: real, loss: bool, log: Log, flips: Flips, src: Node, R: set<Node>,
                           site: Node -> real, bond: (Node, Node) -> real)
    requires net.Valid() && Consistent(net, loss, log, src, R) && OneCoinEach(p, log, flips, src, R)
    requires Shows(log, flips, site, bond)
    ensures forall v :: v in R <==> InCluster(net, p, loss, src, site, bond, v)
  {
    forall u, v | u in R
      ensures Delivered(net, loss, log, u, v) <==> Open(net, p, loss, src, site, bond, u, v)
    {
      assert u in flips ==> site(u) == flips[u][0];
      assert (u, v) in log.bond ==> bond(u, v) == log.bond[(u, v)];
    }
    ClusterIsWhatDelivered(net, p, loss, log, src, R, site, bond);
  }

  /** When every receiver transmits in the end, only the links matter: the cluster with all sites open. */
  lemma RetriesArePurelyBond(net: Net, loss: bool, log: Log, src: Node, R: set<Node>, bond: (Node, Node) -> real)
    requires net.Valid() && Consistent(net, loss, log, src, R) && log.sent == R
    requires forall e | e in log.bond :: bond(e.0, e.1) == log.bond[e]
    ensures forall v :: v in R <==> InCluster(net, 1.0, loss, src, n => 0.0, bond, v)
  {
    forall u, v | u in R
      ensures Delivered(net, loss, log, u, v) <==> Open(net, 1.0, loss, src, n => 0.0, bond, u, v)
    {
      assert (u, v) in log.bond ==> bond(u, v) == log.bond[(u, v)];
    }
    ClusterIsWhatDelivered(net, 1.0, loss, log, src, R, n => 0.0, bond);
  }

  // ----- The simulation -----

  method R() returns (f: real)
    ensures 0.0 <= f <= 1.0
  {
    f := *;
    if !(0.0 <= f <= 1.0) {
      f := 0.0;
    }
  }

  /** The nodes that receive a transmission of node; with loss every link is drawn once. */
  method Transmit(node: Node, net: Net, loss: bool) returns (forward: set<Node>, ghost bond: map<(Node, Node), real>)
    requires net.Valid() && node in net.nodes
    ensures Transmission(net, loss, node, bond, forward)
    ensures forward <= net.out[node] && (!loss ==> forward == net.out[node])
  {
    bond := map[];
    if loss {
      forward := {};
      var edges := net.out[node];
      while edges != {}
        invariant edges <= net.out[node]
        invariant forall e | e in bond :: e.0 == node && e.1 in net.out[node]
        invariant forall v | v in net.out[node] && v !in edges :: (node, v) in bond
        invariant forall v | v in edges :: (node, v) !in bond
        invariant forall v :: v in forward <==>
            v in net.out[node] && v !in edges && net.weight[(node, v)] > bond[(node, v)]
      {
        var nxt :| nxt in edges;
        var draw := R();
        bond := bond[(node, nxt) := draw];
        if net.weight[(node, nxt)] > draw {
          forward := forward + {nxt};
        }
        edges := edges - {nxt};
      }
    } else {
      forward := net.out[node];
    }
  }

  /** rx_pkgs_counter and rx_pkgs_frac. */
  class Receptions {
    var counter: map<Node, nat>
    var frac: map<Node, set<nat>>

    ghost predicate Valid(net: Net)
      reads this
    {
      counter.Keys == net.nodes && frac.Keys == net.nodes
    }

    constructor (net: Net)
      ensures Valid(net) && counter.Keys == frac.Keys == net.nodes
      ensures forall n | n in net.nodes :: counter[n] == 0 && frac[n] == {}
    {
      counter := map n | n in net.nodes :: 0;
      frac := map n | n in net.nodes :: {};
    }

    method Receive(nodes: set<Node>, seqno: nat, ghost net: Net)
      requires Valid(net) && nodes <= net.nodes
      modifies this
      ensures Valid(net)
      ensures Counted(nodes, seqno, old(counter), old(frac), counter, frac)
    {
      var todo := nodes;
      while todo != {}
        invariant Valid(net) && todo <= nodes
        invariant forall n | n in net.nodes ::
            && counter[n] == old(counter)[n] + (if n in nodes && n !in todo then 1 else 0)
            && frac[n] == old(frac)[n] + (if n in nodes && n !in todo then {seqno} else {})
      {
        var n :| n in todo;
        counter, frac := counter[n := counter[n] + 1], frac[n := frac[n] + {seqno}];
        todo := todo - {n};
      }
    }
  }

  type Counters = map<Node, nat>
  type Fractions = map<Node, set<nat>>

  /** One call of receive. */
  ghost predicate Counted(nodes: set<Node>, seqno: nat, c0: Counters, f0: Fractions, c: Counters, f: Fractions) {
    && c0.Keys == f0.Keys == c.Keys == f.Keys
    && forall n | n in c ::
        && c[n] == c0[n] + (if n in nodes then 1 else 0)
        && f[n] == f0[n] + (if n in nodes then {seqno} else {})
  }

  // ----- How often a host hears a packet -----

  /** The senders of each round, in order: together they are S, and no sender is in two rounds. */
  ghost predicate Shares(rounds: seq<set<Node>>, S: set<Node>)
    decreases |rounds|
  {
    if rounds == [] then S == {} else
      var n := |rounds| - 1;
      rounds[n] <= S && Shares(rounds[..n], S - rounds[n])
  }

  /** In how many rounds n hears a transmission. */
  ghost function TimesHeard(net: Net, loss: bool, log: Log, rounds: seq<set<Node>>, n: Node): nat
    decreases |rounds|
  {
    if rounds == [] then 0 else
      var last := |rounds| - 1;
      TimesHeard(net, loss, log, rounds[..last], n) + (if HeardFrom(net, loss, log, rounds[last], n) then 1 else 0)
  }

  /** Packet seqno was noted for exactly the nodes that heard it, and counted once per round in which they did. */
  ghost predicate Noted(net: Net, loss: bool, log: Log, rounds: seq<set<Node>>, seqno: nat, c0: Counters,
                        f0: Fractions, c: Counters, f: Fractions) {
    && c0.Keys == f0.Keys == c.Keys == f.Keys
    && Shares(rounds, log.sent)
    && forall n | n in c ::
        && c[n] == c0[n] + TimesHeard(net, loss, log, rounds, n)
        && f[n] == f0[n] + (if Heard(net, loss, log, n) then {seqno} else {})
  }

  lemma {:induction false} TimesHeardKept(net: Net, loss: bool, log0: Log, log: Log, gained: set<Node>,
                                          rounds: seq<set<Node>>, S: set<Node>, n: Node)
    requires Gained(net, loss, log0, log, gained) && Shares(rounds, S) && S <= log0.sent
    ensures TimesHeard(net, loss, log, rounds, n) == TimesHeard(net, loss, log0, rounds, n)
    decreases |rounds|
  {
    hide Delivered;
    if rounds != [] {
      var last := |rounds| - 1;
      TimesHeardKept(net, loss, log0, log, gained, rounds[..last], S - rounds[last], n);
    }
  }

  lemma HeardSplits(net: Net, loss: bool, log0: Log, log: Log, gained: set<Node>, v: Node)
    requires Gained(net, loss, log0, log, gained)
    ensures Heard(net, loss, log, v) <==> Heard(net, loss, log0, v) || v in gained
  {
    if Heard(net, loss, log, v) {
      var u :| Delivered(net, loss, log, u, v);
      assert u in log.sent;
      assert u !in log0.sent ==> u in log.sent - log0.sent;
    }
    if Heard(net, loss, log0, v) {
      var u :| Delivered(net, loss, log0, u, v);
      assert Delivered(net, loss, log, u, v);
    }
  }

  lemma OneMoreRound(net: Net, loss: bool, log: Log, rounds: seq<set<Node>>, S: set<Node>, new': set<Node>)
    requires Shares(rounds, S) && S !! new'
    ensures Shares(rounds + [new'], S + new')
    ensures forall n :: TimesHeard(net, loss, log, rounds + [new'], n) ==
                        TimesHeard(net, loss, log, rounds, n) + (if HeardFrom(net, loss, log, new', n) then 1 else 0)
  {
    assert (rounds + [new'])[..|rounds|] == rounds;
    assert S + new' - new' == S;
  }

  lemma NotedGrows(net: Net, loss: bool, log0: Log, log: Log, rounds: seq<set<Node>>, gained: set<Node>, seqno: nat,
                   c0: Counters, f0: Fractions, c: Counters, f: Fractions, c': Counters, f': Fractions)
    requires Noted(net, loss, log0, rounds, seqno, c0, f0, c, f) && Gained(net, loss, log0, log, gained)
    requires Counted(gained, seqno, c, f, c', f')
    ensures Noted(net, loss, log, rounds + [log.sent - log0.sent], seqno, c0, f0, c', f')
  {
    hide Shares, TimesHeard, Heard, HeardFrom, Delivered;
    OneMoreRound(net, loss, log, rounds, log0.sent, log.sent - log0.sent);
    assert log0.sent + (log.sent - log0.sent) == log.sent;
    forall n | n in c
      ensures c'[n] == c0[n] + TimesHeard(net, loss, log, rounds + [log.sent - log0.sent], n)
      ensures f'[n] == f0[n] + (if Heard(net, loss, log, n) then {seqno} else {})
    {
      TimesHeardKept(net, loss, log0, log, gained, rounds, log0.sent, n);
      HeardSplits(net, loss, log0, log, gained, n);
    }
  }

  /** Inside a round: todo holds the nodes of forward that have not had their turn, gained what was delivered so far. */
  ghost predicate InRound(net: Net, p: real, loss: bool, log: Log, flips: Flips, src: Node,
                          received: set<Node>, gained: set<Node>, todo: set<Node>)
  {
    && Consistent(net, loss, log, src, received + gained)
    && todo <= received && src !in todo && src in received
    && OneCoinEach(p, log, flips, src, received - todo)
  }

  lemma LoserStays(net: Net, p: real, loss: bool, log: Log, flips: Flips, src: Node,
                   received: set<Node>, gained: set<Node>, todo: set<Node>, n: Node, draw: real)
    requires InRound(net, p, loss, log, flips, src, received, gained, todo) && n in todo && !(p > draw)
    ensures InRound(net, p, loss, log, flips[n := [draw]], src, received, gained, todo - {n})
  {
  }

  lemma WinnerForwards(net: Net, p: real, loss: bool, log: Log, flips: Flips, src: Node,
                       received: set<Node>, gained: set<Node>, todo: set<Node>, n: Node, draw: real,
                       bond: map<(Node, Node), real>, hit: set<Node>)
    requires InRound(net, p, loss, log, flips, src, received, gained, todo) && n in todo && p > draw
    requires Transmission(net, loss, n, bond, hit)
    ensures n !in log.sent && |AddSender(log, n, bond).sent| == |log.sent| + 1
    ensures InRound(net, p, loss, AddSender(log, n, bond), flips[n := [draw]], src,
                    received, gained + hit, todo - {n})
    ensures Gained(net, loss, log, AddSender(log, n, bond), hit)
  {
    TransmissionExtends(net, loss, log, src, received + gained, n, bond, hit);
    assert received + gained + hit == received + (gained + hit);
    CoinFlipped(p, log, flips, src, received - todo, n, draw, bond);
    assert received - todo + {n} == received - (todo - {n});
  }

  lemma CoinFlipped(p: real, log: Log, flips: Flips, src: Node, S: set<Node>, n: Node, draw: real,
                    bond: map<(Node, Node), real>)
    requires src in S && n !in S && OneCoinEach(p, log, flips, src, S) && p > draw
    ensures OneCoinEach(p, AddSender(log, n, bond), flips[n := [draw]], src, S + {n})
  {
  }

  /** One round of gossip0: every node of forward flips its coin, the winners transmit. */
  method Round0(net: Net, src: Node, p: real, loss: bool, forward: set<Node>,
                ghost received: set<Node>, ghost log0: Log, ghost flips0: Flips)
    returns (newForward: set<Node>, transmissions: nat, ghost log: Log, ghost flips: Flips)
    requires net.Valid() && InRound(net, p, loss, log0, flips0, src, received, {}, forward)
    ensures InRound(net, p, loss, log, flips, src, received, newForward, {})
    ensures |log.sent| == |log0.sent| + transmissions
    ensures Gained(net, loss, log0, log, newForward) && log.sent - log0.sent <= forward
  {
    newForward, transmissions, log, flips := {}, 0, log0, flips0;
    NothingGained(net, loss, log0);
    var todo := forward;
    while todo != {}
      invariant InRound(net, p, loss, log, flips, src, received, newForward, todo)
      invariant |log.sent| == |log0.sent| + transmissions
      invariant Gained(net, loss, log0, log, newForward) && todo <= forward && log.sent - log0.sent <= forward
    {
      var nxt :| nxt in todo;
      var draw := R();
      if p > draw {
        var n, bond := Transmit(nxt, net, loss);
        WinnerForwards(net, p, loss, log, flips, src, received, newForward, todo, nxt, draw, bond, n);
        GainedMore(net, loss, log0, log, AddSender(log, nxt, bond), newForward, n);
        log := AddSender(log, nxt, bond);
        newForward := newForward + n;
        transmissions := transmissions + 1;
      } else {
        LoserStays(net, p, loss, log, flips, src, received, newForward, todo, nxt, draw);
      }
      flips := flips[nxt := [draw]];
      todo := todo - {nxt};
    }
  }

  lemma NextRound(net: Net, p: real, loss: bool, log: Log, flips: Flips, src: Node,
                  received: set<Node>, gained: set<Node>)
    requires InRound(net, p, loss, log, flips, src, received, gained, {})
    ensures InRound(net, p, loss, log, flips, src, received + (gained - received), {}, gained - received)
  {
    assert received + (gained - received) + {} == received + gained;
    assert received + (gained - received) - (gained - received) == received - {};
  }

  /** src transmits; its neighbours note the packet. */
  method Launch(net: Net, src: Node, ghost p: real, loss: bool, seqno: nat, rx: Receptions)
    returns (forward: set<Node>, ghost log: Log)
    requires net.Valid() && src in net.nodes && src !in net.out[src] && rx.Valid(net)
    modifies rx
    ensures rx.Valid(net) && |log.sent| == 1
    ensures InRound(net, p, loss, log, map[], src, {src} + forward, {}, forward)
    ensures Noted(net, loss, log, [{src}], seqno, old(rx.counter), old(rx.frac), rx.counter, rx.frac)
    ensures Levels(net, loss, log, [{src}], src, forward)
  {
    ghost var bond;
    forward, bond := Transmit(src, net, loss);
    log := Log({src}, bond);
    rx.Receive(forward, seqno, net);
    FirstRound(net, p, loss, src, bond, forward);
    FirstNoted(net, loss, src, bond, forward, seqno, old(rx.counter), old(rx.frac), rx.counter, rx.frac);
  }

  lemma FirstRound(net: Net, p: real, loss: bool, src: Node, bond: map<(Node, Node), real>, hit: set<Node>)
    requires Transmission(net, loss, src, bond, hit) && src !in hit
    ensures InRound(net, p, loss, Log({src}, bond), map[], src, {src} + hit, {}, hit)
    ensures Levels(net, loss, Log({src}, bond), [{src}], src, hit)
  {
    StartConsistent(net, loss, src, bond, hit);
    assert {src} + hit + {} == {src} + hit;
    assert {src} + hit - hit == {src};
  }

  lemma FirstNoted(net: Net, loss: bool, src: Node, bond: map<(Node, Node), real>, hit: set<Node>, seqno: nat,
                   c0: Counters, f0: Fractions, c: Counters, f: Fractions)
    requires Transmission(net, loss, src, bond, hit) && src !in hit && Counted(hit, seqno, c0, f0, c, f)
    ensures Noted(net, loss, Log({src}, bond), [{src}], seqno, c0, f0, c, f)
  {
    hide Heard, HeardFrom;
    var log := Log({src}, bond);
    StartConsistent(net, loss, src, bond, hit);
    OneMoreRound(net, loss, log, [], {}, {src});
    assert [] + [{src}] == [{src}] && {} + {src} == {src};
  }

  // ----- The rounds of gossip0 are the levels of the flood -----

  /** v hears the packet in the last round, and in none before. */
  ghost predicate FirstHeardInLast(net: Net, loss: bool, log: Log, rounds: seq<set<Node>>, v: Node) {
    && rounds != [] && HeardFrom(net, loss, log, rounds[|rounds| - 1], v)
    && forall i | 0 <= i < |rounds| - 1 :: !HeardFrom(net, loss, log, rounds[i], v)
  }

  /** The source alone transmits in the first round, then only hosts that the round before was the first to reach. */
  ghost predicate ByLevel(net: Net, loss: bool, log: Log, rounds: seq<set<Node>>, src: Node) {
    && rounds != [] && rounds[0] == {src}
    && forall i, u | 0 < i < |rounds| && u in rounds[i] :: u != src && FirstHeardInLast(net, loss, log, rounds[..i], u)
  }

  ghost predicate Levels(net: Net, loss: bool, log: Log, rounds: seq<set<Node>>, src: Node, forward: set<Node>) {
    && ByLevel(net, loss, log, rounds, src)
    && forall v | v in forward :: FirstHeardInLast(net, loss, log, rounds, v)
  }

  lemma {:induction false} RoundsWithin(rounds: seq<set<Node>>, S: set<Node>)
    requires Shares(rounds, S)
    ensures forall i | 0 <= i < |rounds| :: rounds[i] <= S
    decreases |rounds|
  {
    if rounds != [] {
      var n := |rounds| - 1;
      RoundsWithin(rounds[..n], S - rounds[n]);
      assert forall i | 0 <= i < n :: rounds[..n][i] == rounds[i];
    }
  }

  /** Later transmissions do not change who was heard in the rounds so far. */
  lemma FirstHeardKept(net: Net, loss: bool, log0: Log, log: Log, gained: set<Node>, rounds: seq<set<Node>>, i: nat,
                       v: Node)
    requires Gained(net, loss, log0, log, gained) && i <= |rounds|
    requires forall k | 0 <= k < |rounds| :: rounds[k] <= log0.sent
    ensures FirstHeardInLast(net, loss, log0, rounds[..i], v) <==> FirstHeardInLast(net, loss, log, rounds[..i], v)
  {
    hide Delivered;
    forall k | 0 <= k < |rounds|
      ensures HeardFrom(net, loss, log0, rounds[k], v) <==> HeardFrom(net, loss, log, rounds[k], v)
    {
    }
  }

  /** What the round gained is new where it was not received, as everything heard before was. */
  lemma LevelsGrow(net: Net, loss: bool, log0: Log, log: Log, rounds: seq<set<Node>>, src: Node, forward: set<Node>,
                   received: set<Node>, gained: set<Node>)
    requires Levels(net, loss, log0, rounds, src, forward) && Gained(net, loss, log0, log, gained)
    requires Shares(rounds, log0.sent) && log.sent - log0.sent <= forward && src !in forward
    requires forall v | Heard(net, loss, log0, v) :: v in received
    ensures Levels(net, loss, log, rounds + [log.sent - log0.sent], src, gained - received)
  {
    hide Delivered, FirstHeardInLast, Heard, HeardFrom;
    var new' := log.sent - log0.sent;
    var all := rounds + [new'];
    RoundsWithin(rounds, log0.sent);
    forall i, u | 0 < i < |all| && u in all[i]
      ensures u != src && FirstHeardInLast(net, loss, log, all[..i], u)
    {
      assert all[..i] == rounds[..i];
      FirstHeardKept(net, loss, log0, log, gained, rounds, i, u);
      assert rounds[..|rounds|] == rounds;
    }
    forall v | v in gained - received
      ensures FirstHeardInLast(net, loss, log, all, v)
    {
      NewlyHeard(net, loss, log0, log, rounds, received, gained, v);
    }
  }

  lemma NewlyHeard(net: Net, loss: bool, log0: Log, log: Log, rounds: seq<set<Node>>, received: set<Node>,
                   gained: set<Node>, v: Node)
    requires Gained(net, loss, log0, log, gained) && v in gained && v !in received
    requires forall i | 0 <= i < |rounds| :: rounds[i] <= log0.sent
    requires forall x | Heard(net, loss, log0, x) :: x in received
    ensures FirstHeardInLast(net, loss, log, rounds + [log.sent - log0.sent], v)
  {
    hide Delivered;
    assert !Heard(net, loss, log0, v);
    forall i | 0 <= i < |rounds| ensures !HeardFrom(net, loss, log, rounds[i], v) {
    }
  }

  /** The body of the round loop: coins, receive, and the receivers that are new. */
  method Pass0(net: Net, src: Node, p: real, loss: bool, seqno: nat, rx: Receptions, forward: set<Node>,
               received: set<Node>, ghost log0: Log, ghost rounds0: seq<set<Node>>, ghost flips0: Flips,
               ghost c0: Counters, ghost f0: Fractions)
    returns (newForward: set<Node>, transmissions: nat, ghost log: Log, ghost rounds: seq<set<Node>>,
             ghost flips: Flips)
    requires net.Valid() && rx.Valid(net) && InRound(net, p, loss, log0, flips0, src, received, {}, forward)
    requires Noted(net, loss, log0, rounds0, seqno, c0, f0, rx.counter, rx.frac)
    requires Levels(net, loss, log0, rounds0, src, forward)
    modifies rx
    ensures rx.Valid(net) && newForward !! received
    ensures InRound(net, p, loss, log, flips, src, received + newForward, {}, newForward)
    ensures |log.sent| == |log0.sent| + transmissions
    ensures Noted(net, loss, log, rounds, seqno, c0, f0, rx.counter, rx.frac)
    ensures Levels(net, loss, log, rounds, src, newForward)
  {
    hide *;
    newForward, transmissions, log, flips := Round0(net, src, p, loss, forward, received, log0, flips0);
    GainedIsInNet0(net, p, loss, log, flips, src, received, newForward);
    rx.Receive(newForward, seqno, net);
    rounds := rounds0 + [log.sent - log0.sent];
    NotedGrows(net, loss, log0, log, rounds0, newForward, seqno, c0, f0, old(rx.counter), old(rx.frac), rx.counter,
               rx.frac);
    NextLevel(net, p, loss, log0, flips0, log, rounds0, src, forward, received, newForward, seqno, c0, f0,
              old(rx.counter), old(rx.frac));
    NextRound(net, p, loss, log, flips, src, received, newForward);
    newForward := newForward - received;
  }

  lemma GainedIsInNet0(net: Net, p: real, loss: bool, log: Log, flips: Flips, src: Node, received: set<Node>,
                       gained: set<Node>)
    requires InRound(net, p, loss, log, flips, src, received, gained, {})
    ensures gained <= net.nodes
  {
    assert gained <= received + gained;
  }

  lemma NextLevel(net: Net, p: real, loss: bool, log0: Log, flips0: Flips, log: Log, rounds: seq<set<Node>>,
                  src: Node, forward: set<Node>, received: set<Node>, gained: set<Node>, seqno: nat, c0: Counters,
                  f0: Fractions, c: Counters, f: Fractions)
    requires InRound(net, p, loss, log0, flips0, src, received, {}, forward)
    requires Noted(net, loss, log0, rounds, seqno, c0, f0, c, f) && Levels(net, loss, log0, rounds, src, forward)
    requires Gained(net, loss, log0, log, gained) && log.sent - log0.sent <= forward
    ensures Levels(net, loss, log, rounds + [log.sent - log0.sent], src, gained - received)
  {
    hide Delivered, FirstHeardInLast, Heard, HeardFrom, Shares, Levels, Gained, OneCoinEach;
    assert received + {} == received;
    LevelsGrow(net, loss, log0, log, rounds, src, forward, received, gained);
  }

  lemma FloodDone(net: Net, p: real, loss: bool, log: Log, flips: Flips, src: Node, received: set<Node>,
                  forward: set<Node>)
    requires InRound(net, p, loss, log, flips, src, received, {}, forward) && |forward| == 0
    ensures Consistent(net, loss, log, src, received) && OneCoinEach(p, log, flips, src, received)
  {
    assert received + {} == received && received - forward == received;
  }

  lemma LevelsDone(net: Net, loss: bool, log: Log, rounds: seq<set<Node>>, src: Node, forward: set<Node>)
    requires Levels(net, loss, log, rounds, src, forward)
    ensures ByLevel(net, loss, log, rounds, src)
  {
  }

  lemma Progress(net: Net, p: real, loss: bool, log: Log, flips: Flips, src: Node, before: set<Node>,
                 forward: set<Node>)
    requires InRound(net, p, loss, log, flips, src, before + forward, {}, forward) && before !! forward
    ensures |forward| > 0 ==> |net.nodes - (before + forward)| < |net.nodes - before|
    ensures |net.nodes - (before + forward)| <= |net.nodes - before|
  {
  }

  /** One packet of gossip0. */
  method Flood0(net: Net, src: Node, p: real, loss: bool, seqno: nat, rx: Receptions)
    returns (received: set<Node>, forwarded: nat, ghost log: Log, ghost rounds: seq<set<Node>>, ghost flips: Flips)
    requires net.Valid() && src in net.nodes && src !in net.out[src] && rx.Valid(net)
    modifies rx
    ensures Consistent(net, loss, log, src, received) && OneCoinEach(p, log, flips, src, received)
    ensures forwarded == |log.sent|
    ensures rx.Valid(net)
    ensures Noted(net, loss, log, rounds, seqno, old(rx.counter), old(rx.frac), rx.counter, rx.frac)
    ensures ByLevel(net, loss, log, rounds, src)
  {
    hide *;
    var forward;
    forward, log := Launch(net, src, p, loss, seqno, rx);
    flips, rounds := map[], [{src}];
    received := {src} + forward;
    forwarded := 1;
    while |forward| > 0
      invariant InRound(net, p, loss, log, flips, src, received, {}, forward)
      invariant forwarded == |log.sent| && rx.Valid(net)
      invariant Noted(net, loss, log, rounds, seqno, old(rx.counter), old(rx.frac), rx.counter, rx.frac)
      invariant Levels(net, loss, log, rounds, src, forward)
      decreases |net.nodes - received|, |forward|
    {
      ghost var before := received;
      var transmissions;
      forward, transmissions, log, rounds, flips :=
        Pass0(net, src, p, loss, seqno, rx, forward, received, log, rounds, flips, old(rx.counter), old(rx.frac));
      forwarded := forwarded + transmissions;
      received := received + forward;
      Progress(net, p, loss, log, flips, src, before, forward);
    }
    FloodDone(net, p, loss, log, flips, src, received, forward);
    LevelsDone(net, loss, log, rounds, src, forward);
  }

  datatype Run = Run(received: set<Node>, log: Log, rounds: seq<set<Node>>, flips: Flips)

  ghost predicate Flooded0(net: Net, p: real, loss: bool, src: Node, run: Run, forwarded: nat, fraction: real) {
    && Consistent(net, loss, run.log, src, run.received)
    && OneCoinEach(p, run.log, run.flips, src, run.received)
    && Shares(run.rounds, run.log.sent) && ByLevel(net, loss, run.log, run.rounds, src)
    && forwarded == |run.log.sent|
    && |net.nodes| > 0 && fraction == |run.received| as real / |net.nodes| as real
  }

  /** In how many rounds of all the floods n hears a transmission. */
  ghost function TotalHeard(net: Net, loss: bool, runs: seq<Run>, n: Node): nat {
    if runs == [] then 0 else
      var last := runs[|runs| - 1];
      TotalHeard(net, loss, runs[..|runs| - 1], n) + TimesHeard(net, loss, last.log, last.rounds, n)
  }

  /** A host's set of packets holds exactly those it heard, its counter says how often it heard one. */
  ghost predicate Tallied(net: Net, loss: bool, runs: seq<Run>, counter: Counters, frac: Fractions) {
    && counter.Keys == frac.Keys == net.nodes
    && (forall n, i | n in net.nodes && 0 <= i < |runs| :: i in frac[n] <==> Heard(net, loss, runs[i].log, n))
    && (forall n, i | n in net.nodes && i in frac[n] :: i < |runs|)
    && (forall n | n in net.nodes :: counter[n] == TotalHeard(net, loss, runs, n))
  }

  /** One flood per packet. */
  ghost predicate Floods(net: Net, p: real, loss: bool, src: Node, runs: seq<Run>, forwardedPkgs: seq<nat>,
                         fractions: seq<real>) {
    && |fractions| == |forwardedPkgs| == |runs|
    && forall i | 0 <= i < |runs| :: Flooded0(net, p, loss, src, runs[i], forwardedPkgs[i], fractions[i])
  }

  /** gossip0 for pkgNum packets. */
  method Gossip0(net: Net, src: Node, p: real, loss: bool, pkgNum: nat)
    returns (fractions: seq<real>, rx: Receptions, forwardedPkgs: seq<nat>, ghost runs: seq<Run>)
    requires net.Valid() && src in net.nodes && src !in net.out[src]
    ensures |runs| == pkgNum && Floods(net, p, loss, src, runs, forwardedPkgs, fractions)
    ensures Tallied(net, loss, runs, rx.counter, rx.frac)
  {
    hide *;
    fractions, forwardedPkgs, runs := [], [], [];
    rx := new Receptions(net);
    NothingFlooded(net, p, loss, src, rx.counter, rx.frac);
    for seqno := 0 to pkgNum
      invariant |runs| == seqno && rx.Valid(net)
      invariant Floods(net, p, loss, src, runs, forwardedPkgs, fractions)
      invariant Tallied(net, loss, runs, rx.counter, rx.frac)
    {
      ghost var c, f := rx.counter, rx.frac;
      var received, forwarded;
      ghost var log, rounds, flips;
      received, forwarded, log, rounds, flips := Flood0(net, src, p, loss, seqno, rx);
      ghost var run := Run(received, log, rounds, flips);
      TalliedMore(net, loss, runs, run, c, f, rx.counter, rx.frac);
      assert net.nodes != {};
      var fraction := |received| as real / |net.nodes| as real;
      IsFlooded0(net, p, loss, src, run, |runs|, forwarded, fraction, c, f, rx.counter, rx.frac);
      FloodsMore(net, p, loss, src, runs, forwardedPkgs, fractions, run, forwarded, fraction);
      fractions := fractions + [fraction];
      forwardedPkgs := forwardedPkgs + [forwarded];
      runs := runs + [run];
    }
  }

  lemma IsFlooded0(net: Net, p: real, loss: bool, src: Node, run: Run, seqno: nat, forwarded: nat, fraction: real,
                   c0: Counters, f0: Fractions, c: Counters, f: Fractions)
    requires Consistent(net, loss, run.log, src, run.received)
    requires OneCoinEach(p, run.log, run.flips, src, run.received)
    requires ByLevel(net, loss, run.log, run.rounds, src) && forwarded == |run.log.sent|
    requires Noted(net, loss, run.log, run.rounds, seqno, c0, f0, c, f)
    requires src in net.nodes && |net.nodes| > 0
    requires fraction == |run.received| as real / |net.nodes| as real
    ensures Flooded0(net, p, loss, src, run, forwarded, fraction)
  {
    hide Consistent, OneCoinEach, ByLevel, Shares, TimesHeard, Heard;
  }

  lemma NothingFlooded(net: Net, p: real, loss: bool, src: Node, counter: Counters, frac: Fractions)
    requires counter.Keys == frac.Keys == net.nodes && forall n | n in net.nodes :: counter[n] == 0 && frac[n] == {}
    ensures Tallied(net, loss, [], counter, frac) && Floods(net, p, loss, src, [], [], [])
  {
  }

  lemma FloodsMore(net: Net, p: real, loss: bool, src: Node, runs: seq<Run>, forwardedPkgs: seq<nat>,
                   fractions: seq<real>, run: Run, forwarded: nat, fraction: real)
    requires Floods(net, p, loss, src, runs, forwardedPkgs, fractions)
    requires Flooded0(net, p, loss, src, run, forwarded, fraction)
    ensures Floods(net, p, loss, src, runs + [run], forwardedPkgs + [forwarded], fractions + [fraction])
  {
    hide Flooded0;
  }

  lemma TalliedMore(net: Net, loss: bool, runs: seq<Run>, run: Run, c0: Counters, f0: Fractions, c: Counters,
                    f: Fractions)
    requires Tallied(net, loss, runs, c0, f0) && Noted(net, loss, run.log, run.rounds, |runs|, c0, f0, c, f)
    ensures Tallied(net, loss, runs + [run], c, f)
  {
    hide TimesHeard, TotalHeard, Heard, Shares;
    forall n | n in net.nodes ensures c[n] == TotalHeard(net, loss, runs + [run], n) {
      OneMoreRun(net, loss, runs, run, n);
    }
    forall n, i | n in net.nodes && 0 <= i <= |runs|
      ensures i in f[n] <==> Heard(net, loss, (runs + [run])[i].log, n)
    {
    }
  }

  lemma OneMoreRun(net: Net, loss: bool, runs: seq<Run>, run: Run, n: Node)
    ensures TotalHeard(net, loss, runs + [run], n) ==
      TotalHeard(net, loss, runs, n) + TimesHeard(net, loss, run.log, run.rounds, n)
  {
    assert (runs + [run])[..|runs|] == runs;
  }

  // ----- gossip3: losers are stored and, after a timeout, flip again -----

  ghost function Coins(flips: Flips, n: Node): seq<real> {
    if n in flips then flips[n] else []
  }

  ghost predicate AllLost(p: real, coins: seq<real>) {
    forall i | 0 <= i < |coins| :: !(p > coins[i])
  }

  ghost predicate WonLast(p: real, coins: seq<real>) {
    |coins| > 0 && p > coins[|coins| - 1] && AllLost(p, coins[..|coins| - 1])
  }

  /** Every receiver is in one place: it has transmitted, is about to flip a coin, or waits after losing one. */
  ghost predicate Places(received: set<Node>, sent: set<Node>, todo: set<Node>, waiting: set<Node>) {
    received == sent + todo + waiting && sent !! todo !! waiting
  }

  /** A transmitter won its last coin only, the others lost all of theirs; with m <= 0 nobody flips twice. */
  ghost predicate CoinsFit(p: real, m: int, flips: Flips, src: Node, received: set<Node>,
                           sent: set<Node>, todo: set<Node>, waiting: set<Node>)
  {
    && flips.Keys <= received - {src}
    && (forall n | n in sent && n != src :: WonLast(p, Coins(flips, n)))
    && (forall n | n in todo :: AllLost(p, Coins(flips, n)))
    && (forall n | n in waiting :: AllLost(p, Coins(flips, n)) && Coins(flips, n) != [])
    && (m <= 0 ==> forall n :: |Coins(flips, n)| <= (if n in todo then 0 else 1))
  }

  ghost predicate InRound3(net: Net, p: real, m: int, loss: bool, log: Log, flips: Flips, src: Node,
                           received: set<Node>, gained: set<Node>, todo: set<Node>, waiting: set<Node>)
  {
    && Consistent(net, loss, log, src, received + gained)
    && Places(received, log.sent, todo, waiting)
    && CoinsFit(p, m, flips, src, received, log.sent, todo, waiting)
  }

  lemma CoinLost(p: real, m: int, flips: Flips, src: Node, received: set<Node>,
                 sent: set<Node>, todo: set<Node>, waiting: set<Node>, n: Node, draw: real)
    requires CoinsFit(p, m, flips, src, received, sent, todo, waiting) && Places(received, sent, todo, waiting)
    requires n in todo && src in sent && !(p > draw)
    ensures CoinsFit(p, m, flips[n := Coins(flips, n) + [draw]], src, received, sent, todo - {n}, waiting + {n})
    ensures Places(received, sent, todo - {n}, waiting + {n})
  {
    var flips' := flips[n := Coins(flips, n) + [draw]];
    assert forall x | x != n :: Coins(flips', x) == Coins(flips, x);
  }

  lemma CoinWon(p: real, m: int, flips: Flips, src: Node, received: set<Node>,
                sent: set<Node>, todo: set<Node>, waiting: set<Node>, n: Node, draw: real)
    requires CoinsFit(p, m, flips, src, received, sent, todo, waiting) && Places(received, sent, todo, waiting)
    requires n in todo && src in sent && p > draw
    ensures CoinsFit(p, m, flips[n := Coins(flips, n) + [draw]], src, received, sent + {n}, todo - {n}, waiting)
    ensures Places(received, sent + {n}, todo - {n}, waiting)
  {
    var flips' := flips[n := Coins(flips, n) + [draw]];
    assert forall x | x != n :: Coins(flips', x) == Coins(flips, x);
    var coins := Coins(flips', n);
    assert coins[..|coins| - 1] == Coins(flips, n);
  }

  lemma Wins3(net: Net, p: real, m: int, loss: bool, log: Log, flips: Flips, src: Node, received: set<Node>,
              gained: set<Node>, todo: set<Node>, waiting: set<Node>, n: Node, draw: real,
              bond: map<(Node, Node), real>, hit: set<Node>)
    requires InRound3(net, p, m, loss, log, flips, src, received, gained, todo, waiting)
    requires n in todo && p > draw && Transmission(net, loss, n, bond, hit)
    ensures |AddSender(log, n, bond).sent| == |log.sent| + 1
    ensures InRound3(net, p, m, loss, AddSender(log, n, bond), flips[n := Coins(flips, n) + [draw]], src, received,
                     gained + hit, todo - {n}, waiting)
    ensures Gained(net, loss, log, AddSender(log, n, bond), hit)
  {
    hide CoinsFit, Coins, Transmission;
    TransmissionExtends(net, loss, log, src, received + gained, n, bond, hit);
    assert received + gained + hit == received + (gained + hit);
    CoinWon(p, m, flips, src, received, log.sent, todo, waiting, n, draw);
  }

  lemma Loses3(net: Net, p: real, m: int, loss: bool, log: Log, flips: Flips, src: Node, received: set<Node>,
               gained: set<Node>, todo: set<Node>, waiting: set<Node>, lost: set<Node>, n: Node, draw: real)
    requires InRound3(net, p, m, loss, log, flips, src, received, gained, todo, waiting + lost)
    requires n in todo && !(p > draw)
    ensures InRound3(net, p, m, loss, log, flips[n := Coins(flips, n) + [draw]], src, received,
                     gained, todo - {n}, waiting + (lost + {n}))
  {
    CoinLost(p, m, flips, src, received, log.sent, todo, waiting + lost, n, draw);
    assert waiting + lost + {n} == waiting + (lost + {n});
  }

  lemma NextRound3(net: Net, p: real, m: int, loss: bool, log: Log, flips: Flips, src: Node, received: set<Node>,
                   gained: set<Node>, waiting: set<Node>)
    requires InRound3(net, p, m, loss, log, flips, src, received, gained, {}, waiting)
    ensures InRound3(net, p, m, loss, log, flips, src, received + (gained - received),
                     {}, gained - received, waiting)
  {
    hide Consistent;
    assert received + (gained - received) + {} == received + gained;
    assert forall n | n in gained - received :: n !in flips;
  }

  lemma First3(net: Net, p: real, m: int, loss: bool, src: Node, log: Log, forward: set<Node>)
    requires InRound(net, p, loss, log, map[], src, {src} + forward, {}, forward)
    ensures InRound3(net, p, m, loss, log, map[], src, {src} + forward, {}, forward, {})
  {
  }

  function StoredCount(stored: map<Node, nat>, n: Node): nat {
    if n in stored then stored[n] + 1 else 0
  }

  ghost predicate AllZero(stored: map<Node, nat>) {
    forall h | h in stored :: stored[h] == 0
  }

  /** Coins were only added since, and each of these hosts has lost one. */
  ghost predicate Flipped(flips0: Flips, flips: Flips, lost: set<Node>) {
    && (forall n :: Coins(flips0, n) <= Coins(flips, n))
    && (forall n | n in lost :: Coins(flips0, n) < Coins(flips, n))
  }

  lemma NothingFlipped(flips: Flips)
    ensures Flipped(flips, flips, {})
  {
  }

  lemma FlippedMore(flips0: Flips, flips1: Flips, flips2: Flips, a: set<Node>, b: set<Node>)
    requires Flipped(flips0, flips1, a) && Flipped(flips1, flips2, b)
    ensures Flipped(flips0, flips2, a + b)
  {
    hide Coins;
    forall n ensures Coins(flips0, n) <= Coins(flips2, n) && (n in a + b ==> Coins(flips0, n) < Coins(flips2, n)) {
      assert Coins(flips0, n) <= Coins(flips1, n) && Coins(flips1, n) <= Coins(flips2, n);
    }
  }

  lemma OneFlip(flips: Flips, n: Node, draw: real, lost: set<Node>)
    requires lost <= {n}
    ensures Flipped(flips, flips[n := Coins(flips, n) + [draw]], lost)
  {
    var flips' := flips[n := Coins(flips, n) + [draw]];
    assert forall x | x != n :: Coins(flips', x) == Coins(flips, x);
  }

  /** The for loop of gossip3: winners transmit, losers are stored. No loser is ever stored twice. */
  method Round3(net: Net, src: Node, p: real, ghost m: int, loss: bool, forward: set<Node>, stored0: map<Node, nat>,
                ghost received: set<Node>, ghost waiting0: set<Node>, ghost log0: Log, ghost flips0: Flips)
    returns (newForward: set<Node>, stored: map<Node, nat>, transmissions: nat, ghost lost: set<Node>,
        ghost log: Log, ghost flips: Flips)
    requires net.Valid() && AllZero(stored0) && stored0.Keys <= waiting0
    requires InRound3(net, p, m, loss, log0, flips0, src, received, {}, forward, waiting0)
    ensures AllZero(stored) && stored.Keys == stored0.Keys + lost
    ensures InRound3(net, p, m, loss, log, flips, src, received, newForward, {}, waiting0 + lost)
    ensures |log.sent| == |log0.sent| + transmissions
    ensures Gained(net, loss, log0, log, newForward) && Flipped(flips0, flips, lost)
  {
    hide *;
    Start3(net, p, m, loss, log0, flips0, src, received, forward, waiting0);
    newForward, stored, transmissions, lost, log, flips := {}, stored0, 0, {}, log0, flips0;
    NothingFlipped(flips0);
    var todo := forward;
    while todo != {}
      invariant AllZero(stored) && stored.Keys == stored0.Keys + lost
      invariant InRound3(net, p, m, loss, log, flips, src, received, newForward, todo, waiting0 + lost)
      invariant |log.sent| == |log0.sent| + transmissions
      invariant Gained(net, loss, log0, log, newForward) && Flipped(flips0, flips, lost)
    {
      var nxt :| nxt in todo;
      InRound3Facts(net, p, m, loss, log, flips, src, received, newForward, todo, waiting0 + lost, nxt);
      var draw := R();
      if p > draw {
        var n, bond := Transmit(nxt, net, loss);
        Wins3(net, p, m, loss, log, flips, src, received, newForward, todo, waiting0 + lost, nxt, draw, bond, n);
        GainedMore(net, loss, log0, log, AddSender(log, nxt, bond), newForward, n);
        log := AddSender(log, nxt, bond);
        transmissions := transmissions + 1;
        newForward := newForward + n;
        OneMoreFlip(flips0, flips, lost, nxt, draw, {});
      } else {
        Loses3(net, p, m, loss, log, flips, src, received, newForward, todo, waiting0, lost, nxt, draw);
        StoredAfresh(stored, nxt, stored0.Keys, lost, waiting0);
        stored := stored[nxt := StoredCount(stored, nxt)];
        OneMoreFlip(flips0, flips, lost, nxt, draw, {nxt});
        lost := lost + {nxt};
      }
      flips := flips[nxt := Coins(flips, nxt) + [draw]];
      todo := todo - {nxt};
    }
  }

  lemma OneMoreFlip(flips0: Flips, flips: Flips, lost: set<Node>, n: Node, draw: real, more: set<Node>)
    requires Flipped(flips0, flips, lost) && more <= {n}
    ensures Flipped(flips0, flips[n := Coins(flips, n) + [draw]], lost + more)
    ensures lost + {} == lost
  {
    hide Flipped, Coins;
    OneFlip(flips, n, draw, more);
    FlippedMore(flips0, flips, flips[n := Coins(flips, n) + [draw]], lost, more);
  }

  lemma StoredAfresh(stored: map<Node, nat>, n: Node, before: set<Node>, lost: set<Node>, waiting: set<Node>)
    requires AllZero(stored) && stored.Keys == before + lost && before <= waiting && n !in waiting + lost
    ensures var stored' := stored[n := StoredCount(stored, n)];
      AllZero(stored') && stored'.Keys == before + (lost + {n})
  {
  }

  lemma Start3(net: Net, p: real, m: int, loss: bool, log: Log, flips: Flips, src: Node,
               received: set<Node>, todo: set<Node>, waiting: set<Node>)
    requires InRound3(net, p, m, loss, log, flips, src, received, {}, todo, waiting)
    ensures InRound3(net, p, m, loss, log, flips, src, received, {}, todo, waiting + {})
    ensures Gained(net, loss, log, log, {})
  {
    NothingGained(net, loss, log);
    assert waiting + {} == waiting;
  }

  lemma InRound3Facts(net: Net, p: real, m: int, loss: bool, log: Log, flips: Flips, src: Node,
                      received: set<Node>, gained: set<Node>, todo: set<Node>, waiting: set<Node>, n: Node)
    requires InRound3(net, p, m, loss, log, flips, src, received, gained, todo, waiting) && n in todo
    ensures n in net.nodes && n !in waiting && src in log.sent
  {
  }

  lemma NothingGained(net: Net, loss: bool, log: Log)
    ensures Gained(net, loss, log, log, {})
  {
    assert log.sent - log.sent == {};
  }

  lemma GainedMore(net: Net, loss: bool, log0: Log, log1: Log, log2: Log, a: set<Node>, b: set<Node>)
    requires Gained(net, loss, log0, log1, a) && Gained(net, loss, log1, log2, b)
    ensures Gained(net, loss, log0, log2, a + b)
  {
    hide Delivered;
    forall v ensures v in a + b <==> HeardFrom(net, loss, log2, log2.sent - log0.sent, v) {
      if v in a {
        var u :| u in log1.sent - log0.sent && Delivered(net, loss, log1, u, v);
        assert u in log2.sent - log0.sent && Delivered(net, loss, log2, u, v);
      }
      if v in b {
        var u :| u in log2.sent - log1.sent && Delivered(net, loss, log2, u, v);
        assert u in log2.sent - log0.sent;
      }
      if u :| u in log2.sent - log0.sent && Delivered(net, loss, log2, u, v) {
        assert u in log1.sent ==> u in log1.sent - log0.sent && Delivered(net, loss, log1, u, v);
        assert u !in log1.sent ==> u in log2.sent - log1.sent;
      }
    }
  }

  /** All rounds up to the next timeout, for a packet with the hosts stored so far. */
  method Rounds3(net: Net, src: Node, p: real, ghost m: int, loss: bool, seqno: nat, rx: Receptions,
                 forward0: set<Node>, stored0: map<Node, nat>, received0: set<Node>,
                 ghost waiting0: set<Node>, ghost log0: Log, ghost rounds0: seq<set<Node>>, ghost flips0: Flips,
                 ghost c0: Counters, ghost f0: Fractions)
    returns (received: set<Node>, stored: map<Node, nat>, transmissions: nat,
             ghost waiting: set<Node>, ghost log: Log, ghost rounds: seq<set<Node>>, ghost flips: Flips)
    requires net.Valid() && rx.Valid(net) && StoredFit(m, stored0, waiting0)
    requires InRound3(net, p, m, loss, log0, flips0, src, received0, {}, forward0, waiting0)
    requires Noted(net, loss, log0, rounds0, seqno, c0, f0, rx.counter, rx.frac)
    modifies rx
    ensures rx.Valid(net) && StoredFit(m, stored, waiting)
    ensures InRound3(net, p, m, loss, log, flips, src, received, {}, {}, waiting)
    ensures |log.sent| == |log0.sent| + transmissions
    ensures Noted(net, loss, log, rounds, seqno, c0, f0, rx.counter, rx.frac)
    ensures Flipped(flips0, flips, waiting - waiting0) && waiting0 <= waiting
  {
    hide *;
    NothingFlipped(flips0);
    assert waiting0 - waiting0 == {};
    var forward := forward0;
    received, stored, transmissions, waiting, log, rounds, flips :=
      received0, stored0, 0, waiting0, log0, rounds0, flips0;
    while |forward| > 0
      invariant rx.Valid(net) && StoredFit(m, stored, waiting)
      invariant InRound3(net, p, m, loss, log, flips, src, received, {}, forward, waiting)
      invariant |log.sent| == |log0.sent| + transmissions
      invariant Noted(net, loss, log, rounds, seqno, c0, f0, rx.counter, rx.frac)
      invariant Flipped(flips0, flips, waiting - waiting0) && waiting0 <= waiting
      decreases |net.nodes - received|, |forward|
    {
      ghost var before, flips1, waiting1 := received, flips, waiting;
      var more;
      forward, stored, more, waiting, log, rounds, flips :=
        Pass3(net, src, p, m, loss, seqno, rx, forward, stored, received, waiting, log, rounds, flips, c0, f0);
      FlippedMore(flips0, flips1, flips, waiting1 - waiting0, waiting - waiting1);
      assert waiting1 - waiting0 + (waiting - waiting1) == waiting - waiting0;
      transmissions := transmissions + more;
      received := received + forward;
      Progress3(net, p, m, loss, log, flips, src, before, forward, waiting);
    }
    NoForward3(forward);
  }

  lemma NoForward3(forward: set<Node>)
    requires |forward| == 0
    ensures forward == {}
  {
  }

  /** The body of the inner loop: coins, receive, and the receivers that are new. */
  method Pass3(net: Net, src: Node, p: real, ghost m: int, loss: bool, seqno: nat, rx: Receptions,
               forward: set<Node>, stored0: map<Node, nat>, received: set<Node>,
               ghost waiting0: set<Node>, ghost log0: Log, ghost rounds0: seq<set<Node>>, ghost flips0: Flips,
               ghost c0: Counters, ghost f0: Fractions)
    returns (newForward: set<Node>, stored: map<Node, nat>, transmissions: nat,
             ghost waiting: set<Node>, ghost log: Log, ghost rounds: seq<set<Node>>, ghost flips: Flips)
    requires net.Valid() && rx.Valid(net) && StoredFit(m, stored0, waiting0)
    requires InRound3(net, p, m, loss, log0, flips0, src, received, {}, forward, waiting0)
    requires Noted(net, loss, log0, rounds0, seqno, c0, f0, rx.counter, rx.frac)
    modifies rx
    ensures rx.Valid(net) && StoredFit(m, stored, waiting) && newForward !! received
    ensures InRound3(net, p, m, loss, log, flips, src, received + newForward, {}, newForward, waiting)
    ensures |log.sent| == |log0.sent| + transmissions
    ensures Noted(net, loss, log, rounds, seqno, c0, f0, rx.counter, rx.frac)
    ensures Flipped(flips0, flips, waiting - waiting0) && waiting0 <= waiting
  {
    hide *;
    ghost var lost;
    assert AllZero(stored0) && stored0.Keys <= waiting0 by { StoredFitFacts(m, stored0, waiting0); }
    newForward, stored, transmissions, lost, log, flips :=
      Round3(net, src, p, m, loss, forward, stored0, received, waiting0, log0, flips0);
    waiting := waiting0 + lost;
    FlippedFewer(flips0, flips, lost, waiting - waiting0);
    StoredFitGrows(m, stored0, waiting0, stored, lost);
    GainedIsInNet(net, p, m, loss, log, flips, src, received, newForward, waiting);
    rx.Receive(newForward, seqno, net);
    rounds := rounds0 + [log.sent - log0.sent];
    NotedGrows(net, loss, log0, log, rounds0, newForward, seqno, c0, f0, old(rx.counter), old(rx.frac), rx.counter,
               rx.frac);
    NextRound3(net, p, m, loss, log, flips, src, received, newForward, waiting);
    newForward := newForward - received;
  }

  lemma FlippedFewer(flips0: Flips, flips: Flips, lost: set<Node>, fewer: set<Node>)
    requires Flipped(flips0, flips, lost) && fewer <= lost
    ensures Flipped(flips0, flips, fewer)
  {
  }

  /** stored holds, each with count 0, hosts that wait for the timeout; with m >= 1 all of them. */
  ghost predicate StoredFit(m: int, stored: map<Node, nat>, waiting: set<Node>) {
    AllZero(stored) && stored.Keys <= waiting && (m >= 1 ==> stored.Keys == waiting)
  }

  lemma StoredFitFacts(m: int, stored: map<Node, nat>, waiting: set<Node>)
    requires StoredFit(m, stored, waiting)
    ensures AllZero(stored) && stored.Keys <= waiting
  {
  }

  lemma StoredFitGrows(m: int, stored0: map<Node, nat>, waiting0: set<Node>, stored: map<Node, nat>, lost: set<Node>)
    requires StoredFit(m, stored0, waiting0) && AllZero(stored) && stored.Keys == stored0.Keys + lost
    ensures StoredFit(m, stored, waiting0 + lost)
  {
  }

  lemma GainedIsInNet(net: Net, p: real, m: int, loss: bool, log: Log, flips: Flips, src: Node,
                      received: set<Node>, gained: set<Node>, waiting: set<Node>)
    requires InRound3(net, p, m, loss, log, flips, src, received, gained, {}, waiting)
    ensures gained <= net.nodes
  {
    assert gained <= received + gained;
  }

  lemma Progress3(net: Net, p: real, m: int, loss: bool, log: Log, flips: Flips, src: Node,
                  before: set<Node>, forward: set<Node>, waiting: set<Node>)
    requires InRound3(net, p, m, loss, log, flips, src, before + forward, {}, forward, waiting) && before !! forward
    ensures |forward| > 0 ==> |net.nodes - (before + forward)| < |net.nodes - before|
    ensures |net.nodes - (before + forward)| <= |net.nodes - before|
  {
  }

  /** The coins that were lost: whose, and the how many-th. */
  ghost function LostCoins(p: real, flips: Flips): set<(Node, nat)> {
    set n, i: nat | n in flips && i < |flips[n]| && !(p > flips[n][i]) :: (n, i)
  }

  lemma LostCoinsGrow(p: real, flips0: Flips, flips: Flips, lost: set<Node>, n: Node)
    requires Flipped(flips0, flips, lost) && n in lost && n in flips && AllLost(p, Coins(flips, n))
    ensures |LostCoins(p, flips)| > |LostCoins(p, flips0)|
  {
    forall x, i: nat | (x, i) in LostCoins(p, flips0) ensures (x, i) in LostCoins(p, flips) {
      assert Coins(flips0, x) <= Coins(flips, x);
    }
    assert Coins(flips0, n) < Coins(flips, n);
    var i: nat := |Coins(flips, n)| - 1;
    assert (n, i) in LostCoins(p, flips) && (n, i) !in LostCoins(p, flips0);
    SmallerSet(LostCoins(p, flips0), LostCoins(p, flips));
  }

  lemma SmallerSet<T>(A: set<T>, B: set<T>)
    requires A < B
    ensures |A| < |B|
  {
    assert B == A + (B - A);
  }

  /** Some host waits after the rounds of a timeout, so a coin was lost in them. */
  lemma TimeoutCostsCoin(net: Net, p: real, m: int, loss: bool, log: Log, flips0: Flips, flips: Flips, src: Node,
                         received: set<Node>, stored: map<Node, nat>, waiting0: set<Node>, waiting: set<Node>)
    requires InRound3(net, p, m, loss, log, flips, src, received, {}, {}, waiting) && StoredFit(m, stored, waiting)
    requires m >= 1 && waiting0 == {} && Flipped(flips0, flips, waiting - waiting0) && Retried(stored, m) != {}
    ensures |LostCoins(p, flips)| > |LostCoins(p, flips0)|
  {
    var n :| n in Retried(stored, m);
    assert n in waiting - waiting0;
    LostCoinsGrow(p, flips0, flips, waiting - waiting0, n);
  }

  /** Nothing is left to do exactly if all receivers have transmitted. */
  lemma EndedIffAllSent(received: set<Node>, sent: set<Node>, forward: set<Node>, stored: map<Node, nat>, m: int,
                        waiting: set<Node>)
    requires Places(received, sent, forward, waiting) && StoredFit(m, stored, waiting) && m >= 1
    ensures |forward| == 0 && |stored| == 0 <==> sent == received
  {
    assert |stored| == 0 <==> stored.Keys == {} by {
      assert |stored| == |stored.Keys|;
    }
  }

  /**
   One packet of gossip3, over at most maxTimeouts timeouts. ended tells whether the loop ran out of work;
   with coins that never win it need not.
   */
  method Flood3(net: Net, src: Node, p: real, m: int, loss: bool, seqno: nat, rx: Receptions, maxTimeouts: nat)
    returns (received: set<Node>, forwarded: nat, ended: bool, ghost log: Log, ghost rounds: seq<set<Node>>,
             ghost flips: Flips)
    requires net.Valid() && src in net.nodes && src !in net.out[src] && rx.Valid(net)
    modifies rx
    ensures Consistent(net, loss, log, src, received) && forwarded == |log.sent|
    ensures rx.Valid(net) && Noted(net, loss, log, rounds, seqno, old(rx.counter), old(rx.frac), rx.counter, rx.frac)
    ensures ended && m >= 1 ==> log.sent == received && forwarded == |received|
    ensures ended && m >= 1 ==> forall n | n in received && n != src :: WonLast(p, Coins(flips, n))
    ensures m >= 1 ==> (ended <==> log.sent == received)
    ensures m <= 0 ==> (ended <==> maxTimeouts >= 1 || received == {src})
    ensures !ended ==> |LostCoins(p, flips)| >= maxTimeouts
    ensures ended && m <= 0 ==> OneCoinEach(p, log, flips, src, received)
  {
    hide *;
    var forward;
    forward, log := Launch(net, src, p, loss, seqno, rx);
    First3(net, p, m, loss, src, log, forward);
    flips, rounds, received, forwarded := map[], [{src}], {src} + forward, 1;
    var stored: map<Node, nat>, timeouts: nat := map[], 0;
    ghost var waiting: set<Node> := {};
    EmptyStoredFits(m);
    while (|forward| > 0 || |stored| > 0) && timeouts < maxTimeouts
      invariant rx.Valid(net) && StoredFit(m, stored, waiting)
      invariant InRound3(net, p, m, loss, log, flips, src, received, {}, forward, waiting)
      invariant forwarded == |log.sent|
      invariant m <= 0 && timeouts > 0 ==> forward == {} && stored == map[]
      invariant m >= 1 ==> waiting == {}
      invariant m >= 1 && forward != {} ==> |LostCoins(p, flips)| >= timeouts
      invariant stored == map[] && timeouts <= maxTimeouts
      invariant timeouts == 0 ==> received == {src} + forward && src !in forward
      invariant Noted(net, loss, log, rounds, seqno, old(rx.counter), old(rx.frac), rx.counter, rx.frac)
      decreases maxTimeouts - timeouts
    {
      var transmissions;
      ghost var flips0, waiting0 := flips, waiting;
      assert m >= 1 ==> |forward| > 0 && forward != {};
      received, stored, transmissions, waiting, log, rounds, flips :=
        Rounds3(net, src, p, m, loss, seqno, rx, forward, stored, received, waiting, log, rounds, flips,
                old(rx.counter), old(rx.frac));
      forwarded := forwarded + transmissions;
      // simulate timeout
      forward := Retried(stored, m);
      if m >= 1 && forward != {} {
        TimeoutCostsCoin(net, p, m, loss, log, flips0, flips, src, received, stored, waiting0, waiting);
      }
      AtTimeout(net, p, m, loss, log, flips, src, received, stored, waiting);
      waiting := if m >= 1 then {} else waiting;
      stored := map[];
      timeouts := timeouts + 1;
    }
    ended := |forward| == 0 && |stored| == 0;
    Settled(net, p, m, loss, log, flips, src, received, forward, waiting);
    if m >= 1 {
      EndedIffAllSent(received, log.sent, forward, stored, m, waiting);
    }
    if ended {
      NothingLeft(m, forward, stored, waiting);
      if m >= 1 {
        EndedRetrying(p, m, flips, src, received, log.sent);
      } else {
        EndedOnce(p, m, log, flips, src, received, waiting);
      }
    }
  }

  /** What a flood of gossip3 that ended has done. */
  ghost predicate Flooded3(net: Net, p: real, m: int, loss: bool, src: Node, run: Run, forwarded: nat,
                           fraction: real) {
    && Consistent(net, loss, run.log, src, run.received) && Shares(run.rounds, run.log.sent)
    && forwarded == |run.log.sent|
    && (m >= 1 ==> run.log.sent == run.received &&
                   forall n | n in run.received && n != src :: WonLast(p, Coins(run.flips, n)))
    && (m <= 0 ==> OneCoinEach(p, run.log, run.flips, src, run.received))
    && |net.nodes| > 0 && fraction == |run.received| as real / |net.nodes| as real
  }

  ghost predicate Floods3(net: Net, p: real, m: int, loss: bool, src: Node, runs: seq<Run>, forwardedPkgs: seq<nat>,
                          fractions: seq<real>) {
    && |fractions| == |forwardedPkgs| <= |runs|
    && forall i | 0 <= i < |fractions| :: Flooded3(net, p, m, loss, src, runs[i], forwardedPkgs[i], fractions[i])
  }

  /** A flood that was given up: every timeout has cost a lost coin, and some receiver has still not transmitted. */
  ghost predicate Unfinished3(net: Net, p: real, m: int, loss: bool, src: Node, run: Run, maxTimeouts: nat) {
    && Consistent(net, loss, run.log, src, run.received) && Shares(run.rounds, run.log.sent)
    && (m >= 1 ==> run.log.sent != run.received)
    && (m <= 0 ==> maxTimeouts == 0 && run.received != {src})
    && |LostCoins(p, run.flips)| >= maxTimeouts
  }

  /** gossip3 for pkgNum packets, unless one of them needs more than maxTimeouts timeouts; that one comes last. */
  method Gossip3(net: Net, src: Node, p: real, m: int, loss: bool, pkgNum: nat, maxTimeouts: nat)
    returns (fractions: seq<real>, rx: Receptions, forwardedPkgs: seq<nat>, ended: bool, ghost runs: seq<Run>)
    requires net.Valid() && src in net.nodes && src !in net.out[src]
    ensures Floods3(net, p, m, loss, src, runs, forwardedPkgs, fractions)
    ensures Tallied(net, loss, runs, rx.counter, rx.frac)
    ensures if ended then |fractions| == |runs| == pkgNum else |fractions| + 1 == |runs| <= pkgNum
    ensures m <= 0 && maxTimeouts >= 1 ==> ended
    ensures !ended ==> Unfinished3(net, p, m, loss, src, runs[|runs| - 1], maxTimeouts)
  {
    hide *;
    fractions, forwardedPkgs, ended, runs := [], [], true, [];
    rx := new Receptions(net);
    NothingFlooded3(net, p, m, loss, src, rx.counter, rx.frac);
    for seqno := 0 to pkgNum
      invariant |fractions| == |runs| == seqno && rx.Valid(net) && ended
      invariant Floods3(net, p, m, loss, src, runs, forwardedPkgs, fractions)
      invariant Tallied(net, loss, runs, rx.counter, rx.frac)
    {
      ghost var c, f := rx.counter, rx.frac;
      var received, forwarded;
      ghost var log, rounds, flips;
      received, forwarded, ended, log, rounds, flips := Flood3(net, src, p, m, loss, seqno, rx, maxTimeouts);
      ghost var run := Run(received, log, rounds, flips);
      TalliedMore(net, loss, runs, run, c, f, rx.counter, rx.frac);
      if !ended {
        UnfinishedLast(net, p, m, loss, src, runs, forwardedPkgs, fractions, run);
        IsUnfinished3(net, p, m, loss, src, run, |runs|, maxTimeouts, c, f, rx.counter, rx.frac);
        runs := runs + [run];
        return;
      }
      assert net.nodes != {};
      var fraction := |received| as real / |net.nodes| as real;
      IsFlooded3(net, p, m, loss, src, run, |runs|, forwarded, fraction, c, f, rx.counter, rx.frac);
      Floods3More(net, p, m, loss, src, runs, forwardedPkgs, fractions, run, forwarded, fraction);
      fractions := fractions + [fraction];
      forwardedPkgs := forwardedPkgs + [forwarded];
      runs := runs + [run];
    }
  }

  lemma NothingFlooded3(net: Net, p: real, m: int, loss: bool, src: Node, counter: Counters, frac: Fractions)
    requires counter.Keys == frac.Keys == net.nodes && forall n | n in net.nodes :: counter[n] == 0 && frac[n] == {}
    ensures Tallied(net, loss, [], counter, frac) && Floods3(net, p, m, loss, src, [], [], [])
  {
  }

  lemma IsFlooded3(net: Net, p: real, m: int, loss: bool, src: Node, run: Run, seqno: nat, forwarded: nat,
                   fraction: real, c0: Counters, f0: Fractions, c: Counters, f: Fractions)
    requires Consistent(net, loss, run.log, src, run.received) && forwarded == |run.log.sent|
    requires m >= 1 ==> run.log.sent == run.received &&
                        forall n | n in run.received && n != src :: WonLast(p, Coins(run.flips, n))
    requires m <= 0 ==> OneCoinEach(p, run.log, run.flips, src, run.received)
    requires Noted(net, loss, run.log, run.rounds, seqno, c0, f0, c, f)
    requires |net.nodes| > 0 && fraction == |run.received| as real / |net.nodes| as real
    ensures Flooded3(net, p, m, loss, src, run, forwarded, fraction)
  {
    hide Consistent, OneCoinEach, Shares, TimesHeard, Heard, WonLast;
  }

  lemma IsUnfinished3(net: Net, p: real, m: int, loss: bool, src: Node, run: Run, seqno: nat, maxTimeouts: nat,
                      c0: Counters, f0: Fractions, c: Counters, f: Fractions)
    requires Consistent(net, loss, run.log, src, run.received)
    requires m >= 1 ==> run.log.sent != run.received
    requires m <= 0 ==> maxTimeouts == 0 && run.received != {src}
    requires |LostCoins(p, run.flips)| >= maxTimeouts
    requires Noted(net, loss, run.log, run.rounds, seqno, c0, f0, c, f)
    ensures Unfinished3(net, p, m, loss, src, run, maxTimeouts)
  {
    hide Consistent, Shares, TimesHeard, Heard, LostCoins;
  }

  lemma Floods3More(net: Net, p: real, m: int, loss: bool, src: Node, runs: seq<Run>, forwardedPkgs: seq<nat>,
                    fractions: seq<real>, run: Run, forwarded: nat, fraction: real)
    requires Floods3(net, p, m, loss, src, runs, forwardedPkgs, fractions) && |fractions| == |runs|
    requires Flooded3(net, p, m, loss, src, run, forwarded, fraction)
    ensures Floods3(net, p, m, loss, src, runs + [run], forwardedPkgs + [forwarded], fractions + [fraction])
  {
    hide Flooded3;
  }

  lemma UnfinishedLast(net: Net, p: real, m: int, loss: bool, src: Node, runs: seq<Run>, forwardedPkgs: seq<nat>,
                       fractions: seq<real>, run: Run)
    requires Floods3(net, p, m, loss, src, runs, forwardedPkgs, fractions)
    ensures Floods3(net, p, m, loss, src, runs + [run], forwardedPkgs, fractions)
  {
    hide Flooded3;
  }

  /** The stored hosts whose count is below m flip again. */
  function Retried(stored: map<Node, nat>, m: int): set<Node> {
    set h | h in stored && stored[h] < m
  }

  /** No host is stored twice between two timeouts, so the limit decides by its sign: all flip again, or none. */
  lemma LimitIsItsSign(stored: map<Node, nat>, m: int)
    requires AllZero(stored)
    ensures Retried(stored, m) == if m >= 1 then stored.Keys else {}
  {
  }

  lemma EmptyStoredFits(m: int)
    ensures StoredFit(m, map[], {})
  {
  }

  lemma AtTimeout(net: Net, p: real, m: int, loss: bool, log: Log, flips: Flips, src: Node,
                  received: set<Node>, stored: map<Node, nat>, waiting: set<Node>)
    requires InRound3(net, p, m, loss, log, flips, src, received, {}, {}, waiting) && StoredFit(m, stored, waiting)
    ensures InRound3(net, p, m, loss, log, flips, src, received, {}, Retried(stored, m), if m >= 1 then {} else waiting)
    ensures StoredFit(m, map[], if m >= 1 then {} else waiting)
    ensures m <= 0 ==> Retried(stored, m) == {}
  {
  }

  lemma Settled(net: Net, p: real, m: int, loss: bool, log: Log, flips: Flips, src: Node,
                received: set<Node>, forward: set<Node>, waiting: set<Node>)
    requires InRound3(net, p, m, loss, log, flips, src, received, {}, forward, waiting)
    ensures Consistent(net, loss, log, src, received) && src in log.sent
    ensures Places(received, log.sent, forward, waiting)
    ensures CoinsFit(p, m, flips, src, received, log.sent, forward, waiting)
  {
    assert received + {} == received;
  }

  lemma NothingLeft(m: int, forward: set<Node>, stored: map<Node, nat>, waiting: set<Node>)
    requires StoredFit(m, stored, waiting) && |forward| == 0 && |stored| == 0
    ensures forward == {} && (m >= 1 ==> waiting == {})
  {
    assert stored == map[];
  }

  lemma EndedRetrying(p: real, m: int, flips: Flips, src: Node, received: set<Node>, sent: set<Node>)
    requires CoinsFit(p, m, flips, src, received, sent, {}, {}) && Places(received, sent, {}, {})
    ensures sent == received
    ensures forall n | n in received && n != src :: WonLast(p, Coins(flips, n))
  {
  }

  lemma EndedOnce(p: real, m: int, log: Log, flips: Flips, src: Node, received: set<Node>, waiting: set<Node>)
    requires CoinsFit(p, m, flips, src, received, log.sent, {}, waiting) && Places(received, log.sent, {}, waiting)
    requires m <= 0 && src in log.sent
    ensures OneCoinEach(p, log, flips, src, received)
  {
  }

  /** gossip3 with retries and without loss reaches everything that src has a path to. */
  lemma RetriesReachEverything(net: Net, log: Log, src: Node, R: set<Node>)
    requires Consistent(net, false, log, src, R) && log.sent == R
    ensures forall v :: v in R <==> exists t :: NetTrail(net, src, t) && t[|t| - 1] == v
  {
    forall v | v in R
      ensures exists t :: NetTrail(net, src, t) && t[|t| - 1] == v
    {
      var t :| Trail(net, false, log, t) && t[0] == src && t[|t| - 1] == v;
      forall i | 0 <= i < |t| - 1 ensures Linked(net, t[i], t[i + 1]) {
        assert Delivered(net, false, log, t[i], t[i + 1]);
      }
    }
    forall t | NetTrail(net, src, t)
      ensures t[|t| - 1] in R
    {
      NetTrailStays(net, log, src, R, t);
    }
  }

  ghost predicate Linked(net: Net, u: Node, v: Node) {
    u in net.out && v in net.out[u]
  }

  ghost predicate NetTrail(net: Net, src: Node, t: seq<Node>) {
    |t| > 0 && t[0] == src && forall i | 0 <= i < |t| - 1 :: Linked(net, t[i], t[i + 1])
  }

  lemma {:induction false} NetTrailStays(net: Net, log: Log, src: Node, R: set<Node>, t: seq<Node>)
    requires Consistent(net, false, log, src, R) && log.sent == R && NetTrail(net, src, t)
    ensures t[|t| - 1] in R
    decreases |t|
  {
    if |t| > 1 {
      assert NetTrail(net, src, t[..|t| - 1]);
      NetTrailStays(net, log, src, R, t[..|t| - 1]);
      assert Linked(net, t[|t| - 2], t[|t| - 1]);
      assert Delivered(net, false, log, t[|t| - 2], t[|t| - 1]);
    }
  }
}

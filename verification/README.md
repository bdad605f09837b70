# Verified models of the gossip tools and the ARA daemon

This project models, in Dafny, the algorithms of two parts of the repository and proves what they are relied on for.

From the Python gossip tools (`des-gossip-adv-tools`):

- the search for connected dominating sets `mcds_berman` (`Graphs.dfy`, `Colourings.dfy`, `Berman.dfy`);
- the gossip simulations `gossip0` and `gossip3` (`Gossip.dfy`);
- the concave hull refinement (`ConcaveHull.dfy`, `HullGeometry.dfy`, `RepeatedPoints.dfy`);
- the subset enumerator (`KSubsets.dfy`).

From the C daemon (`des-ara/trunk`):

- the routing table with its three evaporation modes (`Evaporation.dfy`, `RouteTable.dfy`, `RouteRuns.dfy`,
  `Lookups.dfy`, `Reinforcement.dfy`, `TickRuns.dfy`, `LongLists.dfy`, `Forgetting.dfy`);
- duplicate detection with a 16-bit sequence number and a 64-bit window (`Words.dfy`, `LoopProtect.dfy`);
- the packet trap (`PacketTrap.dfy`);
- the acknowledgement monitor (`AckMonitor.dfy`).

`Addresses.dfy`, `Options.dfy` and `Reals.dfy` hold what several of them share.

Code that changes things in place is a method or a class method, proved equal to a function on values or to a relation;
the properties over whole runs are lemmas about those functions.

## How the originals are read

- Random choices (`random.shuffle`, `random.choice`, `random.uniform`) are nondeterministic: every outcome is covered.
  In the gossip model the draws that were made are recorded in ghost maps, and the theorems speak about the record.
- `nx.shortest_path` is a parameter that gives an answer for every call, each with the same contract (one shortest path for
  every joined pair, nothing else) but possibly with other paths; `Graphs.ShortestPathsExist` shows that every graph can meet
  it. The two-level dictionary is a map keyed by pairs.
- `gossip3` need not terminate when coins never win. Its model runs for a given number of timeouts and says whether the loop
  ended; every run that ends at all is covered by some number, and with `m <= 0` one timeout is always enough.
- `double` is `real`. `pow(x, 1.0 / k)` and `math.sqrt` are function parameters assumed to be exact roots.
- A locked section of the daemon is one step. `uint8_t` and `uint16_t` counters wrap explicitly; `uint64_t seen` is a natural
  number below 2^64.
- The shift `(lp->seen) << (seq - lp->seq)` (`ara_loopprotect.c:134`) is undefined in C when the numbers wrap or the distance
  is 64 or more. It is read as a shift by the distance modulo 2^16, which clears the word from 64 on.
- `DL_SORT` (utlist, not part of the repository) is a stable descending sort.
- A failing C `assert` is the result `Aborted`, with the table unchanged. The Python exceptions that `calc_concave2` can end
  with are values of `ConcaveHull.Outcome`.

## What the code does differently from its documentation

- `ara_rt_update` never reports a new route: `ARA_RT_NEW` is overwritten (`ara_newrt.c:716`), so the release of trapped packets
  at line 724 is unreachable (`RouteRuns.UpdateOk`).
- A new hop starts with the constant 0.6, not with the parameter `rt_initial` (`ara_newrt.c:673`).
- `ara_rt_modify_credit` credits the last hop when the named one is missing (`RouteRuns.CreditGoesToNamedHopIff`; a run that
  ends so: `LongLists.AnotherHopIsCredited`).
- `num_nexthops` has 8 bits: it is the length of the list exactly up to 255 hops (`RouteRuns.CounterIsLengthIff`), and an entry
  is dropped by a tick exactly when the number of its surviving hops is a multiple of 256 (`RouteRuns.TickDropsIff`). A
  deletion fails its assertion exactly when the list has a multiple of 256 hops, and drops the whole entry exactly when it
  has one more (`RouteRuns.DeleteCases`, `RouteRuns.DeleteIsExactIff`). Announcements over 256 and 257 different ways reach
  these inputs (`LongLists.FullListIsLost`, `LongLists.DeletionDropsTheOthers`). A random lookup can find a hop exactly when
  one is valid and the list has no multiple of 256 hops, and can draw exactly the valid hops at positions below the length
  modulo 256 (`RouteRuns.RandomFindsIff`, `RouteRuns.RandomReachesIff`); up to 255 hops none is lost
  (`RouteRuns.AllDrawableIff`).
- A late packet from before a sequence-number wrap is taken for a new one. The exact condition under which packets are
  classified as documented is `LoopProtect.Fits` (`LoopProtect.NewExactlyWhenFits`, `LoopProtect.LateAcrossWrapIsTakenForNew`).
  A packet 64 or more behind is answered `_LP_LOOPING` whether or not it was received (`LoopProtect.NeverReceivedIsLooping`);
  the answer tells whether a packet was received exactly for the packets less than 64 behind and those that were received
  (`LoopProtect.LoopingMeansReceivedIff`).
- In `gossip3` the limit `m` acts only through its sign: no host is stored twice between two timeouts, so its count is 0
  (`Gossip.LimitIsItsSign`, `Gossip.Flood3`).
- `calc_concave2` may pull in both copies of a repeated point, divide by zero on the second, or leave `edges2list` without a
  successor (`RepeatedPoints.CopyIsPulledIn`, `CopyDividesByZero`, `CopyLeavesNoSuccessor`). For distinct points none of this
  happens (`ConcaveHull.DistinctPointsGiveHull`). Distinct points are also necessary if it is not to happen whatever the hull:
  with repeats, the hull made of all points is a cycle with repeats (`ConcaveHull.DistinctCycleIff`), and the hull made of one
  copy of a repeated point fails the asserted lengths (`ConcaveHull.NothingFailsIff`). When the division by zero or the missing
  successor alone occurs depends on the geometry of the points.
- `calc_concave2` edits the list it iterates over: after a refinement the iteration passes over the next edge
  (`ConcaveHull.RefiningSkipsTheNext`).
- `k_subsets_i(n, k)` with k > n yields one empty set (`KSubsets.ExactIff`).
- On a disconnected graph `mcds_berman` may return a set that is not connected instead of an empty list: when no grey node is
  left, phase 2 reports success. The set is all nodes then (`Berman.McdsBerman`, `Berman.ApartHostsAreReturned`).

## Model

| member | source | states |
|---|---|---|
| Berman.McdsBerman | des-gossip-adv-tools/helpers.py:109-269 | for every shuffle, every choice and every answer of the shortest-path calls, each returned set is the outcome of a greedy phase followed by a connecting phase, dominates the graph, and is connected if and only if the graph is; on a connected graph all `num` sets are returned; otherwise each is the set of all nodes, or none is returned because a search can get stuck |
| Berman.Search | des-gossip-adv-tools/helpers.py:256-268 | one search never fails on a connected graph, and the sanity checks after both phases hold on every graph |
| Berman.ApartHostsAreReturned | des-gossip-adv-tools/helpers.py:233-242 | a search on two hosts out of reach of each other can return both, a set that is not connected |
| Berman.GivesUpOnlyIf | des-gossip-adv-tools/helpers.py:233-242 | a search gets stuck only on a disconnected graph in which somebody has a neighbour |
| Berman.ComponentsWithinThreeHops | des-gossip-adv-tools/helpers.py:155-167 | two black nodes with different ids in one component of a dominated graph imply a link of at most four nodes between black nodes with different ids |
| Berman.ConnectingLowersIds | des-gossip-adv-tools/helpers.py:189-190 | blackening all but the last node of a link between two components lowers the number of black ids |
| Berman.ConnectingStep | des-gossip-adv-tools/helpers.py:238-239 | the asserted decrease of the pieces, with the invariant kept and no white node appearing |
| Berman.FailsOnlyIfDisconnected | des-gossip-adv-tools/helpers.py:165-167 | no short link is left with more than one piece only on a disconnected graph |
| Berman.CandidatesOffer | des-gossip-adv-tools/helpers.py:129-163 | the filters lose nothing: for every short link the table still holds one that is no longer |
| Berman.ChoicesAreShortest | des-gossip-adv-tools/helpers.py:169-179 | the length filter leaves at least one path, and only shortest links |
| Berman.EndStateIsBackbone | des-gossip-adv-tools/helpers.py:227-242 | both ways phase 2 can succeed leave a dominating set that is connected exactly when the graph is |
| Berman.GreedyRunIsShort | des-gossip-adv-tools/helpers.py:212-224 | over a whole greedy phase on a connected graph the steps and the pieces at the end together do not exceed the pieces at the start |
| Berman.LinkRunIsShort | des-gossip-adv-tools/helpers.py:227-242 | the same for the connecting phase |
| Berman.ColouredGraph.constructor | des-gossip-adv-tools/helpers.py:257-260 | all nodes white, each with an id of its own |
| Berman.ColouredGraph.ColorBlack | des-gossip-adv-tools/helpers.py:193-203 | the two loops compute the value function `Blackened` and keep the invariant |
| Berman.ColouredGraph.Reduction | des-gossip-adv-tools/helpers.py:205-210 | one more than the number of white neighbours |
| Berman.ColouredGraph.BestNode | des-gossip-adv-tools/helpers.py:215-223 | for any shuffle, a node that is not black and has the most white neighbours |
| Berman.ColouredGraph.Phase1 | des-gossip-adv-tools/helpers.py:212-225 | terminates with no white node, by greedy steps only |
| Berman.ColouredGraph.RandomlyConnect | des-gossip-adv-tools/helpers.py:123-191 | fails exactly when no short link exists, changing nothing; otherwise blackens all but the last node of some shortest link and lowers the pieces |
| Berman.ColouredGraph.LinkChoices | des-gossip-adv-tools/helpers.py:124-179 | every entry of the filtered table is a shortest link; it is empty only if there is none |
| Berman.ColouredGraph.Phase2 | des-gossip-adv-tools/helpers.py:227-242 | succeeds on every connected graph; on success one component is left, or no grey node; on failure grey nodes and several pieces are left without a short link |
| Berman.ColouredGraph.Validate | des-gossip-adv-tools/helpers.py:244-253 | true exactly when no node is white and the black nodes dominate |
| Colourings.LabelsExactAfterAnyRun | des-gossip-adv-tools/helpers.py:193-203 | after any sequence of blackenings two black nodes share an id exactly when an all-black walk joins them, and every other node has an id of its own |
| Colourings.BlackenedKeepsInv | des-gossip-adv-tools/helpers.py:193-203 | one blackening keeps the labels exact, whites without and greys with a black neighbour |
| Colourings.BlackeningLowersPieces | des-gossip-adv-tools/helpers.py:119-121 | blackening a white or grey node lowers the pieces by at least its number of white neighbours |
| Colourings.BestStepLowersWhites | des-gossip-adv-tools/helpers.py:212-224 | on a connected graph of two or more nodes the best node always has a white neighbour and the whites shrink |
| Graphs.ShortestPathsExist | des-gossip-adv-tools/helpers.py:125 | the contract assumed of `nx.shortest_path` can be met for every graph |
| Graphs.ConnectedBackboneConnectsGraph | des-gossip-adv-tools/eval.py:559-566 | a connected dominating set exists only in a connected graph |
| Gossip.Flood0 | des-gossip-adv-tools/simulate.py:261-283 | every receiver but the source flips one coin, exactly the winners and the source transmit, `received` is what the delivered links reach, `forwarded` counts the transmitters; the rounds share out the transmitters, each by the round that first reached it, and a host notes the packet and counts it once per round in which it hears it |
| Gossip.FloodIsPercolation | des-gossip-adv-tools/simulate.py:251-285 | `received` is the site/bond percolation cluster of the source in every configuration that agrees with the draws |
| Gossip.ConsistentIsCluster | des-gossip-adv-tools/simulate.py:268-281 | `received` is exactly the set reached over delivered links of nodes that transmitted |
| Gossip.Gossip0 | des-gossip-adv-tools/simulate.py:251-285 | the per-packet results for all packets; a packet is in a host's set exactly if the host heard it, and its counter is the number of rounds of all floods in which it heard one |
| Gossip.Transmit | des-gossip-adv-tools/simulate.py:220-234 | with loss exactly the neighbours whose link ratio exceeds its own draw, without loss all neighbours |
| Gossip.Receptions.Receive | des-gossip-adv-tools/simulate.py:236-241 | every named node counts one more packet and notes its number, the others nothing |
| Gossip.Flood3 | des-gossip-adv-tools/simulate.py:297-333 | with m >= 1 the loop has ended if and only if exactly the receivers transmitted, each after winning its last coin only, and it is given up only after as many lost coins as timeouts; with m <= 0 it ends by the first timeout, and the coins and transmitters are those of `gossip0` |
| Gossip.LimitIsItsSign | des-gossip-adv-tools/simulate.py:326-331 | at a timeout all stored hosts flip again if m >= 1, and none otherwise |
| Gossip.Gossip3 | des-gossip-adv-tools/simulate.py:287-335 | the same for every packet, with sets and counters as for `gossip0`; only a flood that has cost a lost coin per timeout and left a receiver that has not transmitted stops it |
| Gossip.RetriesReachEverything | des-gossip-adv-tools/simulate.py:287-335 | with m >= 1 and no loss an ended flood has reached exactly what the source has a path to |
| Gossip.RetriesArePurelyBond | des-gossip-adv-tools/simulate.py:287-335 | with m >= 1 and loss it has reached exactly the bond percolation cluster |
| ConcaveHull.CalcConcave2 | des-gossip-adv-tools/concave_hull.py:145-179 | for all points and hulls, repeated ones too, the edited iteration terminates, follows the visits step by step, and ends as `Ends` says: with the list read out, a failed assertion, a division by zero or no successor |
| HullGeometry.DistanceIsRoot | des-gossip-adv-tools/concave_hull.py:34-35 | the distance is not negative, and its square is the sum of the squared differences |
| HullGeometry.DistanceIsToFoot | des-gossip-adv-tools/concave_hull.py:93-106 | the distance to an edge is the way to the nearest point of its line if that lies strictly between the ends, and 1000 otherwise |
| HullGeometry.VisitDecides | des-gossip-adv-tools/concave_hull.py:172-178 | the chosen point is pulled in if and only if the squared edge exceeds the squared threshold times the squared distance to the nearer end (always for a negative threshold) |
| HullGeometry.ChosenIsNearest | des-gossip-adv-tools/concave_hull.py:156-162 | no edge is nearer to the chosen point, and no point of the edge is nearer to it |
| ConcaveHull.OutcomeIsUnique | des-gossip-adv-tools/concave_hull.py:145-179 | the input determines how it ends |
| ConcaveHull.RunRefines | des-gossip-adv-tools/concave_hull.py:151-178 | whatever points repeat, after any number of visits the list is one directed cycle, cycle and rest share out the points with their multiplicities, and the cycle visits the hull in its order |
| ConcaveHull.HullIsRefined | des-gossip-adv-tools/concave_hull.py:145-179 | a list that is returned is a closed walk that takes every edge of such a cycle once, from the last edge of the list |
| ConcaveHull.DistinctPointsGiveHull | des-gossip-adv-tools/concave_hull.py:145-179 | for distinct points and a hull made of them nothing fails, and the list returned walks once around one cycle of distinct points |
| ConcaveHull.DistinctCycleIff | des-gossip-adv-tools/concave_hull.py:145-179 | the cycle at the end is free of repeats for every hull made of the points and every threshold if and only if the points are distinct |
| ConcaveHull.NothingFailsIff | des-gossip-adv-tools/concave_hull.py:145-179 | no run ends in an exception, for every hull made of the points and every threshold, if and only if the points are distinct |
| ConcaveHull.DistinctIffOneCopyUsed | des-gossip-adv-tools/concave_hull.py:174-178 | in one run the cycle is free of repeats if and only if all copies but one of every point were left out |
| ConcaveHull.LengthsMeanShareOut | des-gossip-adv-tools/concave_hull.py:146-150 | for a hull made of input points, the asserted lengths hold if and only if hull and rest share out the points |
| RepeatedPoints.CopyIsPulledIn | des-gossip-adv-tools/concave_hull.py:145-179 | a point given twice that is pulled in twice, and the list returned visits it twice |
| RepeatedPoints.CopyDividesByZero | des-gossip-adv-tools/concave_hull.py:172-174 | a point given twice whose second copy meets an edge that ends in it |
| RepeatedPoints.CopyLeavesNoSuccessor | des-gossip-adv-tools/concave_hull.py:133-139 | a point given twice on whose cycle `edges2list` runs out of successors |
| ConcaveHull.Edges2List | des-gossip-adv-tools/concave_hull.py:126-143 | computes the order `ReadOrder`, or nothing if an edge has no successor |
| ConcaveHull.ReadOrderReadsAll | des-gossip-adv-tools/concave_hull.py:126-143 | an order found over a cycle, whatever points repeat, takes every edge once, each beginning where the one before ended, and returns to its start |
| ConcaveHull.DistinctCycleIsRead | des-gossip-adv-tools/concave_hull.py:126-143 | over distinct points it never runs out of successors and walks the cycle from the last edge of the list |
| ConcaveHull.Refine | des-gossip-adv-tools/concave_hull.py:174-178 | pulling a point into an edge keeps the cycle, the share-out of the points and the order of the hull |
| ConcaveHull.Candidate | des-gossip-adv-tools/concave_hull.py:156-162 | of the points whose nearest edge is the given one, the first by distance and then by coordinates; none exactly if there is none |
| ConcaveHull.MinDistLine | des-gossip-adv-tools/concave_hull.py:108-110 | the edge that comes first by distance and then by coordinates |
| ConcaveHull.VisitIsDeterministic | des-gossip-adv-tools/concave_hull.py:151-178 | a state allows one visit, and none if it divides by zero |
| ConcaveHull.RefiningSkipsTheNext | des-gossip-adv-tools/concave_hull.py:176-178 | after a refinement the next edge has moved to the position just visited |
| ConcaveHull.CandidateIsNew | des-gossip-adv-tools/concave_hull.py:172-174 | the divisor of the decision is positive for a point that is not on the cycle |
| KSubsets.ExactIff | des-gossip-adv-tools/plot_critical.py:37-63 | the sets yielded are exactly the k-element subsets of 0..n-1 if and only if 0 <= k <= n; a ValueError answers exactly the negative numbers |
| KSubsets.EachSubsetOnce | des-gossip-adv-tools/plot_critical.py:37-63 | no set is yielded twice, and there are C(n, k) of them, by Pascal's rule |
| Evaporation.TicksAreShift | des-ara/trunk/ara_newrt.c:910-923 | k CUBIC ticks of size s take the curve's value at t to its value at t + k s, and to 0 once that passes 1 |
| Evaporation.TimeInvertsCurve | des-ara/trunk/ara_newrt.c:910-921 | the time computed from a pheromone value and the curve are inverse to each other |
| Evaporation.DecreaseIsMonotone | des-ara/trunk/ara_newrt.c:919-923 | CUBIC evaporation stays in [0, 1], never raises a value and keeps the order of two values |
| RouteTable.RoutingTable.UpdateRoute | des-ara/trunk/ara_newrt.c:581-729 | computes the step `Update`, which the lemmas of `Reinforcement` characterise |
| RouteTable.RoutingTable.DeleteRoute | des-ara/trunk/ara_newrt.c:1148-1229 | computes the step `Delete`, which `RouteRuns.DeleteCases` characterises |
| RouteTable.RoutingTable.ModifyHopCredit | des-ara/trunk/ara_newrt.c:500-541 | computes the step `ModifyCredit` and its result code |
| RouteTable.RoutingTable.TickTable | des-ara/trunk/ara_newrt.c:930-1024 | computes the step `Tick`, which `TickRuns.TickIsExact` and `RouteRuns.TickDropsIff` characterise |
| RouteTable.RoutingTable.GetBest | des-ara/trunk/ara_newrt.c:148-186 | answers with the head of the list if it is valid and clears the flag; `Lookups.BestIsBest` says what that hop is |
| RouteTable.RoutingTable.GetWeighted | des-ara/trunk/ara_newrt.c:269-325 | answers with the hop at the position picked for the draw and clears the flag; `Lookups.WeightedShares` says which that is |
| RouteTable.RoutingTable.GetRandom | des-ara/trunk/ara_newrt.c:337-385 | answers with the hop at the drawn position if it is valid and clears the flag; `Lookups.RandomAnswers` says which that is |
| RouteTable.SortedIsPermutation | des-ara/trunk/ara_newrt.c:717 | sorting only rearranges the list |
| RouteTable.SortedIsSorted | des-ara/trunk/ara_newrt.c:480-482 | the list is descending after the sort, with the same hops and no new repeats |
| Reinforcement.SortedIsStable | des-ara/trunk/ara_newrt.c:717 | hops of equal pheromone keep their order |
| RouteRuns.RunKeepsTable | des-ara/trunk/ara_newrt.c:581-1229 | every run of updates, deletions, credits, ticks and lookups keeps each list non-empty, descending and without repeats, the counter and the largest TTL right, and pheromones in [0, 1] in LINEAR and CUBIC mode |
| RouteRuns.UpdateOk | des-ara/trunk/ara_newrt.c:581-729 | an update that does not succeed, a pruned one in particular, changes nothing; the answer is never New; a new entry is marked for a BANT |
| Reinforcement.UpdateReinforces | des-ara/trunk/ara_newrt.c:689-713 | an update of a listed hop that is not discarded raises its pheromone by exactly delta (in LINEAR and CUBIC mode up to 1), or clears it if delta is negative; its credit rises by the increment up to 255, its ttl to the larger one; all other hops stay |
| Reinforcement.UpdateAdds | des-ara/trunk/ara_newrt.c:648-686 | a hop that was not listed is added with delta (CLASSIC) or 0.6 and the initial credit; all other hops stay |
| Reinforcement.DiscardedIff | des-ara/trunk/ara_newrt.c:636-645 | an update is discarded if and only if pruning is on, it is a backward announcement, and its detour in hops exceeds the best hop count times the factor; never if it is as good as the best |
| Reinforcement.FailedIff | des-ara/trunk/ara_newrt.c:652-657 | an update fails if and only if it is to remove a hop that is not listed |
| RouteRuns.DeleteCases | des-ara/trunk/ara_newrt.c:1148-1229 | a deletion fails exactly if the hop is not listed, aborts exactly if the list has a multiple of 256 hops, and drops the entry exactly if it has one more; otherwise exactly the hops with another name stay, in order; no other destination changes |
| RouteRuns.DeleteIsExactIff | des-ara/trunk/ara_newrt.c:1186-1212 | exactly the named hop is removed if and only if it is not listed, is the only one, or the number of hops is neither 0 nor 1 modulo 256 |
| RouteRuns.CreditGoesToNamedHopIff | des-ara/trunk/ara_newrt.c:510-517 | the credited hop is the named one exactly when it is in the list, otherwise the last |
| RouteRuns.CreditResultIff | des-ara/trunk/ara_newrt.c:519-535 | the result tells the direction of the change and whether the new credit has reached 255 or 0 |
| RouteRuns.CounterIsLengthIff | des-ara/trunk/ara_newrt.c:44 | the 8-bit counter is the length of the list exactly up to 255 hops |
| LongLists.AnnouncedWaysAreHeld | des-ara/trunk/ara_newrt.c:655-690 | announcements over any number of different ways give a list with one hop for each |
| LongLists.FullListIsLost | des-ara/trunk/ara_newrt.c:337-385 | after 256 of them the counter is 0: no random lookup finds a hop, a deletion aborts, and a LINEAR tick drops all 256 valid hops |
| LongLists.DeletionDropsTheOthers | des-ara/trunk/ara_newrt.c:1186-1201 | after 257 of them one deletion removes all hops |
| LongLists.AnotherHopIsCredited | des-ara/trunk/ara_newrt.c:510-517 | a run in which a hop is credited that was not named |
| RouteRuns.TickDropsIff | des-ara/trunk/ara_newrt.c:986-1010 | an entry leaves exactly when the number of its surviving hops is a multiple of 256 |
| RouteRuns.EvaporationIsMonotone | des-ara/trunk/ara_newrt.c:961-981 | in every mode evaporation keeps the order of two hops and raises none |
| TickRuns.TickIsExact | des-ara/trunk/ara_newrt.c:940-1010 | one tick leaves exactly the hops whose pheromone, aged by the law of the mode, is still valid, and changes nothing else about them; in adaptive mode fewer than 3 counted hops age half as fast |
| TickRuns.TicksAreExact | des-ara/trunk/ara_newrt.c:930-1024 | the same over any number of ticks: in CUBIC mode the curve's value at the later time, in LINEAR mode the difference, in CLASSIC mode the power |
| TickRuns.TimeGrows | des-ara/trunk/ara_newrt.c:967-980 | a hop that stays valid in CUBIC mode has moved along the time axis by exactly the age |
| TickRuns.SpentIsProduct | des-ara/trunk/ara_newrt.c:945-952 | n ticks age by n times rt_delta_q, by half of it for one or two hops in adaptive mode |
| Lookups.BestIsBest | des-ara/trunk/ara_newrt.c:148-186 | after any run the best lookup hands out a valid listed hop that no hop of the destination exceeds, and only clears the mark; it fails, changing nothing, exactly when no hop is valid |
| Lookups.WeightedShares | des-ara/trunk/ara_newrt.c:285-312 | a valid hop is handed out exactly for draws from [0, 1] above the share of the valid hops before it and up to that share plus its own |
| Lookups.WeightedAnswers | des-ara/trunk/ara_newrt.c:269-325 | for every draw from [0, 1] a valid hop is handed out, or there is none and nothing changes |
| Lookups.SumsStep | des-ara/trunk/ara_newrt.c:285-292 | the sums grow by the pheromone of each valid hop and by nothing else |
| Lookups.RandomAnswers | des-ara/trunk/ara_newrt.c:354-371 | the hop at the draw modulo the 8-bit number of hops is handed out if it is valid; otherwise nothing changes |
| RouteRuns.WeightedPartition | des-ara/trunk/ara_newrt.c:285-304 | hop i is chosen exactly for targets above the pheromone before it and up to that sum plus its own; hop 0 also for target 0 |
| RouteRuns.WeightedFindsIff | des-ara/trunk/ara_newrt.c:294-306 | for every draw in [0, 1] a hop is found exactly when a valid one exists |
| RouteRuns.RandomReachesIff | des-ara/trunk/ara_newrt.c:354-362 | some draw picks the hop at a position if and only if the hop is valid and the position is below the number of hops modulo 256 |
| RouteRuns.RandomFindsIff | des-ara/trunk/ara_newrt.c:344-362 | some draw finds a hop if and only if a valid one is listed and the number of hops is no multiple of 256 |
| RouteRuns.AllDrawableIff | des-ara/trunk/ara_newrt.c:354-362 | every valid hop can be drawn if and only if none stands at or behind the number of hops modulo 256; always so up to 255 hops |
| RouteRuns.OneBantPerLifetime | des-ara/trunk/ara_newrt.c:170-176 | while an entry lives, only the first successful lookup of any kind asks for a BANT |
| Forgetting.UnreinforcedHopIsForgotten | des-ara/trunk/ara_newrt.c:930-1024 | whatever else happens, a hop that no update reinforces is gone after 2 / rt_delta_q ticks in LINEAR and CUBIC mode, after a stated number in CLASSIC mode |
| Forgetting.UnreinforcedTableEmpties | des-ara/trunk/ara_newrt.c:930-1024 | without updates the whole table becomes empty |
| Forgetting.SomeTicksAreEnough | des-ara/trunk/ara_newrt.c:967-980 | in every mode there is such a number of ticks |
| LoopProtect.LoopProtection.CheckDuplicate | des-ara/trunk/ara_loopprotect.c:104-163 | computes the step `Check` on the table and its answer |
| LoopProtect.LoopProtection.Tick | des-ara/trunk/ara_loopprotect.c:328-357 | every counter is lowered and the entries that reach 0 leave |
| LoopProtect.LoopProtection.Flush | des-ara/trunk/ara_loopprotect.c:406-423 | the table is empty |
| LoopProtect.DecideRefines | des-ara/trunk/ara_loopprotect.c:130-157 | for every packet that fits, the answer is the one the plain set of accepted packets calls for, and the entry goes on representing that set |
| LoopProtect.LoopingMeansReceivedIff | des-ara/trunk/ara_loopprotect.c:142-157 | for packets that fit, the answer Looping tells whether the packet was received if and only if it is inside the window or was received |
| LoopProtect.NeverReceivedIsLooping | des-ara/trunk/ara_loopprotect.c:142-157 | a packet that was never received and is answered Looping |
| LoopProtect.NewExactlyWhenFits | des-ara/trunk/ara_loopprotect.c:133 | within the number space, the test for new packets is right if and only if the packet fits |
| LoopProtect.LateAcrossWrapIsTakenForNew | des-ara/trunk/ara_loopprotect.c:133 | a packet for which it is wrong |
| LoopProtect.RunAgrees | des-ara/trunk/ara_loopprotect.c:104-163 | the table follows the ideal one through every run of fitting arrivals, ticks and flushes |
| LoopProtect.NoDoubleAccept | des-ara/trunk/ara_loopprotect.c:104-163 | over any run from the empty table, an accepted packet is answered Looping when it comes again, unless its source was forgotten in between |
| LoopProtect.ForgettingTakesSilence | des-ara/trunk/ara_loopprotect.c:337-348 | without a flush, forgetting a source takes a stretch without its arrivals that holds a lifetime of ticks |
| Words.BitOfShiftLeft | des-ara/trunk/ara_loopprotect.c:134 | bit j of the shifted word is bit j - d of the word |
| Words.BitOfSetBit | des-ara/trunk/ara_loopprotect.c:145 | exactly one bit is set |
| PacketTrap.Trap.Append | des-ara/trunk/ara_packettrap.c:107-139 | the packet goes to the end of the list; the array always has 32 (c / 32 + 1) slots, so the slot and the terminator are in bounds |
| PacketTrap.PacketTrap.TrapPacket | des-ara/trunk/ara_packettrap.c:56-145 | the table of waiting lists grows by the packet with its count raised, or stays as it is and -1 is returned |
| PacketTrap.PacketTrap.UntrapPackets | des-ara/trunk/ara_packettrap.c:152-183 | the packets that were waiting are visited once each in order of arrival, packets trapped anew by the callback are not, and the table then holds exactly those |
| PacketTrap.RetrappedMore | des-ara/trunk/ara_packettrap.c:168-176 | one more callback extends the new list by its packet, or not at all |
| PacketTrap.RunInBounds | des-ara/trunk/ara_packettrap.c:56-183 | over every run of arrivals and releases no packet is stored more than ara_retry_max times |
| PacketTrap.TrappedIff | des-ara/trunk/ara_packettrap.c:63-70 | a packet is taken in if and only if it has been trapped fewer than ara_retry_max times, behind those that wait |
| PacketTrap.UndeliveredStays | des-ara/trunk/ara_packettrap.c:56-183 | a packet that never finds a route is stored exactly ara_retry_max times |
| PacketTrap.CapacityIs | des-ara/trunk/ara_packettrap.c:107-124 | 32 (c / 32 + 1) slots hold c packets and the terminator, and grow only at a multiple of 32 |
| PacketTrap.NothingWaitsForever | des-ara/trunk/ara_packettrap.c:65-68 | whatever else arrives and whatever the callbacks find, a packet has left after ara_retry_max releases of its destination |
| AckMonitor.Monitor.WaitFor | des-ara/trunk/ara_ack.c:65-95 | the packet is registered with its deadline; refused, with nothing changed, when acknowledgements are disabled |
| AckMonitor.Monitor.EvalPacket | des-ara/trunk/ara_ack.c:107-152 | succeeds exactly if an entry with the key is waiting; one such entry leaves the ledger as acknowledged and its route is updated with ttl 0; otherwise nothing changes |
| AckMonitor.AckReinforces | des-ara/trunk/ara_ack.c:143 | the update of an acknowledged entry is never pruned: pheromone and credit of its listed hop rise, all other hops stay |
| AckMonitor.Monitor.Tick | des-ara/trunk/ara_ack.c:158-220 | the expired entries leave the ledger as missed and the others stay in order; the routing table pays for each in turn; the 32-bit counter shows the missed ones; registered packets stay waiting, acknowledged, missed or flushed |
| AckMonitor.Monitor.Flush | des-ara/trunk/ara_ack.c:257-274 | every waiting packet leaves the ledger as flushed |
| AckMonitor.StillWaitingExact | des-ara/trunk/ara_ack.c:165-211 | a tick removes each entry whose deadline has passed and no other, counted with multiplicity |
| AckMonitor.TickIsMisses | des-ara/trunk/ara_ack.c:165-213 | a tick whose expired packets went over one hop charges it once for each entry that leaves |
| AckMonitor.OtherModesCostNothing | des-ara/trunk/ara_ack.c:194-201 | with link layer acknowledgements, or none, a tick charges no route |
| AckMonitor.AfterMissesOk | des-ara/trunk/ara_ack.c:165-213 | a tick keeps the routing table's invariant, whatever has expired |
| AckMonitor.MissStep | des-ara/trunk/ara_ack.c:171-193 | a missed acknowledgement costs a credit, and a hop left without credit goes exactly if its list does not hold a multiple of 256 hops |
| AckMonitor.CreditIsMissesAllowed | des-ara/trunk/ara_ack.c:171-193 | a hop survives n missed acknowledgements in a row exactly as long as its credit exceeds n, or if its list holds a multiple of 256 hops, and then has n credits less; otherwise it is gone |

## Left out

- Gossip.Flood0: assumes that the source is not its own neighbour, as the link query guarantees (`eval.py:893`); with such a loop it would transmit twice.
- Gossip.Gossip3: reports a packet that needs more timeouts than it is given and stops there; the original goes on without end while coins keep losing.
- ConcaveHull.DistinctPointsGiveHull: assumes that the hull is made of input points, as `convex_hull` promises; for a given list with repeats, which copies are pulled in depends on the geometry.
- Berman.GreedyRunIsShort: assumes a graph without self-loops, where a white node would count itself.
- The SQL inserts and commits of the simulation, logging, plotting and the command line interface: input and output.
- `convex_hull`, `mcds_setCover`, `point_inside_polygon` and the statistics: floating-point geometry, or easy members only.
- `k_subsets`, which maps index sets to list elements: one comprehension.
- AckMonitor.Monitor.EvalPacket: leaves open which of several entries with the same key the hash table finds; the pheromone value is a parameter, since in CLASSIC mode the original passes an uninitialized one (`ara_ack.c:131`).
- AckMonitor.Monitor.Tick: times are plain integers, and the mode does not change while the monitor runs.
- The flow counters of a routing entry (`pkt_count`, `byte_count`): the tick resets them and computes values it does not use.
- The lock that `ara_rt_get_random` does not release when `num_nexthops` is 0 (`ara_newrt.c:349-352`): steps are atomic here.
- The sequence-number and interface-name parameters that only occur in log messages.
- The packet dispositions of `ara_checkdupe` and `ara_checkloop`, and the statistics counters: a table of cases.
- Memory allocation failure, the hash-table and linked-list internals, and the size of the key that `trap_packet` passes: the intended 6-byte address is the key.
- Callbacks of the trap other than forwarding a packet or trapping it again.

# A verified model of Wren's routing cores

Wren is a routing daemon whose protocol crates are pure and free of sockets: tables, state
machines and codecs. This project models the hard parts of those crates in Dafny and proves what
they keep over whole runs. Machine integers are bounded explicitly, addresses are their
network-order octets, octet strings are sequences of values below 256.

* **BGP decision and Loc-RIB** - `Decision`, `Selection`, `SinglePassModel`, `BgpRibModel`, with
  the theory of incrementally kept selections in `Incremental`. Pairwise preference is not
  transitive, because MED is compared within one neighbouring AS only; the two-level selection is
  nevertheless independent of the order of the candidates, and the caches and the event stream
  agree with selection from scratch after any run.
* **Core RIB and FIB** - `RibFib`.
* **Babel** - `BabelTable` (feasibility distances and selection), `BabelNeighbour` (Hello
  history), `BabelPacket` (TLV walk and prefix compression).
* **BFD** - `BfdPacket`, `BfdSession` (two sessions over a network that loses, duplicates and
  reorders), `BfdAuth` (authenticated streams, the digest being any function of fixed length).
* **BGP on the wire** - `PrefixCodec`, `AsPathCodec`, `As4Path`, `PathAttributes`, `UpdateModel`,
  `FlowSpecModel`, `FlowSpecRibModel`, over the list framing of `Framing` and the integers of
  `ByteOrder`.
* **EVPN and SR Policy** - `Evpn`, `SrPolicyModel`.

Objects whose methods change fields are classes, loops are methods with invariants, and each such
method is proved equal to a specification function; the theorems are about those functions and
about runs of them. `Orders` and `Net` hold lexicographic order, ascending map iteration,
addresses and prefixes.

Where the code and a statement about it part ways, the model follows the code and a lemma says
exactly when the statement holds:

* The FlowSpec, EVPN and SR Policy tables select in a single pass. Its result is independent of
  the order of the candidates exactly when one of them beats every other it does not tie with
  (`SinglePassModel.PassOrderIndependence`; `SinglePassMayDisagree` is an input where none does).
* A MAC whose owner is withdrawn is forgotten even when another route for it survives
  (`Evpn.SurvivingRouteIsNotRestored`). Such withdrawals are the only way the view loses a live
  MAC (`Evpn.StepKeepsCovered`, and over runs `Evpn.ViewCoversLiveRoutes`).
* The comment on `reconstruct_as_path` says that confederation segments are preserved. One that
  the AS4_PATH reaches is lost and the path grows (`As4Path.ReconstructionMayLoseAConfederation`);
  the length is kept exactly when none is reached (`As4Path.ReconstructionKeepsLength`).
* A segment counts its ASes in one octet, so legacy relays that grow the leading sequence past 255
  ASes send something else: relaying is prepending exactly when the sequence has room
  (`As4Path.RelayingIsPrepending`).
* A Babel fallback route may be strictly beaten by its source's feasibility distance
  (`BabelTable.FallbackMayBeInfeasible`), exactly when the distance before already beat it
  (`BabelTable.SelectedRouteMeetsItsDistance`): nothing here claims network-wide loop freedom.
* FlowSpec `cmp` calls rules equal whose derived equality does not, since the decoder accepts
  components in any order. The two agree on a rule, against all others, exactly when its
  components are of one type (`FlowSpecRibModel.EqualityAgrees`); among sorted rules they always
  agree (`FlowSpecRibModel.SortedKeysAreEqual`, `FlowSpecRibModel.OneSortedKey`).
* `attr.rs` says that unknown attributes always pass the flag check. They do not: a Partial bit on
  an unknown attribute that is not optional transitive is refused (`PathAttributes.UnknownRoundTrip`).

The public FlowSpec key type also admits IPv6 prefixes, of which the encoding keeps the length
alone (`FlowSpecRibModel.Ipv6PrefixKeys`). That concerns the type only: the decoder makes IPv4
prefixes (`FlowSpecModel.DecodedAreSendable`) and `build_flowspec_config` of the daemon refuses
others.

## Model

| member | source | states |
|---|---|---|
| Net.MaskIdempotent | crates/wren-core/src/lib.rs:137-156 | clearing host bits twice is clearing them once |
| Net.NewPrefix | crates/wren-core/src/lib.rs:72-81 | refuses exactly the over-long lengths; what it makes has no host bits set, so equal networks are equal values |
| Net.PrefixRankInjective | crates/wren-core/src/lib.rs:195-205 | the ordering key of prefixes (family, address, length) separates prefixes |
| Decision.IsBetterMeaning | crates/wren-bgp/src/decision.rs:159-200 | the preference is a lexicographic key order, with MED between paths of one neighbouring AS and without it otherwise |
| Decision.IsBetterWithinOneAs | crates/wren-bgp/src/decision.rs:159-200 | within one neighbouring AS it is a strict weak order whose ties are equal decision keys |
| Decision.PreferenceCycle | crates/wren-bgp/src/decision.rs:159-200 | across ASes it is not transitive: three paths beat each other in a circle |
| Decision.BestPath | crates/wren-bgp/src/decision.rs:203-214 | the loop returns the incumbent of a single pass, none for no paths |
| Selection.SelectBest | crates/wren-bgp/src/rib.rs:261-290 | the two reductions find the candidate that wins within its AS and is ahead of every other AS's winner |
| Selection.ReduceWithinAs | crates/wren-bgp/src/rib.rs:271-281 | the per-AS map holds exactly the first best candidate of each neighbouring AS |
| Selection.ReduceAcrossAs | crates/wren-bgp/src/rib.rs:282-290 | the second pass ends with a winner ahead of all other winners |
| Selection.AscendingReduction | crates/wren-bgp/src/rib.rs:282-290 | visiting winners in AS order, keeping the incumbent on a tie is the tie-break of the specification |
| Selection.ChoiceIsUnbeaten | crates/wren-bgp/src/rib.rs:261-290 | the selected path is unbeaten in its own AS and by the winner of every other AS |
| Selection.ChoiceMayBeBeatenByAMedLoser | crates/wren-bgp/src/rib.rs:261-290 | it need not be unbeaten by every candidate: a concrete set where a MED loser beats it |
| Selection.SelectionIsOrderIndependent | crates/wren-bgp/src/rib.rs:261-290 | for any two orders of the same candidates the selected paths have the same AS and decision key, and are one path when no other candidate ties with it |
| Selection.TiedPathsFollowTheOrder | crates/wren-bgp/src/rib.rs:261-290 | every candidate that ties with the selected path is itself selected in some order of the candidates |
| Selection.SelectionIsOnePath | crates/wren-bgp/src/rib.rs:261-290 | all orders select one and the same path if and only if no other path ties with the selected one; ties among losers do no harm |
| Selection.CollectedIsFirstOccurrences | crates/wren-bgp/src/rib.rs:217-257 | the hop loop collects the winner's hop and the eligible hops in order, each once |
| Selection.InstalledHopsMeaning | crates/wren-bgp/src/rib.rs:217-257 | hops lead with the winner's, repeat nothing, respect the cap, come from eligible paths, and below the cap miss none |
| SinglePassModel.SinglePassFindsFirstBest | crates/wren-bgp/src/flowspec_rib.rs:215-224 | with one AS or one MED a single pass ends with the first of the best candidates |
| SinglePassModel.SinglePassAgrees | crates/wren-bgp/src/evpn_rib.rs:154-163 | with one AS it selects the very path of the two-level reduction, with one MED a path of the same key |
| SinglePassModel.PassAlwaysFinds | crates/wren-bgp/src/flowspec_rib.rs:215-224 | every order of the candidates ends with a path tied with a given candidate if and only if that candidate beats every other it does not tie with |
| SinglePassModel.PassOrderIndependence | crates/wren-bgp/src/flowspec_rib.rs:215-224 | all orders end with paths of one AS and decision key if and only if some candidate beats every other it does not tie with |
| SinglePassModel.PassAlwaysAgrees | crates/wren-bgp/src/evpn_rib.rs:154-163 | in every order the single pass agrees with the two-level reduction, up to a tie, if and only if the two-level winner beats all it does not tie with |
| SinglePassModel.DominatingIsChosen | crates/wren-bgp/src/evpn_rib.rs:154-163 | a candidate that dominates so ties with the two-level winner: an order-independent pass is one that agrees |
| SinglePassModel.OneAsIsDominated | crates/wren-bgp/src/sr_policy_rib.rs:205-214 | with one neighbouring AS the condition always holds |
| SinglePassModel.SinglePassMayDisagree | crates/wren-bgp/src/sr_policy_rib.rs:205-214 | three candidates none of which dominates: two orders end with different paths, neither the two-level choice |
| BgpRibModel.EventsReplayStep | crates/wren-bgp/src/rib.rs:100-159 | after any operation, replaying its events turns the old Loc-RIB into the new one; each event is a change and none is missing |
| BgpRibModel.EventStreamRebuildsLocRib | crates/wren-bgp/src/rib.rs:100-159 | after any run of updates, withdrawals and peer losses, all events replayed from nothing give the selection from scratch |
| BgpRibModel.OnePrefixStep | crates/wren-bgp/src/rib.rs:217-257 | reselecting the touched prefix alone brings the from-scratch selection up to date |
| BgpRibModel.BgpRib.WithMaxPaths | crates/wren-bgp/src/rib.rs:83-88 | an empty table whose path cap is at least one |
| BgpRibModel.BgpRib.CollectHops | crates/wren-bgp/src/rib.rs:217-257 | the loop with continue and early exit computes the capped list of collected hops |
| BgpRibModel.BgpRib.Reselect | crates/wren-bgp/src/rib.rs:217-257 | both caches change for this prefix only, to the selection from scratch; the event is the difference |
| BgpRibModel.BgpRib.UpdateWithId | crates/wren-bgp/src/rib.rs:100-112 | caches stay equal to selection from scratch; the event is the change the operation owes |
| BgpRibModel.BgpRib.WithdrawWithId | crates/wren-bgp/src/rib.rs:122-135 | the same for a withdrawal, of a path that is there or not |
| BgpRibModel.BgpRib.WithdrawPeer | crates/wren-bgp/src/rib.rs:139-159 | the same for a lost peer: one event per changed prefix, in prefix order |
| RibFib.EntryBest | crates/wren-core/src/lib.rs:419-428 | the pass finds the first candidate of highest preference and lowest metric |
| RibFib.BestUnique | crates/wren-core/src/lib.rs:382-388 | there is only one such candidate |
| RibFib.StepKeepsWellKept | crates/wren-core/src/lib.rs:447-481 | candidate keys stay unique and no entry is empty |
| RibFib.ChangeKeepsFibExact | crates/wren-core/src/lib.rs:511-527 | one change makes the forwarding table exact again, and there is none without a changed best route |
| RibFib.FibFollowsRib | crates/wren-core/src/lib.rs:447-591 | after any run a table driven by the changes alone maps each destination to its best route |
| RibFib.Rib.Update | crates/wren-core/src/lib.rs:447-462 | replaces in place or appends, and returns the change |
| RibFib.Rib.Withdraw | crates/wren-core/src/lib.rs:466-481 | removes by protocol and source, drops an empty entry, and returns the change |
| RibFib.MemoryFib.Apply | crates/wren-core/src/lib.rs:581-591 | installs or removes the one destination the change names |
| BabelTable.BestIsUnique | crates/wren-babel/src/table.rs:261-291 | the minimum by metric and key over eligible routes is unique |
| BabelTable.StepKeepsInv | crates/wren-babel/src/table.rs:170-225 | every operation keeps selection and feasibility distances in agreement, and its changes rebuild the selection |
| BabelTable.RunKeepsInv | crates/wren-babel/src/table.rs:170-225 | in every reachable state the remembered selection is the selection from scratch and no selected route beats its source's distance |
| BabelTable.CurrentMeaning | crates/wren-babel/src/table.rs:261-291 | a prefix is selected exactly when a feasible finite route exists, and then by the least metric and key |
| BabelTable.ReselectIsIdempotent | crates/wren-babel/src/table.rs:261-291 | a second reselection changes and reports nothing |
| BabelTable.SelectedRouteMeetsItsDistance | crates/wren-babel/src/table.rs:170-291 | after any operation a reselected route stands at its source's distance exactly when the source was unknown or the route is as good as the distance before; the distance strictly beats it exactly when the distance before did |
| BabelTable.FallbackMayBeInfeasible | crates/wren-babel/src/table.rs:381-397 | losing a neighbour may select a route that its source's distance strictly beats |
| BabelTable.SeqnoOrderInWindow | crates/wren-babel/src/table.rs:29-31 | inside a window of 32767 circular recency is the integer order |
| BabelTable.SeqnoRecencyIsTransitive | crates/wren-babel/src/table.rs:29-31 | recency passes through a middle number if and only if the two steps together stay below half the circle |
| BabelTable.SeqnoRecencyMayCycle | crates/wren-babel/src/table.rs:29-31 | outside it recency is not transitive |
| BabelTable.DistancesOnlyImprove | crates/wren-babel/src/table.rs:52-90 | over any run within such a window known sources stay known and their distances form a strictly improving chain |
| BabelTable.EventStreamRebuildsSelection | crates/wren-babel/src/table.rs:170-225 | replaying the emitted events from empty gives the routes the table shows |
| BabelTable.SourceTable.Update | crates/wren-babel/src/table.rs:78-90 | lowers one source's distance when strictly better |
| BabelTable.RouteTable.Reselect | crates/wren-babel/src/table.rs:261-291 | the state and event of one reselection |
| BabelTable.RouteTable.Update | crates/wren-babel/src/table.rs:170-209 | the state and event of an offer, with the refresh exemption of the selected route |
| BabelTable.RouteTable.NeighbourLost | crates/wren-babel/src/table.rs:213-225 | the state and events of a lost neighbour, prefixes in order |
| BabelNeighbour.GapLandsOnSeqno | crates/wren-babel/src/neighbor.rs:60-82 | the circular gap moves the window onto the received sequence number |
| BabelNeighbour.HelloKeepsWindow | crates/wren-babel/src/neighbor.rs:60-82 | bit i of the history stands for the Hello i places before the newest since the last resync, through wrap and long gaps |
| BabelNeighbour.RxcostMeaning | crates/wren-babel/src/neighbor.rs:92-111 | the receive cost is finite exactly when two of the last three Hellos arrived |
| BabelNeighbour.TableKeepsWindows | crates/wren-babel/src/neighbor.rs:127-204 | after any run each history is the window over the Hellos heard since the neighbour was entered |
| BabelNeighbour.TableRxcostMeaning | crates/wren-babel/src/neighbor.rs:144-148 | the reported cost in terms of what was heard |
| BabelNeighbour.NeighbourTable.OnHello | crates/wren-babel/src/neighbor.rs:127-132 | the new table after a Hello |
| BabelNeighbour.NeighbourTable.OnIhu | crates/wren-babel/src/neighbor.rs:135-140 | the new table after an IHU |
| BabelNeighbour.NeighbourTable.ExpireAt | crates/wren-babel/src/neighbor.rs:188-204 | stale costs cleared, silent neighbours dropped, and exactly those reported |
| BabelPacket.AddressRoundTrip | crates/wren-babel/src/lib.rs:220-265 | an address survives encoding if and only if it is not link-local outside fe80::/64 |
| BabelPacket.DecompressionUndoesOmission | crates/wren-babel/src/lib.rs:287-333 | octets that agree with the default prefix can be omitted and come back |
| BabelPacket.PrefixReadsBack | crates/wren-babel/src/lib.rs:269-333 | a prefix sent whole comes back whatever the default-prefix register holds |
| BabelPacket.TlvReadsBack | crates/wren-babel/src/tlv.rs:154-346 | a TLV reads back, in any register state, if and only if its address survives and, kept verbatim, it can be framed and does not parse as a known TLV |
| BabelPacket.TlvsReadBack | crates/wren-babel/src/lib.rs:153-184 | so does a list, whatever default prefixes its own Updates leave behind, if and only if each of its TLVs does |
| BabelPacket.WalkCoversBody | crates/wren-babel/src/lib.rs:156-184 | the walk succeeds exactly on concatenations of whole TLVs and accounts for every octet |
| BabelPacket.RoundTrip | crates/wren-babel/src/lib.rs:123-185 | any packet decodes to itself, whatever trails it, if and only if each of its TLVs reads back and its body fits the 16-bit length |
| BabelPacket.CutShort | crates/wren-babel/src/lib.rs:138-185 | a body cut short never yields as many TLVs |
| BabelPacket.Compress.DecodeTlv | crates/wren-babel/src/tlv.rs:259-346 | the parsed TLV, and the register changed by a flagged Update only |
| BabelPacket.WalkBody | crates/wren-babel/src/lib.rs:153-184 | the index loop with its mutable register is the walk |
| BabelPacket.DecodePacket | crates/wren-babel/src/lib.rs:138-185 | header errors in order, then the walk over the stated body |
| BabelPacket.PushTlv | crates/wren-babel/src/tlv.rs:141-152 | patching the length after the body gives the framed TLV |
| BabelPacket.PushUpdate | crates/wren-babel/src/tlv.rs:199-218 | patching the address encoding and prefix length gives the body |
| BabelPacket.EncodePacket | crates/wren-babel/src/lib.rs:123-134 | the packet's octets |
| BfdPacket.Encode | crates/wren-bfd/src/packet.rs:166-194 | the buffer filled field by field and bit by bit is the wire form |
| BfdPacket.RoundTrip | crates/wren-bfd/src/packet.rs:166-275 | decode of encode is the packet if and only if it is self-compatible |
| BfdPacket.DecodedDatagramIsCanonical | crates/wren-bfd/src/packet.rs:206-275 | a plain datagram that decodes is the encoding of what it decodes to |
| BfdSession.BuiltPacketsAreSelfCompatible | crates/wren-bfd/src/session.rs:217-235 | every packet a reachable session builds survives its own codec |
| BfdSession.StepKeepsInv | crates/wren-bfd/src/session.rs:105-207 | sends, deliveries of anything ever sent, and timeouts keep the two-session invariant |
| BfdSession.TwoWayKnowledge | crates/wren-bfd/src/session.rs:105-207 | over any network behaviour Up implies the peer has heard, Init or Up in flight was sent by a side that had heard, and discriminators match |
| BfdSession.ThreeRoundsConverge | crates/wren-bfd/src/session.rs:105-235 | from any reachable pair three loss-free rounds bring both sides Up, for good |
| BfdSession.TwoRoundsMayNotConverge | crates/wren-bfd/src/session.rs:105-235 | two loss-free rounds suffice if and only if it is not the case that the first side is Up and the second Down |
| BfdSession.DetectionOutlastsTransmissions | crates/wren-bfd/src/session.rs:239-265 | then the detection time covers the peer's Detect Mult jittered transmissions |
| BfdSession.Session.Receive | crates/wren-bfd/src/session.rs:105-167 | the new variables and the transition of a received packet |
| BfdSession.Session.Timeout | crates/wren-bfd/src/session.rs:173-207 | the same for both timeouts |
| BfdSession.Session.BuildControl | crates/wren-bfd/src/session.rs:217-235 | the packet sent, and the Final bit used up |
| BfdAuth.AppendedKeyedVerifies | crates/wren-bfd/src/auth.rs:108-204 | for any fixed-length digest a packet from append passes every check but the replay window, which alone decides |
| BfdAuth.AppendedPasswordVerifies | crates/wren-bfd/src/auth.rs:108-204 | a password packet is accepted if and only if the password has at most 228 octets |
| BfdAuth.InOrderStreamIsAccepted | crates/wren-bfd/src/auth.rs:146-232 | an in-order stream of any length is accepted while fewer than 3 x Detect Mult packets in a row are lost, through wraps |
| BfdAuth.LongerLossIsRefused | crates/wren-bfd/src/auth.rs:225-232 | the bound is exact within one circle |
| BfdAuth.NoReplay | crates/wren-bfd/src/auth.rs:146-232 | a meticulous receiver re-accepts a datagram only after its sequence advanced by 2^32 less the window |
| BfdAuth.KeyedAcceptsRepeats | crates/wren-bfd/src/auth.rs:225-232 | the non-meticulous types do accept an immediate repeat |
| BfdAuth.AuthState.AppendTo | crates/wren-bfd/src/auth.rs:108-140 | the packet and the advanced transmit sequence |
| BfdAuth.AuthState.VerifyFrom | crates/wren-bfd/src/auth.rs:146-204 | the verdict, and the receive sequence changed on acceptance only |
| PrefixCodec.PrefixRoundTrip | crates/wren-bgp/src/lib.rs:186-212 | an IPv4 prefix reads back whatever follows, using exactly its octets |
| PrefixCodec.PrefixV6RoundTrip | crates/wren-bgp/src/lib.rs:218-243 | the same for IPv6 |
| AsPathCodec.AsTransFit | crates/wren-bgp/src/lib.rs:129-135 | the 2-octet form is 0 only for AS 0 |
| AsPathCodec.SegmentReadsBack | crates/wren-bgp/src/attr.rs:121-168 | a segment of at most 255 ASes reads back, narrowed to the width |
| AsPathCodec.PathRoundTrip | crates/wren-bgp/src/attr.rs:1023-1038 | a path reads back, narrowed, if and only if no segment is over-long and none holds AS 0 |
| AsPathCodec.PushSegment | crates/wren-bgp/src/attr.rs:121-137 | the encoding loop |
| AsPathCodec.PullPath | crates/wren-bgp/src/attr.rs:1023-1038 | the decoding loop |
| As4Path.FlattenMerge | crates/wren-bgp/src/attr.rs:1119-1143 | flattening undoes coalesce |
| As4Path.MergeIsNormal | crates/wren-bgp/src/attr.rs:1119-1143 | coalesce emits no empty sequence and no two adjacent ones |
| As4Path.MergeFlatten | crates/wren-bgp/src/attr.rs:1072-1143 | coalesce undoes flattening if and only if the path is in that normal form |
| As4Path.ReconstructionKeepsLength | crates/wren-bgp/src/attr.rs:1072-1106 | reconstruction keeps the length the decision compares if and only if an AS4_PATH that applies replaces as many confederation segments as it brings, which for one without any is none |
| As4Path.ReconstructionMayLoseAConfederation | crates/wren-bgp/src/attr.rs:1072-1106 | an AS4_PATH that reaches a confederation segment drops it: length 1 becomes 2 |
| As4Path.MergedAfterTransit | crates/wren-bgp/src/attr.rs:1072-1106 | after any number of legacy speakers the merged path is their ASes followed by the original, sets whole; from a normal path it is the path they would have built with 4 octets |
| As4Path.RelayingIsPrepending | crates/wren-daemon/src/bgp.rs:4397-4402 | legacy speakers that decode, prepend and encode again send the prepended path if and only if the leading sequence has room for them under 256 |
| As4Path.Transit | crates/wren-bgp/src/attr.rs:1072-1106 | end to end over both wire forms: under that condition, which is exact, the merged path is the relays followed by the original |
| As4Path.Coalesce | crates/wren-bgp/src/attr.rs:1119-1143 | the run-collecting loop computes the merge |
| As4Path.ReconstructAsPath | crates/wren-bgp/src/attr.rs:1072-1106 | the branches and the kept front |
| PathAttributes.FrameReadsBack | crates/wren-bgp/src/attr.rs:655-694 | flags, type, one- or two-octet length and value read back |
| PathAttributes.DiscardedExactly | crates/wren-bgp/src/attr.rs:374-389 | an attribute is discarded alone exactly when it is a value-bearing ATOMIC_AGGREGATE or a wrong-length AGGREGATOR with proper flags |
| PathAttributes.AttributeReadsBack | crates/wren-bgp/src/attr.rs:482-962 | an attribute comes back at the session's AS width, whatever follows, if and only if the wire can carry it |
| PathAttributes.UnknownRoundTrip | crates/wren-bgp/src/attr.rs:936-962 | exactly what becomes of an attribute kept verbatim |
| UpdateModel.RouteReadsBack | crates/wren-bgp/src/message.rs:662-678 | a route and its path identifier read back |
| UpdateModel.DecodedTypesAreDistinct | crates/wren-bgp/src/message.rs:680-707 | no type appears twice among decoded attributes |
| UpdateModel.AttributesReadBack | crates/wren-bgp/src/message.rs:680-707 | a list of attributes reads back if its types are distinct and is refused otherwise |
| UpdateModel.BrokenAttributesLoseNoRoute | crates/wren-bgp/src/message.rs:541-601 | for any octets in the attribute block, routes sent are routes received, advertised exactly when the attributes are usable, withdrawn otherwise |
| UpdateModel.Conservation | crates/wren-bgp/src/message.rs:541-601 | for any body that decodes: withdrawn then NLRI is what the wire held, identifiers aligned, attributes complete and distinct or nothing kept |
| UpdateModel.RoundTrip | crates/wren-bgp/src/message.rs:506-601 | a well-formed UPDATE comes back if and only if mandatory attributes are present and types distinct |
| UpdateModel.DecodePrefixes | crates/wren-bgp/src/message.rs:662-678 | the loop fills prefixes and identifiers in step |
| UpdateModel.DecodeAttributeList | crates/wren-bgp/src/message.rs:680-707 | the loop with its array of seen types refuses exactly the repeats |
| UpdateModel.CheckMandatory | crates/wren-bgp/src/message.rs:638-657 | the flags found by the loop decide the two advertising shapes |
| UpdateModel.DecodeUpdate | crates/wren-bgp/src/message.rs:541-601 | errors in order, then the folded or kept fields |
| UpdateModel.EncodeUpdate | crates/wren-bgp/src/message.rs:506-539 | the three fields with their lengths |
| FlowSpecModel.LenFor | crates/wren-bgp/src/flowspec.rs:257-267 | the narrowest of the four widths that holds the value |
| FlowSpecModel.TermsRoundTrip | crates/wren-bgp/src/flowspec.rs:283-371 | an operator list reads back up to its end bit, whatever follows |
| FlowSpecModel.PushTerms | crates/wren-bgp/src/flowspec.rs:283-349 | the encoding loop marks the last operator only |
| FlowSpecModel.PullTerms | crates/wren-bgp/src/flowspec.rs:307-371 | the decoding loop stops at the end bit |
| FlowSpecModel.ComponentReadsBack | crates/wren-bgp/src/flowspec.rs:200-254 | every component reads back, whatever follows |
| FlowSpecModel.StableSortMeaning | crates/wren-bgp/src/flowspec.rs:146-148 | type order, and the components of one type keep their order |
| FlowSpecModel.SortedIsUnique | crates/wren-bgp/src/flowspec.rs:146-148 | only one sequence satisfies that |
| FlowSpecModel.RoundTrip | crates/wren-bgp/src/flowspec.rs:146-183 | decode of encode is the sorted components and the exact length, if and only if the body has at most 4095 octets |
| FlowSpecModel.ListRoundTrip | crates/wren-bgp/src/flowspec.rs:190-198 | concatenated encodings decode to the list |
| FlowSpecModel.PrefixFree | crates/wren-bgp/src/flowspec.rs:146-183 | an encoding is a prefix of another only when the sorted components are the same |
| FlowSpecModel.EncodingIsCanonical | crates/wren-bgp/src/flowspec.rs:146-162 | equal encodings mean equal sorted components, at any length |
| FlowSpecModel.DecodedCanBeSent | crates/wren-bgp/src/flowspec.rs:166-183 | whatever decodes encodes again within limits, no longer, and reads back sorted |
| FlowSpecModel.EncodeInto | crates/wren-bgp/src/flowspec.rs:146-162 | appends the length field and the body |
| FlowSpecModel.DecodeFrom | crates/wren-bgp/src/flowspec.rs:166-183 | the component loop within the announced body |
| FlowSpecModel.DecodeNlris | crates/wren-bgp/src/flowspec.rs:190-198 | the rule loop |
| FlowSpecRibModel.CompareIsATotalOrder | crates/wren-bgp/src/flowspec_rib.rs:48-64 | cmp is reflexive, antisymmetric, transitive and total up to the encoding |
| FlowSpecRibModel.EqualKeys | crates/wren-bgp/src/flowspec_rib.rs:48-64 | for sendable rules Equal means same AFI and same sorted components |
| FlowSpecRibModel.SortedKeysAreEqual | crates/wren-bgp/src/flowspec_rib.rs:48-64 | for sorted rules Equal means equal |
| FlowSpecRibModel.OneSortedKey | crates/wren-bgp/src/flowspec_rib.rs:48-64 | a rule is sorted if and only if it is the only sorted rule under its key |
| FlowSpecRibModel.EqualityAgrees | crates/wren-bgp/src/flowspec_rib.rs:29-64 | cmp agrees with derived equality on a rule, against all others, if and only if its components are of one type |
| FlowSpecRibModel.EqualKeysNeedNotBeEqual | crates/wren-bgp/src/flowspec_rib.rs:29-64 | two orders of a port and a protocol are one key and not equal |
| FlowSpecRibModel.Ipv6PrefixKeys | crates/wren-bgp/src/flowspec_rib.rs:48-64 | rules over IPv6 prefixes, which only the key type admits, share a key if and only if they agree up to the addresses |
| Evpn.MobilityReadsBack | crates/wren-bgp/src/evpn_rib.rs:280-288 | the mobility community is read as it is laid out |
| Evpn.RouterMacReadsBack | crates/wren-bgp/src/evpn_rib.rs:253-274 | so is the router's MAC |
| Evpn.EntriesMirrorTheirOwners | crates/wren-bgp/src/evpn_rib.rs:346-468 | after any run each entry names a route for its own key and is what that route last announced |
| Evpn.OneMacStep | crates/wren-bgp/src/evpn_rib.rs:346-441 | only the owner removes; a takeover needs a sequence not below the incumbent's, keeps stickiness and is no duplicate |
| Evpn.MobilityNeverStepsBack | crates/wren-bgp/src/evpn_rib.rs:346-441 | over any run in which owners keep their word a MAC stays, its sequence never falls and it stays sticky |
| Evpn.SurvivingRouteIsNotRestored | crates/wren-bgp/src/evpn_rib.rs:445-468 | two histories that leave the same routes best, with and without a MAC |
| Evpn.StepKeepsCovered | crates/wren-bgp/src/evpn_rib.rs:346-468 | an event keeps a MAC in the view exactly while some route for it is live, if and only if it does not take away the owner while another route stands |
| Evpn.ViewCoversLiveRoutes | crates/wren-bgp/src/evpn_rib.rs:346-468 | throughout any run the view holds a MAC exactly while some route for it is live, if and only if the run holds no such event |
| Evpn.ChangeKeepsForwardingExact | crates/wren-bgp/src/evpn_rib.rs:346-468 | the reported change is the change of the forwarding tables, and is reported exactly when there is one |
| Evpn.ChangesRebuildTheView | crates/wren-bgp/src/evpn_rib.rs:346-468 | all changes replayed from nothing rebuild the MAC and VTEP tables |
| Evpn.EviTable.Apply | crates/wren-bgp/src/evpn_rib.rs:346-441 | the three MAC maps and the two VTEP maps keep one domain each, and move as the specification does |
| Evpn.EviTable.LearnMac | crates/wren-bgp/src/evpn_rib.rs:355-412 | ownership, the mobility test and the learned entry |
| Evpn.EviTable.LearnVtep | crates/wren-bgp/src/evpn_rib.rs:413-433 | the flood target and whether its SID changed |
| Evpn.EviTable.RemoveIfOwner | crates/wren-bgp/src/evpn_rib.rs:445-468 | removes from all maps together, for the owner only |
| SrPolicyModel.KeysGroupPolicies | crates/wren-bgp/src/sr_policy.rs:110-120 | the derived key order keeps the candidates of a policy together and policies ascending |
| SrPolicyModel.Installed | crates/wren-bgp/src/sr_policy_rib.rs:156-179 | one entry per policy in ascending order, each a candidate, every candidate covered by the entry of its policy |
| SrPolicyModel.InstalledIsUnique | crates/wren-bgp/src/sr_policy_rib.rs:156-179 | only one result satisfies that: the greatest preference and distinguisher |

## Left out

- The message digests (MD5, SHA-1): any function of fixed length stands for them.
- The tables around FlowSpec, EVPN and SR Policy routes (update, withdraw, peer loss): kept as `BgpRibModel` keeps the unicast table, without hops; their selection is `SinglePassModel`.
- `IpVrfTable`: the ownership of `Evpn` without mobility.
- The Tunnel Encapsulation, BGP-LS and Prefix-SID attributes (type codes 23, 29 and 40): the model keeps them as unknown attributes, where the code decodes them if it can and then checks their flags.
- ORIGINATOR_ID, EXTENDED_COMMUNITIES, AS4_AGGREGATOR, LARGE_COMMUNITIES and ONLY_TO_CUSTOMER: their flags and lengths are checked as in the code, their values kept as octets.
- Address families other than IPv4 and IPv6 unicast in MP_REACH and MP_UNREACH: the model refuses them, where the code has decoders of their own for EVPN, FlowSpec, SR Policy and link state.
- BabelPacket.PushBody: only the Update arm writes its patches out; the other arms append the finished body.
- The BGP message header, OPEN, NOTIFICATION and ROUTE-REFRESH, and the BGP state machine.
- Extended communities' use as FlowSpec actions, and the traffic-rate float.
- Clocks, timers and sockets: time is a number, timeouts are free steps, the network is the set of packets ever sent.
- Text forms, configuration, BMP, RTR, SRv6 and link-state codecs.

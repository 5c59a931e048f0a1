# Orbitnet core: a verified model

A Dafny model of the decision core of a rollback netcode (`orbitnet-core`), with the manifest
publishing loop of its Godot binding. `dafny verify dfyconfig.toml` checks the whole project.

| File | What it models |
|---|---|
| `Interest`, `InterestGrid`, `PeerInterest` | The interest filter: its rules, the spatial index, and one seat updated by either path |
| `Connection`, `ConnectionInterest` | One connection's seats, their union, and whole sessions of updates, vetoes and removals |
| `Priority`, `Starvation` | The send order, the greedy rota over it, and the bound on any entity's wait |
| `SipHash`, `SipVectors`, `ReplayWindow`, `Session` | The streaming hasher, the replay bitmap, and authenticated conversations |
| `Manifest`, `ManifestProtocol`, `ManifestCodec` | Table diff and patch, the publishing protocol, and its frames as bytes |
| `Wire`, `Frames` | The byte writer and reader, and the hot-frame header |
| `Half`, `Schema`, `Quant`, `StateBlock`, `InputBlock` | Binary16, row layout, quantized rows and masked ones, state and input blocks |
| `Rings`, `Freshness`, `Resim` | Tick-addressed rings, once-only freshness, per-body replay plans |
| `Layouts` | One of each frame and field written out byte by byte |
| `Clock` | The filtered offset, the stretch that closes it, and the loop the two make |
| `Sequences`, `Bytes`, `Options`, `Numbers` | Sorting and ascending id lists, bits and little-endian integers, optional and non-finite values |

Objects whose methods update fields are classes, and each method is proved against a function of the old
state; what the system promises is then proved of those functions, over every input and every run.

Positions, radii, distances and clock values are exact reals with the three non-finite values beside them.
Integers are unbounded with every wrap, saturation, clamp and truncation written out. Singles and halves in
`Half` are bit fields, and their magnitudes exact integers.

## What the proofs found

Where the code does not do what a comment or a name leads a reader to expect, the model follows the code, and a
lemma says exactly when the expectation holds.

- **Binary16 encoding is documented as round to nearest even** (`quant.rs:30-34`). It flushes everything below
  2^-24, so between 2^-25 and 2^-24 it is not nearest. `Half.NearestExceptOneBinade` shows that is the only place.
- **A saturated manifest generation is documented as degrading every peer to full tables**
  (`orbit_net.rs:6249-6253`). Peers at the last generation are owed nothing, so a change then reaches no peer that
  is current: `ManifestProtocol.StaysInStepIffCountable`.
- **Ring writes saturate** (`columnar.rs:80-87`, `history.rs:245-255`): a ring whose newest tick is `u64::MAX` also
  refuses live ticks within a capacity of it, and that is the only case: `Rings.StaleIsTheWindowBelowTheTop`.
- **`closest_at_or_before` is documented as the newest stored tick at or before its argument**. It looks back one
  capacity: `Rings.LookBackIsNewestIffNear` over any ticks held, `TickRings.TickRing.ClosestAtOrBefore` in terms of
  the newest tick, with an instance in `TickRings.OldTickIsNotFound`.
- **A mark still in the future when a plan runs is consumed unreplayed** (`history.rs:96-107`):
  `Resim.MarkIsReplayedIff`.
- **A never-sent entity is documented as sorting ahead of everything sent** (`priority.rs:200-201`). A light one does
  not precede a heavy one that waited 2^34 ticks: `Priority.NeverSentGoesFirstIff`.
- **The largest weight is given as 65536** (`priority.rs:62-64`). `Priority.WeightFor` proves 16384.

## Model

| member | source | states |
|---|---|---|
| `Interest.AoiConfig.EffectiveCellSize` | native/crates/orbitnet-core/src/interest.rs:221-227 | a positive finite cell size is kept and anything else becomes 32, so the index never divides by anything but a positive number |
| `Interest.AoiConfig.EffectiveEnterRadius` | native/crates/orbitnet-core/src/interest.rs:235-241 | a negative enter radius, minus infinity included, becomes zero; every other one, a NaN or an infinity too, is kept |
| `Interest.AoiConfig.EffectiveExitFactor` | native/crates/orbitnet-core/src/interest.rs:246-252 | a finite factor of one or more is used and anything else is one, so hysteresis never shrinks the radius |
| `Interest.AoiConfig.ExitRadius` | native/crates/orbitnet-core/src/interest.rs:1058-1062 | the exit radius is finite whatever the configuration |
| `Interest.EnterWithinExit` | native/crates/orbitnet-core/src/interest.rs:1113-1118 | whatever the configuration, a distance that admits a newcomer keeps a member: the hysteresis band is never inverted |
| `Interest.BandsAreTheRadii` | native/crates/orbitnet-core/src/interest.rs:1046-1062 | with usable radii the two bands are the enter radius and the enter radius times its factor, squared |
| `Interest.RadiiDecideTheMeasured` | native/crates/orbitnet-core/src/interest.rs:1089-1119 | uncapped, a member stays exactly within the exit radius, a newcomer enters exactly within the enter radius, and either is recorded at its squared distance |
| `Interest.UnusableRadii` | native/crates/orbitnet-core/src/interest.rs:235-252 | a NaN enter radius admits no newcomer and drops no member, an infinite one admits everybody, a negative one only who stands at the center |
| `Interest.MembersCarryTheirDistance` | native/crates/orbitnet-core/src/interest.rs:1113-1158 | capped or not, a measured member is recorded at its squared distance |
| `Interest.DistanceIsEuclidean` | native/crates/orbitnet-core/src/interest.rs:418-433 | the squared distance is symmetric, adds up by Pythagoras, and is the squared difference along each axis |
| `Interest.MembersObeyVetoAndWorld` | native/crates/orbitnet-core/src/interest.rs:1089-1119 | a vetoed or other-world candidate is never a member after an update; one with nothing to measure always is, at distance zero |
| `Interest.SettledUpdateIsIdentity` | native/crates/orbitnet-core/src/interest.rs:1046-1158 | repeating an update with the same inputs changes neither members nor stored distances, hysteresis, a biting cap and member-first ties included |
| `Interest.SurvivorsAreReadmitted` | native/crates/orbitnet-core/src/interest.rs:1089-1158 | what one update keeps the next admits, and the next admits nothing the first did not |
| `Interest.SurvivalIsStable` | native/crates/orbitnet-core/src/interest.rs:1126-1142 | once the cap has run, running it again over any admitted list between the survivors and the first list keeps the same entries |
| `Interest.CapBoundsMeasured` | native/crates/orbitnet-core/src/interest.rs:1126-1142 | at most the configured number of measured entries survive the cap |
| `Interest.CapIsFilled` | native/crates/orbitnet-core/src/interest.rs:1126-1142 | a cap that bites is filled: exactly that many measured entries survive, and all of them when there are no more |
| `Interest.CapKeepsTheNearest` | native/crates/orbitnet-core/src/interest.rs:1126-1142 | no kept measured entry is further than an evicted one; at the same distance a member is never evicted for a newcomer, and then the lower id stays; nothing unmeasured is evicted |
| `Interest.SubstitutedIsUnique` | native/crates/orbitnet-core/src/interest.rs:2462-2466 | substituting one connection's rows into the shared list keeps ids unique |
| `Interest.OwnRowsStandIn` | native/crates/orbitnet-core/src/interest.rs:2462-2466 | every override is in the list, a shared row exactly when no override names its id, and nothing else |
| `InterestGrid.CellMonotone` | native/crates/orbitnet-core/src/interest.rs:259-261 | cell coordinates are monotone in position, negative positions included |
| `InterestGrid.WithinRadius` | native/crates/orbitnet-core/src/interest.rs:364-369 | an entity within the radius is within it on each axis |
| `InterestGrid.AxisCovers` | native/crates/orbitnet-core/src/interest.rs:364-369 | on one axis the cell of a coordinate within the radius lies between the edges' cells, overflowing edges and saturating casts included |
| `InterestGrid.ClampedSpanIsHuge` | native/crates/orbitnet-core/src/interest.rs:370-378 | a radius clamped to the float range, from anywhere off the origin, spans more cells than any world holds |
| `InterestGrid.RectangleCovers` | native/crates/orbitnet-core/src/interest.rs:364-391 | whenever a rectangle is scanned rather than the whole world, the cell of every entity within the radius lies in it |
| `InterestGrid.InterestGrid.WorldFits` | native/crates/orbitnet-core/src/interest.rs:378 | a world has no more occupied cells than there are candidates |
| `InterestGrid.BucketHolds` | native/crates/orbitnet-core/src/interest.rs:319-333 | a bucket holds exactly the binnable candidates of its world and cell |
| `InterestGrid.BucketDistinct` | native/crates/orbitnet-core/src/interest.rs:319-333 | a bucket names no entity twice |
| `InterestGrid.UncullableHolds` | native/crates/orbitnet-core/src/interest.rs:319-333 | exactly the candidates with no cell are set aside |
| `InterestGrid.ScanCell` | native/crates/orbitnet-core/src/interest.rs:374-391 | scanning one more cell adds exactly that cell's hits |
| `InterestGrid.InterestGrid.Rebuild` | native/crates/orbitnet-core/src/interest.rs:306-334 | after a rebuild the worlds, cells and set-aside list index exactly the candidates, old contents gone |
| `InterestGrid.InterestGrid.AppendWithin` | native/crates/orbitnet-core/src/interest.rs:418-433 | appends exactly the bucket entries within the bound, each with its squared distance |
| `InterestGrid.InterestGrid.ScanWorld` | native/crates/orbitnet-core/src/interest.rs:378-381 | walking every occupied cell of a world adds exactly that world's hits |
| `InterestGrid.InterestGrid.ScanRectangle` | native/crates/orbitnet-core/src/interest.rs:382-389 | walking the rectangle adds exactly the hits of the occupied cells inside it |
| `InterestGrid.InterestGrid.QueryWorld` | native/crates/orbitnet-core/src/interest.rs:364-391 | both branches of the occupancy guard reach every entity of the world within the radius |
| `InterestGrid.InterestGrid.QueryWithin` | native/crates/orbitnet-core/src/interest.rs:349-392 | a query answers exactly the binnable candidates of matching worlds within the radius, each once with its squared distance; a NaN, infinite or negative radius or centre answers nothing |
| `InterestGrid.InterestGrid.UncullableFor` | native/crates/orbitnet-core/src/interest.rs:397-402 | exactly the set-aside ids whose world the observer sees, none twice |
| `InterestGrid.InterestGrid.VisibleTo` | native/crates/orbitnet-core/src/interest.rs:409-415 | exactly the ids of the candidates in worlds the observer sees, none twice |
| `PeerInterest.TruncationIsTheCap` | native/crates/orbitnet-core/src/interest.rs:1126-1142 | sorting nearest first, members before newcomers, lower ids first, and truncating keeps exactly the entries with fewer than the cap ahead of them, which are the nearest by CapKeepsTheNearest |
| `PeerInterest.ApplyCap` | native/crates/orbitnet-core/src/interest.rs:1126-1142 | the cap keeps the order-free survivors, in any input order: the nearest, then members, then lower ids, every unmeasured entry, and as many as it allows |
| `PeerInterest.PushLeaves` | native/crates/orbitnet-core/src/interest.rs:1250-1260 | two cursors over ascending ids report exactly the held ids that are gone, ascending |
| `PeerInterest.ClassifyInto` | native/crates/orbitnet-core/src/interest.rs:1065-1073 | classifying a list admits exactly the candidates the rule admits and counts the measured ones |
| `PeerInterest.GatherShared` | native/crates/orbitnet-core/src/interest.rs:973-999 | what the index contributes is exactly the admitted shared rows that no override names, a centre that is not finite included |
| `PeerInterest.RetainedAreTheMeasured` | native/crates/orbitnet-core/src/interest.rs:974-984 | one query at the exit radius serves both bands |
| `PeerInterest.PeerInterest.Commit` | native/crates/orbitnet-core/src/interest.rs:1150-1158 | the set is overwritten by exactly the surviving entries, a member with nothing to measure at distance zero, and the leaves are the old ids no longer held |
| `PeerInterest.PeerInterest.UpdateLinear` | native/crates/orbitnet-core/src/interest.rs:1046-1077 | the flat pass leaves exactly the updated set and reports exactly its leaves |
| `PeerInterest.PeerInterest.UpdateGrid` | native/crates/orbitnet-core/src/interest.rs:951-1011 | the indexed pass, overrides and all, leaves the set, distances and leaves of the flat pass over the substituted list |
| `PeerInterest.PeerInterest.Remove` | native/crates/orbitnet-core/src/interest.rs:1197-1199 | a despawned id is dropped at once and nothing else changes |
| `PeerInterest.PeerInterest.SetHidden` | native/crates/orbitnet-core/src/interest.rs:1221-1228 | a veto drops the id on the spot; retracting one re-admits nothing by itself |
| `Connection.StepIsCoherent` | native/crates/orbitnet-core/src/interest.rs:1533-1635 | every update, veto and removal keeps the union, the veto sets and the seats in agreement |
| `Connection.RunIsCoherent` | native/crates/orbitnet-core/src/interest.rs:1418-1635 | in every reachable state the union is the union of the seats at the nearest seat's distance and every seat, late ones included, carries the connection's vetoes |
| `Connection.HiddenIffWithheld` | native/crates/orbitnet-core/src/interest.rs:1625-1635 | after every run the standing vetoes are exactly those made and not retracted since |
| `Connection.OneIdLeaves` | native/crates/orbitnet-core/src/interest.rs:1607-1635 | a veto or a removal takes one id out of the union and every seat and leaves every other, distances included, where it was |
| `Connection.SeatsAreKept` | native/crates/orbitnet-core/src/interest.rs:1533-1541 | an update refreshes each remaining seat from its own set and starts a new one empty under the standing vetoes |
| `Connection.VetoedIsNeverSent` | native/crates/orbitnet-core/src/interest.rs:1607-1635 | after every run an id vetoed and not retracted since is in no seat and not in the union |
| `Connection.LeaveMeansEverySeatLetGo` | native/crates/orbitnet-core/src/interest.rs:1548-1561 | an id held at both ends of an update is in neither half; one held before leaves exactly when no remaining seat holds it |
| `Connection.PathScheduleIsInvisible` | native/crates/orbitnet-core/src/interest.rs:4229-4287 | in the rules no schedule of paths matters: any two reach the same state and deltas; that the two code paths follow these rules is Apply and DriveByEitherPath |
| `Connection.SettledTickIsSilent` | native/crates/orbitnet-core/src/interest.rs:1543-1561 | repeating an update, by either path, changes nothing and reports neither half |
| `Connection.MirrorTracksUnion` | native/crates/orbitnet-core/src/interest.rs:1315-1343 | a set fed only the reported leaves and enters, and each veto or removal, equals the union at every state of every run |
| `ConnectionInterest.DedupById` | native/crates/orbitnet-core/src/interest.rs:1548-1561 | keeps the first row of every run of one id |
| `ConnectionInterest.PushDelta` | native/crates/orbitnet-core/src/interest.rs:1315-1343 | one merge of two ascending walks reports exactly the ids on one side only, each half ascending |
| `ConnectionInterest.MergeRows` | native/crates/orbitnet-core/src/interest.rs:1548-1561 | sorting and deduplicating the seats' rows yields the union with the nearest seat's distance |
| `ConnectionInterest.ConnectionInterest.FitSeats` | native/crates/orbitnet-core/src/interest.rs:1533-1541 | seats are truncated or added to the count asked for, new ones under the standing vetoes |
| `ConnectionInterest.ConnectionInterest.CommitUnion` | native/crates/orbitnet-core/src/interest.rs:1548-1561 | the union becomes that of the seats and the diff reported is exactly its change |
| `ConnectionInterest.ConnectionInterest.UpdateLinear` | native/crates/orbitnet-core/src/interest.rs:1447-1470 | the linear tick reaches the specified state and reports its exact diff |
| `ConnectionInterest.ConnectionInterest.UpdateGrid` | native/crates/orbitnet-core/src/interest.rs:1495-1520 | the indexed tick reaches the state and diff of the linear tick over the substituted list |
| `ConnectionInterest.ConnectionInterest.Remove` | native/crates/orbitnet-core/src/interest.rs:1607-1613 | drops the id from the union and from every seat |
| `ConnectionInterest.ConnectionInterest.SetHidden` | native/crates/orbitnet-core/src/interest.rs:1625-1635 | mirrors a veto onto every seat and drops what it vetoes |
| `ConnectionInterest.Substitute` | native/crates/orbitnet-core/src/interest.rs:2462-2466 | an override stands in for the row it names and nothing else moves |
| `ConnectionInterest.Apply` | native/crates/orbitnet-core/src/interest.rs:4229-4287 | either path, whichever an operation names, takes the connection through the same step and reports the same diff |
| `ConnectionInterest.Drive` | native/crates/orbitnet-core/src/interest.rs:4229-4287 | a whole session from an empty connection, paths mixed at will, reports the specified deltas and ends in the specified state with the consumer's set equal to the union |
| `ConnectionInterest.DriveByEitherPath` | native/crates/orbitnet-core/src/interest.rs:4229-4287 | two sessions alike but for the path each update takes, driven through their own objects, report the same deltas and end in the same state |
| `Priority.WeightFor` | native/crates/orbitnet-core/src/priority.rs:179-187 | every weight lies between 256 and 16384, the ownership floor and the priority ceiling applied |
| `Priority.WeightsFollowNearness` | native/crates/orbitnet-core/src/priority.rs:158-187 | a nearer body, a higher declared priority or owning the body never lowers the weight |
| `Priority.BandEdges` | native/crates/orbitnet-core/src/priority.rs:158-171 | near is exactly within a third of the scale and far exactly beyond two thirds; an unmeasured distance or scale is near |
| `Priority.NearBodyMatchesOwnershipFromFour` | native/crates/orbitnet-core/src/priority.rs:37-51 | an unowned near body ties or beats the ownership floor exactly from declared priority four, a mid one from eight, a far one from sixteen |
| `Priority.PrecedesIsTotal` | native/crates/orbitnet-core/src/priority.rs:226-228 | the send order is total and transitive: score down, then id up |
| `Priority.HeavierGoesFirst` | native/crates/orbitnet-core/src/priority.rs:191-193 | of two equally stale candidates the heavier strictly precedes, unless the lighter one's score saturates |
| `Priority.StalerGoesFirst` | native/crates/orbitnet-core/src/priority.rs:191-193 | of two of one weight the staler strictly precedes, unless the fresher one's score saturates |
| `Priority.WaitingMakesUpForWeight` | native/crates/orbitnet-core/src/priority.rs:10-23 | k times the wait makes up for a weight k times less: only the ids decide |
| `Priority.NeverSentGoesFirstIff` | native/crates/orbitnet-core/src/priority.rs:53-60 | a never-sent entity precedes a sent one at all weights and ids exactly when that one waited under 2^34 ticks |
| `Priority.StalenessCounts` | native/crates/orbitnet-core/src/priority.rs:500-524 | staleness is the ticks since the last send, zero while that lies ahead, and 2^40 when never sent |
| `Priority.Order` | native/crates/orbitnet-core/src/priority.rs:231-233 | the slice is sorted in place by the send order and is a permutation of what it held |
| `Priority.HeadIsGreedy` | native/crates/orbitnet-core/src/priority.rs:226-233 | the first k of the sorted slice are k offers that none of the rest precedes |
| `Priority.Rota.Tick` | native/crates/orbitnet-core/src/priority.rs:500-524 | a tick admits a greedy top set on current staleness and weights and stamps exactly the admitted; nobody left out is heavier than an equally stale one who went, or staler than one as heavy, unless that one's score saturates |
| `Starvation.RunRota` | native/crates/orbitnet-core/src/priority.rs:500-524 | over any schedule of offers, weights and budgets the rota produces a greedy run |
| `Starvation.AdmittedHasWaited` | native/crates/orbitnet-core/src/priority.rs:191-228 | whatever is admitted ahead of an entity that has waited more than w has itself waited more than w/64 |
| `Starvation.SendsAreSpread` | native/crates/orbitnet-core/src/priority.rs:500-524 | sends of one entity that each waited more than w/64 are at least that far apart |
| `Starvation.SendsBounded` | native/crates/orbitnet-core/src/priority.rs:500-524 | in the second half of a gap no other entity is admitted more than 64 times |
| `Starvation.AdmissionsBounded` | native/crates/orbitnet-core/src/priority.rs:500-524 | admissions in a window are at most the per-entity bound times the entities |
| `Starvation.WaitingCosts` | native/crates/orbitnet-core/src/priority.rs:10-23 | an entity left out for 2L ticks forces budget * L to be at most 64 times the other entities |
| `Starvation.NoEntityStarves` | native/crates/orbitnet-core/src/priority.rs:10-23 | whatever the weights do tick by tick, an entity offered throughout a window of 2L ticks is sent in it once budget * L exceeds 64(n - 1) |
| `Bytes.LeRoundTrip` | native/crates/orbitnet-core/src/codec.rs:265-277 | a little-endian field reads back, at every width |
| `Bytes.LeInverse` | native/crates/orbitnet-core/src/codec.rs:374-392 | every byte string is the little-endian form of its value |
| `SipHash.OneMoreWord` | native/crates/orbitnet-core/src/auth.rs:317-322 | one more whole word compresses onto the words before it |
| `SipHash.SplitOfWhole` | native/crates/orbitnet-core/src/auth.rs:376-380 | whole words then fewer than eight bytes are the reference construction's own split |
| `SipHash.SipHasher.constructor` | native/crates/orbitnet-core/src/auth.rs:283-295 | a fresh hasher has consumed nothing, its lanes seeded by the key |
| `SipHash.SipHasher.RoundStep` | native/crates/orbitnet-core/src/auth.rs:299-314 | the fourteen in-place steps compute one SipRound |
| `SipHash.SipHasher.Absorb` | native/crates/orbitnet-core/src/auth.rs:317-322 | one word is absorbed by two rounds between the two exclusive-ors |
| `SipHash.SipHasher.FillTail` | native/crates/orbitnet-core/src/auth.rs:331-334 | bytes are packed above those the tail already holds |
| `SipHash.SipHasher.TopUp` | native/crates/orbitnet-core/src/auth.rs:329-346 | the pending word is topped up and absorbed exactly when it is whole |
| `SipHash.SipHasher.AbsorbWords` | native/crates/orbitnet-core/src/auth.rs:347-355 | every whole word is absorbed and the rest is left in the tail |
| `SipHash.SipHasher.Write` | native/crates/orbitnet-core/src/auth.rs:326-356 | the hasher's state afterwards is that of the message with exactly those bytes appended, its length modulo 2^64 |
| `SipHash.SipHasher.Finish` | native/crates/orbitnet-core/src/auth.rs:360-368 | the tag is the reference tag of everything written |
| `SipHash.HashPieces` | native/crates/orbitnet-core/src/auth.rs:376-380 | for every message and every way of splitting it into writes the tag is the one-shot tag |
| `SipHash.TagOver` | native/crates/orbitnet-core/src/auth.rs:1053-1058 | a datagram's tag is the one-shot tag of its signed bytes followed by the direction byte |
| `SipHash.OpsAreU64` | native/crates/orbitnet-core/src/auth.rs:299-314 | the construction's own arithmetic is addition, exclusive-or and rotation of 64-bit words |
| `SipVectors.TagOfNothing` | native/crates/orbitnet-core/src/auth.rs:1156-1174 | the empty message has the reference tag |
| `SipVectors.TagOfEight` | native/crates/orbitnet-core/src/auth.rs:1156-1174 | so has the message of one whole word |
| `SipVectors.TagOfFifteen` | native/crates/orbitnet-core/src/auth.rs:1156-1174 | and the one of a word and a tail |
| `ReplayWindow.BitOfShiftUp` | native/crates/orbitnet-core/src/auth.rs:838-850 | shifting the map moves every recorded bit and loses those past the width, a shift of 64 or more losing all |
| `ReplayWindow.AheadTracks` | native/crates/orbitnet-core/src/auth.rs:838-853 | a number ahead of the newest leaves the map answering for the grown set, a jump of exactly 64 included |
| `ReplayWindow.BehindTracks` | native/crates/orbitnet-core/src/auth.rs:854-862 | filling one bit leaves the map answering for the grown set |
| `ReplayWindow.ReplayWindow.Accept` | native/crates/orbitnet-core/src/auth.rs:834-863 | a number is accepted exactly when it is nonzero, was never accepted, and no accepted number is more than 64 ahead of it; a refusal changes nothing |
| `ReplayWindow.Replay` | native/crates/orbitnet-core/src/auth.rs:834-863 | over every run of arrivals the bitmap gives the verdicts of the plain set |
| `ReplayWindow.NeverTwice` | native/crates/orbitnet-core/src/auth.rs:834-863 | no number is accepted twice in any run |
| `ReplayWindow.AdmissibleEdges` | native/crates/orbitnet-core/src/auth.rs:829-863 | zero and a repeat never pass, the next number does, the one 64 behind the newest does and the one 65 behind does not |
| `Session.TagsEqual` | native/crates/orbitnet-core/src/auth.rs:792-803 | the branch-free fold answers equality on all pairs of 64-bit tags |
| `Session.TagRoundTrip` | native/crates/orbitnet-core/src/auth.rs:1010-1011 | a tag survives its eight wire bytes |
| `Session.SealedAuthenticates` | native/crates/orbitnet-core/src/auth.rs:956-1047 | in both regimes a sealed datagram authenticates as the direction, number and payload sealed |
| `Session.RefusalsAreTold` | native/crates/orbitnet-core/src/auth.rs:998-1047 | a refusal is Truncated exactly when the trailer does not fit, BadTag when it fits and does not verify, Replayed when it verifies and the number is not admissible |
| `Session.NonceInjective` | native/crates/orbitnet-core/src/auth.rs:569-574 | different directions or numbers never share a nonce |
| `Session.MacInputInjective` | native/crates/orbitnet-core/src/auth.rs:1053-1058 | payload, number and direction are all determined by the bytes the tag covers |
| `Session.SessionAuth.Seal` | native/crates/orbitnet-core/src/auth.rs:956-981 | one number is consumed per call and appended with the tag; a spent counter, or a payload the cipher declines, yields nothing |
| `Session.SessionAuth.Open` | native/crates/orbitnet-core/src/auth.rs:998-1047 | authenticate, then the window, then the payload; a refusal leaves the window's newest and bitmap untouched and no refused bytes in the scratch |
| `Session.SessionAuth.OpenClear` | native/crates/orbitnet-core/src/auth.rs:1004-1019 | the clear regime's checks in order, the window moving only on success |
| `Session.SessionAuth.OpenSecret` | native/crates/orbitnet-core/src/auth.rs:1021-1046 | the cipher regime's checks in order, refused plaintext cleared |
| `Session.SessionAuth.VerifyClear` | native/crates/orbitnet-core/src/auth.rs:1005-1015 | truncation first, then the tag over everything before it, then the fields |
| `Session.OnlyIssuedOpens` | native/crates/orbitnet-core/src/auth.rs:998-1047 | bytes that authenticate are a record an end issued in that very direction: nothing reflected, nothing altered |
| `Session.ConversationsAreSafe` | native/crates/orbitnet-core/src/auth.rs:956-1047 | over every conversation with drops, reorderings, duplicates and forgeries: numbers run 1, 2, 3, ..., every payload received was sealed by the other end unchanged, and none is received twice |
| `Session.NoncesNeverRepeat` | native/crates/orbitnet-core/src/auth.rs:550-568 | in every conversation no nonce is used for two records, in either direction |
| `Session.SpentStaysSpent` | native/crates/orbitnet-core/src/auth.rs:950-959 | once the counter is spent no later event issues a number in that direction |
| `Session.CoveredDatagramOpens` | native/crates/orbitnet-core/src/auth.rs:998-1047 | a sealed datagram whose number the window admits opens to the payload sealed |
| `Session.Converse` | native/crates/orbitnet-core/src/auth.rs:876-1047 | two session objects driven over any events hold exactly the state of the specified run |
| `Manifest.TableIgnoresOrder` | native/crates/orbitnet-core/src/codec.rs:1636-1641 | distinct-slot tables with the same rows are one table, whatever the order |
| `Manifest.RowsOfIs` | native/crates/orbitnet-core/src/codec.rs:1684-1694 | there is one ascending listing of a table |
| `Manifest.DiffManifest` | native/crates/orbitnet-core/src/codec.rs:1656-1677 | the removals are the slots gone, ascending, and the additions exactly the rows new or changed, ascending |
| `Manifest.ApplyManifestDelta` | native/crates/orbitnet-core/src/codec.rs:1684-1694 | for any delta at all, removals then additions, the table listed ascending by slot |
| `Manifest.PatchUndoesDiff` | native/crates/orbitnet-core/src/codec.rs:1679-1694 | patching a table with its diff to another reaches the other exactly |
| `Manifest.DiffEmptyIffUnchanged` | native/crates/orbitnet-core/src/codec.rs:1651-1654 | the diff is empty exactly when nothing changed |
| `Manifest.DiffNamesTheChanges` | native/crates/orbitnet-core/src/codec.rs:1643-1654 | a slot is retired exactly when gone, a row stated exactly when new or changed, and no slot is in both halves |
| `Manifest.ApplyUndoesDiff` | native/crates/orbitnet-core/src/codec.rs:1656-1694 | the delta is the diff of the two tables, and applying it to the previous one gives the current table in slot order |
| `ManifestProtocol.ManifestServer.Publish` | native/crates/orbitnet-godot/src/orbit_net.rs:6201-6304 | the table is sorted and diffed, the generation moves only on a change, and each peer is sent nothing, the one delta or the whole table by what it is believed to hold |
| `ManifestProtocol.SentByWhatIsBelieved` | native/crates/orbitnet-godot/src/orbit_net.rs:6284-6303 | a peer is sent nothing exactly when believed current, the delta exactly when believed at its base, and the whole table otherwise |
| `ManifestProtocol.GenerationIsTheCounter` | native/crates/orbitnet-godot/src/orbit_net.rs:6240-6260 | over every publish the run's generation is the server's counter, saturation included |
| `ManifestProtocol.ManifestServer.Address` | native/crates/orbitnet-godot/src/orbit_net.rs:6284-6303 | each peer gets what it is owed and is believed to hold it |
| `ManifestProtocol.ManifestServer.Forget` | native/crates/orbitnet-godot/src/orbit_net.rs:1511-1513 | a peer that asked, or restarted, is believed to hold nothing |
| `ManifestProtocol.ManifestClient.Receive` | native/crates/orbitnet-godot/src/orbit_net.rs:7160-7242 | a full table no older than the held one is adopted, a delta on the held generation is applied whole, anything else zeroes the generation and asks, keeping the stale rows |
| `ManifestProtocol.TakenOk` | native/crates/orbitnet-godot/src/orbit_net.rs:7253-7300 | taking any true frame leaves a client's claim true |
| `ManifestProtocol.PublishOk` | native/crates/orbitnet-godot/src/orbit_net.rs:6201-6304 | publishing keeps every link true below the last generation |
| `ManifestProtocol.ArrivedOk` | native/crates/orbitnet-godot/src/orbit_net.rs:7160-7242 | an arrival, whole or broken, keeps a link true |
| `ManifestProtocol.ClaimsAreTrue` | native/crates/orbitnet-core/src/codec.rs:1575-1591 | over every run of publishes, whole and broken deliveries, requests, restarts and joins, a client at generation g > 0 holds exactly the server's table at g |
| `ManifestProtocol.RepairReachesTheServer` | native/crates/orbitnet-godot/src/orbit_net.rs:7340-7351 | after the server forgets a peer its next publish brings the client to the server's table, whatever is still in flight |
| `ManifestProtocol.StaysInStepIffCountable` | native/crates/orbitnet-godot/src/orbit_net.rs:6248-6255 | publishing keeps a current client current exactly below the last generation or when nothing changed; at it a change reaches nobody who is current |
| `ManifestCodec.EntryRoundTrip` | native/crates/orbitnet-core/src/codec.rs:1697-1716 | a row reads back from its bytes, an owner below zero as nobody |
| `ManifestCodec.EntryReads` | native/crates/orbitnet-core/src/codec.rs:1720-1747 | a row reads back field by field, an owner past every peer id as nobody |
| `ManifestCodec.EntriesRoundTrip` | native/crates/orbitnet-core/src/codec.rs:1697-1747 | a counted table reads back whole, identical exactly when no owner is below zero |
| `ManifestCodec.DeltaRoundTrip` | native/crates/orbitnet-core/src/codec.rs:1607-1635 | a delta reads back whole, trailing bytes untouched |
| `ManifestCodec.PublishedDeltaSurvives` | native/crates/orbitnet-core/src/codec.rs:1607-1635 | the delta between any two tables within their widths, no owner below zero, decodes to itself |
| `ManifestCodec.PublishedTableSurvives` | native/crates/orbitnet-core/src/codec.rs:1588-1604 | so does a whole published table |
| `ManifestCodec.WriteEntries` | native/crates/orbitnet-core/src/codec.rs:1697-1716 | the writer appends exactly those bytes |
| `ManifestCodec.ReadEntries` | native/crates/orbitnet-core/src/codec.rs:1720-1747 | the reader answers that parse for any bytes, a hostile count ending in an error |
| `Wire.UintRoundTrip` | native/crates/orbitnet-core/src/codec.rs:265-277 | a fixed-width field reads back and leaves the rest |
| `Wire.VarintFits` | native/crates/orbitnet-core/src/codec.rs:427-442 | whatever the bytes, an accepted varint fits 64 bits |
| `Wire.VarintRoundTrip` | native/crates/orbitnet-core/src/codec.rs:295-307 | every 64-bit value reads back, consuming exactly its bytes |
| `Wire.ZigzagRoundTrip` | native/crates/orbitnet-core/src/codec.rs:310-312 | every signed 64-bit value survives the shift-and-xor encoding, the most negative included |
| `Wire.ZigzagInterleaves` | native/crates/orbitnet-core/src/codec.rs:310-312 | v is written as 2v, or -2v - 1 below zero |
| `Wire.ZigzagOnto` | native/crates/orbitnet-core/src/codec.rs:445-448 | every raw value is the encoding of the value it decodes to |
| `Wire.ZigzagBack` | native/crates/orbitnet-core/src/codec.rs:445-448 | a zigzag field reads back and leaves the rest |
| `Wire.MaskRoundTrip` | native/crates/orbitnet-core/src/codec.rs:451-460 | a bitmask of any length reads back, consuming exactly its bytes |
| `Wire.MaskBit` | native/crates/orbitnet-core/src/codec.rs:315-325 | flag i of a mask is bit i mod 8 of byte i / 8 |
| `Wire.Writer.Truncate` | native/crates/orbitnet-core/src/codec.rs:243-247 | rolls back to an earlier length and never grows |
| `Wire.Writer.Varint` | native/crates/orbitnet-core/src/codec.rs:295-307 | the loop appends the seven-bit groups, low first, the last without the continuation bit |
| `Wire.Writer.Bitmask` | native/crates/orbitnet-core/src/codec.rs:315-325 | bits are packed eight to a byte, low bit first |
| `Wire.Reader.Take` | native/crates/orbitnet-core/src/codec.rs:354-361 | answers exactly the next bytes or an error that consumes nothing |
| `Wire.Reader.Varint` | native/crates/orbitnet-core/src/codec.rs:427-442 | for any bytes the loop answers the specified parse, never shifting past the width |
| `Wire.Reader.Zigzag` | native/crates/orbitnet-core/src/codec.rs:445-448 | the signed value of the varint read |
| `Wire.Reader.Bitmask` | native/crates/orbitnet-core/src/codec.rs:451-460 | one flag per bit asked for, from exactly the bytes they need |
| `Frames.KindRoundTrip` | native/crates/orbitnet-core/src/codec.rs:171-190 | a kind byte is refused exactly when no kind has it |
| `Frames.FrameHeader.Encode` | native/crates/orbitnet-core/src/codec.rs:568-579 | the fields are appended in wire order |
| `Frames.HeaderOf` | native/crates/orbitnet-core/src/codec.rs:582-611 | arbitrary bytes either decode to a header with every field in its width or are refused; the ack saturates and clamps |
| `Frames.AckIsTheNearestTick` | native/crates/orbitnet-core/src/codec.rs:582-611 | whatever the distance, the acknowledged tick is the nearest 32-bit one to what it names |
| `Frames.DecodeHeader` | native/crates/orbitnet-core/src/codec.rs:582-611 | the decoder answers that parse and leaves the cursor where it ended |
| `Frames.HeaderRoundTrip` | native/crates/orbitnet-core/src/codec.rs:568-611 | every header, over all tick and ack pairs, reads back from its own bytes, whatever follows |
| `Half.DecodeIsFiniteAndExact` | native/crates/orbitnet-core/src/quant.rs:82-94 | every pattern decodes to a finite single, and exactly to the value it stands for unless it is an infinity or NaN |
| `Half.ReencodeIsIdentity` | native/crates/orbitnet-core/src/quant.rs:35-94 | a decoded half encodes back to its own bits, infinities and NaNs to zero |
| `Half.EncodeIsFinite` | native/crates/orbitnet-core/src/quant.rs:35-75 | no input, in range or out of it, encodes to an infinity or a NaN |
| `Half.EncodeRounds` | native/crates/orbitnet-core/src/quant.rs:49-75 | in range the result is the significand rounded, ties to even, on the grid of its binade, carries included |
| `Half.OneTripIsCanonical` | native/crates/orbitnet-core/src/quant.rs:489-519 | one trip through the wire is a fixed point |
| `Half.NormalError` | native/crates/orbitnet-core/src/quant.rs:59-75 | from 2^-14 to 65504 the error is within 2^-11 of the value |
| `Half.SubnormalError` | native/crates/orbitnet-core/src/quant.rs:49-58 | from 2^-24 to 2^-14 the error is within 2^-25 |
| `Half.FlushedError` | native/crates/orbitnet-core/src/quant.rs:46-48 | below 2^-24 the result is zero and the error under 2^-24 |
| `Half.InRangeIsNearest` | native/crates/orbitnet-core/src/quant.rs:49-75 | in range no half is closer than the one chosen |
| `Half.BeyondLargest` | native/crates/orbitnet-core/src/quant.rs:39-40 | beyond 65504 the largest half is the nearest |
| `Half.NearestExceptOneBinade` | native/crates/orbitnet-core/src/quant.rs:30-48 | over all finite singles the result is a nearest half exactly when the input is not strictly between 2^-25 and 2^-24 |
| `Half.TiesGoToEven` | native/crates/orbitnet-core/src/quant.rs:49-75 | a significand halfway between two halves goes to the even one |
| `Half.KnownSingles` | native/crates/orbitnet-core/src/quant.rs:35-40 | where a single keeps sign, exponent and mantissa |
| `Half.KnownHalves` | native/crates/orbitnet-core/src/quant.rs:59-75 | one, minus two, and two ties, one down and one up, to their bits |
| `Half.LeastHalf` | native/crates/orbitnet-core/src/quant.rs:49-58 | 2^-24 is the least half |
| `Half.KnownLimits` | native/crates/orbitnet-core/src/quant.rs:35-45 | 65504 and whatever is larger are the largest half, an infinity is zero |
| `Schema.SchemaBuilder.PushQuantized` | native/crates/orbitnet-core/src/protocol.rs:227-250 | each property starts where the last ended; a quantizer its kind does not allow becomes lossless |
| `Schema.PropertiesAreDisjoint` | native/crates/orbitnet-core/src/protocol.rs:240-248 | no two properties of a built schema overlap |
| `Schema.PropertiesCover` | native/crates/orbitnet-core/src/protocol.rs:240-248 | every byte of a row belongs to a property of the schema |
| `Schema.Extends` | native/crates/orbitnet-core/src/protocol.rs:227-250 | pushing keeps the layout contiguous and grows the stride by the property |
| `Quant.WireSizes` | native/crates/orbitnet-core/src/quant.rs:395-404 | an encoded property has its wire width and decodes to its native width |
| `Quant.LanesAreCanonical` | native/crates/orbitnet-core/src/quant.rs:442-446 | a second trip of any binary16 lanes through the wire changes nothing |
| `Quant.CanonicalizeValue` | native/crates/orbitnet-core/src/quant.rs:489-519 | in place, the result is up to eight trips through the wire, stopping at the first that changes nothing; a lossless value is untouched |
| `Quant.HalfIsCanonicalAfterOneTrip` | native/crates/orbitnet-core/src/quant.rs:489-519 | under Half canonicalizing is one trip and its result is canonical |
| `Quant.AppliedRestores` | native/crates/orbitnet-core/src/quant.rs:640-659 | applying what a mask wrote of a canonical row, onto any row that agrees elsewhere, gives back that row and consumes exactly those bytes |
| `Quant.DeltaRestores` | native/crates/orbitnet-core/src/columnar.rs:173-183 | the changed properties of a canonical row against any base of its length give back the row |
| `Quant.FullRestores` | native/crates/orbitnet-core/src/quant.rs:522-543 | a whole encoded row decodes to the row over anything |
| `Quant.MaskedWireSize` | native/crates/orbitnet-core/src/quant.rs:617-624 | the bytes written are the size computed from the mask alone |
| `Quant.AppliedConsumes` | native/crates/orbitnet-core/src/quant.rs:640-659 | applying any payload consumes exactly the masked size or refuses |
| `Quant.WriteMaskedWire` | native/crates/orbitnet-core/src/quant.rs:627-634 | appends the masked properties in schema order |
| `Quant.ApplyMaskedWire` | native/crates/orbitnet-core/src/quant.rs:640-659 | overwrites the masked properties in place and answers the bytes consumed, or none on a short payload or row |
| `Quant.ComputeChangedMask` | native/crates/orbitnet-core/src/columnar.rs:173-183 | one flag per property, a row too short for one counting as changed |
| `Quant.SentIffChanged` | native/crates/orbitnet-core/src/columnar.rs:173-183 | a property is sent exactly when a byte of it differs or a row is too short to have it |
| `StateBlock.SkipLandsWithDecode` | native/crates/orbitnet-core/src/codec.rs:1183-1232 | skipping a body lands where every successful decode lands, for arbitrary bytes |
| `StateBlock.NoBaseNoRow` | native/crates/orbitnet-core/src/codec.rs:1220-1222 | a delta whose base is not held, or not of the row's length, never yields a row |
| `StateBlock.RowMeansExactBytes` | native/crates/orbitnet-core/src/codec.rs:1196-1232 | a body that yields a row has exactly the bytes its schema and mask call for, none over, and the row keeps its length |
| `StateBlock.TruncatedBodyIsRefused` | native/crates/orbitnet-core/src/codec.rs:1145-1180 | a block that declares more body than there is, or none, is refused |
| `StateBlock.TicksSaturate` | native/crates/orbitnet-core/src/codec.rs:1145-1180 | a tick distance past the start gives tick zero |
| `StateBlock.MetaRoundTrip` | native/crates/orbitnet-core/src/codec.rs:1145-1180 | slot, tick, flags, base tick and remaining length read back |
| `StateBlock.TailRoundTrip` | native/crates/orbitnet-core/src/codec.rs:1196-1232 | the body of a full or masked block decodes to exactly the row |
| `StateBlock.BlockRoundTrip` | native/crates/orbitnet-core/src/codec.rs:1096-1232 | a block decodes to exactly the row it was encoded from, at every receiver holding the delta's base, the bytes after it untouched |
| `StateBlock.FrameRoundTrip` | native/crates/orbitnet-core/src/codec.rs:1096-1232 | a run of blocks parses back block by block to every row on a bound slot, unbound slots skipped, trailing bytes untouched |
| `StateBlock.EncodeStateBlock` | native/crates/orbitnet-core/src/codec.rs:1096-1138 | appends the block of any row its schema fits, an entity tick past the frame saturating, and answers full exactly when no earlier reference was given |
| `StateBlock.DecodeStateBlockMeta` | native/crates/orbitnet-core/src/codec.rs:1145-1180 | answers the specified parse for any bytes; a length shorter than the fields it must hold is malformed |
| `StateBlock.DecodeStateBlockInto` | native/crates/orbitnet-core/src/codec.rs:1196-1232 | decodes in place, for any bytes, as the specified parse; without the delta's base it never answers true and leaves the row alone |
| `StateBlock.SkipStateBlockBody` | native/crates/orbitnet-core/src/codec.rs:1183-1188 | hops over exactly the declared body |
| `InputBlock.RowLiesAt` | native/crates/orbitnet-core/src/codec.rs:1315-1324 | row i of a block lies at i times the wire stride |
| `InputBlock.BlockRoundTrip` | native/crates/orbitnet-core/src/codec.rs:1256-1301 | slot, count - the rows or 255, whichever is less - and length read back, and skipping lands after the block; the newest tick reads back exactly when its distance from the frame fits a signed 64-bit value |
| `InputBlock.TickReadsBackIff` | native/crates/orbitnet-core/src/codec.rs:1264-1290 | the wrapped signed delta gives the tick back exactly when the distance of the two ticks fits a signed 64-bit value |
| `InputBlock.NewestIsTheNearestTick` | native/crates/orbitnet-core/src/codec.rs:1278-1290 | whatever the distance, the newest tick is the nearest 64-bit one to what it names |
| `InputBlock.RowRoundTrip` | native/crates/orbitnet-core/src/codec.rs:1303-1324 | every row carried is found in any order and decodes to the row sent; none is found exactly when the schema has no wire bytes |
| `InputBlock.RowFoundIff` | native/crates/orbitnet-core/src/codec.rs:1309-1324 | a row is borrowed exactly when it is counted, the length is that of the count, and the bytes are there |
| `InputBlock.EncodeInputBlock` | native/crates/orbitnet-core/src/codec.rs:1256-1275 | appends the block's fields and at most 255 rows, canonical or not |
| `InputBlock.DecodeInputBlockMeta` | native/crates/orbitnet-core/src/codec.rs:1278-1301 | answers the specified parse for any bytes, saturating both ways |
| `InputBlock.InputBlockRow` | native/crates/orbitnet-core/src/codec.rs:1309-1324 | borrows one row, none when count and length disagree or the buffer is short |
| `Rings.StaleIsTheWindowBelowTheTop` | native/crates/orbitnet-core/src/columnar.rs:80-87 | the saturating refusal is the window's edge exactly unless the newest tick is the last there is and the tick is within a capacity of it |
| `Rings.NeverEvictsNewer` | native/crates/orbitnet-core/src/columnar.rs:89-110 | a write that is not refused never lands on a newer tick's slot |
| `Rings.LookBackIsNewestIffNear` | native/crates/orbitnet-core/src/history.rs:283-299 | whatever ticks are held, a search of a span finds the newest at or before its argument exactly when that one is within the span, or there is none |
| `TickRings.TickRing.Set` | native/crates/orbitnet-core/src/history.rs:245-262 | stores unless stale; every accepted tick still in the window stays readable |
| `TickRings.TickRing.Get` | native/crates/orbitnet-core/src/history.rs:265-271 | answers only the last value accepted for a tick, and always for a tick in the window |
| `TickRings.TickRing.ClosestAtOrBefore` | native/crates/orbitnet-core/src/history.rs:287-299 | terminates with the greatest resident tick of its look-back span, or none; asked at or after the newest tick it answers that tick exactly when fewer than a capacity have passed since, and asked before it no accepted tick still in the window is passed over |
| `TickRings.OldTickIsNotFound` | native/crates/orbitnet-core/src/history.rs:283-299 | a ring of two that has stored only tick 0 answers nothing at tick 5, though tick 0 is its newest at or before it |
| `Columnar.SlotsDisjoint` | native/crates/orbitnet-core/src/columnar.rs:94-112 | slots of the flat buffer do not overlap |
| `Columnar.ColumnarHistory.FillSlot` | native/crates/orbitnet-core/src/columnar.rs:101-106 | fills one slot's bytes and disturbs no other's |
| `Columnar.ColumnarHistory.BeginRow` | native/crates/orbitnet-core/src/columnar.rs:94-112 | a resident row keeps its bytes, an evicting one starts as zeros, a stale one is refused |
| `Columnar.ColumnarHistory.WriteRow` | native/crates/orbitnet-core/src/columnar.rs:115-126 | stores exactly the row given, unless its length is wrong or its tick stale |
| `Columnar.ColumnarHistory.Row` | native/crates/orbitnet-core/src/columnar.rs:130-138 | answers only the last row written for a tick, and always for a tick in the window |
| `Columnar.ColumnarHistory.ClosestAtOrBefore` | native/crates/orbitnet-core/src/columnar.rs:145-158 | terminates with the greatest resident row of its look-back span, or none |
| `Freshness.FreshnessLedger.SetConfidence` | native/crates/orbitnet-core/src/freshness.rs:70-88 | confidence only upgrades, an older tick is evicted, a newer one never overwritten, and every slot stays true to the calls |
| `Freshness.FreshnessLedger.ConfidenceOf` | native/crates/orbitnet-core/src/freshness.rs:92-98 | the highest confidence recorded for the tick by every call so far, and predicted when there was none or a newer tick took the slot |
| `Freshness.FreshnessLedger.BeginSim` | native/crates/orbitnet-core/src/freshness.rs:106-119 | true exactly when, of every call so far, real input for the tick was recorded, no earlier pass had it and no newer tick took the slot; which consumes it |
| `Freshness.FreshAtMostOnce` | native/crates/orbitnet-core/src/freshness.rs:70-119 | of the answers to any run of calls, no two fresh ones are of one tick |
| `Freshness.FirstRealPassIsFresh` | native/crates/orbitnet-core/src/freshness.rs:9-19 | the first pass after the real input reads fresh exactly unless a newer tick took the slot, whatever passes came before |
| `Freshness.RecordingReflects` | native/crates/orbitnet-core/src/freshness.rs:70-88 | recording keeps a slot true to the calls so far |
| `Freshness.HighestByCases` | native/crates/orbitnet-core/src/freshness.rs:70-98 | the highest is real input exactly when any was recorded, and a prediction exactly when nothing better was |
| `Freshness.SlotIsKnown` | native/crates/orbitnet-core/src/freshness.rs:92-98 | what a slot true to the calls says of a tick is the highest confidence recorded for it, or predicted |
| `Freshness.BeginningReflects` | native/crates/orbitnet-core/src/freshness.rs:106-119 | beginning a pass keeps a slot true to the calls and answers the rule |
| `Freshness.Drive` | native/crates/orbitnet-core/src/freshness.rs:50-119 | over every run of calls the ledger answers the history-only rule, and no tick fresh twice |
| `Freshness.MemoRing.Set` | native/crates/orbitnet-core/src/freshness.rs:162-182 | the key reads back, other keys and slots are unchanged, an evicted tick's memos are gone, and a newer tick is never overwritten |
| `Freshness.MemoRing.Upserted` | native/crates/orbitnet-core/src/freshness.rs:174-181 | one key's value changes, in place or pushed |
| `Resim.PlanIsExact` | native/crates/orbitnet-core/src/history.rs:171-179 | a plan names, ascending, exactly the bodies whose window is in the past, each with its range |
| `Resim.ReplaysWithinHistory` | native/crates/orbitnet-core/src/history.rs:67-107 | every range ends at the current tick, starts at the earliest mark or the limit back, whichever is later, and is never longer than the limit |
| `Resim.HullIsTheGlobalWindow` | native/crates/orbitnet-core/src/history.rs:153-168 | the hull of the plan is exactly the global window |
| `Resim.CostsAtMostTheGlobalWindow` | native/crates/orbitnet-core/src/history.rs:184-186 | the plan costs at most the global window times the planned bodies |
| `Resim.CostCountsReplays` | native/crates/orbitnet-core/src/history.rs:184-186 | the cost is the number of body-ticks replayed, none counted twice |
| `Resim.ResimPlanner.Mark` | native/crates/orbitnet-core/src/history.rs:128-130 | a mark is added and the earliest kept |
| `Resim.ResimPlanner.Remove` | native/crates/orbitnet-core/src/history.rs:133-135 | one body's marks are dropped |
| `Resim.ResimPlanner.GlobalWindow` | native/crates/orbitnet-core/src/history.rs:153-168 | answers the hull of the plan without consuming anything |
| `Resim.ResimPlanner.Plan` | native/crates/orbitnet-core/src/history.rs:171-179 | every past mark is replayed from it or from the history floor, a mark's tick is replayed exactly when it is in the past and within history, and every window, replayed or not, is left clean |
| `Resim.MarkIsReplayedIff` | native/crates/orbitnet-core/src/history.rs:96-107 | a pending mark of any planner is replayed exactly when it is in the past at the plan and history reaches it |
| `Resim.CleanPlansNothing` | native/crates/orbitnet-core/src/history.rs:171-179 | clean windows plan nothing at any later tick, so a second plan without new marks is empty and a future mark once consumed is never replayed |
| `Clock.ByRttIsTheStableSort` | native/crates/orbitnet-core/src/clock.rs:151-159 | sorting by round trip is stable |
| `Clock.CorrectionShiftsTheOffset` | native/crates/orbitnet-core/src/clock.rs:112-119 | a correction of s lowers the filtered offset by exactly s and leaves the mean round trip alone |
| `Clock.AgreedOffset` | native/crates/orbitnet-core/src/clock.rs:151-162 | samples that agree give what they agree on |
| `Clock.OnlyTheFastHalfCounts` | native/crates/orbitnet-core/src/clock.rs:151-162 | the offset is the mean of the fastest half, rounded up, and of nothing else |
| `Clock.WindowHoldsTheNewest` | native/crates/orbitnet-core/src/clock.rs:87-99 | after any run of samples the window holds the newest of them, as many as it can |
| `Clock.StretchIsBounded` | native/crates/orbitnet-core/src/clock.rs:167-176 | the stretch runs toward the remote clock and no faster than the window asks |
| `Clock.NeverOvershoots` | native/crates/orbitnet-core/src/clock.rs:13-25 | a frame no longer than the window never flips the offset's sign or grows its magnitude, at every bound |
| `Clock.OvershootsIffTooLong` | native/crates/orbitnet-core/src/clock.rs:28-34 | at every offset and bound a frame flips the offset's sign exactly when it is longer than the window and than the offset takes to close at the bound's own rate |
| `Clock.ClockEstimator.PushSample` | native/crates/orbitnet-core/src/clock.rs:87-99 | a finite sample is stored over the oldest once full; any other is rejected and changes nothing |
| `Clock.ClockEstimator.ApplyLocalCorrection` | native/crates/orbitnet-core/src/clock.rs:112-119 | every stored offset moves by the correction; a non-finite one is ignored |
| `Clock.ClockEstimator.Offset` | native/crates/orbitnet-core/src/clock.rs:151-162 | the mean offset of the lowest-round-trip half |
| `Clock.ClockEstimator.Stretch` | native/crates/orbitnet-core/src/clock.rs:167-176 | the clamped multiplier, one when either limit is unusable |
| `Clock.EstimateIsTheTruth` | native/crates/orbitnet-core/src/clock.rs:20-34 | in every noise-free run, whatever its frames, the estimate is the true offset while samples are held |
| `Clock.TruthSettles` | native/crates/orbitnet-core/src/clock.rs:13-25 | in every noise-free run of frames no longer than the window, between any two moments the true offset keeps its sign and never grows |
| `Clock.RunFrame` | native/crates/orbitnet-core/src/clock.rs:101-119 | one frame takes the estimator and the true offset through exactly one step of the loop |
| `Clock.Discipline` | native/crates/orbitnet-core/src/clock.rs:13-25 | over every run of probes, frames and drops the estimator and the true offset end in exactly the loop's state |
| `Layouts.TwoBytes` | native/crates/orbitnet-core/src/codec.rs:265-277 | two-byte fields are little-endian |
| `Layouts.FourBytes` | native/crates/orbitnet-core/src/codec.rs:265-277 | so are four-byte ones |
| `Layouts.VarintOfOneTwoThree` | native/crates/orbitnet-core/src/codec.rs:295-307 | varints of one, two and three bytes: seven bits each, low first, the top bit on all but the last |
| `Layouts.AHeader` | native/crates/orbitnet-core/src/codec.rs:568-579 | a frame header byte by byte |
| `Layouts.AManifestRow` | native/crates/orbitnet-core/src/codec.rs:1697-1716 | a manifest row byte by byte |
| `Layouts.AManifestDelta` | native/crates/orbitnet-core/src/codec.rs:1607-1620 | a manifest delta byte by byte |
| `Layouts.StateBlocks` | native/crates/orbitnet-core/src/codec.rs:1096-1138 | a delta block and a full block byte by byte |
| `Layouts.AnInputBlock` | native/crates/orbitnet-core/src/codec.rs:1256-1275 | an input block byte by byte |
| `Layouts.AClearDatagram` | native/crates/orbitnet-core/src/auth.rs:956-981 | a clear datagram byte by byte, and what its tag covers |
| `Layouts.AssociatedData` | native/crates/orbitnet-core/src/auth.rs:1843-1853 | the associated data byte by byte |
| `Layouts.ANonce` | native/crates/orbitnet-core/src/auth.rs:569-574 | the nonce byte by byte |

## Left out

- InterestGrid.InterestGrid.QueryWithin: sums that leave the single-precision range are infinities and casts saturate, but rounding inside it is not modelled, nor the overflow of squares of distances and radii between 2^64 and the largest single; fewer than 2^31 candidates.
- PeerInterest.PeerInterest.UpdateGrid: exact distances and at most 2^31 - 1 shared candidates, as the query it makes.
- InputBlock.BlockRoundTrip: the signed subtraction of ticks wraps, as release builds do; the overflow check of the `template-debug` profile, which stops the encoder instead, is not modelled.
- Starvation.NoEntityStarves: the send record of an entity is only ever stamped, not cleared when the entity leaves a peer's interest; the bound is for entities offered throughout the window.
- SipVectors.TagOfFifteen: three of the reference corpus's messages, the empty one, a whole word, and a word with a tail.
- Session.ConversationsAreSafe: the tag and the cipher are functions, and that bytes which verify were produced by an end is a hypothesis on the run.
- StateBlock.BlockRoundTrip: smallest-three orientation packing is an abstract pair of functions, and a row using it is required canonical.
- Clock.Discipline: probes are noise-free; jitter, the lead bias and the hard-resync tests are not modelled.
- ManifestProtocol.ClaimsAreTrue: the flag that asks for the whole table may reach the server at any time or never; how a client frame carries it is not modelled.
- Constant-time behaviour, allocation pooling, reserve caps and scratch reuse.
- ChaCha20-Poly1305, X25519, key derivation, the handshake and its confirm tags, and the receive budget.
- The path selector's thresholds and the occupancy measure: only the harmlessness of whichever path is chosen.
- Interest sections and interest tables on the wire, and the `Handshake`, `Challenge`, `Welcome`, `Ping` and `Pong` frames: the coders they are made of are here, and their field lists add easier members.
- Seat roster diffs, pacing, slot allocation and quarantine, tick accumulation, and row finiteness checks.
- The schema hash, property roles' effect on restore order, and jitter and round-trip statistics beyond the mean.
- Reading positions past the end of a `u64` tick: tick arithmetic in run theorems is unbounded below the saturation points named above.

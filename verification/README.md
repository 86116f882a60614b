# A model of the core of open62541

open62541 1.3.8 is an implementation of OPC UA in C. This project models the parts of it that hold
its algorithms, and proves what they are for. `dafny verify dfyconfig.toml` checks everything.

Code that rewrites links, tables, queues, counters or buffers in place is modelled by classes,
arrays and loops. Each such method is proved to leave exactly what a function of the old state
says. The theorems are about those functions, so they hold of the methods.

| part of the program | what it does | files |
|---|---|---|
| zip tree | randomised tree whose shape depends only on order and ranks | `ZipTree`, `ZipTreeInPlace`, `ZipDepth` |
| AA tree | balanced tree ordered by key and address | `AaTree`, `AaRemoval`, `AaTreeInPlace`, `AaTraversal` |
| timer | scheduler over two AA trees | `Schedule`, `Intervals`, `Callbacks`, `Timer` |
| node store | versioned map of nodes; as a double-hashing table and as a zip tree | `NodeStore`, `NodeLifecycle`, `HolderLimit`, `NodeReplacement`, `NodeHistory`, `ReferenceTypes`, `DoubleHashing`, `HashTable`, `AutoIds`, `NodeMap`, `ZipNodeStore`, `ZipChains` |
| secure channel | chunking, padding, signing, numbering, framing, reassembly | `Wire`, `SequenceNumbers`, `ChunkCrypto`, `SecureChannel`, `SequenceRuns`, `TokenRenewal`, `ChunkSend`, `SendLimits`, `ChunkReceive`, `StreamCuts`, `FramingRules`, `ReceiveLimits`, `MessageAborts`, `Authenticity`, `Refusals`, `EndToEnd` |
| calendar | seconds to dates and back | `Calendar`, `LibcTime` |
| codecs | UTF-8 and Base64 | `Utf8`, `Base64`, `Base64Groups` |

`Arithmetic`, `Seqs`, `Options`, `Ordering` and `Words` are shared.

Both node stores are proved against the same functions of `NodeStore` (`Got`, `Copied`, `Inserted`,
`Replaced`, `Removed`, `Released`), so for the same ids they give the same results, status codes and
states, and `NodeLifecycle` speaks about both. Only the ids they choose for nodes without one differ.

The main results:

- two histories of a zip tree end in the same tree exactly when they leave the same ranked sequence
  (`ZipTree.HistoryIndependence`), and insertion followed by removal restores the exact tree
  (`ZipTree.InsertThenRemove`);
- AA insertions keep the tree balanced (`AaTree.InsertionsStayBalanced`), removals keep the contents
  and order (`AaTree.RemoveInOrder`), and keep the level rules in exactly the named cases
  (`AaRemoval.RemovalKeepsLevels`);
- a timer pass treats every entry as if it were alone (`Schedule.PassIsPointwise`), even while
  callbacks change other entries (`Callbacks.UntouchedTurns`), which bounds its rate
  (`Schedule.RateBound`) and fixes its phase over all runs (`Schedule.PhaseKept`), which is that of the
  base time it was added with (`Callbacks.PhaseFromBase`); executions stay an
  interval apart over a run exactly when each is prompt (`Intervals.IntervalsKept`);
- the hash-map store is a map through every insertion, removal, replacement, growth and shrinking
  (the methods of `NodeMap.NodeMap`); versions are freed exactly once and never while held, as long as
  none has more than 65535 holders (`NodeLifecycle.RunSound`), a bound that is exact
  (`HolderLimit.GetLimit`); and a replacement hits the version its copy was taken from, at most one for
  each version (`NodeReplacement.AtMostOneReplacement`), as long as no reused address misleads a copy, a
  condition that is exact as well (`NodeReplacement.GenuineExactly`);
- through every run the contents and answers of a node store are those of a plain record of what was
  made, copied, edited and published (`NodeHistory.StoreIsHistory`), published nodes never change
  (`NodeHistory.PublishedNeverChanges`), and reference types keep the index of their id
  (`ReferenceTypes.IndicesHold`);
- what is sent over a secure channel is what is received, under any chunking and any cutting of the
  byte stream (`EndToEnd.EndToEnd`, `StreamCuts.AnyCuts`), within bounded memory
  (`ReceiveLimits.RunBounded`), and without early reuse of a sequence number
  (`SequenceRuns.NoEarlyReuse`);
- a chunk is accepted exactly when it is for this channel, carries a living token, opens with a good
  signature and comes with an acceptable number (`Authenticity.AcceptedExactly`), so whatever is
  delivered was verified (`Authenticity.DeliveredIsVerified`); a stream is framed in the only way
  possible (`FramingRules.FramedExactly`), an aborted message leaves nothing behind
  (`MessageAborts.AbortedMessage`), and a message that is too large is sent up to its limits
  (`SendLimits.SentWhole`);
- calendar conversion, UTF-8 and Base64 are inverse to their counterparts on exactly the named
  domains (`LibcTime.BackAndThere`, `LibcTime.ThereAndBack`, `Utf8.OneToOne`, `Base64.RoundTrip`), and Base64 is
  given place by place for every string and every text (`Base64Groups.EncodedAt`, `Base64Groups.DecodedAt`).

## Premises

- Table sizes are prime (`NodeMap.PrimeSizes`), hash values are an arbitrary function, and the
  order on node ids is any total order that ties only equal ids (`ZipNodeStore.StrictOrder`).
- Comparison callbacks are total orders, possibly with ties (`Ordering.TotalOrder`).
- Allocation succeeds and returns an address not in use. It may return one that was in use before.
- No version of a node has more than 65535 holders at a time (`NodeLifecycle.Enabled`); this is a
  premise of all theorems about runs of a node store. What happens otherwise is in `HolderLimit`.
- The theorems that name `NodeReplacement.CarefulRun` assume in addition that no operation hands out an
  address that a detached copy still records, for an entry that can become the live one under the id
  of that copy. `NodeReplacement.TwoSucceed` is what happens otherwise. The invariants they start from
  hold of the empty store (`NodeReplacement.StartsSafe`).
- The random ids of the zip-tree store hit an id not in use at some time (`ZipNodeStore.CanPick`).
- `ChunkSend.Lawful`: verification accepts what signing made, decryption undoes encryption of whole
  blocks, both keep lengths, and the padding length fits its bytes and the padding loop's counter.
  In security mode None the algorithms are not used, and any that satisfy this will do.
  `EndToEnd.PremisesCanBeMet` gives an instance of all premises of the end-to-end theorem.
- `Authenticity.DeliveredIsVerified`: a set of keys is given that holds all those ever negotiated, and
  the application and the handling of open messages keep to it and to the mode
  (`Authenticity.KeepsWithin`).
- The end-to-end theorem: the application's callback accepts every message and leaves the channel
  alone, the token has not expired, messages are within both sides' limits, and the two sequence
  numbers are in step at the start.

## Where the code differs from what it says

- `ua_securechannel_crypto.c:477-480`: the comment asks for one body byte behind the sequence
  header, the comparison for two. A signed chunk with a body of one byte is refused
  (`EndToEnd.ChunkArrives` states both directions), and with it its message (`EndToEnd.EndToEnd`).
- `ua_securechannel.c:606-614`: the sequence number check also runs when the sequence header could
  not be decoded, on zeros. So a chunk that the unpacking refuses can change the counter:
  `SecureChannel.RefusedButCounted` is a buffer that does, and `SecureChannel.RefusedChangesCounter`
  says exactly which chunks do. A chunk that is unpacked and refused later has always changed it
  (`SecureChannel.RefusalChangesCounter`).
- `aa_tree.c:71-90`: a missing right child is not counted as level zero, so removals can break the
  level rules. `AaTree.RemovalCanBreakLevels` is such a removal, and `AaRemoval.RemovalKeepsLevels`
  says exactly which removals do.
- `ua_timer.c:237-241`: the comment promises at least the interval between executions under the
  current-time policy. The code spaces due times by at least the interval (`Schedule.RateBound`), but
  an entry that executes late can execute again too early: `Intervals.RunsTooEarly` is a run of two
  passes at 9 and 10 for an interval of 10. The promise holds for an execution exactly when it is on
  time or more than an interval late (`Intervals.NextRunApart`, over whole runs
  `Intervals.IntervalsKept`).
- `ua_nodestore_hashmap.c:336-365`: the comment keeps automatic ids above 50,000. The first id tried
  is 50001 plus the table size, and each conflict leads on by a step modulo the table size, from there
  downwards, so after enough conflicts the ids are below 50,000 and then below the table size, where
  zero and the ids of the standard's nodes lie. `NodeMap.ChoosesReserved` is a run that ends with a
  node under 49882. `AutoIds.OutsideReserved` says exactly when the chosen id is outside of that range,
  and `AutoIds.OutsideReservedSmall` and `AutoIds.OutsideReservedLarge` name the ids that decide it. The
  loop always ends on an id that is not in use (`NodeMap.NodeMap.PickId`).
- `ua_nodestore_hashmap.c:427-432` and `ua_nodestore_ziptree.c:271-280`: a copy may replace only the
  version it was taken from, but what is compared is the address. After that version was freed, its
  address can be handed out to another version, which an outdated copy then replaces
  (`NodeReplacement.TwoSucceed`; `NodeReplacement.ReuseIsSafe` gives the exact condition).
- `ua_securechannel_crypto.c:270`: the counter of the padding loop has 16 bits, so the loop does not
  end for a padding length of 65535 or more (`ChunkCrypto.LoopEndsBelow`).
- `ua_nodestore_hashmap.c:262` and `ua_nodestore_ziptree.c:150`: the counter of holders has 16 bits and
  is increased without a check. The 65536th holder at a time sets it to zero, and the removal of the
  node then frees it under all of them (`HolderLimit.HeldAndFreed`). `HolderLimit.GetLimit` says that
  this is the one way in which it happens.
- `ziptree.h:91-95` and `ua_nodestore_ziptree.c:285`: ranks are meant to be drawn at random, but a
  replacing entry is inserted with the rank of the number zero, which is 255, the highest there is.
  So replaced nodes stack up at the top of the tree, in the order of their keys: a search for one of
  them visits all of them that come before it (`ZipChains.ReplacedDepth`, `ZipChains.ReplacedAtRoot`). When
  all nodes have been replaced, the tree is a chain (`ZipChains.AllReplaced`); `ZipChains.BuildChain` is
  such a run. The contents are not affected (`ZipNodeStore.ZipContext.ReplaceNode`).
- `libc_time.c:60-65`: the year of a date in January or February is increased after the range
  check, so it exceeds the range of int for the two months behind the last year. And the check is
  made on years that begin in March, so January and February of the first year are refused.
  `LibcTime.SecsToTm` names both ranges.

- `ua_securechannel.h:216` and `ua_securechannel.c:244-258`: the chunks of a message are counted in 16
  bits, so a limit of 65535 chunks or more is not a limit: `SendLimits.ChunkLimitHolds` is the exact
  condition, and `SendLimits.SentExactly` says what goes out in any case.
- `base64.c:75-77`: the decoder reads text without padding, but when both padding characters are left
  out it gives nothing, and when one of the two is left out it gives a byte too many.
  `Base64Groups.PaddingLeftOut` says exactly when the padding can be left out.

## Model

| member | source | states |
|---|---|---|
| ZipTree.InsertInOrder | open62541-1.3.8/deps/ziptree.c:45-78 | insertion puts the new element behind every element whose key is not greater and keeps the order of all others, duplicates included |
| ZipTree.InsertShaped | open62541-1.3.8/deps/ziptree.c:57-76 | insertion keeps the rank rule: strictly smaller ranks to the left, not greater ones to the right |
| ZipTree.InsertCanonical | open62541-1.3.8/deps/ziptree.c:45-78 | inserting into the canonical tree of a sorted sequence gives the canonical tree of the sequence with the element added |
| ZipTree.ZipInOrder | open62541-1.3.8/deps/ziptree.c:80-93 | zipping two trees lists the elements of the first, then those of the second |
| ZipTree.ZipShaped | open62541-1.3.8/deps/ziptree.c:86-92 | zipping keeps the rank rule, with ties going to the first tree |
| ZipTree.RemoveInOrder | open62541-1.3.8/deps/ziptree.c:95-125 | removal takes out exactly the given element by identity, searching both sides of equal keys, and keeps the order of the rest |
| ZipTree.RemoveShaped | open62541-1.3.8/deps/ziptree.c:98-125 | removal keeps the rank rule |
| ZipTree.RemoveCanonical | open62541-1.3.8/deps/ziptree.c:98-125 | removing from the canonical tree of a sequence gives the canonical tree of the shorter sequence |
| ZipTree.ShapeIsCanonical | open62541-1.3.8/deps/ziptree.c:45-93 | a tree that keeps the rank rule is the one tree whose root is the leftmost element of highest rank, recursively |
| ZipTree.CanonicalIsShaped | open62541-1.3.8/deps/ziptree.c:45-93 | every sequence of ranked elements has such a tree, with that sequence as its in-order listing |
| ZipTree.FindTopmost | open62541-1.3.8/deps/ziptree.c:127-140 | a search misses only keys that tie with nothing in the tree, and otherwise returns the tied element of highest rank, leftmost among those |
| ZipTree.HistoryCanonical | open62541-1.3.8/deps/ziptree.c:45-125 | after any history of insertions and removals the tree is the canonical tree of the sequence the same history leaves |
| ZipTree.HistoryIndependence | open62541-1.3.8/deps/ziptree.c:45-125 | two histories end in the same tree if and only if they leave the same in-order sequence of ranked elements |
| ZipTree.InsertThenRemove | open62541-1.3.8/deps/ziptree.c:45-125 | inserting an element and removing it again restores the exact tree, duplicates included |
| ZipDepth.TopRankDepth | open62541-1.3.8/deps/ziptree.c:57-76 | an entry of the highest rank of all lies exactly as deep as there are entries of that rank before it |
| ZipDepth.EqualRanksChain | open62541-1.3.8/deps/ziptree.c:57-76 | a tree of equal ranks is a chain, as high as it has entries |
| ZipDepth.VisitsAreDepth | open62541-1.3.8/deps/ziptree.c:127-140 | without ties, a search for a key of the tree compares with its entry and those above it |
| ZipTreeInPlace.InsertAt | open62541-1.3.8/deps/ziptree.c:45-78 | the link rewriting of an insertion leaves exactly the tree of the value-level insertion, over the old entries and the new one |
| ZipTreeInPlace.ZipUp | open62541-1.3.8/deps/ziptree.c:80-93 | zipping in place links the two subtrees into exactly the zipped tree |
| ZipTreeInPlace.RemoveFrom | open62541-1.3.8/deps/ziptree.c:97-125 | removal in place leaves exactly the tree of the value-level removal, including on branches where the result of the recursive call is ignored |
| ZipTreeInPlace.FindIn | open62541-1.3.8/deps/ziptree.c:127-140 | the search over links stops at the entry the value-level search stops at |
| ZipTreeInPlace.Min | open62541-1.3.8/deps/ziptree.c:142-152 | the leftmost entry, or null for the empty tree |
| ZipTreeInPlace.Max | open62541-1.3.8/deps/ziptree.c:154-164 | the rightmost entry, or null for the empty tree |
| ZipTreeInPlace.Head.Insert | open62541-1.3.8/deps/ziptree.c:45-78 | the head keeps a sorted, canonical tree of distinct entries; its listing gains exactly the inserted entry |
| ZipTreeInPlace.Head.Remove | open62541-1.3.8/deps/ziptree.c:97-125 | the head keeps its invariant; its listing loses exactly the removed entry |
| ZipTreeInPlace.Head.FindTop | open62541-1.3.8/deps/ziptree.c:127-140 | null exactly when no entry ties with the key, otherwise the topmost tied entry |
| AaTree.InsertInOrder | open62541-1.3.8/deps/aa_tree.c:92-111 | insertion adds the element at its place in (key, address) order and changes nothing else in the listing |
| AaTree.InsertLevelled | open62541-1.3.8/deps/aa_tree.c:43-69 | insertion, with one skew and one split per level, keeps the level rules and raises a subtree only by using up a horizontal link |
| AaTree.LevelBounds | open62541-1.3.8/deps/aa_tree.c:43-116 | under the level rules a root of level L has at least 2^L - 1 elements below it and height at most 2L |
| AaTree.InsertionsStayBalanced | open62541-1.3.8/deps/aa_tree.c:92-116 | any sequence of insertions into the empty tree keeps the level rules and a height logarithmic in the element count |
| AaTree.FixupInOrder | open62541-1.3.8/deps/aa_tree.c:71-90 | rebalancing after a removal never changes the listing |
| AaTree.UnlinkSuccInOrder | open62541-1.3.8/deps/aa_tree.c:130-138 | unlinking the successor takes the first element off the listing and returns it |
| AaTree.UnlinkPredInOrder | open62541-1.3.8/deps/aa_tree.c:140-148 | unlinking the predecessor takes the last element off the listing and returns it |
| AaTree.RemoveInOrder | open62541-1.3.8/deps/aa_tree.c:150-179 | removal takes out exactly the element at the given address, through rotations, relabelling and replacement, and keeps the order of all others |
| AaTree.SearchFinds | open62541-1.3.8/deps/aa_tree.c:118-128 | a search returns an element with an equal key, or nothing exactly when no key in the tree is equal |
| AaTree.RemovalCanBreakLevels | open62541-1.3.8/deps/aa_tree.c:71-81 | a concrete tree of three nodes whose level rules do not survive removing the right leaf, because a missing right child is not counted as level zero |
| AaRemoval.RemovalKeepsLevels | open62541-1.3.8/deps/aa_tree.c:71-90 | removal keeps the level rules if and only if it does not take away the only right child of a node at level two; in any case the level of the root drops by at most one |
| AaRemoval.RemoveShrinks | open62541-1.3.8/deps/aa_tree.c:150-179 | a removal that bares no level-two node gives a levelled tree of the same or the next lower level; one that does leaves a tree whose only defect is a missing right child |
| AaRemoval.FixLeft | open62541-1.3.8/deps/aa_tree.c:71-90 | rebalancing repairs a left subtree that has become one level lower, in every arrangement of horizontal links on the right |
| AaRemoval.FixRight | open62541-1.3.8/deps/aa_tree.c:71-90 | rebalancing repairs a right subtree that has become one level lower, as long as it is not gone altogether from above level one |
| AaRemoval.LaxStays | open62541-1.3.8/deps/aa_tree.c:73-82 | rebalancing changes nothing in a tree whose only defects are missing right children, so it never repairs them |
| AaTreeInPlace.SkewAt | open62541-1.3.8/deps/aa_tree.c:43-54 | the link rewriting of skew gives exactly the skewed tree |
| AaTreeInPlace.SplitAt | open62541-1.3.8/deps/aa_tree.c:56-69 | the link rewriting of split, with its level increase, gives exactly the split tree |
| AaTreeInPlace.FixupAt | open62541-1.3.8/deps/aa_tree.c:71-90 | the level corrections, three skews and two splits in place give exactly the rebalanced tree |
| AaTreeInPlace.InsertAt | open62541-1.3.8/deps/aa_tree.c:92-111 | insertion in place leaves exactly the tree of the value-level insertion |
| AaTreeInPlace.UnlinkSuccAt | open62541-1.3.8/deps/aa_tree.c:130-138 | unlinking in place leaves the value-level tree and hands out the entry it took off |
| AaTreeInPlace.UnlinkPredAt | open62541-1.3.8/deps/aa_tree.c:140-148 | unlinking in place leaves the value-level tree and hands out the entry it took off |
| AaTreeInPlace.RemoveHere | open62541-1.3.8/deps/aa_tree.c:157-169 | the entry found is replaced in place by its successor or predecessor, giving the value-level tree |
| AaTreeInPlace.RemoveAt | open62541-1.3.8/deps/aa_tree.c:150-179 | removal in place leaves exactly the tree of the value-level removal |
| AaTreeInPlace.Find | open62541-1.3.8/deps/aa_tree.c:118-128 | the search loop ends at the node where the value-level search stops |
| AaTreeInPlace.Min | open62541-1.3.8/deps/aa_tree.c:186-194 | the first entry of the listing, or null |
| AaTreeInPlace.Max | open62541-1.3.8/deps/aa_tree.c:196-204 | the last entry of the listing, or null |
| AaTreeInPlace.Next | open62541-1.3.8/deps/aa_tree.c:206-231 | the entry right behind the given one in the listing, or null behind the last |
| AaTreeInPlace.Prev | open62541-1.3.8/deps/aa_tree.c:233-258 | the entry right before the given one in the listing, or null before the first |
| AaTreeInPlace.StepsInOrder | open62541-1.3.8/deps/aa_tree.c:206-258 | behind and before each entry of the listing lie the entries of the next and the previous place, or none at the ends |
| AaTraversal.Forward | open62541-1.3.8/src/server/ua_nodes.c:255-276 | the walk from the first entry, always to the next one, visits every entry exactly once, in order |
| AaTraversal.Backward | open62541-1.3.8/deps/aa_tree.c:196-258 | the walk from the last entry, always to the previous one, visits every entry exactly once, in reverse order |
| AaTraversal.TiesOf | open62541-1.3.8/src/server/ua_services_view.c:932-951 | from one entry with a key, stepping back and then forward while the keys are equal collects exactly the entries of the tree with that key, each once |
| AaTreeInPlace.Head.Add | open62541-1.3.8/deps/aa_tree.c:113-116 | the head keeps strict order; the listing gains exactly the new entry, and the level rules are kept |
| AaTreeInPlace.Head.Drop | open62541-1.3.8/deps/aa_tree.c:181-184 | the head keeps strict order; the listing loses exactly the given entry |
| Schedule.NextTimeIsLeast | open62541-1.3.8/src/ua_timer.c:38-54 | the computed time is the least time later than now that is a whole number of intervals away from the base time, also for a base time in the future |
| Schedule.RearmedExactly | open62541-1.3.8/src/ua_timer.c:237-249 | the next due time is an interval after the last one while that has not passed; after a missed cycle it is an interval after the clock, or under the base-time policy the least later time in phase with the last one |
| Callbacks.IntervalExactly | open62541-1.3.8/src/ua_timer.c:131-137 | the interval is the number of whole units of 100 ns in the milliseconds asked for, and unusable exactly when there is none |
| Callbacks.FirstTimeExactly | open62541-1.3.8/src/ua_timer.c:139-147 | the first due time is an interval from now, or with a base time the least later time in phase with that, which is at most an interval away |
| Callbacks.PhaseFromBase | open62541-1.3.8/src/ua_timer.c:127-194 | a repeated entry added or changed with a base time under the base-time policy: its first due time is the least later one in phase with the base time, and every due time of every later run is in phase with it |
| Schedule.DispatchDecreases | open62541-1.3.8/src/ua_timer.c:214-251 | every turn of the processing loop lowers a count of due entries (two if before now, one if exactly now), so the loop ends |
| Schedule.PassOrder | open62541-1.3.8/src/ua_timer.c:208-274 | entries run in non-decreasing due time, none of them after the clock, and everything left is due strictly later |
| Schedule.PassIsPointwise | open62541-1.3.8/src/ua_timer.c:208-274 | a pass does to each entry exactly what its own record and the clock determine, whatever else is scheduled; an entry runs twice only if its next turn falls exactly on the clock |
| Schedule.PassesArePointwise | open62541-1.3.8/src/ua_timer.c:208-274 | the same over any sequence of passes |
| Schedule.RateBound | open62541-1.3.8/src/ua_timer.c:242-249 | over any run up to clock t an entry executes at most floor((t - firstDue) / interval) + 1 times, at due times spaced by at least the interval |
| Schedule.PhaseKept | open62541-1.3.8/src/ua_timer.c:242-246 | under the base-time policy every due time over every run is congruent to the first modulo the interval |
| Intervals.RunsTooEarly | open62541-1.3.8/src/ua_timer.c:237-249 | an entry with interval 10, due at 0, executes at 9 and again at 10 |
| Intervals.NextDueApart | open62541-1.3.8/src/ua_timer.c:237-249 | the next due time is an interval or more behind the clock exactly when the execution is on time, or more than an interval late and, under the base-time policy, in phase |
| Intervals.NextRunApart | open62541-1.3.8/src/ua_timer.c:208-274 | whatever passes follow, the next execution is an interval or more away by the clock if and only if the last one met that condition |
| Intervals.IntervalsKept | open62541-1.3.8/src/ua_timer.c:208-274 | over a whole run of the timer, all executions stay an interval apart however the run goes on, if and only if every execution of the run meets that condition |
| Timer.ComparatorsAreOrders | open62541-1.3.8/src/ua_timer.c:15-36 | both key comparisons are total orders; equal due times are told apart by address |
| Timer.Timer.AddEntry | open62541-1.3.8/src/ua_timer.c:70-79 | a fresh id, and the entry enqueued in both trees |
| Timer.Timer.AddTimedCallback | open62541-1.3.8/src/ua_timer.c:112-122 | a one-shot entry at the given date, or an error without any change when there is no callback |
| Timer.Timer.AddRepeatedCallback | open62541-1.3.8/src/ua_timer.c:127-154 | a repeated entry first due an interval from now, or at the least later time in phase with the base time if there is one, or an error without any change for an unusable interval or callback |
| Timer.Timer.FindById | open62541-1.3.8/src/ua_timer.c:169-174 | the lookup in the id tree finds exactly the scheduled entry with that id |
| Timer.Timer.ChangeRepeatedCallback | open62541-1.3.8/src/ua_timer.c:156-194 | the entry with the id is rescheduled with the new parameters, first due an interval from now or at the least later time in phase with the new base time, and every other entry is untouched; unknown ids and unusable intervals are reported without any change |
| Timer.Timer.MoveEntry | open62541-1.3.8/src/ua_timer.c:175-190 | the due time changes while the entry is out of the due tree only; both trees then hold the same entries again |
| Timer.Timer.FreeEntry | open62541-1.3.8/src/ua_timer.c:201-203 | the entry leaves both trees and the memory, and nothing else changes |
| Timer.Timer.RemoveCallback | open62541-1.3.8/src/ua_timer.c:196-206 | exactly the entry with that id disappears, if there is one |
| Callbacks.UntouchedTurns | open62541-1.3.8/src/ua_timer.c:208-274 | whatever callbacks do to other entries, from any point of a pass on, an entry that they do not change or remove gets exactly the turns and the record it would get alone |
| Callbacks.QuietPass | open62541-1.3.8/src/ua_timer.c:208-274 | without interference from callbacks the turns and what is left are those of a pass over the schedule |
| Callbacks.PassBounded | open62541-1.3.8/src/ua_timer.c:228-264 | while callbacks schedule nothing for the clock of the pass or before, a pass takes no more turns than are pending without them |
| Callbacks.PassUnbounded | open62541-1.3.8/src/ua_timer.c:228-264 | a callback that adds itself again for the same clock makes a pass of any number of turns |
| Timer.Timer.Perform | open62541-1.3.8/src/ua_timer.c:112-206 | a call that a callback makes has its effect on the schedule and on nothing else, with both trees in agreement |
| Timer.Timer.Process | open62541-1.3.8/src/ua_timer.c:208-274 | the loop over both trees makes the turns of a pass, each with what its callback does to the timer, until nothing is due, and returns the least remaining due time |
| Timer.Timer.TakeTurn | open62541-1.3.8/src/ua_timer.c:216-265 | one turn takes the least entry, reinserts or frees it, and runs its callback |
| Timer.Timer.DispatchFirst | open62541-1.3.8/src/ua_timer.c:216-251 | the least entry is taken out and reinserted or freed, keeping both trees equal |
| Timer.Timer.NextTurn | open62541-1.3.8/src/ua_timer.c:242-249 | the due time of the next execution under either policy |
| Timer.Timer.Clear | open62541-1.3.8/src/ua_timer.c:276-289 | freeing by way of the id tree alone frees every entry and leaves both trees empty |
| DoubleHashing.WalkInjective | open62541-1.3.8/plugins/ua_nodestore_hashmap.c:64-65 | with a prime table size the probe walk repeats no slot within one round |
| DoubleHashing.WalkReaches | open62541-1.3.8/plugins/ua_nodestore_hashmap.c:108-111 | with a prime table size the probe walk reaches every slot before it is back at its start |
| DoubleHashing.WalkNext | open62541-1.3.8/plugins/ua_nodestore_hashmap.c:108-110 | adding the step and subtracting the size on overflow is one step of the walk modulo the size |
| NodeMap.HigherPrimeIndex | open62541-1.3.8/plugins/ua_nodestore_hashmap.c:67-79 | bisection finds the first table size that is not smaller than the requested one |
| HashTable.PlaceKeeps | open62541-1.3.8/plugins/ua_nodestore_hashmap.c:406-411 | putting an entry into a free slot that is reached without meeting an empty one keeps every live entry findable and no other id found |
| HashTable.TombstoneKeeps | open62541-1.3.8/plugins/ua_nodestore_hashmap.c:305-306 | a tombstone takes out one id and cuts nobody else's probe path |
| HashTable.SwapKeeps | open62541-1.3.8/plugins/ua_nodestore_hashmap.c:434-435 | replacing an entry in its slot keeps the table invariant |
| HashTable.StopMeansAbsent | open62541-1.3.8/plugins/ua_nodestore_hashmap.c:218-234 | a search that stops at an empty slot, or after a whole round, has proved the id absent, whatever tombstones it passed |
| HashTable.MatchMeansFound | open62541-1.3.8/plugins/ua_nodestore_hashmap.c:95-98 | cached hash and id agree at a used slot exactly when that slot holds the entry of the id |
| HashTable.CandidateFinal | open62541-1.3.8/plugins/ua_nodestore_hashmap.c:82-114 | a search without a candidate has seen every slot in use; otherwise the candidate is on the probe path of the id with no empty slot before it |
| HashTable.LiveCount | open62541-1.3.8/plugins/ua_nodestore_hashmap.c:308-411 | the number of live ids is the number of used slots, so below capacity some slot is free |
| HashTable.MovedAll | open62541-1.3.8/plugins/ua_nodestore_hashmap.c:137-145 | the rehash loop has moved every live entry when it ends, also when it stops early by the count |
| AutoIds.TriedOne | open62541-1.3.8/plugins/ua_nodestore_hashmap.c:350-365 | every identifier the automatic-id walk finds in use accounts for another live entry |
| NodeMap.NodeMap.FindFreeSlot | open62541-1.3.8/plugins/ua_nodestore_hashmap.c:81-114 | a slot free for the id, or nothing exactly for an id already present or a full table |
| NodeMap.NodeMap.FindOccupiedSlot | open62541-1.3.8/plugins/ua_nodestore_hashmap.c:210-235 | the slot of a live id, and nothing exactly for an id that is not live |
| NodeMap.NodeMap.Rehash | open62541-1.3.8/plugins/ua_nodestore_hashmap.c:137-145 | rehashing into a new table never fails to place an entry and ends with the same abstract store |
| NodeMap.NodeMap.Expand | open62541-1.3.8/plugins/ua_nodestore_hashmap.c:116-149 | growing or shrinking keeps the abstract store and gives it the least size of the list that is twice the number of nodes, or leaves it as it is when neither too full nor too empty |
| NodeMap.NodeMap.NewNode | open62541-1.3.8/plugins/ua_nodestore_hashmap.c:241-247 | a new detached version |
| NodeMap.NodeMap.DeleteNode | open62541-1.3.8/plugins/ua_nodestore_hashmap.c:249-254 | a detached version is freed |
| NodeMap.NodeMap.GetNode | open62541-1.3.8/plugins/ua_nodestore_hashmap.c:256-264 | the live version of the id with one more holder, or nothing |
| NodeMap.NodeMap.ReleaseNode | open62541-1.3.8/plugins/ua_nodestore_hashmap.c:266-275 | one holder less; a retired version without holders is freed |
| NodeMap.NodeMap.GetNodeCopy | open62541-1.3.8/plugins/ua_nodestore_hashmap.c:277-296 | a detached copy that remembers the version it was taken from |
| NodeMap.NodeMap.RemoveNode | open62541-1.3.8/plugins/ua_nodestore_hashmap.c:298-316 | the id leaves the store and its version is retired, or the id is reported unknown; the table shrinks to the least size for twice its nodes exactly when it is less than an eighth full and not of the smallest size, which changes nothing else |
| NodeMap.NodeMap.InsertNode | open62541-1.3.8/plugins/ua_nodestore_hashmap.c:322-413 | the entry is published under its id, or refused because the id exists or the reference types are full; a node without an id gets the first one of the automatic sequence that is not in use; the table grows to the least size for twice its nodes exactly when it is three quarters full |
| NodeMap.NodeMap.PickId | open62541-1.3.8/plugins/ua_nodestore_hashmap.c:334-365 | the automatic-id loop always ends, on the first identifier of its sequence that is not in use |
| AutoIds.OutsideReserved | open62541-1.3.8/plugins/ua_nodestore_hashmap.c:336-365 | the chosen identifier is at least 50,000 if and only if some identifier of the sequence that is at least 50,000 is not in use while every smaller one before it is |
| AutoIds.OutsideReservedSmall | open62541-1.3.8/plugins/ua_nodestore_hashmap.c:336-365 | for tables of at most 50,000 slots: if and only if one of the identifiers 50001 + size - k * (size - increase), as far as they are at least 50,000, is not in use |
| AutoIds.AutoIdClosed | open62541-1.3.8/plugins/ua_nodestore_hashmap.c:336-365 | the identifier of every round in closed form, for every table size |
| AutoIds.OutsideReservedLarge | open62541-1.3.8/plugins/ua_nodestore_hashmap.c:336-365 | for larger tables: if and only if one of the identifiers 50001 + size - k * (size - increase) above the table size is not in use, or one of (50001 + k * increase) mod size that is at least 50,000 is not in use while all smaller ones before it are |
| AutoIds.ReservedCanBeChosen | open62541-1.3.8/plugins/ua_nodestore_hashmap.c:336-365 | with 50128 and 50005 in use, the smallest table chooses 49882 |
| NodeMap.ChoosesReserved | open62541-1.3.8/plugins/ua_nodestore_hashmap.c:322-413 | a run of insertions into a new store that ends with a node under 49882 |
| NodeMap.NodeMap.ReplaceNode | open62541-1.3.8/plugins/ua_nodestore_hashmap.c:415-440 | the live version is exchanged only for a copy taken from it, and otherwise the copy is deleted |
| NodeLifecycle.StepSound | open62541-1.3.8/plugins/ua_nodestore_hashmap.c:195-440 | while no version gets more than 65535 holders, every operation keeps the ledger of holders right and moves each version only along unborn, detached, live, lingering, freed, also when addresses are handed out again |
| NodeLifecycle.RunSound | open62541-1.3.8/plugins/ua_nodestore_hashmap.c:195-440 | the same over every run and interleaving within that bound, and no version ever moves back |
| HolderLimit.GetLimit | open62541-1.3.8/plugins/ua_nodestore_hashmap.c:256-264 | from a sound state, a get keeps the ledger right if and only if the version has fewer than 65535 holders; otherwise, and only then, some bounded continuation frees a version that is held |
| HolderLimit.HeldAndFreed | open62541-1.3.8/plugins/ua_nodestore_hashmap.c:256-316 | a run of 65536 gets of one node and its removal, which frees it under all of its holders |
| NodeLifecycle.NothingLost | open62541-1.3.8/plugins/ua_nodestore_hashmap.c:256-316 | whatever is published or held is in memory with the exact count of its holders, and what is neither is unborn, detached or already freed |
| NodeHistory.StoreIsHistory | open62541-1.3.8/plugins/ua_nodestore_hashmap.c:241-440 | over every run from the empty store the ids lead to the versions last published under them, each entry in memory has the id, content, reference-type flag, index and original that making, copying, editing and inserting it have given its version, and every operation that may follow gets the status this record determines |
| NodeHistory.StepAgrees | open62541-1.3.8/plugins/ua_nodestore_hashmap.c:241-440 | every operation keeps the store in agreement with that record, which is only ever added to and knows no counters, marks or memory |
| NodeHistory.PublishedNeverChanges | open62541-1.3.8/plugins/ua_nodestore_hashmap.c:256-316 | the content, id, flag, index and original of a published version stay as they are until it is freed, whatever else happens |
| ReferenceTypes.IndicesHold | open62541-1.3.8/plugins/ua_nodestore_hashmap.c:385-404 | over every run, every reference type that is published, still held, or copied from one has the index of its id in the list; published ones have distinct indices; the list has at most 128 entries and is only extended |
| NodeLifecycle.LastReleaseFrees | open62541-1.3.8/plugins/ua_nodestore_hashmap.c:266-275 | a retired version is freed by the release of its last holder and by nothing else |
| NodeReplacement.TwoSucceed | open62541-1.3.8/plugins/ua_nodestore_hashmap.c:277-440 | a run in which two copies of one version both replace, because the address of the version is handed out again in between |
| NodeReplacement.ReuseIsSafe | open62541-1.3.8/plugins/ua_nodestore_hashmap.c:427-439 | an operation is safe, whatever careful operations follow, if and only if no detached copy records the address it hands out under an id that the new entry can come to have; otherwise some later replacement hits a version its copy was not taken from |
| NodeReplacement.GenuineExactly | open62541-1.3.8/plugins/ua_nodestore_hashmap.c:427-439 | at every point of a run, however it goes on carefully, every successful replacement hits the very version its copy was taken from, if and only if no operation of the run misleads a copy in that way |
| NodeReplacement.AtMostOneReplacement | open62541-1.3.8/plugins/ua_nodestore_hashmap.c:427-439 | in such a run, of all the copies ever taken from one version, at most one replacement succeeds |
| NodeLifecycle.VersionNeverReturns | open62541-1.3.8/plugins/ua_nodestore_hashmap.c:427-439 | a version that has left the store never becomes the live one again |
| ZipNodeStore.KeysOrdered | open62541-1.3.8/plugins/ua_nodestore_ziptree.c:32-46 | ordering by hash and then by id is a total order that ties only for the same hash and id |
| ZipNodeStore.FindLive | open62541-1.3.8/plugins/ua_nodestore_ziptree.c:141-149 | the tree search finds the entry of an id exactly when the id is live |
| ZipNodeStore.InsertKeeps | open62541-1.3.8/plugins/ua_nodestore_ziptree.c:257-258 | inserting an entry keeps the index in agreement with the live map, whatever its rank |
| ZipNodeStore.RemoveKeeps | open62541-1.3.8/plugins/ua_nodestore_ziptree.c:300-304 | removing an entry keeps the index in agreement with the live map |
| ZipNodeStore.ZipContext.GetNode | open62541-1.3.8/plugins/ua_nodestore_ziptree.c:141-152 | the same result and state as in the hash-map store |
| ZipNodeStore.ZipContext.ReleaseNode | open62541-1.3.8/plugins/ua_nodestore_ziptree.c:154-162 | the same result and state as in the hash-map store |
| ZipNodeStore.ZipContext.GetNodeCopy | open62541-1.3.8/plugins/ua_nodestore_ziptree.c:164-191 | holding the original while it is copied leaves the same result and state as in the hash-map store |
| ZipNodeStore.ZipContext.PickId | open62541-1.3.8/plugins/ua_nodestore_ziptree.c:202-216 | the loop over random ids ends on the first draw that is not in use, if there is one |
| ZipNodeStore.ZipContext.InsertNode | open62541-1.3.8/plugins/ua_nodestore_ziptree.c:193-260 | the same status and state as in the hash-map store for the same id; a node without an id gets the first random one not in use |
| ZipNodeStore.ZipContext.ReplaceNode | open62541-1.3.8/plugins/ua_nodestore_ziptree.c:262-290 | holding the old version while it is exchanged leaves the same status and state as in the hash-map store |
| ZipNodeStore.ZipContext.RemoveNode | open62541-1.3.8/plugins/ua_nodestore_ziptree.c:292-305 | the same status and state as in the hash-map store |
| ZipNodeStore.RankOf | open62541-1.3.8/deps/ziptree.c:14-35 | the drawn number zero gives rank 255 and no other number does |
| ZipNodeStore.RankExactly | open62541-1.3.8/deps/ziptree.c:14-35 | the rank of any other number is the position of its lowest set bit |
| ZipChains.ReplacedDepth | open62541-1.3.8/plugins/ua_nodestore_ziptree.c:282-286 | a search for a replaced node visits, besides its own entry, exactly as many as there are replaced nodes before it in the order of the keys |
| ZipChains.ReplacedAtRoot | open62541-1.3.8/plugins/ua_nodestore_ziptree.c:282-286 | a replaced node is the root if and only if no node before it has been replaced |
| ZipChains.AllReplaced | open62541-1.3.8/plugins/ua_nodestore_ziptree.c:282-286 | when all live nodes have been replaced, the tree is a chain of their number, and a search walks along the list of all nodes |
| ZipChains.BuildChain | open62541-1.3.8/plugins/ua_nodestore_ziptree.c:164-290 | for every n a run of insertions, copies and replacements that ends with n nodes in a tree of height n |
| SequenceNumbers.RepeatsAreFar | open62541-1.3.8/src/ua_securechannel.c:477-498 | in any run of accepted numbers the same number comes again only after at least 4294965249 acceptances |
| SequenceNumbers.RepeatAtTheBound | open62541-1.3.8/src/ua_securechannel.c:490-496 | a run that repeats a number after exactly that many acceptances |
| SequenceNumbers.CountingIsAccepted | open62541-1.3.8/src/ua_securechannel.c:273-275 | a sender counting up by one modulo 2^32 from the agreed number is accepted forever |
| SequenceRuns.NoEarlyReuse | open62541-1.3.8/src/ua_securechannel.c:576-622 | in any run of accepted chunks, the same sequence number comes again only after at least 4294965249 acceptances |
| SecureChannel.AcceptedMovesCounter | open62541-1.3.8/src/ua_securechannel.c:576-622 | an accepted chunk moves the counter to the number it carries, which the counter before allowed |
| SecureChannel.RefusedChangesCounter | open62541-1.3.8/src/ua_securechannel.c:576-622 | a chunk refused by the unpacking changes the counter if and only if it passes the header checks, nothing is signed, it is too short for a sequence header and zero is acceptable; the counter is zero then |
| SecureChannel.RefusalChangesCounter | open62541-1.3.8/src/ua_securechannel.c:712-783 | over all refusals of a symmetric chunk, by the unpacking, the limits, the assembly or the application, the counter changes if and only if the chunk could be unpacked, or in the case above |
| SecureChannel.CountedBeyondLimit | open62541-1.3.8/src/ua_securechannel.c:743-767 | a chunk beyond the chunk limit is refused and has moved the counter |
| SecureChannel.RefusedButCounted | open62541-1.3.8/src/ua_securechannel.c:860-908 | a buffer of sixteen bytes that is refused with a decoding error, delivers nothing and sets the counter from 4294967000 to zero |
| Authenticity.OpensExactly | open62541-1.3.8/src/ua_securechannel_crypto.c:437-488 | decryption, verification and removal of the padding give a number, a request id and a body exactly when the bytes in the clear are signed well over all before the signature, and hold headers, body and as much padding as their last bytes say |
| Authenticity.AcceptedExactly | open62541-1.3.8/src/ua_securechannel.c:576-622 | unpacking accepts a chunk if and only if its channel id and token are right, it opens under the keys then in use, which in the signing modes includes that its signature verifies, and its number is acceptable; the outcome is what it opens to |
| Authenticity.DeliveredIsVerified | open62541-1.3.8/src/ua_securechannel.c:712-786 | every MSG or CLO message that is delivered is put together from bodies of received chunks that open under negotiated keys, which in the signing modes includes that their signatures verify, and from nothing else |
| Refusals.HeadersRefused | open62541-1.3.8/src/ua_securechannel.c:576-604 | which of policy, channel id, token and lifetime a chunk is refused for |
| Refusals.NotDecrypted | open62541-1.3.8/src/ua_securechannel.c:602-604 | a chunk whose decryption fails is refused by the policy, behind the change of token that its headers made |
| Refusals.NotOpened | open62541-1.3.8/src/ua_securechannel_crypto.c:419-488 | a chunk that does not open is refused by the policy if its signature is not good, and otherwise for leaving no room for a body |
| Refusals.NumberRefused | open62541-1.3.8/src/ua_securechannel.c:477-498 | a chunk that opens is refused for its number alone |
| Refusals.HeaderCutShort | open62541-1.3.8/src/ua_securechannel.c:606-614 | a chunk too short for its sequence header is refused for that, and for its number as well if zero is not acceptable |
| Refusals.Assembled | open62541-1.3.8/src/ua_securechannel.c:624-683 | waiting chunks up to the first final one are delivered as one message, with those behind it left waiting, or all are left where they are and the first misfit gives the status |
| Refusals.ChunkTaken | open62541-1.3.8/src/ua_securechannel.c:743-783 | an unpacked chunk exceeds a limit, waits, drops what waits, or ends its message: then the waiting bodies are delivered in order as one message if request id and types are the same throughout, and otherwise the first misfit gives the status and every chunk stays |
| Refusals.MisfitStays | open62541-1.3.8/src/ua_securechannel.c:624-683 | chunks that do not fit each other stay in front of all later ones, and every later final chunk is answered with the reason of the same misfit |
| Refusals.PlainArrives | open62541-1.3.8/src/ua_securechannel.c:737-741 | a hello, acknowledge or error chunk is delivered as it is behind its header |
| Refusals.OpenAnswered | open62541-1.3.8/src/ua_securechannel.c:724-730 | an open chunk is handled exactly on a channel that is open or waits for it, and refused on any other without a trace |
| MessageAborts.AbortForgets | open62541-1.3.8/src/ua_securechannel.c:769-777 | behind an accepted abort chunk nothing waits, both counters are zero, and nothing is delivered |
| MessageAborts.AbortedMessage | open62541-1.3.8/src/ua_securechannel.c:712-786 | intermediate chunks that end in an accepted abort chunk deliver nothing, and the rest of the queue is processed as by a channel on which nothing waits |
| Wire.HeadersDecode | open62541-1.3.8/src/ua_securechannel.c:260-287 | what the receiver reads at the fixed header offsets is what the sender wrote |
| Wire.TypeWord | open62541-1.3.8/tools/schema/Custom.Opc.Ua.Transport.bsd:13-28 | message and chunk type share one word and are both read back from it |
| Wire.TypesWritten | open62541-1.3.8/src/ua_securechannel.c:260-287 | the first four bytes of a chunk are the name of its message type and the letter of its chunk type, as text |
| Wire.TypesRead | open62541-1.3.8/src/ua_securechannel.c:799-845 | a message type or chunk type is read exactly where its name or letter stands |
| Wire.EncodeDecoded | open62541-1.3.8/src/ua_securechannel.c:586-589 | a word that was read is written back as the same bytes |
| Wire.DecodeEncoded | open62541-1.3.8/src/ua_securechannel.c:586-589 | a little-endian word is read back where it was written |
| ChunkCrypto.PadChunk | open62541-1.3.8/src/ua_securechannel_crypto.c:244-278 | whenever its 16-bit counter lets it end, the padding loop writes exactly the padding bytes at the position and nothing else |
| ChunkCrypto.LoopEndsBelow | open62541-1.3.8/src/ua_securechannel_crypto.c:269-272 | the 16-bit counter gets past the padding length if and only if that is below 65535 |
| ChunkCrypto.PaddingRecovered | open62541-1.3.8/src/ua_securechannel_crypto.c:244-416 | for every chunk the padding loop ends and the receiver recovers the number of padding bytes, if and only if the block size is at most 256, or 65535 with the extra padding byte |
| ChunkCrypto.WholeBlocks | open62541-1.3.8/src/ua_securechannel_crypto.c:257-258 | the encrypted part of every chunk is a whole number of blocks |
| ChunkCrypto.ChunksFit | open62541-1.3.8/src/ua_securechannel_crypto.c:349-384 | every body end allowed by the layout gives a chunk within the buffer if and only if 16 mod block size is at most buffer length mod block size, which holds for block sizes dividing 16 |
| ChunkCrypto.LongestChunk | open62541-1.3.8/src/ua_securechannel_crypto.c:374-383 | in every mode, the length of the chunk whose body uses up all of the space |
| StreamCuts.FrameAppend | open62541-1.3.8/src/ua_securechannel.c:788-858 | framing a stream is framing its first part, then what is left of it together with the rest; an error in the first part is the error of the whole |
| StreamCuts.FrameKeepsBytes | open62541-1.3.8/src/ua_securechannel.c:823-856 | the extracted chunks and the rest are together exactly the buffer |
| StreamCuts.LeftoverIsShort | open62541-1.3.8/src/ua_securechannel.c:700-710 | what is kept for later is shorter than a header or than the receive limit, and holds no complete chunk |
| FramingRules.FramedExactly | open62541-1.3.8/src/ua_securechannel.c:788-858 | a stream is framed in the one way in which it is a sequence of chunks, each with the size and types it says as text, and a rest that is no complete chunk; the status is the reason why the rest cannot start one |
| FramingRules.BufferRefused | open62541-1.3.8/src/ua_securechannel.c:860-908 | after a framing error nothing of the buffer is processed, the chunks in front of the fault stay queued and the rest is dropped |
| StreamCuts.ProcessAppend | open62541-1.3.8/src/ua_securechannel.c:712-786 | processing a queue is processing its front, then the rest, up to the first error |
| StreamCuts.OneCut | open62541-1.3.8/src/ua_securechannel.c:860-908 | for a well-framed stream two buffers give the same deliveries, state and status as the one, errors of processing included |
| StreamCuts.AnyCuts | open62541-1.3.8/src/ua_securechannel.c:860-908 | under any cutting the stream is accepted if and only if it is accepted in one piece, and then deliveries, queues, counters and leftover are the same |
| StreamCuts.AnyCutsFramed | open62541-1.3.8/src/ua_securechannel.c:860-908 | a well-framed stream comes to the same in any pieces also when a chunk is refused: the same deliveries, status and channel state |
| StreamCuts.ClockOnlyExpires | open62541-1.3.8/src/ua_securechannel_crypto.c:559-566 | the time of arrival decides whether a token is still good and nothing else |
| ReceiveLimits.RunBounded | open62541-1.3.8/src/ua_securechannel.c:751-767 | over every accepted run the waiting chunks, their bytes, the unframed leftover and every delivered message stay within the configured limits, and the counters are exact until the channel is closed |
| TokenRenewal.ServerRollsOver | open62541-1.3.8/src/ua_securechannel_crypto.c:517-535 | the server keeps the old keys up to the first chunk that does not carry the old token, which completes the renewal if it carries the new one and is refused without change otherwise |
| TokenRenewal.ClientRollsOver | open62541-1.3.8/src/ua_securechannel_crypto.c:537-556 | the same for the client, of whose keys only the receiving ones change |
| TokenRenewal.NoRenewalNoCheck | open62541-1.3.8/src/ua_securechannel_crypto.c:511-515 | outside of a renewal every token id is accepted |
| TokenRenewal.CheckedExactly | open62541-1.3.8/src/ua_securechannel_crypto.c:505-569 | a chunk passes the token check if and only if it carries a token that is alive, and it is unknown if and only if it carries none |
| TokenRenewal.ExpiryCloses | open62541-1.3.8/src/ua_securechannel_crypto.c:559-566 | in every state of renewal, a chunk that carries an expired token is refused and closes an open channel, with policy, tokens, keys and all that was buffered |
| TokenRenewal.ClosedRefuses | open62541-1.3.8/src/ua_securechannel.c:720-741 | a closed channel refuses every secured chunk without a trace |
| TokenRenewal.ExpiredForGood | open62541-1.3.8/src/ua_securechannel.c:712-741 | once closed, no queue of secured chunks delivers anything or changes the channel |
| ChunkReceive.Receiver.CloseChannel | open62541-1.3.8/src/ua_securechannel.c:101-131 | closing leaves no policy, token, key or buffered chunk behind |
| ChunkReceive.Receiver.DeleteBuffered | open62541-1.3.8/src/ua_securechannel.c:94-99 | both queues and the incomplete chunk are emptied |
| ChunkReceive.Receiver.QueueChunk | open62541-1.3.8/src/ua_securechannel.c:743-783 | one unpacked chunk is queued and counted, checked against the limits, and completes or aborts its message |
| ChunkReceive.Receiver.CheckSymHeader | open62541-1.3.8/src/ua_securechannel_crypto.c:505-569 | the in-place token check takes the same branches and leaves the same negotiated state as its function |
| ChunkReceive.Receiver.ProcessSequenceNumberSym | open62541-1.3.8/src/ua_securechannel.c:482-498 | the counter moves to the number exactly when it is acceptable, and is untouched otherwise |
| ChunkReceive.Receiver.UnpackPayloadMSG | open62541-1.3.8/src/ua_securechannel.c:576-622 | checks in order policy, channel id, token, decryption, signature, padding and sequence number |
| ChunkReceive.Receiver.UnpackPayload | open62541-1.3.8/src/ua_securechannel.c:724-741 | dispatch on the message type and the channel state |
| ChunkReceive.Receiver.AssembleProcessMessage | open62541-1.3.8/src/ua_securechannel.c:624-683 | the chunks up to the first final one are checked for consistency, joined, taken off the queue and delivered |
| ChunkReceive.Receiver.CheckChunks | open62541-1.3.8/src/ua_securechannel.c:645-659 | the status of the first chunk that does not belong to the message, if any |
| ChunkReceive.Receiver.TakeBodies | open62541-1.3.8/src/ua_securechannel.c:666-677 | the payload is the bodies in order, and exactly those chunks leave the queue |
| ChunkReceive.Receiver.ProcessOne | open62541-1.3.8/src/ua_securechannel.c:720-783 | one chunk: unpack, queue, limits, abort or delivery |
| ChunkReceive.Receiver.ProcessChunks | open62541-1.3.8/src/ua_securechannel.c:715-786 | the loop over the complete chunks stops at the first error and leaves the rest queued |
| ChunkReceive.Receiver.ExtractCompleteChunk | open62541-1.3.8/src/ua_securechannel.c:788-858 | one complete chunk is moved from the buffer to the queue, with the error for every malformed header |
| ChunkReceive.Receiver.ProcessBuffer | open62541-1.3.8/src/ua_securechannel.c:860-908 | a buffer is handled exactly as the function of the whole channel state says |
| ChunkSend.MessageContext.SetBufPos | open62541-1.3.8/src/ua_securechannel_crypto.c:349-384 | the body space is what remains after headers, signature and padding |
| ChunkSend.MessageContext.SendChunk | open62541-1.3.8/src/ua_securechannel.c:289-360 | the buffer goes out as exactly one numbered, padded, signed and encrypted chunk of its body, unless the message exceeds its limits |
| ChunkSend.MessageContext.Pad | open62541-1.3.8/src/ua_securechannel.c:315-321 | padding follows the body when the chunk will be encrypted |
| ChunkSend.MessageContext.WriteHeaders | open62541-1.3.8/src/ua_securechannel.c:260-287 | headers are written in front of the body without touching it |
| ChunkSend.MessageContext.Sign | open62541-1.3.8/src/ua_securechannel_crypto.c:320-330 | the signature of everything before it is placed behind it |
| ChunkSend.MessageContext.Encrypt | open62541-1.3.8/src/ua_securechannel_crypto.c:335-344 | everything behind the first sixteen bytes is encrypted in place |
| ChunkSend.MessageContext.Exchange | open62541-1.3.8/src/ua_securechannel.c:362-388 | a full buffer is sent as an intermediate chunk and replaced by an empty one |
| ChunkSend.MessageContext.Finish | open62541-1.3.8/src/ua_securechannel.c:429-433 | the last buffer is sent as the final chunk |
| ChunkSend.SendSymmetricMessage | open62541-1.3.8/src/ua_securechannel.c:390-471 | on an open channel over an established connection, a message whose encoding fills the buffers with the given bodies goes out as the chunks of those bodies, numbered consecutively, the last one final; otherwise nothing goes out and no number is used up |
| SendLimits.SentExactly | open62541-1.3.8/src/ua_securechannel.c:242-258 | for any number of bodies exactly the chunks of the longest front part that fits go out and the number moves by as many; the status is good exactly when that is all of them |
| SendLimits.SentWhole | open62541-1.3.8/src/ua_securechannel.c:242-258 | a message of less than 65536 chunks is sent whole if and only if its length and its number of chunks are within their limits, zero meaning none; otherwise exactly the chunks of the longest front part within both limits go out |
| SendLimits.ChunkLimitHolds | open62541-1.3.8/src/ua_securechannel.c:242-258 | the limit on chunks holds for every message if and only if it is below 65535, because the count of chunks has 16 bits |
| EndToEnd.Opened | open62541-1.3.8/src/ua_securechannel_crypto.c:437-488 | decryption, verification and unpadding give back headers and body of a chunk, provided that a signed one has at least two body bytes, and refuse it otherwise |
| EndToEnd.ChunkArrives | open62541-1.3.8/src/ua_securechannel.c:576-622 | a chunk from a sender in step is accepted if and only if it is unsigned or has at least two body bytes, and gives its body and request id |
| EndToEnd.BodiesFrame | open62541-1.3.8/src/ua_securechannel.c:788-858 | the receiver frames the chunks of a message as they were made, whatever follows |
| EndToEnd.BodiesProcessed | open62541-1.3.8/src/ua_securechannel.c:712-786 | the chunks of a message are delivered as one message with the joined body, and nothing stays behind |
| EndToEnd.BodiesRefused | open62541-1.3.8/src/ua_securechannel.c:712-786 | a message with a signed body of less than two bytes is refused and not delivered |
| EndToEnd.EndToEnd | open62541-1.3.8/src/ua_securechannel.c:860-908 | any list of messages in any security mode, cut into fitting bodies by the sender and into arbitrary pieces by the network, is delivered as exactly that list up to the first message with a signed body of less than two bytes; if there is none both sides are in step afterwards, and otherwise that one is refused |
| Calendar.YearsClosed | open62541-1.3.8/deps/libc_time.c:94-124 | counting years one by one from 1970 comes to 365 days each and one for every Gregorian leap year |
| Calendar.OneDatePerSecond | open62541-1.3.8/deps/libc_time.c:127-147 | no two normalised dates are the same second |
| LibcTime.YearToSecs | open62541-1.3.8/deps/libc_time.c:87-125 | the start of a year is the sum of the Gregorian year lengths from 1970, with the right leap flag |
| LibcTime.MonthToSecs | open62541-1.3.8/deps/libc_time.c:74-85 | the table of months is the sum of the month lengths |
| LibcTime.TmToSecs | open62541-1.3.8/deps/libc_time.c:127-147 | every date, normalised or not in its month, gives the second the calendar counts |
| LibcTime.YearOfDay | open62541-1.3.8/deps/libc_time.c:33-52 | cycles, centuries, quads and years give the March-based year of a day and the day in it |
| LibcTime.MonthOfDay | open62541-1.3.8/deps/libc_time.c:54-55 | the month loop stays inside its twelve entries and ends at the month of the day |
| LibcTime.SecsToTm | open62541-1.3.8/deps/libc_time.c:14-72 | the one normalised date of the second, exactly where the year fits an int; refused or overflowing in exactly the named ranges |
| LibcTime.ThereAndBack | open62541-1.3.8/deps/libc_time.c:14-147 | a second that converts is given back by its date |
| LibcTime.BackAndThere | open62541-1.3.8/deps/libc_time.c:14-147 | a normalised date is given back by its second, except in January and February of the first year an int can hold |
| Utf8.Encode | open62541-1.3.8/deps/string_escape.c:151-185 | the octets of RFC 3629 for every code point up to 10FFFF, and nothing else is written |
| Utf8.CheckFull | open62541-1.3.8/deps/string_escape.c:68-122 | the continuation loop and the range checks accept exactly the well-formed sequences |
| Utf8.Iterate | open62541-1.3.8/deps/string_escape.c:124-148 | one step over a buffer, with the end and every malformed start told apart |
| Utf8.DecodeEncoded | open62541-1.3.8/deps/string_escape.c:124-185 | decoding undoes encoding, whatever follows, for exactly the code points that are not surrogates |
| Utf8.EncodeDecoded | open62541-1.3.8/deps/string_escape.c:32-148 | any bytes that are accepted are exactly the encoding of the decoded code point, which is a scalar value |
| Utf8.OneToOne | open62541-1.3.8/deps/string_escape.c:32-185 | strings of scalar values and well-formed byte strings correspond one to one under encoding and iterated decoding |
| Base64.Encode | open62541-1.3.8/deps/base64.c:16-56 | the encoding loop fills exactly the allocated 4 * ceil(n / 3) characters; there is no result exactly when that length exceeds the range of a size |
| Base64.Decode | open62541-1.3.8/deps/base64.c:68-115 | the decoding loop never writes behind the allocated bytes, fills them on every path that is not cut short, and computes the decoding |
| Base64.RoundTrip | open62541-1.3.8/deps/base64.c:16-115 | decoding the encoding gives back every byte string of every length |
| Base64Groups.EncodedAt | open62541-1.3.8/deps/base64.c:13-56 | every character of the encoding of any string: while there are bits left the one of the alphabet for six bits of a 24-bit group, and behind that the padding |
| Base64Groups.ReadExactly | open62541-1.3.8/deps/base64.c:58-66 | which characters are read as which value: the alphabet, two more each for plus and slash, and zero for all others |
| Base64Groups.DecodedAt | open62541-1.3.8/deps/base64.c:68-115 | the decoding of any text: its length by the number and padding of the characters, and each byte as eight bits of what four characters stand for |
| Base64Groups.PaddingLeftOut | open62541-1.3.8/deps/base64.c:68-115 | an encoding without some of its padding characters is read as the same bytes if and only if its whole padding is a single character |

## Left out

- ChunkCrypto.PadChunk: requires that its loop ends; nothing is said about what a loop without end writes.
- ChunkCrypto.DecodePadding: the read of a second padding byte in front of the chunk is given the value zero; the length check refuses the chunk whatever is read.
- NodeMap.NodeMap.InsertNode: requires fewer than 402653182 nodes, because beyond that bound the 32-bit size computations can wrap around.
- NodeMap.NodeMap.Expand: the same bound on nodes, and tables of at most 536870909 slots, for the same reason.
- NodeMap.NodeMap.PickId: the identifiers are those of a 64-bit platform; on 32-bit platforms (`ua_nodestore_hashmap.c:357-362`, `ua_nodestore_ziptree.c:206-212`) they are also reduced to 24 bits, which is not modelled.
- ZipNodeStore.ZipContext.InsertNode: the numbers drawn at random, for ids and for the rank, are parameters; without a draw that is not in use the program does not end.
- ZipNodeStore.ZipContext.GetNodeCopy: in the zip-tree store the original has fewer than 65535 holders; the program holds it while copying, and its release then asserts a counter above zero.
- ZipNodeStore.ZipContext.ReplaceNode: in the zip-tree store the old version has fewer than 65535 holders, for the same reason.
- NodeLifecycle.RunSound: runs in which a version gets a 65536th holder are excluded; `HolderLimit` says what becomes of them.
- ZipTreeInPlace.Head.Insert: the rank is chosen by the caller; the extraction of a rank from a random number is `ZipNodeStore.Rank`, and no statement about the distribution of ranks is made.
- LibcTime.SecsToTm: the year that exceeds the range of int is a separate outcome, because C leaves it undefined.
- EndToEnd.EndToEnd: one clock reading for the whole stream; `StreamCuts.ClockOnlyExpires` says why that loses nothing.
- ChunkSend.SendSymmetricMessage: the encoding layer is represented by the list of bodies it fills the buffers with, and the failures of buffers, signing and encryption are not modelled.
- Timer.Timer.Process: what the callbacks of a pass do is given as a script of finite length, so passes that callbacks keep going forever are covered only up to any number of turns; mutexes, a callback that processes or clears the timer itself, and 64-bit overflow of times are not modelled. A one-shot entry is freed before its callback, not behind it.
- Timer: the two trees are AA trees as values and the entries a map from addresses to records; that the in-place routines compute those values is proved in `AaTreeInPlace`, but the two sets of links inside one entry are not modelled.
- ZipNodeStore.ZipContext: the tree is a zip tree as a value, and entries are a map from addresses to records; the in-place routines are in `ZipTreeInPlace`.
- ChunkReceive.Receiver: chunks are values in queues, decrypted by a function that gives new bytes; pointers into the network buffer, the `copied` flag and re-entrant calls from the callback are not modelled. A callback may close the channel.
- TokenRenewal: the derivation of keys is represented by naming the nonce pair the keys come from, and does not fail.
- Asymmetric messages (open requests and responses, their headers, certificates and padding) are a parameter of the receiver and are not sent.
- Hello, acknowledge and error messages are framed and delivered; what the application does with them is not modelled.
- The index of reference types is a list; the bit sets of subtypes are not modelled, nor is the conversion of long reference lists into trees when an entry is released.
- Iteration over a node store with a visitor, deletion of a whole node store, and iteration over a zip tree.
- The conversion of node ids to text, string escapes other than UTF-8, and integer-to-text helpers.
- Out-of-memory paths, logging, network plugins, access control, publish-subscribe, the generated type encodings and the address-space services, which this model does not need.

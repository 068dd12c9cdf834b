# Lightning distributed routing: a verified model

ldRouting lets nodes of the lightning network find payment routes. Nodes register short routing addresses on the
bitcoin chain, share tables of "I can reach this address with this capacity" with their channel peers, and send probes
that follow the tables hop by hop. This project models the node's core library, `ldrlib`, in Dafny 4.11 and proves what
its data structures and protocols guarantee, for all inputs, all runs and all interleavings. Run
`dafny verify dfyconfig.toml` to check it.

The model follows the form of the code. What the code changes in place is changed in place: the trie of linked nodes
(`AddressTrie`), the routing stack (`RoutingStack`), the database over both (`Database`), the sequence number
(`Session.IncrementSeqNumber`). Each such method is proved against a function on values, and the theorems are about
those functions: tables in `RoutingTable`, registries in `Registry`, address sets in `Keyspace`. The network
protocol, the probes and the encrypted sessions are state machines over steps. They use the same functions, so that a
theorem about the network is one about what the database methods do.

| file | content |
|---|---|
| `Types.dfy`, `Numerals.dfy` | bytes, addresses, keys, machine integers; positional numerals |
| `BitAddress.dfy` | conversion between addresses and bit paths |
| `Keyspace.dfy`, `Suggestion.dfy` | address suggestion over the set of registered addresses, and what it is worth |
| `AddressTrie.dfy` | the mutable trie, refining a map, and the suggestion search over its nodes |
| `RoutingTable.dfy`, `RoutingStack.dfy` | the routing table as a value and as a mutable stack |
| `Network.dfy`, `Loops.dfy`, `Probing.dfy` | the distance-vector protocol, its next-hop loops and its probes, over all runs |
| `Codec.dfy` | file records, messages and frames |
| `Session.dfy` | sequence numbers, nonces and the session they make |
| `Registry.dfy`, `Restart.dfy`, `Rescan.dfy` | registrations from the chain; what survives a restart; updates cut short and done again |
| `Database.dfy` | the node's database, tying trie, index by key, stack and files together |

## Main results

* **Widest paths.** With fixed balances, in every run every stored or in-flight capacity is witnessed by a real path
  (`Network.Soundness`). After one balance pass everywhere and k full exchange rounds, in any order and with any other
  steps in between, every path of at most k + 1 channels is matched (`Network.Convergence`). Once k suffices for the
  longest simple path that carries a capacity, it is promised exactly if some path carries it (`Network.WidestPaths`),
  whether or not all registered nodes run. Next hops can form loops (`Loops.LoopReachable`), but only flat ones
  (`Loops.LoopsAreFlat`), and none in a run in which no offer replaces an equal entry (`Loops.NoTiesNoLoops`).
* **Probes.** A probe visits channel neighbours only and carries at least what its source promised, whatever happens to
  the tables meanwhile (`Probing.ProbeGuarantee`). When it reports more than its route can carry is characterised exactly
  (`Probing.GatheredExactIff`).
* **Balance passes.** Two passes serve every neighbour and later ones change nothing (`RoutingTable.SyncStabilises`); when
  one is not enough is characterised exactly (`RoutingTable.OnePassIff`).
* **Suggestion.** It fails exactly when the seed's half of the address space is full (`Suggestion.SuggestFailsIffHalfFull`).
  It is free exactly when the sibling at which the search stops is empty, and then it is the closest
  (`Suggestion.SuggestionFreshIff`). Which address it is otherwise is determined too (`Suggestion.SuggestionIs`).
* **Registrations.** Exactly which are accepted, refused, or stop the program (`Registry.AcceptedIff`,
  `Registry.FatalIff`, `Registry.ProcessStopsIff`), and what any run of them leaves: each key at the address last
  accepted for it (`Registry.AddressAfter`, `Registry.InfoAfter`).
* **Agreement.** Trie, index by key, leaf entries and stack agree after every database operation
  (`Database.DB.AddAddressToDB`, `Database.DB.AddRoutingEntryToDB` and the methods built on them).
* **Restart and rescan.** In every life of the program, with any number of updates, restarts and kills, the address file
  replays to the registry in memory (`Restart.FileReplays`). Any schedule of updates and restarts over a growing chain is
  one batch scan (`Restart.LifeIsBatch`), and so is one in which updates are killed, unless handling again what a kill
  left handled accepts something new (`Rescan.KilledLifeIsBatch`, `Rescan.RescanIsBatchIff`). Tables survive restarts reversed (`Restart.RestartKeepsTable`). The database
  itself can always be stopped and started again (`Database.DB.Restart`).
* **Wire and session.** Exactly which bytes are read as what (`Codec.ResponseIff`, `Codec.ForwardRouteIff`,
  `Registry.ParseTxIff`), exact bounds for what survives the 16-bit counts and frame lengths (`Codec.TableFrameExactIff`,
  `Codec.RouteRoundTrip`), exactly which schedules of messages break a session (`Session.SessionFailsIff`), and exactly
  which make it seal two messages under one nonce (`Session.NonceReuseIff`).

## Where the code does less than its comments say

The model follows the code.

* `ldrlib/db.go:412-467`: the depth-first searches say that they find a new address. They never record the branch they
  take, and count their position from one level too high, so a search that needs them suggests an address that is
  already registered (`Suggestion.SuggestionMayBeTaken`).
* `ldrlib/db.go:345-356`: the sibling at the top bit is never examined, so a suggestion fails although the other half of
  the space may be free (`Suggestion.FailsWithHalfFree`).
* `ldrlib/utils.go:197-198`: the transaction id and the version of a registration are read back at the wrong offsets.
  `Codec.InfoRoundTrip` says exactly which records survive, `Codec.InfoIsLost` gives one that does not.
* `ldrlib/routing.go:101-108`: with several channels to the first hop a probe starts from the last listed balance instead
  of the smallest (`Probing.ProbeMayOverReport`).
* `ldrlib/db.go:641` says that a destination is added if it is better than the stored entry. Line 679 lets an equal one
  replace it too, so that next hops can form a loop (`Loops.LoopReachable`).
* `ldrlib/db.go:816-855`: one balance pass can leave a neighbour below its own balance (`RoutingTable.OnePassIff` says
  when); two cannot.
* `ldrlib/networking.go:502-622`: messages that cross on the wire leave the two ends' numbers apart, and from then on no
  message can be opened at either end. Both ends count from one number under one key, so a message sent against one in
  flight is also sealed under a nonce already used (`Session.NonceReuseIff`).
* `ldrlib/db.go:743-755`: the height is written after the last registration. A node killed in between scans the same
  blocks again, and may then accept a registration that it had refused, as do nodes that scan once
  (`Rescan.RescanMayAccept`).
* `ldrlib/db.go:171-198`: loading the routing file reverses the stack, after which reading it from a block height can miss
  entries.
* `ldrlib/bitcoin.go:243-261`: the comment admits one output, the code requires two.

## Model

| member | source | states |
|---|---|---|
| Network.Soundness | ldrlib/db.go:653-687 | In every run, each stored entry has a real walk of channels through its next hop to its destination, with at least that balance on every channel, along which tables are exchanged; so has each destination in flight, from its sender |
| Network.NextHopChain | ldrlib/db.go:653-687 | In every reachable state an entry is at most every balance to its next hop and at most what that hop itself promises, unless the hop is the destination |
| Network.Convergence | ldrlib/message.go:149-181 | After one pass per node and k full rounds, in any interleaving, every node promises at least the bottleneck of every walk of at most k + 1 channels |
| Network.WidestPaths | ldrlib/db.go:642-688 | Once there have been as many rounds as the longest simple walk that carries a capacity needs, the capacity is promised if and only if some walk along which tables are exchanged carries it |
| Network.WidestChannelPaths | ldrlib/db.go:642-688 | Where channels between running nodes are listed at both ends, rounds for all registered nodes but two always suffice, and the capacity is promised if and only if some path of channels carries it |
| Network.PeerWalkIff | ldrlib/networking.go:457-482 | A walk along which tables are exchanged is a path of channels, and the only kind of path where channels between running nodes are listed at both ends |
| Network.NextInv | ldrlib/networking.go:514-533 | Each pass, response and delivery keeps the invariant of the network and withdraws no promise |
| Network.RunGrows | ldrlib/db.go:671-687 | With fixed balances what a node promises never decreases over a run |
| Network.ResponsesFit | ldrlib/networking.go:563-567 | With at most 5459 registered addresses every response fits its frame |
| Loops.LoopReachable | ldrlib/db.go:678-687 | For any three nodes in a line there is a run after which two next hops towards the third point at each other |
| Loops.LoopsAreFlat | ldrlib/db.go:653-687 | In every reachable state all entries towards a destination along a loop of next hops have one capacity |
| Loops.ClosedByEqualOffer | ldrlib/db.go:678-687 | If an entry that a peer's offer has just made lies on a loop of next hops, it has replaced one of the same capacity |
| Loops.NoTiesNoLoops | ldrlib/db.go:678-687 | In every run in which no response processed replaces an equal entry, next hops never form a loop, whatever else happens in it |
| Probing.ProbeGuarantee | ldrlib/routing.go:88-114 | In every run a probe has visited consecutive channel neighbours, its hops are exactly their addresses, and its capacity is at least its source's promise at launch |
| Probing.ProbeNeverStuck | ldrlib/networking.go:535-552 | The node a probe was last sent to is the destination or can add a hop |
| Probing.ProbeFromLaunch | ldrlib/routing.go:88-114 | Every probe on its way was launched by the first node it lists, for its destination and with its token |
| Probing.ProbeNextKeeps | ldrlib/networking.go:535-552 | Launching and forwarding probes, and any table change, keep what is true of all probes |
| Probing.WidthIff | ldrlib/routing.go:101-108 | The width of a trail is the largest capacity that every channel of it carries |
| Probing.GatheredIs | ldrlib/routing.go:101-108 | What a probe reports is the balance of the last channel listed to its first hop, capped by every channel of every later hop |
| Probing.FirstCollected | ldrlib/routing.go:101-108 | On its first hop a probe takes the balance of the last channel listed to the next node |
| Probing.GatheredExactIff | ldrlib/routing.go:101-108 | The report is never below the trail's width, and equals it if and only if the last listed balance of the first hop is its smallest, or the hops after the first are no wider than that smallest |
| Probing.ProbeMayOverReport | ldrlib/routing.go:101-108 | For any two nodes joined by two channels there is a run, a balance pass and a launch, whose probe reports 5 where its route carries 1 |
| RoutingTable.WithoutOne | ldrlib/routingStack.go:50-61 | Removing one of distinct entries is dropping its destination |
| RoutingTable.OfferLookup | ldrlib/db.go:642-688 | An offer changes its own destination only, to the better of old and new with ties to the new, and never the local address |
| RoutingTable.CappedAtLeast | ldrlib/db.go:659-667 | A capped capacity is no lower than the lowest of the capacity and the balances to the peer |
| RoutingTable.Capped | ldrlib/db.go:659-667 | A capped capacity is at most the offered one and at most each balance to the peer |
| RoutingTable.SyncUpToLookup | ldrlib/db.go:826-850 | A balance pass treats each destination on its own |
| RoutingTable.PassesCap | ldrlib/db.go:836-846 | From any table, after one pass every entry is within each balance to its next hop |
| RoutingTable.PassesServe | ldrlib/db.go:848-849 | From any table, after two passes every registered neighbour is reached directly at exactly its smallest balance or at strictly more another way |
| RoutingTable.SyncStabilises | ldrlib/db.go:816-855 | From the second pass on no pass changes any destination's next hop or capacity |
| RoutingTable.OnePassIff | ldrlib/db.go:826-850 | From any table, one pass leaves a neighbour below its smallest balance if and only if the entry before went through another hop, above that balance like every channel to that hop listed before the last one to the neighbour, and some channel to that hop listed after is below it; it leaves the neighbour unserved if and only if the same holds with one at or below |
| RoutingTable.OnePassIsNotEnough | ldrlib/db.go:826-850 | A table and two channels for which one pass leaves a neighbour below its own balance |
| RoutingTable.RereadIsSync | ldrlib/db.go:820-850 | While the channels stay as they are, lowering only the entries listed before the pass and reading the channels again for each offer comes to the plain pass |
| RoutingTable.OffersEachIsOffers | ldrlib/db.go:653-667 | While the channels stay as they are, reading them again for each offered destination comes to reading them once |
| RoutingTable.OffersInOrder | ldrlib/message.go:172-178 | Offering two lists one after the other is offering them as one, in order |
| RoutingTable.PeekIsSince | ldrlib/routingStack.go:19-38 | On a stack sorted newest first the early-exit walk is the filter by height |
| RoutingTable.PeekIsSinceIffSorted | ldrlib/routingStack.go:19-38 | The walk returns exactly the recent entries, for every height asked, if and only if the stack is sorted newest first |
| RoutingTable.PeekAll | ldrlib/db.go:823-824 | From the genesis block the walk returns everything in any order |
| RoutingTable.OffersSorted | ldrlib/message.go:173-178 | Processing a response, with the channels read again for each entry, keeps the stack sorted while the height never decreases |
| RoutingTable.PassSorted | ldrlib/db.go:826-850 | So does a balance pass, edits in place included, even if the channels change between readings |
| RoutingStack.RoutingStack.Put | ldrlib/routingStack.go:40-42 | The entry goes on top, the rest is unchanged |
| RoutingStack.RoutingStack.Remove | ldrlib/routingStack.go:50-61 | An entry that is in the stack is found and is all that is taken out |
| RoutingStack.RoutingStack.PeekFromBlock | ldrlib/routingStack.go:19-38 | The result is the early-exit walk over the entries, from the top |
| Numerals.OrderIsNumeric | ldrlib/utils.go:48-100 | Dictionary order on bit paths is numeric order on addresses |
| BitAddress.Inverses | ldrlib/utils.go:48-100 | The two conversions are inverse to each other |
| BitAddress.ByteToBit | ldrlib/utils.go:78-100 | The mask loops give the binary digits of the address |
| BitAddress.BitToByte | ldrlib/utils.go:48-76 | The multiplier loops give the address whose digits those are |
| BitAddress.ByteToOctet | ldrlib/utils.go:84-96 | The inner loop spells one byte in eight bits |
| BitAddress.OctetToByte | ldrlib/utils.go:57-71 | The inner loop assembles the byte that eight bits spell |
| Keyspace.GapNoneIffFull | ldrlib/db.go:412-467 | A depth-first search fails exactly below a full subtree |
| Keyspace.SearchStops | ldrlib/db.go:338-363 | The search fails exactly when every sibling from bit 1 on is full, and otherwise stops at the deepest sibling that is not |
| Suggestion.SuggestFailsIffHalfFull | ldrlib/db.go:323-363 | The suggestion fails exactly when every address with the seed's top bit is registered |
| Suggestion.FailsWithHalfFree | ldrlib/db.go:345-356 | For any seed, with exactly the addresses of its half registered nothing is suggested, although the other half is free |
| Suggestion.SuggestionFreshIff | ldrlib/db.go:338-467 | The suggestion is free if and only if the sibling at the stop is empty; then no free address shares a longer prefix with the seed and it is the closest of those that share as long a one; otherwise it is registered and lies on the seed's own side |
| Suggestion.SuggestionIs | ldrlib/db.go:323-467 | Exactly what is suggested: with k the free address closest to the seed among those that share its bits above the level where the search stops, and g the least number of bits of k below which nothing is registered, it is k if g is just one more than that level, and otherwise the seed cut to g - 1 bits and filled with zeros |
| Suggestion.SuggestionFrom | ldrlib/db.go:323-336 | Whenever anything is suggested there are such a level, such an address and such a number |
| Suggestion.BottomSearchIs | ldrlib/db.go:365-399 | What the search beside one node answers, in the same terms |
| Suggestion.GapIs | ldrlib/db.go:412-467 | A depth-first search stops at the depth of the shortest empty path to the outermost free address on the side it starts from |
| Suggestion.EmptyPivotGivesClosest | ldrlib/db.go:372-394 | Padding an empty sibling towards the seed gives its free address numerically closest to the seed |
| Suggestion.OccupiedPivotGivesRegistered | ldrlib/db.go:383-397 | A depth-first search in a non-empty sibling answers with a registered address of the seed's own side |
| Suggestion.SuggestionMayBeTaken | ldrlib/db.go:323-467 | Three registered addresses for which a suggestion is already registered |
| AddressTrie.AddressTrie.Add | ldrlib/db.go:470-498 | Registering keeps the shape and every earlier node and changes exactly one leaf of the map |
| AddressTrie.AddressTrie.Descend | ldrlib/db.go:260-281 | Walking down reaches the leaf of an address if it is registered, and a missing node otherwise |
| AddressTrie.AddressTrie.IsAddressRegistered | ldrlib/db.go:297-320 | Membership agrees with the map |
| AddressTrie.AddressTrie.LeafIff | ldrlib/db.go:470-498 | A node at full depth exists exactly for a registered address and holds its info |
| AddressTrie.AddressTrie.NodeIff | ldrlib/db.go:477-495 | A node other than the root exists exactly where some registered address passes |
| AddressTrie.AddressTrie.ChildlessIff | ldrlib/db.go:340-343 | A node is childless exactly at full depth, or at the root of the empty trie, so the searches stop before running past bit 31 |
| AddressTrie.AddressTrie.CreateChild | ldrlib/binaryTree.go:19-36 | Creating a missing child adds exactly one node and keeps the links |
| AddressTrie.AddressTrie.LeftToRightDFS | ldrlib/db.go:412-439 | The walk over nodes answers as the walk over occupied paths |
| AddressTrie.AddressTrie.RightToLeftDFS | ldrlib/db.go:441-467 | The same from the right |
| AddressTrie.AddressTrie.BottomSearch | ldrlib/db.go:365-399 | The search beside one node answers as the search over occupied paths, whose answer `Suggestion.BottomSearchIs` gives |
| AddressTrie.AddressTrie.ClosestFreeAddress | ldrlib/db.go:338-363 | The whole search refines the one over the set of registered addresses |
| AddressTrie.AddressTrie.SuggestAddress | ldrlib/db.go:323-336 | The suggestion for a registered seed is the one that `Suggestion.SuggestionIs` gives |
| Codec.EntryRoundTrip | ldrlib/utils.go:102-129 | A routing entry reads back from its record |
| Codec.EntryLayout | ldrlib/utils.go:102-118 | The bytes of a routing record: destination, next hop, capacity and height, low bytes first |
| Codec.InfoRoundTrip | ldrlib/utils.go:165-201 | A registration keeps address, key and height, and survives whole if and only if its id and version happen to be the bytes at the offsets read |
| Codec.InfoLayout | ldrlib/utils.go:165-190 | The bytes of a registration record: address, key, height, id and version, low bytes first |
| Codec.InfoIsLost | ldrlib/utils.go:197-198 | A registration that comes back with another transaction id |
| Codec.TwosComplement | ldrlib/utils.go:110-111 | A signed capacity is written as the only number of sixty-four bits that differs from it by a multiple of 2^64 |
| Codec.DestinationRoundTrip | ldrlib/utils.go:131-151 | A destination reads back, negative capacities included |
| Codec.DestinationLayout | ldrlib/utils.go:131-142 | The bytes of a destination: address and capacity, low byte first |
| Codec.TableRequestRoundTrip | ldrlib/message.go:71-116 | A request is accepted and asks for the block it was made for |
| Codec.TableRequestIff | ldrlib/message.go:95-116 | A message is accepted as the request for a block exactly if it is the one created for that block |
| Codec.TableRequestLayout | ldrlib/message.go:13-92 | The bytes of a request: its kind, 0, and the block, high bytes first |
| Codec.TableResponseRoundTrip | ldrlib/message.go:123-178 | A response reads back as the sender's entries in order, up to their number modulo 65536; so as all of them if and only if there are fewer |
| Codec.ResponseIff | ldrlib/message.go:149-178 | What is read from any message, whole or cut: the entries its body begins with, up to the number announced or as many as fit |
| Codec.TableResponseLayout | ldrlib/message.go:123-134 | The first bytes of a response: its kind, 1, and the number of entries, high bytes first |
| Codec.SerializeRoute | ldrlib/utils.go:203-228 | The loop appends header and hops in the layout that the round trip is about |
| Codec.DeserializeRoute | ldrlib/utils.go:230-248 | The loop reads that layout and runs off the end exactly when the announced hops do not fit |
| Codec.RouteRoundTrip | ldrlib/message.go:37-68 | A forwarded route reads back with its hops cut to their number modulo 65536; so as the same route if and only if it has fewer |
| Codec.ForwardRouteIff | ldrlib/message.go:52-68 | A route is read exactly from the messages that begin with the message made of it, if it has fewer than 65536 hops |
| Codec.RouteLayout | ldrlib/utils.go:203-228 | The bytes of a route message: its kind, 2, high byte first; destination, token, capacity and number of hops, low bytes first; the hops in order |
| Codec.FrameExactIff | ldrlib/networking.go:485-500 | A frame gives back its content and leaves the rest of the stream if and only if the length fits sixteen bits |
| Codec.FrameLayout | ldrlib/networking.go:485-500 | The length of a frame comes high byte first |
| Codec.TableFrameExactIff | ldrlib/networking.go:561-567 | A sealed table response is framed exactly if and only if the table has at most 5459 entries |
| Codec.RouteFrameExactIff | ldrlib/networking.go:35-41 | A sealed route is framed exactly if and only if it has at most 16373 hops |
| Session.IncrementSeqNumber | ldrlib/crypto.go:195-210 | The carry loop turns the number, in place, into its successor |
| Session.SuccessorCounts | ldrlib/crypto.go:195-210 | The successor is one more modulo 256 to the length |
| Session.AfterCounts | ldrlib/crypto.go:195-210 | After k messages the number is k more, wrapped |
| Session.GetNonce | ldrlib/crypto.go:212-221 | Every bit of the nonce is one exactly where base vector and number differ |
| Session.NonceInjective | ldrlib/crypto.go:212-221 | Equal nonces come from equal numbers |
| Session.NonceInjectiveInBase | ldrlib/crypto.go:212-221 | Different base vectors give different nonces for one number |
| Session.NoncesDiffer | ldrlib/crypto.go:195-221 | Numbers fewer than 256^n messages apart give different nonces |
| Session.CourteousStep | ldrlib/networking.go:502-511 | With messages in flight one way at most, every message is opened under its sealing nonce, and each end's number lags those sent by those it has not read |
| Session.CrossingFails | ldrlib/networking.go:604-622 | The next read of an end that sends against a message in flight fails |
| Session.CrossedStep | ldrlib/networking.go:502-511 | Once messages have crossed every read fails at either end, and sending more keeps it so |
| Session.SessionFailsIff | ldrlib/networking.go:502-627 | A session of fewer than 256^n events fails if and only if a message is sent while one is in flight the other way and anything is read, at either end, afterwards |
| Session.SessionSound | ldrlib/networking.go:502-627 | Over any run without crossings every read succeeds, and no two of up to 256^n messages are sealed under one nonce |
| Session.NonceReuseIff | ldrlib/networking.go:502-511 | Over a session of fewer than 256^n events that has not failed, two messages have been sealed under one nonce if and only if a message was sent while one was in flight the other way |
| Registry.AcceptedIff | ldrlib/db.go:857-924 | A registration is accepted exactly when its signer is known, its address is free, every registered neighbour has a suggestion, and it is one of those suggestions if any neighbour is registered; what is accepted is its address for its signer, with its height, id and version |
| Registry.FatalIff | ldrlib/db.go:867-905 | A registration stops the program exactly if its signer is known, its address is free and some registered neighbour of the signer has no suggestion; a bad signature and a taken address are refused |
| Registry.NoneSuggestedIff | ldrlib/db.go:899-905 | A registered neighbour has no suggestion exactly if all addresses with its top bit are taken |
| Registry.ProcessStopsIff | ldrlib/db.go:743-749 | Handling registrations stops the program exactly if one of them does so when its turn comes |
| Registry.AddressAfter | ldrlib/db.go:498-501 | After any run of registrations a key has the address of the last one accepted for it, or the one it had before if none was |
| Registry.InfoAfter | ldrlib/db.go:743-749 | After any run of registrations the addresses registered are those that were, unchanged, and those accepted, as they were accepted |
| Registry.AddKeeps | ldrlib/db.go:498-501 | Accepting keeps both indexes in agreement, overwrites no address, moves the registering key to the new address even if it had one, and moves no other key |
| Registry.ProcessKeeps | ldrlib/db.go:743-749 | So does any run of registrations |
| Registry.AgreeInjective | ldrlib/db.go:247-281 | Distinct keys have distinct addresses, and a key's address leads back to the key |
| Registry.ProcessConcat | ldrlib/db.go:743-749 | Handling registrations in two parts is handling them at once |
| Registry.ScriptRoundTrip | ldrlib/bitcoin.go:135-157 | A broadcast registration is found again with the same version, address and signature |
| Registry.ParseTxIff | ldrlib/bitcoin.go:243-297 | A registration is found in a transaction exactly if the first of its two outputs is the script of that registration |
| Registry.ScriptLayout | ldrlib/bitcoin.go:248-261 | The bytes of the script: 6a 4c 4c, `lar`, the version high byte first, address and signature |
| Registry.GetNewAddressRegistrations | ldrlib/bitcoin.go:200-302 | The nested loops collect what the lemmas about a range speak of |
| Registry.InRangeIff | ldrlib/bitcoin.go:221-297 | A registration is collected if and only if some transaction of some block of the range makes it |
| Registry.InRangeOrdered | ldrlib/bitcoin.go:221-297 | The registrations collected are made at strictly rising places of the chain, by block and by transaction within a block |
| Registry.UpdateTwice | ldrlib/db.go:722-757 | Updating against a chain and then an extension is updating against the extension |
| Registry.IncrementalIsBatch | ldrlib/db.go:722-806 | Any schedule of updates over a growing chain ends in the registry of one scan of blocks 1 to the tip |
| Restart.LoadReplays | ldrlib/db.go:92-169 | An address file reads back as the height and the indexes it was written from, up to ids and versions |
| Restart.ChunksOfJoin | ldrlib/db.go:145-167 | Reading into one reused buffer gives back whole records as they were written |
| Restart.ChunksOfCut | ldrlib/db.go:145-167 | Part of a record at the end of a file is read over the record before it |
| Restart.AddressFileLayout | ldrlib/utils.go:165-193 | The bytes of the address file: the height, low byte first, and the records of 81 bytes in the order accepted |
| Restart.RoutingFileLayout | ldrlib/db.go:692-719 | The bytes of the routing file: the records of 24 bytes in the order of the stack |
| Restart.StoppedUpdate | ldrlib/db.go:743-755 | An update that stops the program leaves the height on file as it was, with what was accepted before the stop |
| Restart.FileReplays | ldrlib/db.go:507-529 | In every life, after any number of updates, restarts and kills in the middle of an update, the file reads back as the registry in memory up to ids and versions, the indexes agree, and no address is read twice |
| Restart.LifeIsBatch | ldrlib/db.go:722-757 | Any schedule of updates and restarts over a growing chain never stops by itself if and only if one batch scan succeeds, and then has its registry up to ids and versions |
| Rescan.SettledIff | ldrlib/db.go:743-749 | Handling registrations changes nothing if and only if it stops nowhere and accepts nothing |
| Rescan.RescanIsBatchIff | ldrlib/db.go:733-749 | Handling everything after a first part was handled before leads to the indexes of one scan, when that succeeds and no transaction makes registrations of both parts, if and only if handling that part again stops nowhere and accepts nothing |
| Rescan.KilledLifeIsBatch | ldrlib/db.go:722-757 | In any life of updates over a growing chain, restarts and kills in the middle of updates that a rescan leaves as they are, no completed update stops the program if and only if one scan succeeds, and then the registry after it is that of this scan up to ids and versions |
| Rescan.RescanMayAccept | ldrlib/db.go:743-755 | Three registrations of one block, and a kill after them, after which the node started again accepts one that a single scan of the block refuses |
| Restart.RestartTransparent | ldrlib/db.go:857-924 | Registrations handled after a restart get the same verdicts and lead to the same indexes |
| Restart.LoadTableReverses | ldrlib/db.go:171-198 | A saved table loads as its reverse |
| Restart.ReversedLookup | ldrlib/db.go:531-548 | Reversing a table changes nothing about what it says of a destination |
| Restart.RunKeeps | ldrlib/db.go:642-719 | In every run of exchanges, passes and restarts, whatever the channels are at each reading, a table has one entry per destination, loses none, and is never shorter than its file |
| Restart.RestartKeepsTable | ldrlib/db.go:692-719 | A restart at any point of any run leaves no stale tail in the file, keeps every entry and exactly reverses the stack |
| Restart.ReversedTwice | ldrlib/db.go:692-719 | Two restarts restore the order |
| Restart.RunSorted | ldrlib/db.go:637-639 | Without restarts and with rising heights, whatever the channels are at each reading, reading the stack from a height finds exactly the entries that recent |
| Restart.ReversedSortedIff | ldrlib/db.go:171-198 | A sorted stack stays sorted over a restart if and only if all its entries have one height |
| Database.DB.constructor | ldrlib/db.go:69-90 | A new database is empty and consistent |
| Database.DB.SaveLocalAddress | ldrlib/db.go:211-213 | The local address changes and everything still agrees |
| Database.DB.GetNodeAddress | ldrlib/db.go:247-257 | The address of a key is the one in the index, and found exactly if the key is registered |
| Database.DB.GetAddressNode | ldrlib/db.go:260-282 | The key at an address is the registered one, or the zero key |
| Database.DB.AddAddressToDB | ldrlib/db.go:470-504 | Adding an address, free or not, leads its key to it, whether or not the key had one, and holds what was added; leaves and stack still agree if and only if the address had no routing entry |
| Database.StackedAddIff | ldrlib/db.go:497-501 | A new leaf keeps leaves and stack in agreement exactly if there was no entry at its path |
| Database.DB.GetRoutingEntry | ldrlib/db.go:531-548 | The entry at the leaf is the stack's entry for the destination, and there is none at the leaf exactly if there is none in the stack |
| Database.DB.AddRoutingEntryToDB | ldrlib/db.go:550-580 | Storing replaces the destination's entry both at the leaf and in the stack, where the old one is always found, and puts the new one on top |
| Database.DB.AddNewDestinationToDB | ldrlib/db.go:642-688 | The method on leaves and stack does to the table exactly what an offer does; the entry it makes has the current height, the offered capacity capped by the channels, and the neighbour's address, or 0.0.0.0, as its hop |
| Database.DB.SynchronizeRoutingDB | ldrlib/db.go:816-850 | One pass in place over the entries listed before it, with the channels read again for each offer, is that pass on values |
| Database.DB.UnchangedPass | ldrlib/db.go:816-850 | In a database whose indexes agree, while the channels stay as they are, it is the plain pass that the theorems about balance passes speak of |
| Database.DB.LowerTable | ldrlib/db.go:836-846 | Lowering the listed entries in place lowers exactly the entries that have not been stored since |
| Database.StackedReplaced | ldrlib/db.go:550-580 | Replacing an entry keeps leaves and stack in agreement |
| Database.DB.ProcessTableRequest | ldrlib/message.go:95-146 | A malformed request is refused; any other is answered with the entries from its starting block |
| Database.DB.ProcessTableResponse | ldrlib/message.go:149-181 | A malformed response changes nothing; any other offers its entries in order, each limited by the channels as they are read for it, up to the first that runs off the end |
| Database.DB.AddHopToRoute | ldrlib/routing.go:88-114 | The hop added is the one that the theorems about probes speak of, none exactly without an entry; on the first hop the capacity is the balance of the last channel listed to it |
| Database.DB.CollectChannels | ldrlib/routing.go:101-108 | On the first hop the capacity becomes the balance of the last channel listed to the next hop, on later ones it is capped by all; without a channel to it nothing changes |
| Database.DB.VerifyAddressRegistration | ldrlib/db.go:857-924 | The verdict reached over trie and indexes is the registry's, and stops the program exactly if a free address is asked for by a signer with a registered neighbour that nothing can be suggested to |
| Database.DB.ProcessRegistration | ldrlib/db.go:743-749 | One registration changes indexes and file exactly as its verdict says |
| Database.DB.UpdateAddressDB | ldrlib/db.go:722-757 | Memory ends as the registry's update says, the file holds exactly what was accepted after what it held, and still replays to memory; the update fails exactly if one of the registrations stops it in its turn, and then the height stays |
| Database.DB.UpdateBlockHeight | ldrlib/db.go:220-245 | The height changes in memory and in the file, the records do not |
| Database.DB.SaveRoutingDBToFile | ldrlib/db.go:692-719 | Writing record by record is overwriting the file with the records of the table |
| Database.DB.ReadAddressFile | ldrlib/db.go:121-169 | Any file, cut or not, is read into a consistent database with the indexes that the restart theorems speak of |
| Database.DB.ReadRoutingFile | ldrlib/db.go:171-198 | Loading a file whose destinations are registered gives the table that the restart theorems speak of |
| Database.DB.ReadDBFromDisk | ldrlib/db.go:92-203 | Starting from two files builds a consistent database with that registry and that table |
| Database.DB.Restart | ldrlib/db.go:92-203 | The files of a valid database can always be read again: the registry comes back up to ids and versions, the table reversed, and the file can be replayed again |

## Left out

- AES-GCM, RSA and signatures: sealing adds sixteen bytes and opening needs the sealing nonce; a signature has a signer or none.
- The handshake of `ldrlib/networking.go:260-455`: both ends are taken to hold one key, base vector and starting number.
- Network: balances and the registry are fixed within a run, every node knows its own address from the start although the client sets it later, and a peer connection needs a channel listed at both ends.
- Network.Next: a response is processed if it fits its frame; a longer one is dropped, since it cannot be opened after being cut.
- Probing.ProbeGuarantee: conditional on where the probe is, not on arrival, which next-hop loops prevent (`Loops.LoopReachable`).
- Return of the route to the sender: `ldrlib/networking.go:79-95` never fills the hop count from the connection and always rebuilds zero hops.
- Session: each send is one atomic step, although `ldrlib/networking.go:31-49` takes no lock; other interleavings inside it are not modelled.
- Session.SessionSound: holds for runs in which messages do not cross; `Session.SessionFailsIff` and `Session.NonceReuseIff` say what happens otherwise.
- Database.DB.AddRoutingEntryToDB: requires a registered destination, as do `GetRoutingEntry`, `AddHopToRoute` and `SuggestAddress`, because the code dereferences a missing node otherwise.
- Database.DB.ProcessTableResponse: requires that each address named is registered or the local one, for the same reason.
- Database.DB.ReadRoutingFile: requires that each recorded destination is registered, for the same reason; `Database.DB.Restart` shows it of the files a database leaves.
- Restart.LifeIsBatch: for lives in which no update is cut short by a kill; `Rescan.KilledLifeIsBatch` is about the others.
- Rescan.KilledLifeIsBatch: one way; that other kills do change the outcome is `Rescan.RescanIsBatchIff`, for one kill and before ids are lost on file.
- RoutingStack.RoutingStack.Remove: the linked list is a sequence field, so the list's own pointers are not modelled.
- BitAddress.ByteToBit: bits and bytes are appended to a sequence instead of written into a fixed array.
- Codec.SerializeRoute: buffers are sequences that grow, as slices do, without their capacity.
- Registry.GetNewAddressRegistrations: scripts and ids are bytes rather than hexadecimal text, and a block is its list of transactions.
- Registry.IncrementalIsBatch: the chain grows only; after a reorganisation to a shorter chain the code sets its height back and scans again.
- Registry.Verify: the keys that the lightning client reports for a node are a fixed list per key, whatever they are.
- `SynchronizeAddressDB` and the endless loops with their sleeps: each iteration is one step.
- Transaction funding and change in `BroadcastNewAddressTx`, wallet calls, `bitcoindwrapper`, `lndwrapper`, `client.go`, TCP connections, logging and real file system calls.
- The maps of open connections (`peerConn`, `destConns`).

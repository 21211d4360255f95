# miniDHT, modelled and proved in Dafny

miniDHT is a Kademlia-style node: keys under the XOR metric, k-buckets of contacts, iterative
lookups over messages between nodes, connections shared by endpoint, and a bounded table of
stored records. This project models those five parts and proves what each of them keeps.

| file | what it models |
|---|---|
| `Keys.dfy` | bit sets, the XOR metric, common prefixes, and the three orders that are used interchangeably |
| `Codec.dfy` | hexadecimal text, digests and bit sets |
| `Contacts.dfy` | contacts, endpoints, distance of key texts |
| `Closest.dfy` | keeping the k closest of a stream of contacts, for any distance and any k |
| `TextMap.dfy` | `std::map` keyed by printed bit strings |
| `Search.dfy`, `SearchRuns.dfy` | one iterative search, and its whole life over any sequence of replies |
| `RoutingTable.dfy`, `Recency.dfy` | the multimap of buckets and its invariant, and which contact a full bucket gives up |
| `ProximityCache.dfy` | the proximity cache, removal, every run of the table's operations |
| `Lookup.dfy`, `Node.dfy` | the handlers that drive the searches of one node, and the messages they send |
| `Framing.dfy` | the message header and the stream of frames |
| `Sessions.dfy`, `SessionRuns.dfy` | one connection, and any number of them over any interleaving of completions |
| `SessionReads.dfy`, `SessionHistory.dfy` | what a connection reads off its stream; where sessions are registered and messages go |
| `Records.dfy`, `RecordRuns.dfy` | the three SQL tables, storing a record, runs of stores and removals |
| `Wrappers.dfy` | options, and small facts about sequences and sets |

Each class (`Search`, `Bucket`, `Node`, `Message`, `Session`, `Storage`) has the fields the
program updates in place; its methods are proved against functions on values, and the laws are
proved about those functions and about runs of them.

## How to read the results

- **Lookup.** Whatever replies arrive, the shortlist is exactly the closest distinct contacts
  ever offered (`Closest.ShortlistIsTopK`, `Closest.TopKUnique`). A NODE or STORE search ends
  within a fixed number of replies, whatever they bring (`SearchRuns.SearchTerminates`), and
  nobody is handed out twice (`SearchRuns.NobodyAskedTwice`). A finished STORE search tries each
  of the closest contacts once (`SearchRuns.StoresReachClosest`); what leaves the node goes to
  exactly those of them that are in its routing table and are not the node itself
  (`Lookup.ClosestReceiveValue`). Over any interleaving each token's search is the one its own
  batches would make alone (`Lookup.TokensAreSeparate`), and says exactly what that search would
  say (`Lookup.SaidIsRun`, `Lookup.WhoSaysWhat`). One reply ends a search for three reasons only
  (`SearchRuns.OneMoreReply`), and otherwise asks the closest contacts not asked yet
  (`Lookup.RunningSearchAsks`). `Node` proves that the handlers take each message as that says.
- **Sessions.** What a session passes on is what its stream holds, frame by frame, through any
  interleaving (`SessionReads.SessionFollowsStream`), and so, from peer to peer, what was delivered
  to the other side (`SessionReads.PeerToPeer`). The table names for each address the session that
  announced it last and was not erased since (`SessionHistory.TableIsRegistered`), and every message
  sent is delivered to one session (`SessionHistory.NothingSentIsLost`). A message for an entry that dangles is delivered to a destroyed session, and its
  write then completes there (`SessionRuns.TwoPortsLeaveDanglingEntry` is such a run). Throughout
  a run no completion can run on a destroyed session exactly when no message goes to one whose
  queue is empty (`SessionRuns.NoHandlerAfterDestruction`). Every entry names a live session
  exactly when no completion destroys a session that another entry still names
  (`SessionRuns.LiveExactlyWhenNothingOrphaned`); then nothing at all is delivered to a destroyed
  one. That holds while no header changes the address of a session registered at its old one,
  which is exactly when each entry is also at its session's own address
  (`SessionRuns.SoundExactlyWhenNothingStrands`), and so when each peer keeps announcing one
  address (`SessionRuns.NoDanglingEntry`). A session can be left with nothing in flight and not
  destroyed; `SessionRuns.IdleExactlyWhenAbandoned` says exactly when, and
  `SessionRuns.ReadErrorBeforeWriteLeaks` is a run that does it.
- **Routing table.** Its invariant holds in every reachable state. Eviction is least recently
  used throughout a run, at whatever times, exactly when no touch evicts another entry of the
  bucket first, one that is older or as old and behind (`Recency.EvictionIsRecentExactly`). At
  times that never go back only ties do that (`Recency.EvictionIsRecentWithoutTies`), at strictly
  increasing times nothing does (`Recency.EvictionIsLeastRecentlyUsed`), and for every local key
  six others touched within a second are a run where it fails (`Recency.EveryTableCanForget`). A
  lookup in any reachable state sees the whole table, through a cache however stale, exactly when
  no key of the table shared its point with a later entry when the cache was built
  (`ProximityCache.LookupExactly`); with canonical keys it always does
  (`ProximityCache.LookupSeesWholeTable`), otherwise it can miss a contact
  (`ProximityCache.ListingCanMissContact`). Removing an endpoint is complete exactly under the
  condition of `ProximityCache.RemovalIsComplete`.
- **Records.** Key and title stay unique with one time row and one item row each
  (`Records.Whole`, kept by storing, removing and making room). A store drops just as many records
  as it must (`RecordRuns.StoreDropsExactly`). The limit is respected exactly
  under the condition of `RecordRuns.LimitExactly`, and always when each key has one title
  (`RecordRuns.LimitHolds`).

Where the code and its comments disagree, the model follows the code: a duplicate title "should
not happen" (Sources/miniDHT.cpp:257) but is stored, past the limit; the cached proximity map is
served for whatever key is asked (Sources/miniDHT_bucket.cpp:120); `string_to_key` does not undo
`key_to_string` (Sources/miniDHT_const.h:112-143).

## Hypotheses

- Keys are arbitrary text. Only `Codec.StringToKeyInjective`, `Contacts.DistanceIdentifies`,
  `ProximityCache.ListingIsTable`, `ProximityCache.LookupSeesWholeTable` and
  `Lookup.FreshLookupStartsClosest` assume canonical keys, 64 lower-case hexadecimal characters
  (`Codec.Canonical`), as the node prints them (`Codec.KeyTextIsCanonical`).
  `Codec.SameKeyExactly`, `Contacts.DistanceIsPoint`, `ProximityCache.LookupExactly` and
  `Lookup.WholeLookupStartsClosest` are the statements for every key. A contact of a search is
  identified by its distance, so the search needs no hypothesis on keys.
- Handlers run on one io thread: each completion handler is one step. Connecting and delivering
  the first message (Sources/miniDHT.cpp:752-753) is one step. A delivery made by the callback
  inside `handle_read_body` is a step of its own, before or after that completion; the two
  orders differ in nothing the handler does.
- A message callback that throws leaves `handle_read_body` and the `run` of the io service that
  called it. The session is left as it is then; events after that suppose that `run` is called
  again.
- A search that takes the token of a live one replaces it, as the map assignment does, so tokens
  need not be distinct.
- The eviction map of Sources/miniDHT_bucket.cpp:89 is read with its index evaluated before the
  increment, which C++11 leaves unspecified. `multimap::find` returns the first of equal keys,
  as the common implementations do; the standard leaves the choice open before C++11.
- Time is supplied by the caller, `assert` is not modelled, and 32-bit and 64-bit counters do not
  overflow.

## Model

| member | source | states |
|---|---|---|
| Keys.CountCommonBits | Sources/miniDHT_const.h:229-239 | the loop returns the length of the common prefix counted from the most significant bit |
| Keys.Less | Sources/miniDHT_const.h:187-200 | the bit-by-bit loop decides the numeric order |
| Keys.CommonBitsMeaning | Sources/miniDHT_const.h:229-239 | the bits above the prefix agree, the next one differs, and the prefix is everything exactly for equal keys |
| Keys.CommonBitsSymmetric | Sources/miniDHT_const.h:229-239 | common prefix length is symmetric |
| Keys.CommonBitsUltrametric | Sources/miniDHT_const.h:229-239 | of three common prefixes the two shortest are equal |
| Keys.TextOrderIsNumeric | Sources/miniDHT_search.cpp:174-187 | lexicographic order of printed bit strings, the map order, is numeric order |
| Keys.TextInjective | Sources/miniDHT_search.cpp:174-187 | different bit sets have different map keys |
| Keys.ValueInjective | Sources/miniDHT_const.h:187-200 | bit sets of one size are determined by their number, so the order is total |
| Keys.XorMetric | Sources/miniDHT_search.cpp:175-187 | XOR distance is a symmetric metric in which a point and a distance determine the other point |
| Keys.LongerPrefixIsCloser | Sources/miniDHT_const.h:229-239 | a longer common prefix with the target means a strictly smaller distance |
| Keys.ComplementReverses | Sources/miniDHT_bucket.cpp:125-129 | complementing the distances reverses their order |
| Codec.PrintThenParse | Sources/miniDHT_const.cpp:42-66 | printing a digest and reading it back is the identity, whatever follows in the stream |
| Codec.ParseThenPrint | Sources/miniDHT_const.cpp:42-66 | reading lower-case hexadecimal text and printing it is the identity |
| Codec.PrintedDigits | Sources/miniDHT_const.cpp:42-52 | each byte is printed as its high and then its low hexadecimal digit |
| Codec.WriteDigest | Sources/miniDHT_const.cpp:42-52 | the printing loop writes the text for which the round trip holds |
| Codec.ReadDigest | Sources/miniDHT_const.cpp:54-66 | the reading loop yields a digest for every text, however short or malformed |
| Codec.DigestToBitset | Sources/miniDHT_const.h:129-135 | the bit loop, wrapping round the digest for larger sizes |
| Codec.KeyToString | Sources/miniDHT_const.h:112-127 | the printing loop, and the exception for a size that is not whole bytes |
| Codec.KeyTextReadsReversed | Sources/miniDHT_const.h:112-143 | reading a printed key yields its bytes in reverse order; going round twice is the identity |
| Codec.KeyTextInjective | Sources/miniDHT_const.h:112-127 | different keys print differently |
| Codec.ByteReversalTwice | Sources/miniDHT_const.h:112-143 | reversing the bytes twice is the identity |
| Codec.HighBytesBits | Sources/miniDHT_const.h:112-135 | the bits of the printed bytes are the key with its bytes reversed |
| Codec.StringToKeyInjective | Sources/miniDHT_const.h:137-143 | canonical texts of one key are equal |
| Codec.SameKeyExactly | Sources/miniDHT_const.h:137-143 | any two texts denote one key if and only if they print alike once read; the canonical texts are those that print as themselves |
| Codec.NonCanonicalCollision | Sources/miniDHT_const.h:137-143 | without canonical form two texts can denote one key |
| Codec.KeyTextIsCanonical | Sources/miniDHT_const.h:112-127 | every key the node prints is canonical |
| Contacts.MoreSharedIsCloser | Sources/miniDHT_const.h:229-239 | the same of key texts: sharing more bits with the target is being closer |
| Contacts.DistanceIsPoint | Sources/miniDHT_search.cpp:175-187 | two keys are at one distance from a target if and only if they denote one point |
| Contacts.DistanceIdentifies | Sources/miniDHT_search.cpp:175-187 | canonical keys at one distance from a target are equal |
| Closest.MergeKeepsTopK | Sources/miniDHT_search.cpp:170-200 | one batch keeps the description of the k closest: top-k of (top-k of A, with B) is top-k of (A with B) |
| Closest.ShortlistIsTopK | Sources/miniDHT_search.cpp:170-200 | after any batches the shortlist is sorted, has at most k entries, each with the last record of the first batch that mentions it, and whatever is missing is farther than k entries |
| Closest.TopKUnique | Sources/miniDHT_search.cpp:170-200 | that description has exactly one solution |
| Closest.ShortlistSize | Sources/miniDHT_search.cpp:189-195 | the shortlist has min(k, distinct contacts offered) entries |
| Closest.DroppedNeverReturns | Sources/miniDHT_search.cpp:170-200 | a contact that was offered and dropped never comes back |
| Closest.ShortlistDependsOnSet | Sources/miniDHT_search.cpp:170-200 | the shortlist depends only on the set offered: order and splitting do not matter |
| Closest.RecordConcat | Sources/miniDHT_search.cpp:170-200 | the record of a distance is that of the earlier batches if they mention it, otherwise that of the later ones |
| Closest.RecordStable | Sources/miniDHT_search.cpp:170-200 | later batches never change the record of a known contact |
| Closest.RecordOffered | Sources/miniDHT_search.cpp:170-200 | a record was really offered, and everything offered has one |
| Closest.MergeImproves | Sources/miniDHT_search.cpp:170-200 | a batch that changes the shortlist makes the padded sum of distances strictly smaller |
| Search.Search.constructor | Sources/miniDHT_search.cpp:37-52 | a new search is empty and knows its own prefix length |
| Search.Search.IsNodeFull | Sources/miniDHT_search.cpp:75-84 | true exactly when every listed node was asked |
| Search.Search.IsValueFull | Sources/miniDHT_search.cpp:86-95 | true exactly when every listed node was sent the value |
| Search.Search.ShortListInBucket | Sources/miniDHT_search.cpp:97-110 | counts the listed contacts that share exactly the searching node's prefix length |
| Search.Search.IsBucketFull | Sources/miniDHT_search.cpp:58-61 | five listed contacts in the bucket, or nobody left to ask |
| Search.Search.GetNodeKey | Sources/miniDHT_search.cpp:125-139 | hands out the first listed node not asked yet and marks it, or raises and changes nothing |
| Search.Search.GetValueKey | Sources/miniDHT_search.cpp:154-168 | the same for stores |
| Search.Search.UpdateList | Sources/miniDHT_search.cpp:170-200 | the map of printed distances, batch first and old list over it, cut at five, is the merge by distance; and the answer is the ending condition |
| Search.DistanceTextOrder | Sources/miniDHT_search.cpp:174-187 | printed distances compare as the distances do |
| Search.TextPutIsPut | Sources/miniDHT_search.cpp:174-187 | assigning under the printed distance is assigning under the distance |
| SearchRuns.ReplyMakesProgress | Sources/miniDHT.cpp:422-448 | a reply that does not end the search lowers (sum of padded distances, nodes left to ask) lexicographically |
| SearchRuns.RunsAreLawful | Sources/miniDHT.cpp:422-487 | the full invariant of a search over any replies |
| SearchRuns.SearchEnds | Sources/miniDHT.cpp:422-487 | a running NODE or STORE search has taken at most as many replies as it was offered distinct keys |
| SearchRuns.SearchTerminates | Sources/miniDHT.cpp:422-487 | a NODE or STORE search has ended after a number of replies that depends on nothing |
| SearchRuns.ProgressAddsUp | Sources/miniDHT.cpp:422-487 | the replies taken so far and what is left of the measure never exceed what the search starts with |
| SearchRuns.NobodyAskedTwice | Sources/miniDHT_search.cpp:125-139 | no node is handed out for a query twice, one reply attempts at most ALPHA queries, and replies never end a VALUE search |
| SearchRuns.IdleInDistanceOrder | Sources/miniDHT_search.cpp:125-139 | nodes are handed out closest first |
| SearchRuns.RunningShortlist | Sources/miniDHT_search.cpp:170-200 | the shortlist of a running search is the closest of everything it was offered |
| SearchRuns.StoresReachClosest | Sources/miniDHT.cpp:463-487 | an ended STORE search has attempted exactly one store to each of the closest contacts ever offered, nearest first, and none before |
| SearchRuns.NothingAfterEnd | Sources/miniDHT.cpp:667-671 | replies after the end change nothing |
| SearchRuns.FullBucketMeaning | Sources/miniDHT_search.cpp:58-61 | when the bucket count stops a search every listed contact shares exactly the node's prefix length and nothing ever offered shares more |
| SearchRuns.NothingCloser | Sources/miniDHT_search.cpp:170-200 | a nonempty batch changes nothing exactly when all its contacts are listed or beyond a full list |
| SearchRuns.WhenASearchStops | Sources/miniDHT_search.cpp:170-200 | a reply ends a NODE or STORE search exactly when it brings only contacts that are listed or too far, or five listed contacts all share exactly the node's own prefix, or all listed were asked |
| SearchRuns.CountSharingExactly | Sources/miniDHT_search.cpp:97-110 | the bucket count is the number of listed positions whose contact shares exactly that many leading bits with the target |
| SearchRuns.QueriesAreClosest | Sources/miniDHT_search.cpp:125-139 | the first n idle keys are the n closest listed contacts not asked yet, nearest first, or all of them when they are fewer |
| SearchRuns.OneMoreReply | Sources/miniDHT.cpp:422-487 | one more reply in a run ends the search exactly for those reasons, and otherwise queries the ALPHA closest of the new shortlist not asked in the run |
| RoutingTable.AddKeepsTable | Sources/miniDHT_bucket.cpp:61-102 | adding keeps: order, every entry under its own prefix length, unique keys, no local key, at most five per bucket |
| RoutingTable.RemoveKeepsTable | Sources/miniDHT_bucket.cpp:51-59 | erasing an entry keeps the same |
| RoutingTable.EvictMakesRoom | Sources/miniDHT_bucket.cpp:83-91 | eviction leaves room in the bucket and brings in nothing |
| Recency.EvictionIsLeastRecentlyUsed | Sources/miniDHT_bucket.cpp:61-102 | after any adds at strictly increasing times bucket c holds exactly the five most recently touched keys of that prefix, with their latest endpoints and times |
| Recency.EvictionIsRecentExactly | Sources/miniDHT_bucket.cpp:61-102 | at whatever times, that holds throughout a run if and only if no new key enters a full bucket in which another entry is older than the one touched least recently, or as old and behind it |
| Recency.TouchKeepsExactly | Sources/miniDHT_bucket.cpp:79-101 | the same for one touch in its own bucket |
| Recency.EvictionIsRecentWithoutTies | Sources/miniDHT_bucket.cpp:61-102 | at times that never go back it holds if and only if no new key enters a full bucket in which another entry of equal time follows the one touched least recently |
| Recency.SixInOneSecond | Sources/miniDHT_bucket.cpp:83-92 | of six keys of one bucket touched within a second the fifth is lost, not the first |
| Recency.SixInOneSecondFail | Sources/miniDHT_bucket.cpp:83-92 | so the bucket does not hold the five keys touched last |
| Recency.EveryTableCanForget | Sources/miniDHT_bucket.cpp:61-102 | for every local key there are six keys of one bucket with which that happens |
| Recency.EqualTimesEvictNewest | Sources/miniDHT_bucket.cpp:86-91 | at equal times the entry that entered last is evicted |
| RoutingTable.BucketCount | Sources/miniDHT_bucket.cpp:83-88 | in an ordered table the bounds of a prefix enclose exactly its bucket |
| ProximityCache.RemovalIsComplete | Sources/miniDHT_bucket.cpp:51-59 | removal leaves no contact at the endpoint if and only if not both of the first two entries are there; it removes nothing else and adds nothing |
| ProximityCache.RemoveLoopStart | Sources/miniDHT_bucket.cpp:51-59 | what the loop that erases and restarts leaves, and when it leaves defined behaviour |
| ProximityCache.RemovalDefinedExactly | Sources/miniDHT_bucket.cpp:51-59 | the loop leaves defined behaviour exactly for a table of one contact, at the endpoint |
| ProximityCache.BuildCovers | Sources/miniDHT_bucket.cpp:117-133 | a freshly built cache names every contact |
| ProximityCache.ListingIsTable | Sources/miniDHT.cpp:364-380 | with canonical keys, a cache however stale, filtered by the table, gives exactly the current contacts with current endpoints |
| ProximityCache.ListingExactly | Sources/miniDHT.cpp:364-380 | with any keys, any cache gives exactly the current contacts if and only if it holds the text of each of their keys |
| ProximityCache.ListedAsStored | Sources/miniDHT.cpp:364-380 | a contact is listed exactly when the cache names its key and the table has it at that endpoint now; it carries no time |
| ProximityCache.NamedExactly | Sources/miniDHT_bucket.cpp:117-133 | a cache just built holds, for each point, exactly the key of the last entry that denotes it |
| ProximityCache.FarthestFirst | Sources/miniDHT_bucket.cpp:123-129 | the cache is in the order of complemented distances, so farthest first |
| ProximityCache.RebuildsExactly | Sources/miniDHT_bucket.cpp:61-133 | in any run the next lookup rebuilds the cache if and only if none was built yet or a new key came since; refreshed endpoints, removals and erasures do not count |
| ProximityCache.FreshListingExactly | Sources/miniDHT_bucket.cpp:117-133 | with any keys, a cache just built gives exactly the current contacts if and only if no two of them denote one point |
| ProximityCache.ListingCanMissContact | Sources/miniDHT_bucket.cpp:117-133 | after adding two texts of one point the next lookup misses one of the two contacts |
| ProximityCache.ReachableIsSound | Sources/miniDHT_bucket.cpp:38-133 | in every state reached by adds, removals, erasures and builds the table invariant holds and a cache that is served covers the table |
| ProximityCache.LookupSeesWholeTable | Sources/miniDHT.cpp:360-382 | when only canonical keys are added, a lookup in any reachable state is given exactly the routing table, and its distances are distinct |
| ProximityCache.LookupExactly | Sources/miniDHT.cpp:360-382 | in any reachable state and with any keys, a lookup is given the whole routing table if and only if, in the table from which the cache was built last, no later entry denotes the point of a key that is still there |
| ProximityCache.NotInBucket | Sources/miniDHT_bucket.cpp:104-115 | a key that is not in the bucket of its own prefix is nowhere in the table |
| ProximityCache.Bucket.constructor | Sources/miniDHT_bucket.cpp:32-35 | a new table is empty, with nothing cached |
| ProximityCache.Bucket.FindKey | Sources/miniDHT_bucket.cpp:104-115 | finds the position of the key wherever it is, though it looks in one bucket only |
| ProximityCache.Bucket.EndpointOf | Sources/miniDHT_bucket.cpp:38-49 | the endpoint, or an exception exactly when the key is nowhere in the table |
| ProximityCache.Bucket.AddContact | Sources/miniDHT_bucket.cpp:61-102 | adding, refreshing and evicting as the specification says, keeping the invariant |
| ProximityCache.Bucket.EvictOldest | Sources/miniDHT_bucket.cpp:85-91 | drops the entry of least time, the later one among equals |
| ProximityCache.Bucket.OldestOf | Sources/miniDHT_bucket.cpp:86-91 | the first position of the map from times to positions |
| ProximityCache.Bucket.RemoveContact | Sources/miniDHT_bucket.cpp:51-59 | the loop removes as specified, or leaves defined behaviour exactly for a single entry at the endpoint |
| ProximityCache.Bucket.BuildProximity | Sources/miniDHT_bucket.cpp:117-133 | serves the cache or rebuilds it; either way it covers the table |
| ProximityCache.ScanBucket | Sources/miniDHT_bucket.cpp:104-115 | the scan of one bucket finds the first entry of the key |
| ProximityCache.CollectProximity | Sources/miniDHT_bucket.cpp:121-130 | the loop that fills the cache |
| Lookup.EffectIsTakeReply | Sources/miniDHT.cpp:422-487 | what the drivers do with a reply is a step of the runs of a search |
| Lookup.ReplyEndsExactly | Sources/miniDHT.cpp:422-487 | a reply takes its search from the token map exactly for the reasons that end a NODE or STORE search |
| Lookup.EndedSearchSays | Sources/miniDHT.cpp:427-480 | an ending NODE search sends nothing; an ending STORE search sends a STORE to each listed contact not served yet, and nothing else |
| Lookup.RunningSearchAsks | Sources/miniDHT.cpp:440-486 | a reply that does not end its search asks the ALPHA closest contacts not asked yet, marks exactly those, with FIND_VALUE for a VALUE search and FIND_NODE for the others, and sends nothing else |
| Lookup.TokensAreSeparate | Sources/miniDHT.cpp:74-124 | over any interleaving of starts, replies and values the search of each token is the one that the batches addressed to it since its start would make alone |
| Lookup.WhoSaysWhat | Sources/miniDHT.cpp:422-682 | over any interleaving a STORE bears only the token of a search begun as STORE and comes with its end, FIND_VALUE only that of a VALUE search, FIND_NODE only that of another; and a contact is pinged exactly when a reply to a live search brings it |
| Lookup.PingsComeFirst | Sources/miniDHT.cpp:667-682 | the contacts of such a reply are pinged before anything else, once each and in order |
| Lookup.SaidIsRun | Sources/miniDHT.cpp:422-487 | over any interleaving the queries and stores under a token go to exactly the keys, in the order, in which the search that began under it last would send them alone |
| Lookup.QueriesThatLeave | Sources/miniDHT.cpp:709-719 | of the queries attempted, FIND_VALUE for a VALUE search and FIND_NODE for the others, exactly those to a key of the routing table other than the node's own leave, to its endpoint |
| Lookup.StoresThatLeave | Sources/miniDHT.cpp:709-719 | the same of stores, and each leaves once |
| Lookup.ClosestReceiveValue | Sources/miniDHT.cpp:463-487 | an ended STORE search sends the value once to each of the closest contacts ever offered that is in the routing table and is not the node itself, and to nobody else |
| Lookup.ChunksPartition | Sources/miniDHT.cpp:982-993 | splitting the table into messages loses, duplicates and reorders nothing; no message is empty, and all but the last carry ALPHA contacts |
| Lookup.TableIsCarried | Sources/miniDHT.cpp:969-999 | the messages to a routed asker other than the node itself carry one after the other every entry of the table, in order, ALPHA to a message; to any other asker nothing goes |
| Lookup.AnyOrderSameShortlist | Sources/miniDHT.cpp:982-993 | those messages, in any order of arrival and after whatever was offered before, lead to the shortlist of the whole table at once |
| Lookup.WholeLookupStartsClosest | Sources/miniDHT.cpp:360-382 | with any keys, in every reachable state in which the lookup is given the whole table, a fresh search starts with the contacts of the table closest to its target |
| Lookup.FreshLookupStartsClosest | Sources/miniDHT.cpp:360-382 | when only canonical keys are added, that is every reachable state |
| Node.Node.SendMessage | Sources/miniDHT.cpp:709-719 | nothing is sent to oneself, an unknown key raises, otherwise the message goes to the endpoint of the contact |
| Node.Node.AskNodes | Sources/miniDHT.cpp:440-446 | the loop marks and asks the closest nodes not asked yet, one at a time, up to the limit |
| Node.MarkedIsAsked | Sources/miniDHT.cpp:440-446 | the passes of that loop together mark the first idle nodes |
| Node.AskLogIsQueries | Sources/miniDHT.cpp:440-446 | and send exactly their queries, in order |
| Node.Node.DrainStores | Sources/miniDHT.cpp:472-480 | the drain loop ends and sends one STORE to each node not served yet, in order |
| Node.StoreLogIsStores | Sources/miniDHT.cpp:472-480 | its passes together are the stores of the finished search |
| Node.Node.ReplyIterativeNodeSearch | Sources/miniDHT.cpp:422-448 | a reply to a NODE search ends it or asks more nodes; other searches stay untouched |
| Node.Node.ReplyIterativeValueSearch | Sources/miniDHT.cpp:450-461 | a reply to a VALUE search asks more nodes and never ends it |
| Node.Node.ReplyIterativeStoreSearch | Sources/miniDHT.cpp:463-487 | a reply to a STORE search ends it with all its stores or asks more nodes |
| Node.Node.ReplyIterative | Sources/miniDHT.cpp:399-420 | dispatch on the kind of the search |
| Node.Node.HandleReplyFindNode | Sources/miniDHT.cpp:667-682 | a reply without search is ignored; otherwise its contacts are pinged and that search alone goes on |
| Node.Node.HandleReplyFindValue | Sources/miniDHT.cpp:699-707 | a value ends a VALUE search, raises for another kind, and is ignored without search |
| Node.Node.StartNodeLookup | Sources/miniDHT.cpp:360-382 | the search is fed the table as listed through the cache |
| Node.Node.CurrentContacts | Sources/miniDHT.cpp:364-380 | the loop that filters the cache by the table |
| Node.Node.StartSearch | Sources/miniDHT.cpp:74-124 | a new search replaces any with its token, is fed the table, and leaves the searches of other tokens as they are |
| Node.Node.ReplyFindNodeMessages | Sources/miniDHT.cpp:969-999 | the batching loop sends all contacts of the table, in order, ALPHA to a message, to a routed asker other than the node itself, and nothing to any other |
| Node.ReplyLogIsChunks | Sources/miniDHT.cpp:982-993 | the loop's messages, contact by contact, are the chunks |
| Framing.DecimalParses | Sources/miniDHT_session.h:144-165 | reading the decimal digits of a number gives the number |
| Framing.PaddedRoundTrip | Sources/miniDHT_session.h:144-165 | an eight-digit field read back gives the number and fits its place |
| Framing.HeaderRoundTrip | Sources/miniDHT_session.h:144-165 | decoding an encoded header gives back length and port, for every acceptable length and 16-bit port |
| Framing.HeaderDecodesExactly | Sources/miniDHT_session.h:144-165 | for any length and port that fit their fields: the length is accepted exactly up to the maximum, otherwise it becomes zero, and the port is cut to 16 bits |
| Framing.NegativeLengthRefused | Sources/miniDHT_session.h:144-156 | a negative length is refused |
| Framing.Message.constructor | Sources/miniDHT_session.h:74-78 | the body is cut to the maximum |
| Framing.Message.EncodeHeader | Sources/miniDHT_session.h:158-165 | writes the two fields and leaves the body alone |
| Framing.Message.DecodeHeader | Sources/miniDHT_session.h:144-156 | reads the two fields; a bad length is refused and becomes zero |
| Framing.StreamRoundTrip | Sources/miniDHT_session.h:144-384 | the alternating reader yields exactly the messages sent, in order, and then the rest of the stream |
| Framing.RefusedHeaderEndsStream | Sources/miniDHT_session.h:304-356 | the reader passes on nothing behind a header that announces too long a body |
| Framing.PartialStream | Sources/miniDHT_session.h:304-384 | of a stream cut anywhere it yields exactly the messages wholly contained |
| Sessions.Session.constructor | Sources/miniDHT_session.h:210-220 | a new session has one reference and nothing in flight |
| Sessions.Session.Start | Sources/miniDHT_session.h:227-241 | takes the remote address unless connecting out, and reads a header |
| Sessions.Session.Connect | Sources/miniDHT_session.h:243-254 | takes the address and connects |
| Sessions.Session.Deliver | Sources/miniDHT_session.h:256-272 | queues the message and writes it if no write is in progress |
| Sessions.Session.Release | Sources/miniDHT_session.h:276-290 | gives back a reference; the last one erases the entry at the endpoint and destroys the session |
| Sessions.Session.Register | Sources/miniDHT_session.h:315-333 | the session takes the place of any other at its endpoint |
| Sessions.Session.HandleConnect | Sources/miniDHT_session.h:292-302 | completion of a connect, with or without error |
| Sessions.Session.HandleReadHeader | Sources/miniDHT_session.h:304-356 | completion of a header read: taken, registered and the body read, or released |
| Sessions.Session.HandleReadBody | Sources/miniDHT_session.h:358-384 | completion of a body read: the next header, a release, or neither when the callback throws |
| Sessions.Session.HandleWrite | Sources/miniDHT_session.h:386-408 | completion of a write: the queue moves on, or the session is released |
| SessionRuns.ReadKeepsGood | Sources/miniDHT_session.h:292-384 | every completion of the read chain keeps the invariant of a session |
| SessionRuns.WriteKeepsGood | Sources/miniDHT_session.h:386-408 | every completion of a write finds its message at the front of the queue and keeps the invariant |
| SessionRuns.DeliverKeepsGood | Sources/miniDHT_session.h:256-272 | so does every delivery to a live session |
| SessionRuns.NoHandlerAfterDestruction | Sources/miniDHT_session.h:227-408 | throughout a run no completion can arrive at a destroyed session if and only if no message of the run is delivered to a destroyed session with an empty queue |
| SessionRuns.UnhauntedIsGood | Sources/miniDHT_session.h:227-408 | in those runs the count is 1 + operations in flight - failures, a destroyed session has nothing in flight, and no handler runs on one |
| SessionRuns.DeliveryToDestroyed | Sources/miniDHT_session.h:256-272 | after a delivery to a destroyed session a completion can arrive there if and only if its queue was empty, and every one that does runs on the destroyed session |
| SessionRuns.LiveExactlyWhenNothingOrphaned | Sources/miniDHT_session.h:276-408 | every entry names a session that was not destroyed, throughout a run, if and only if no failing completion drops the last reference of a session while an entry other than that at its address names it |
| SessionRuns.NothingOrphanedNothingFaults | Sources/miniDHT_session.h:227-408 | in those runs every session keeps its invariant, nothing is delivered to a destroyed session and no handler runs on one |
| SessionRuns.DestroysExactly | Sources/miniDHT_session.h:276-408 | a completion destroys its session if and only if it fails and at most two references are left |
| SessionRuns.WriteQueue | Sources/miniDHT_session.h:256-408 | while no message goes to a destroyed session with an empty queue, delivered = written + queued; at most one write in flight, and before a failure exactly when the queue is nonempty |
| SessionRuns.IdleAfterExactly | Sources/miniDHT_session.h:276-408 | a completion leaves its session with nothing in flight and not destroyed if and only if it is the last queued write succeeding after the reads are over, or a body whose callback throws while nothing is being written |
| SessionRuns.IdleExactlyWhenAbandoned | Sources/miniDHT_session.h:256-408 | in the same runs a session ends up so if and only if such a completion happened and nothing was delivered to its empty queue since |
| SessionRuns.IdleSessionsAreLeaked | Sources/miniDHT_session.h:276-408 | such a session has count zero if its reads failed, and has written everything unless a write failed |
| SessionRuns.ReadErrorBeforeWriteLeaks | Sources/miniDHT_session.h:276-408 | a run of four events, a read error before the first write completes, leaves a session with nothing in flight, count zero, and not destroyed |
| SessionRuns.InFlightCount | Sources/miniDHT_session.h:227-408 | how many operations a session has in flight, from its failures and its queue |
| SessionRuns.NoDanglingEntry | Sources/miniDHT_session.h:276-333 | with one announced address per connection every entry points to a live session of that endpoint, through replacement and erasure; nothing is delivered to a destroyed session and no handler runs on one |
| SessionRuns.SoundExactlyWhenNothingStrands | Sources/miniDHT_session.h:311-333 | without that hypothesis: the table is sound throughout a run if and only if no header changes the address of a session registered there |
| SessionRuns.NothingStrandsNothingFaults | Sources/miniDHT_session.h:227-408 | while no header strands an entry the table is sound, every session keeps its invariant, nothing is delivered to a destroyed session and no handler runs on one |
| SessionRuns.TwoPortsLeaveDanglingEntry | Sources/miniDHT_session.h:256-333 | a peer that announces two ports and hangs up leaves a dangling entry, a message is delivered to the destroyed session, and its completion runs there |
| SessionReads.TakenHeaderReadsBody | Sources/miniDHT_session.h:335-344 | after a good header the read of exactly the announced number of bytes takes the place of the header read |
| SessionReads.SessionFollowsStream | Sources/miniDHT_session.h:292-384 | in any run the frames a session passes on, followed by what the rest of its stream yields, are what the stream yields; and the body being read is the one announced |
| SessionReads.PeerToPeer | Sources/miniDHT_session.h:256-408 | a session reading any cut of what another sends passes on a prefix of the messages delivered to that other |
| SessionReads.AllArrives | Sources/miniDHT_session.h:292-384 | and all of them once it took the whole stream and waits for a header |
| SessionHistory.AddressOfSession | Sources/miniDHT_session.h:227-314 | a connection made is known by the address it was made to, one accepted by its remote address until a header it takes announces a port, and then by the last |
| SessionHistory.DestroyedExactly | Sources/miniDHT_session.h:276-408 | a completion destroys its session if and only if it fails and nothing else of the session is in flight |
| SessionHistory.TableIsRegistered | Sources/miniDHT_session.h:276-333 | the endpoint table holds exactly the registrations: taking a header registers the session at its address over any other, its destruction erases the entry there, and nothing else changes the table |
| SessionHistory.SendReaches | Sources/miniDHT.cpp:721-756 | a message goes behind everything delivered to the session registered at its address, or to a new connection to it, and to no other session |
| SessionHistory.NothingSentIsLost | Sources/miniDHT.cpp:721-756 | in every run the messages sent are those delivered to the sessions, none lost and none twice |
| Records.InsertAdds | Sources/miniDHT_db.cpp:454-554 | inserting a new name adds one header, one time and one item row, and touches no other record |
| Records.InsertAgain | Sources/miniDHT_db.cpp:454-554 | inserting a name again gives a time row and an item row to both of its headers, so that the tables hold whole records no more |
| Records.RemoveDrops | Sources/miniDHT_db.cpp:337-365 | removing a name deletes that record with its child rows and no other |
| Records.EvictDrops | Sources/miniDHT_db.cpp:367-387 | deleting one header deletes exactly one record |
| Records.EvictionProgress | Sources/miniDHT.cpp:228-231 | every pass of the eviction loop over nonempty tables drops one record, for any limit; for a limit of zero it stays at the empty tables |
| Records.UpdateChanges | Sources/miniDHT_db.cpp:417-452 | updating changes the time and lifetime of that record and keeps its data |
| Records.SizeCounts | Sources/miniDHT_db.cpp:616-642 | the size is the number of records |
| Records.CountFinds | Sources/miniDHT_db.cpp:584-614 | the count of a key is zero exactly when no record has it |
| Records.ListedRow | Sources/miniDHT_db.cpp:819-875 | a row pairs a title of the key with the time of some record of the key, not always its own |
| Records.TitleIsListed | Sources/miniDHT_db.cpp:819-875 | every title of the key is listed |
| Records.ListedExactly | Sources/miniDHT_db.cpp:819-875 | what is listed for a key is exactly every title of it with the time of every record of it |
| Records.Storage.constructor | Sources/miniDHT_db.cpp:156-194 | new tables hold nothing |
| Records.Storage.Insert | Sources/miniDHT_db.cpp:454-554 | the three INSERT statements, the child rows for every matching header |
| Records.Storage.Update | Sources/miniDHT_db.cpp:417-452 | the UPDATE statement |
| Records.Storage.Remove | Sources/miniDHT_db.cpp:337-365 | removes exactly the named record and keeps the tables whole |
| Records.Storage.RemoveOldest | Sources/miniDHT_db.cpp:367-387 | deletes some header with its child rows, or nothing without a time row |
| Records.Storage.FindNoBlob | Sources/miniDHT_db.cpp:819-875 | the rows of the unconditional join, in any order |
| Records.Storage.MakeRoom | Sources/miniDHT.cpp:227-231 | the loop ends, keeps the tables whole, and drops just enough records |
| RecordRuns.InsertDb | Sources/miniDHT.cpp:224-263 | a new key evicts just enough and is stored; a known title keeps its data and may take the new time; a new title of a known key is added |
| RecordRuns.LimitExactly | Sources/miniDHT.cpp:224-263 | the limit holds after a store if and only if the key was new, or the title known and the limit respected, or there was room |
| RecordRuns.StoreDropsExactly | Sources/miniDHT.cpp:224-263 | a store changes no other record that stays; a known key drops nothing, a new one exactly as many records as make room |
| RecordRuns.TimeGoesBackExactly | Sources/miniDHT.cpp:241-253 | the time of a title can go back if and only if another record of its key is older than the new one |
| RecordRuns.LimitHolds | Sources/miniDHT.cpp:224-263 | with one title per key the limit holds in every reachable state |
| RecordRuns.FirstDataStays | Sources/miniDHT.cpp:241-253 | while a title stays, its data is that of the store that brought it in |
| RecordRuns.NewestTimeStays | Sources/miniDHT.cpp:241-253 | with one title per key, a record that stays has a time no older than any store of it |
| RecordRuns.StepRenewsExactly | Sources/miniDHT.cpp:242-252 | with one title per key a store renews time and lifetime exactly when its time is later |
| RecordRuns.FirstNewestStays | Sources/miniDHT.cpp:224-263 | with one title per key a record that stays has the time and lifetime of the first of its stores with their newest time |
| RecordRuns.TimeIsOfSomeStore | Sources/miniDHT.cpp:224-263 | with any titles it has the time and lifetime of some store of it since it came |

## Left out

- Sockets, name resolution, timers, threads, mutexes, files and SHA-256: they are events, opaque text or a supplied clock here.
- Protobuf serialization: messages are values, and a frame's body is opaque text.
- SQLite opening, preparing, quoting, error strings and `db_key_value`: only the effect of the statements on the three tables is modelled.
- A `maxRecords` of zero for a new key: the loop that makes room would not end, as `Records.EvictionProgress` shows, so `RecordRuns.InsertDb` requires at least one.
- That the oldest record is evicted: the query joins without a condition (Sources/miniDHT_db.cpp:374-376), so any record may go.
- That the newest time is kept for a key with several titles: the listing pairs every title with every time of the key, and `RecordRuns.TimeGoesBackExactly` says exactly when a time goes back.
- Store and find from end to end across nodes: the handlers use `to_id` where the query is meant (Sources/miniDHT.cpp:644, 686), so the code does not decide it.
- `random_key_in_bucket`: it fixes low bits while prefixes count from the top bit, and the text form reverses bytes, so its key need not land in the bucket.
- `periodic`, ping timeouts, the STORE check value, backup of contacts, value buffers and hints: bookkeeping around the parts modelled. Erasing a table entry, which `periodic` does, is an operation of `ProximityCache.Step`.
- The node callback of a finished NODE search: its flag is never set. A value callback that throws in its own search, or is empty in a VALUE search, is not modelled either.
- `remote_endpoint` failing in `start`: the exception leaves the session without an operation in flight.
- A disconnect removing contacts while a session handler runs: the routing table is modelled apart from the sessions, with removal as one of its operations.
- Asynchronous partial reads and writes: a completion carries a whole header, body or frame, or an error. `Framing.PartialStream` covers a stream cut anywhere.
- ProximityCache.ListingIsTable: stated for canonical keys; `ProximityCache.ListingExactly` is the statement for all.
- ProximityCache.LookupSeesWholeTable: stated for runs that add canonical keys; `ProximityCache.LookupExactly` is the statement for all.
- Lookup.FreshLookupStartsClosest: stated for runs that add canonical keys; `Lookup.WholeLookupStartsClosest` is the statement for all.
- Recency.EvictionIsLeastRecentlyUsed: stated for strictly increasing times; `Recency.EvictionIsRecentExactly` is the statement for all.
- Command-line programs, tests, the AES example and the build files.

# A verified model of the aphelo key-value server

This project models the data layer, the wire protocol and the event loop of the server in Dafny, in the
form the C++ has: node objects with mutable links, bucket arrays with chains, an array heap that writes
positions back, buffers and connections. Each method is proved against a pure specification, and the
promises of the design are lemmas about those specifications.

From the bottom up:

- **AVL tree** (`trees`, `rebalancing`, `avl`, `avl_fix`, `avl_del`, `avl_offset`). The memory of the tree
  fields is compared with a plain tree value. Rotations, the fix-up loop, deletion by splicing the
  successor's object, and the walk by rank are proved on that memory, for every node and every shape.
- **Dictionary** (`htables`, `hmaps`). Two tables and a cursor answer as one set of nodes at every point of
  a migration, and an arithmetic invariant shows that migration outruns growth.
- **Sorted set** (`walks`, `listings`, `zsets`). The same member objects sit in the tree and in the
  dictionary; the set means a map from names to scores, and ranges mean slices of its sorted list.
- **Timers and keyspace** (`heaps`, `stores`, `commands`, `keyspaces`, `sweeps`, `runs`). Dictionary, heap
  and entries are cross-linked one to one; together they mean a map from keys to a value and an optional
  deadline. Every command and every expiry pass is a step of that map (`Keyspaces.Step`, `Sweeps.Sweep`), and
  properties of all runs are proved about these steps. What the steps mean to a client is stated apart from
  them (`queries`, `laws`): each reply in terms of other replies, numbers and messages written out, and range
  queries by rank.
- **Wire protocol** (`codecs`, `buffers`, `requests`, `streams`, `formats`, `conns`, `clients`). Parsing and
  printing undo each other in both directions, every byte of the format is given as such, the cutting of the
  stream into reads does not matter, and a whole conversation between client and server is lossless.
- **Event loop** (`dlists`, `idle`, `servers`). The idle queue is a circular intrusive list sorted by
  activity. One round of the loop keeps a single invariant over database, connections and queue, and extends
  the history of the database by exactly what the visited connections asked; each connection's own part of
  that history accounts for every byte it has read and written.

Where code and documentation disagree, the model follows the code:

- `str_hash` is announced as FNV-1a (the repository's README.md, server.cpp:331) but mixes by addition (common.h:13-19). It is
  modelled as written, and no proof but `HNodes.HashByByte` depends on its values.
- The cap on evictions is named 2000, but the counter is compared before it grows, so a pass evicts up
  to 2001 keys (server.cpp:886-908). `Runs.SweepCount` states the exact number, `Runs.CapExceeded` when it is over the
  cap, and `Runs.OverTheCap` shows requests that lead there.
- Connections are said to have a fixed timeout of five seconds (ENGINEERING_LOG.md:63, server.cpp:837). The sweep
  does exactly that (`IdleQueues.IdleQueue.Expire`), but the loop refreshes every polled connection, ready or not,
  before it (server.cpp:983-990). `Servers.Server.Turn` gives the exact condition: a polled connection is closed for
  being idle if and only if the round takes five seconds or more from its visit to its end.
  `Servers.SilentClient` is an instance: a client that says nothing from time 0 on is still connected at 10000, after
  two rounds at the times that the server's own timer gives.
- The timer is said to give the exact gap to the nearest deadline (ENGINEERING_LOG.md:62). The cast keeps a gap
  exactly if it is below 2^31 ms (server.cpp:860, `IdleQueues.AsInt32Exact`); a gap of 3000000000 ms becomes
  -1294967296 (`IdleQueues.LongGap`), and `poll` waits without limit.
- The server sends responses of up to 32 MiB, the client refuses more than 4096 bytes. `Clients.ReadsBack` gives
  the exact condition, `Clients.TooLongForTheClient` requests of this client that end in such a response.
- `zquery` counts two items for each member against its limit (server.cpp:619-625). A target before the first member
  gives an empty page (avl.cpp:149-177), so pages with a negative offset need not add up: `Listings.WindowPages` says
  exactly when they do, `Listings.PagesLost` is an instance where they do not.

## Model

| member | source | states |
|---|---|---|
| Bytes.NameLessIsLex | zset.cpp:37-41 | Comparing the common prefix with `memcmp` and then the lengths is the dictionary order on byte strings |
| Bytes.LexByFront | zset.cpp:37-41 | One name is smaller than another exactly if they agree up to a place where the one ends or has the lower byte |
| Scores.ZLessTotal | zset.cpp:30-47 | `zless` is irreflexive and asymmetric, and only equal names with scores of equal value are tied |
| Scores.ZLessTransitive | zset.cpp:30-47 | `zless` is transitive |
| Scores.LowerScoreFirst | zset.cpp:30-47 | The lower score comes first: numbers above zero by magnitude, below zero the other way round, negative before zero before positive; the zeros and equal scores leave it to the names |
| Scores.ZLessByValue | zset.cpp:30-47 | `zless` holds exactly of a lower score, or of scores of equal value with a smaller name |
| Rebalancing.RebalancedKeepsWalk | avl.cpp:55-69 | Single and double rotations keep the in-order sequence of node objects |
| Rebalancing.RebalancedIsBalanced | avl.cpp:55-69 | Subtrees that are balanced and differ in height by at most two become a balanced tree, at most one level lower |
| Avl.AvlUpdate | avl.cpp:10-13 | `height` and `cnt` are recomputed from the children and nothing else changes |
| Avl.RotLeft | avl.cpp:15-33 | Every link, `height` and `cnt` after a left rotation; all other nodes are untouched |
| Avl.RotRight | avl.cpp:35-53 | Every link, `height` and `cnt` after a right rotation; all other nodes are untouched |
| Avl.AvlFixLeft | avl.cpp:55-61 | Memory holding a left-heavy tree comes to hold the rotated tree, nodes outside it unchanged |
| Avl.AvlFixRight | avl.cpp:63-69 | Memory holding a right-heavy tree comes to hold the rotated tree, nodes outside it unchanged |
| AvlFixing.AvlFixStep | avl.cpp:73-95 | One turn of the loop repairs one level and leaves its parent repairable, with the same in-order sequence |
| AvlFixing.AvlFix | avl.cpp:71-97 | The result is a balanced tree with the same in-order sequence, mutual links and exact `height` and `cnt` |
| AvlDeletion.AvlDelEasy | avl.cpp:99-116 | A node with at most one child leaves a balanced tree of exactly the other node objects in order |
| AvlDeletion.FindVictim | avl.cpp:124-128 | The leftmost node of the right subtree is the in-order successor |
| AvlDeletion.TakeOver | avl.cpp:131-146 | The detached successor's object takes the node's place, also when the successor was the direct child or the node moved in the fix-up |
| AvlDeletion.AvlDel | avl.cpp:118-147 | The result is balanced with exact links and data, and its in-order sequence is the old one without the node |
| AvlRanks.OffsetStep | avl.cpp:153-175 | One turn goes down only towards a target that is below, and goes up only when the target is not in the subtree; running out of parents means out of range |
| AvlRanks.AvlOffset | avl.cpp:149-177 | From in-order position i the result is the node at position i + offset, or null exactly when there is none; the walk climbs, then descends, and does each fewer times than the tree is high |
| AvlRanks.BalancedIsLarge | avl.cpp:71-97 | A balanced tree of height h has at least Fib(h + 2) - 1 nodes |
| AvlRanks.HeightIsLogarithmic | avl.cpp:149-151 | Two to half the height is at most the node count plus one, which makes the documented O(log N) of the walk a bound |
| HNodes.HashByByte | common.h:13-19 | From 2166136261 on, each byte is added and the sum multiplied by 16777619, modulo 2^32 |
| HTables.HTab.Init | hashtable.cpp:6-11 | An empty table of the requested number of buckets |
| HTables.HTab.Insert | hashtable.cpp:13-19 | The node is at the front of the bucket its hash selects; every other chain is unchanged; `size` is exact |
| HTables.HTab.Lookup | hashtable.cpp:22-32 | The link to a member that has the hash and satisfies `eq`, or nothing exactly when no member does |
| HTables.HTab.Detach | hashtable.cpp:35-40 | Exactly the linked node leaves its chain; order, other chains and `size` follow |
| HTables.HTab.Foreach | hashtable.cpp:113-122 | Every member is visited exactly once, unless the callback stops the walk |
| HMaps.OutrunsInserting | hashtable.cpp:42-57 | Moving 128 nodes per insertion keeps the bound while a migration is under way |
| HMaps.OutrunsSwitching | hashtable.cpp:64-90 | The bound holds when a full table becomes the old one |
| HMaps.HMap.MigrationFinishesEarly | hashtable.cpp:42-90 | While a migration from n buckets is unfinished, there have been fewer than n / 16 operations since it began and fewer than n / 16 nodes net have been added, and the new table is hardly over half of its own limit |
| HMaps.Perform | hashtable.cpp:44-101 | Any lookups, insertions and deletions one after the other: the load stays below 8 per bucket, and after n / 16 of them a migration from n buckets is over |
| HMaps.HMap.NonEmptySlot | hashtable.cpp:46-48 | While the old table has nodes, the cursor has not run off it |
| HMaps.HMap.MigrateStep | hashtable.cpp:46-56 | One loop turn skips an empty slot or moves one node; together the tables hold the same nodes |
| HMaps.HMap.HelpRehashing | hashtable.cpp:44-62 | The loop ends, moves exactly 128 nodes or all that are left, and drops the old table when it is empty |
| HMaps.HMap.TriggerRehashing | hashtable.cpp:64-68 | The full table becomes the old one and an empty one of twice the size is opened |
| HMaps.HMap.Lookup | hashtable.cpp:70-77 | At any point of a migration: a matching member of either table, or null exactly when there is none; the content is unchanged, up to 128 nodes have moved, and the load is below 8 per bucket |
| HMaps.HMap.Insert | hashtable.cpp:79-90 | Exactly this node is added, at any point of a migration; tables are switched only when no migration is under way, and the load is below 8 per bucket |
| HMaps.HMap.Delete | hashtable.cpp:92-101 | Exactly a matching node is removed and returned, or null exactly when none matches; the load is below 8 per bucket |
| HMaps.HMap.Clear | hashtable.cpp:103-107 | An empty dictionary |
| HMaps.HMap.Foreach | hashtable.cpp:124-126 | Every node of both tables is visited exactly once, unless the callback stops the walk; then no node twice, and none after the one it stopped at |
| Listings.ListingExists | zset.cpp:29-47 | The members of a sorted set can always be listed in `zless` order |
| Listings.ListingUnique | zset.cpp:29-47 | There is only one such list |
| Listings.CountBelowSplits | zset.cpp:134-146 | In that list the members below a key are exactly the ones at the front |
| Listings.WindowPages | server.cpp:613-627 | Two pages one after the other are the long page from the offset of the first, except exactly when the first one begins before the list and the second one inside it |
| Listings.PagesLost | server.cpp:613-627 | An instance of the exception: two members, a key equal to the first, offset -1; the two pages show the first member, the long page shows nothing |
| Queries.PlaceIsRank | zset.cpp:134-146 | The place that a seek finds is the number of members before the key |
| Queries.QueryByRank | server.cpp:591-627 | An accepted `zquery`, without any list: names alternate with their scores, the i-th member has as many members before it as the key has plus offset plus i, and how many there are; nothing changes |
| Queries.QueryInOrder | server.cpp:613-627 | In every reply the scores never fall and names rise between equal ones; for an offset not below zero none is before the key |
| ZSets.ZSet.FindPlace | zset.cpp:50-56 | The search ends at the hole with everything smaller before it and everything greater after it, in at most as many turns as the tree is high |
| ZSets.ZSet.TreeInsert | zset.cpp:49-60 | The ordered, balanced tree gains exactly this member |
| ZSets.ZSet.TreeDelete | zset.cpp:128-129 | The ordered, balanced tree loses exactly this member |
| ZSets.ZSet.Update | zset.cpp:62-73 | The member object stays and has the new score, unless the scores have equal value; both indexes keep holding the same objects |
| ZSets.ZSet.Lookup | zset.cpp:105-117 | The member of that name, or null exactly when there is none |
| ZSets.ZSet.Insert | zset.cpp:75-87 | The name-to-score map gains or changes exactly this name; the result tells whether it was new |
| ZSets.ZSet.Delete | zset.cpp:119-132 | The lookup finds this very node, so the assertion holds, and both indexes lose exactly it |
| ZSets.ZSet.ListingIsSorted | zset.cpp:49-60 | The in-order walk of the tree is the sorted list of the name-to-score map |
| ZSets.ZSet.SeekGe | zset.cpp:134-146 | The first member of the sorted list that is not below the key, null if none, in at most as many turns as the tree is high |
| ZSets.ZSet.Offset | zset.cpp:148-152 | The member that many places further in the sorted list; null outside of it, and null from null |
| ZSets.ZSet.TreeDispose | zset.cpp:154-161 | Every node of the tree is freed exactly once |
| ZSets.ZSet.Clear | zset.cpp:163-168 | The set is empty and every member has been freed exactly once |
| Heaps.RootIsLeast | heap.cpp:27-53 | Slot 0 of a heap holds the minimum |
| Heaps.OneSlotChanged | server.cpp:278-286 | A heap with one arbitrary changed slot meets what `heap_update` needs |
| Heaps.TimerHeap.Up | heap.cpp:15-25 | Heap order is restored, the items are permuted, every `*ref` is its item's index, and two to the number of turns is at most the starting position plus one |
| Heaps.TimerHeap.Down | heap.cpp:27-53 | The same for the item that sinks; two to the number of turns is at most the length |
| Heaps.TimerHeap.Update | heap.cpp:55-61 | The same from a heap with one arbitrary changed slot, in at most logarithmically many turns |
| Heaps.TimerHeap.Delete | server.cpp:270-276 | Exactly the timer in that slot goes |
| Heaps.TimerHeap.Upsert | server.cpp:278-286 | Exactly the timer of that entry is set or replaced |
| Stores.Store.Find | server.cpp:358-369 | The entry of the key, or null; the database as a map is unchanged although nodes may migrate |
| Stores.Store.Create | server.cpp:287-291 | A new entry is linked under its key and hash, has no timer, and no other record changes |
| Stores.Store.SetStr | server.cpp:409-414 | The string changes, the deadline and all other records stay |
| Stores.Store.SetTtl | server.cpp:303-314 | The deadline of exactly this key is set to now + ttl, or removed for a negative ttl |
| Stores.Store.DeleteBy | server.cpp:292-302 | Deleting by key bytes or by node removes exactly one record and its timer; the result tells whether there was one |
| Stores.Store.ZSetInsert | server.cpp:544-547 | The sorted set of this key changes as its name-to-score map does; no other record changes |
| Stores.Store.ZSetRemove | server.cpp:571-576 | The name leaves this sorted set, which stays even when empty; no other record changes |
| Stores.Store.ZSetScore | server.cpp:586-588 | The score the map has for the name |
| Stores.Store.TimerSlot | server.cpp:496-500 | `heap_idx` is -1 exactly without a timer, and otherwise the slot of this very entry |
| Stores.Store.Earliest | server.cpp:890-891 | Slot 0 of the heap refers to an entry that is in the dictionary, and its deadline is the earliest of all keys |
| Stores.Store.AllKeys | server.cpp:505-508 | The nodes of both tables are the keys of the map, each once, and `hm_size` counts them |
| Commands.DoGet | server.cpp:358-374 | The reply of the map, deadlines ignored; the map is unchanged |
| Commands.DoSet | server.cpp:401-425 | A string replaces a string and keeps its timer; a sorted set is left alone with an error |
| Commands.DoDel | server.cpp:439-450 | The key is gone; the reply counts it |
| Commands.EmitKeys | server.cpp:451-456 | One tagged string for each node, in order |
| Commands.DoKeys | server.cpp:505-508 | The announced count equals the elements that follow: every key exactly once |
| Commands.DoExpire | server.cpp:467-483 | The deadline changes as in the map; the reply tells whether the key exists; a bad number changes nothing |
| Commands.DoTtl | server.cpp:485-503 | -2 without the key, -1 without a timer, else the remaining time, 0 if past |
| Commands.AddScored | server.cpp:525-547 | The missing key is created, the member added or re-scored as in the map, and the result tells whether the name was new |
| Commands.DoZAdd | server.cpp:518-548 | Added or re-scored as in the map, creating the key if needed; a string is left alone with an error |
| Commands.ExpectZSet | server.cpp:552-562 | A missing key reads as an empty sorted set, a string is refused |
| Commands.FindScore | server.cpp:579-588 | The score the map has for the name, and whether the key can have one |
| Commands.DoZRem | server.cpp:564-577 | The name is gone; the reply counts it |
| Commands.DoZScore | server.cpp:579-589 | The score of the map, nil without the name |
| Commands.EmitMember | server.cpp:621-623 | Name and score of one member, and the next member of the sorted list |
| Commands.EmitRange | server.cpp:617-626 | From a member of the sorted list: the following members, two items each, at most half the limit rounded up |
| Commands.QueryZSet | server.cpp:614-626 | Seek, move and output together emit exactly the window of the sorted list |
| Commands.RangeOf | server.cpp:604-627 | The back-patched array equals the window as a simple slice: empty for a limit of at most 0, a seek past the end, or a target out of range |
| Commands.DoZQuery | server.cpp:591-627 | The same with the argument errors in the order in which they are found |
| Commands.DoRequest | server.cpp:629-655 | Any request appends exactly one tagged value, and value and new state are what the map says |
| Runs.StepDecides | server.cpp:358-655 | State and reply are determined by the map and the request, up to the order of KEYS |
| Runs.StateOrderly | server.cpp:303-314 | No request leads to a deadline or score that does not fit its wire field |
| Runs.RunOrderly | server.cpp:629-655 | Over every run of requests and expiry passes with a clock that does not go back, every reply fits the wire format |
| Runs.Spared | server.cpp:629-655 | Requests for other keys, and passes before the deadline, for however long, leave a key exactly as it is |
| Runs.SetThenGet | server.cpp:358-425 | A string that was set into a missing key or a string is what `get` returns until a request names the key or a pass finds it due |
| Runs.RunPart | server.cpp:629-655 | Any stretch of a run is a run, so what holds of runs holds from any moment on |
| Laws.GetReplies | server.cpp:358-374 | Nil exactly for a missing key, the string of a string, error 3 for a sorted set |
| Laws.SetReplies | server.cpp:401-425 | Nil and the new string with the old timer, or error 3 and nothing changed on a sorted set; other keys stay |
| Laws.DelReplies | server.cpp:439-450 | The reply is 1 exactly if the key was there, and the database shrinks by the reply; other keys stay |
| Laws.DelThenGone | server.cpp:439-450 | After `del`, for however long no request names the key, whatever passes come: `get` says nil, `pttl` -2, `del` 0 |
| Laws.KeysReplies | server.cpp:451-508 | KEYS lists a key exactly if it is there, and nothing twice |
| Laws.OthersRefused | server.cpp:629-655 | Any other words or number of words: error 1, and nothing changes |
| Laws.TtlReplies | server.cpp:485-503 | -2 exactly for a missing key, -1 without a timer, else the time that is left |
| Laws.ExpireReplies | server.cpp:467-483 | 1 exactly if the key is there, which then is due ttl after the clock, or never for a negative ttl; its value and other keys stay; error 4 for a bad number |
| Laws.ExpireThenTtl | server.cpp:467-503 | After `pexpire` with ttl at t, for however long nothing concerns the key: `pttl` at u says t + ttl - u while that is positive, then 0; after a negative ttl it says -1 |
| Laws.ExpireThenPass | server.cpp:885-909 | After it, a pass up to t + ttl leaves the key with its value, and a later one evicts it or exceeds the cap; after a negative ttl no pass evicts it |
| Laws.PassReplies | server.cpp:885-909 | One key and one pass: it goes only if its deadline is before now; if it is due and stays, 2001 others went, none due later |
| Laws.ScoreReplies | server.cpp:579-589 | The score of the name, nil exactly without it, error 3 for a string |
| Laws.AddReplies | server.cpp:518-548 | 1 exactly if `zscore` would have said nil just before, and the set grows by the reply; its other members, its timer and other keys stay; errors 4 and 3 |
| Laws.AddThenScore | server.cpp:518-589 | After `zadd`, for however long nothing concerns the key, `zscore` says a score of the value that was added, that very one for a new name |
| Laws.RemReplies | server.cpp:564-576 | 1 exactly if `zscore` would have found the name just before, and the set shrinks by the reply; the key stays even when the set is empty |
| Laws.RemThenScore | server.cpp:564-589 | After `zrem`, for however long nothing concerns the key, `zscore` says nil |
| Laws.QueryRefused | server.cpp:591-611 | Error 4 for a bad score, then for a bad offset or limit, then error 3 for a string; nothing changes |
| Runs.SweepCount | server.cpp:885-909 | A pass evicts exactly the due keys, or exactly 2001 if there are more |
| Runs.CapExceeded | server.cpp:886-908 | The announced cap of 2000 is exceeded exactly if more than 2000 keys are due |
| Runs.OverTheCap | server.cpp:886-908 | A run of requests to an empty server after which the next pass evicts 2001 keys |
| Runs.Passes | server.cpp:885-909 | Consecutive passes at one time: after n of them, 2001 n fewer keys are due, or none |
| Sweeps.ExpireKeys | server.cpp:885-909 | Only keys with a deadline before now go, earliest first, at most 2001; what survives is due no earlier; with fewer than 2001 evictions nothing due is left; the branch for a missing entry is dead |
| Codecs.LeRoundTrip | server.cpp:193-201 | Little-endian bytes give the number back |
| Codecs.I64RoundTrip | server.cpp:196-198 | So do the eight bytes of a signed number |
| Codecs.DecodeEncode | client.cpp:79-169 | The client's recursive decoder recovers every value that the `out_*` functions emit, whatever follows, and consumes exactly its bytes |
| Formats.FourBytes | server.cpp:193-195 | A 32-bit number goes out low byte first |
| Formats.EightBytes | server.cpp:196-198 | A 64-bit number goes out low byte first, in two's complement |
| Formats.NilBytes | server.cpp:205-207 | The single byte 0 |
| Formats.ErrBytes | server.cpp:222-227 | The byte 1, code and length in four bytes each, the message |
| Formats.StrBytes | server.cpp:209-213 | The byte 2, the length in four bytes, the string |
| Formats.IntBytes | server.cpp:214-217 | The byte 3, the number in eight bytes |
| Formats.DblBytes | server.cpp:218-221 | The byte 4, the 64 bits of the double, the sign as the highest one |
| Formats.ArrBytes | server.cpp:228-231 | The byte 5, the count in four bytes, the items one after the other |
| Formats.ResponseBytes | server.cpp:711-721 | A response is its length in four bytes and the value; over 33554432 bytes it is error 2 with its message |
| Formats.RequestBytes | client.cpp:47-67 | A request body is the count in four bytes, then each string behind its length in four bytes |
| Formats.FrontBytes | server.cpp:722-745 | Byte by byte, what is at the front of a stream: a length over 33554432 is bad, a shorter front is awaited, and a complete body is a request exactly if it encodes at most 200000 strings |
| Buffers.Buffer.OutStr | server.cpp:209-213 | Appends exactly the tagged string |
| Buffers.Buffer.OutErr | server.cpp:222-227 | Appends exactly the tagged error |
| Buffers.Buffer.OutBeginArr | server.cpp:232-236 | Reserves the count and says where it is |
| Buffers.Buffer.OutEndArr | server.cpp:237-240 | Patches exactly the count; the assertion on the tag is a precondition that the caller is proved to meet |
| Buffers.Buffer.ResponseEnd | server.cpp:711-721 | Everything since the begin is one response with its true length; a body over 32 MiB has become an error |
| Requests.ParseReq | server.cpp:140-170 | The loop accepts exactly what the specification function accepts, with the same strings |
| Requests.ParseExactly | server.cpp:140-170 | A body is accepted if and only if it is the encoding of its strings, at most 200000, with nothing left over |
| Requests.SendReq | client.cpp:47-67 | The filled buffer is the length and the encoding of the strings; a request over 4096 bytes is refused |
| Requests.RequestRoundTrip | client.cpp:47-67 | What the client encodes, the server parses back |
| Streams.NextRequestMore | server.cpp:722-745 | Bytes that arrive later never change what is at the front already |
| Streams.DrainMore | server.cpp:820-823 | Processing what is there and later the rest is processing all at once |
| Streams.ChunkingDoesNotMatter | server.cpp:820-823 | For every way to cut the stream into reads: the same requests, and the same decision to close, as for all bytes at once |
| Streams.DrainOneMore | server.cpp:796-823 | One more read takes a connection from the account of the reads before it to that of all of them |
| Streams.DrainedRestWaits | server.cpp:722-766 | After the loop no complete request is left in `incoming` |
| Streams.FramedRequest | client.cpp:47-67 | A request as the client sends it is the next request of the stream |
| Conns.Conn.constructor | server.cpp:114-118 | A new connection waits to read and not to write, both buffers are empty, nothing has happened to it, and it is stamped with the time |
| Conns.Conn.TryOneRequest | server.cpp:722-766 | One complete request is answered by one framed response and consumed; too little changes nothing; a bad one asks to close |
| Conns.Conn.ServeAll | server.cpp:823-823 | Exactly the complete requests are answered, in order, and exactly their responses are appended |
| Conns.Conn.HandleRead | server.cpp:796-836 | The same for what `read` delivers, with the error cases and the first write |
| Conns.Conn.HandleWrite | server.cpp:768-788 | The written prefix is gone; when nothing is left the connection waits to read; its assertion is a precondition that both callers meet |
| Conns.Conn.Serve | server.cpp:992-999 | One visit, exactly: the requests that are complete with what was read are answered in order, their responses join the output, what is written leaves it, and when the connection asks to close; if it does not, it wants exactly one of read and write, write exactly with output pending, and no complete request is stranded |
| Conns.VisitSays | server.cpp:796-836 | A visit item by item: what is answered, how many bytes leave, and that it asks to close exactly after end of file, a failed read, a failed write that was tried, or bad bytes |
| Conns.VisitedAccounted | server.cpp:796-836 | A visit keeps the account of a connection: the requests answered are those complete in the bytes read so far, and written plus pending output are their responses in order |
| Conns.AccountOfWhole | server.cpp:820-823 | That account is the one of all the bytes at once, however the reads were cut |
| Clients.ReadsBack | client.cpp:170-205 | The client reads back a response exactly if it is within the client's limit of 4096 bytes |
| Clients.ReadsAllBack | client.cpp:170-205 | The responses to some requests are read back one by one with nothing left over, exactly if none is longer than 4096 bytes |
| Clients.SentIsServed | client.cpp:47-67 | From the bytes of any requests sent, the server takes exactly those requests |
| Clients.Conversation | client.cpp:47-205 | For one connection at any moment, its bytes arriving in any chunks: the first requests sent are answered, in order, all of them once all bytes have arrived, and its output reads back as these answers exactly if each is within the client's limit |
| Clients.TooLongForTheClient | client.cpp:170-190 | Three requests that this client can send to an empty server end in a response that it refuses |
| DLists.RingTurned | list.h:6-9 | A circular list can be read from any of its nodes |
| DLists.Init | list.h:11-13 | A node alone is a circle |
| DLists.EmptyMeansAlone | list.h:15-17 | A list is empty exactly when its head is alone |
| DLists.Detach | list.h:19-24 | The others stay a circle in their order |
| DLists.InsertBefore | list.h:26-32 | Before the head is at the back of the list |
| IdleQueues.IdleQueue.Enter | server.cpp:114-118 | A new connection joins at the back |
| IdleQueues.IdleQueue.Touch | server.cpp:988-990 | The connection moves to the back with the new time; the queue stays sorted by activity |
| IdleQueues.IdleQueue.Expire | server.cpp:869-883 | Exactly the connections idle for 5000 ms or more are closed, from the front; every other one stays |
| IdleQueues.IdleQueue.NextTimer | server.cpp:839-861 | -1 without any deadline, 0 if the earliest of all is past, else the gap as the cast to 32 bits leaves it |
| IdleQueues.AsInt32Exact | server.cpp:860-860 | The cast keeps the gap exactly if it is below 2^31 ms |
| IdleQueues.LongGap | server.cpp:839-861 | A key that expires in 3000000000 ms, alone, makes the timeout -1294967296 |
| IdleQueues.EarliestIsFirst | server.cpp:839-861 | The deadline that the timer follows is no later than 5000 ms after anybody's last activity and no later than any key's, and is one of these |
| Servers.Server.Accept | server.cpp:971-980 | Between rounds: a new connection joins at the back, and everything stays valid |
| Servers.Server.ServeOne | server.cpp:983-1002 | One visit, exactly as `Conn.Serve` says; its events extend the history and are attributed to the connection, whose account stays right even if it is dropped; it stays exactly if there was no error and it does not ask to close |
| Servers.Server.ProcessTimers | server.cpp:865-910 | Both loops: exactly the connections idle for 5000 ms or more, and the due keys as one more event of the history |
| Servers.Server.ServeAll | server.cpp:983-1004 | The history grows by exactly the answers of the visits, one after the other; every visited connection has changed as its visit says, and stays exactly if it was not dropped |
| Servers.Server.Turn | server.cpp:969-1008 | Every round of the event loop: the history grows by exactly the answers to what the visits read and one pass of the timers; a visited connection is dropped exactly after an error, end of file, a failed read or attempted write, or bad bytes, and one that is not is closed for being idle exactly if 5000 ms lie between its visit and the end of the round; an unvisited or new one is closed exactly if it has been idle that long; database, queue, and every open connection's state, account and part of the history stay right |
| Servers.Server.Conversation | server.cpp:969-1008 | For any open connection at any moment of any history with other clients and expiry passes: its own part of the history answers the requests sent to it, in order, and its output reads back as these answers |
| Servers.Server.Stretch | server.cpp:969-1008 | Any stretch of the server's history is a run that began with an empty database and leads to the present one, so the laws between replies hold of it |
| Servers.SilentRound | server.cpp:969-1008 | One round with a silent connection: the server's own timer says 5000 ms, and the visit that follows finds nothing and leaves the connection open |
| Servers.SilentClient | server.cpp:985-990 | From the start: a connection accepted at 0, from which nothing ever comes, is open at 10000 after two rounds at the times the server's own timer gives |
| Servers.Server.RepliesFit | server.cpp:969-1008 | Every reply the server ever gave fits the wire format |

## Left out

- Sockets, `poll`, `accept` and logging: `read` is any outcome or chunk, `write` any outcome or accepted
  prefix, readiness any report limited to what was asked for, and the clock any sequence that does not go back.
- Integer widths of counts and lengths: `height`, `cnt`, `size`, `heap_idx` and buffer lengths are unbounded,
  so tables, strings and arrays are taken to stay below 2^32 where the code casts to `uint32_t`.
- Requests.SendReq: does not model the wrap of the 32-bit length for requests of 4 GiB, which the client
  would take for short ones.
- The clock is taken to stay below 2^63, so that now + ttl and last activity + 5000 do not wrap.
- `strtoll` and `strtod` are arbitrary partial functions of the bytes (`Replies.Numbers`), the second never NaN; the
  repository does not define them.
- Codecs.DecodeEncode: covers what the `out_*` functions emit; on other bytes the decoder's 32-bit length
  sums can wrap, and the model reads a wrapped length as a failure.
- Scores are bit patterns with a sign and a magnitude ordered like the values; floating-point formatting
  is not modelled.
- `malloc`, `free` and `container_of`: objects have owners instead of offsets; freeing is modelled only as the
  list of nodes that `tree_dispose` visits.
- Commands.ExpectZSet: returns null where the code returns a static empty set, which behaves the same in every caller.
- The second `del` branch of `do_request` (server.cpp:646-647) cannot be reached and has no counterpart.
- The time one migration step may take: skipped empty slots are not counted against 128, in the code or here.
- The descriptor table `fd2conn`: connections are known by identity, so the reuse of descriptors is not modelled.
- The benchmark, the Python clients, the build files and the C++ test programs.

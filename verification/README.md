# c-spider, modelled and proved in Dafny

c-spider is a multithreaded web crawler in C with its own data structures and protocols. This project
models the stateful ones the way they are written (classes for the structs that are updated in place,
arrays for the buffers, loops for the loops) and proves what they compute and what every run of them keeps.
`dafny verify dfyconfig.toml` checks everything.

| part | files |
|---|---|
| chained hash map with rehash and iterator | `HashTable`, `HashTableLaws`, `HashTableAnyPair`, `HashTableSame`, `HashTableGrowth`, `HashTableOn`, `HashTableApart`, `HostAddresses`, `HashTableLoss`, `HashChains`, `HashMap`, `DefaultHash`, `DefaultKeying`, `Sequences` |
| crawl scheduler, crawl termination, what is crawled | `Scheduler`, `SchedulerRuns`, `Threads`, `Crawl`, `Discovery` |
| CRC-32 | `ShiftRegister`, `Crc32`, `Crc32Program`, `CrcDivision` |
| Bloom filter | `Bloom` |
| intrusive list, URL queues, parser sweep | `Rings`, `Queues` |
| growable strings, splitting, arguments, configuration | `CText`, `CString`, `Split`, `Args`, `Numbers`, `Config`, `ConfigText` |
| URL splitting and normalising | `Url` |
| response header and body | `Response`, `HeaderText`, `Receiving` |

How the parts are laid out:

- **Hash map.** `HashTable` says on plain values what the buckets mean (a finite map modulo `equal`) and what each
  operation does to them; the class in `HashMap`, with entries and `next` pointers on the heap, is proved to follow
  those functions call by call. Hash and equality are the two function pointers the map is created with. For a
  `Lawful` pair `HashTableLaws` proves refinement and the load bounds. `HashTableAnyPair` proves what holds for every
  pair with hashes in range and an equivalence for equality, the default pair among them, `HashTableGrowth` how a map
  grows when unequal keys are put, `HashTableOn` exactly which sets of keys such a pair serves, `HashTableApart` which it
  never mixes up, `HostAddresses` the same for the URL parser's use of its map, and `HashTableLoss` how a map with
  another pair loses an entry.
- **Scheduler.** One state machine for the parser thread, the epoll loop, the reader threads and the holder of
  `gctn_lock`. An attach is three separate steps (pop, register with epoll, count), as in `src/epoll/epoll.c:33-81`.
  Network outcomes (does the name resolve, does the connect work, which links has the page) are step parameters.
- **CRC.** All algebra is done once over an abstract shift register; only small facts are about 32-bit words.
  `CrcDivision` connects it to polynomial long division, as section 8.1.1.6.2 of ITU-T V.42 and section 8 of
  RFC 1952 define the check sequence.
- **What is crawled.** `Discovery` follows every URL of a run through the two queues, and every link of every page
  through its reader and the filter.
- **Texts.** `ConfigText` and `HeaderText` say what configuration lines and response headers do in the words they are
  written in, names, separators and white space spelled out. A C string is a sequence of characters without NUL; a buffer is a character array, and the text in it
  ends at its first NUL.

What the proofs found out about the program:

- The default hash and equality do not fit together (`DefaultNotLawful`). They serve a set of keys in every run of a
  new map exactly when keys of the set that agree on their first four bytes share a bucket at every size the map can
  come to have with them (`DefaultServes`): at 8, and at any larger size of which the set holds half as many unequal
  keys. The URL parser wants more of its map: that a URL gets the address of its own host. It does, in every sequence
  of turns, exactly when no two names of the set agree on four bytes and on the code of their last character modulo 8
  (`DefaultByTails`), for that is all of a name that decides its bucket among eight (`RawTail`). Of the names that
  start with `www.` at most eight can be kept apart (`AtMostEight`); `www.sina.com` and `www.baidu.com` are not
  (`TwoHosts`).
  For any table, `DefaultFind` says what a lookup answers and `DefaultRehash` when a rehash merges entries.
  Growing never does (`DoublingKeeps`), shrinking keeps at least half (`HalvingKeeps`), so the load bounds hold all the
  same (`DefaultTables`); a run in which shrinking merges two entries is `DefaultRunLoses`.
- The most jobs that can be in flight at once is known exactly for every `max_job_num` (`PeakExact`):
  `max_job_num + 1` from 2 up, but 3 at 1. With 1, which `spider.conf:1` sets, a reader may finish between `epoll_ctl`
  and `g_cur_thread_num++`; the count is then negative for a moment and `end_thread` starts one job too many.
  `max_job_num + 1` is a bound exactly from 2 up (`BoundExact`), and from 0 up wherever an attach is in effect a
  single step (`SettledIsOrderly`, `BoundOrderly`). Settings below 1 never get past `init_epoll`
  (`src/epoll/epoll.c:12-22`).
- Queued URLs are always attended to, and every run that comes to an end has emptied both queues, exactly when
  `max_job_num` is at least 1, no attach fails on a nonempty queue and no error event closes a socket
  (`AttendedExact`). A single error event strands work at every setting (`StrandedByEvent`), and so do one or two
  failing attaches (`StrandedByAttach`).
- The argument scanner stops exactly on lines without quote characters (`StopsExactly`).
- A setting without a value stops the loader at its line (`EmptySettingStops`), as `seeds=` in `spider.conf:3` does: the
  settings below it are not read.
- `urlNormalized` looks one character before its buffer exactly for URLs that, once trimmed, are eight characters
  long and start with `https` (`BareExactly`). A second pass leaves its result alone exactly under the condition on
  the input that `SecondPass` gives; `NotIdempotent` is a case where it does not.
- How reads cut a response makes no difference exactly when no NUL is among the first 1023 characters of its body
  (`IndependentExactly`).

Where code and evident intention differ: `*e == NULL` in `pop_queue` (`src/url/url.c:77`) and `pop_params_queue` is
taken as the assignment; hash number 7 of the Bloom filter, whose `break` is inside a comment
(`src/bloomfilter/bloomfilter.c:57-69`), is taken to break; `cstolower` changes nothing
(`src/cstring/cstring.c:294-301`), which the case-insensitive comparison of keys makes up for.

## Model

| member | source | states |
|---|---|---|
| HashTableLaws.RunRefines | src/hash/hashmap.c:42-251 | every run of put, get, exists and remove, rehashes included, answers as the finite map does and ends in a well-formed table that means that map; the load bounds survive |
| HashTableLaws.NewMapRun | src/hash/hashmap.c:275-296 | every run from a new map keeps 8 * 2^k buckets, at least half full beyond 8, never overfull, every key in the bucket its hash names and no key twice |
| HashTableLaws.PutRefines | src/hash/hashmap.c:108-151 | put, with the growth it triggers, is put on the map and adds one to size exactly when the key was absent |
| HashTableLaws.RemoveRefines | src/hash/hashmap.c:170-225 | remove, with the shrinking it triggers, is remove on the map and takes one from size exactly when the key was present |
| HashTableLaws.PutLoad | src/hash/hashmap.c:110-118 | put keeps the two-sided load bounds |
| HashTableLaws.RemoveLoad | src/hash/hashmap.c:219-223 | remove keeps the two-sided load bounds |
| HashTableLaws.ResetPreserves | src/hash/hashmap.c:42-106 | the rebuilt table means the same map |
| HashTableLaws.ResetOk | src/hash/hashmap.c:42-106 | the rebuilt table is well formed, with n buckets and the same number of entries |
| HashTableAnyPair.RefillStep | src/hash/hashmap.c:99-118 | no put of the refill loop finds the table full, so none of them rehashes again, whatever the pair |
| HashTableLaws.SizeIsCardinality | src/hash/hashmap.c:124-148 | size counts the keys of the map: one stored entry for each, all different, each holding its value |
| HashMap.HashMap.constructor | src/hash/hashmap.c:275-296 | eight empty heads, size 0, automatic sizing on |
| HashMap.HashMap.Put | src/hash/hashmap.c:108-151 | the linked buckets become those of the specified put; terminates although it calls the rehash, which calls it |
| HashMap.HashMap.PutPlain | src/hash/hashmap.c:120-150 | overwrite in place, fill an empty head, or link directly behind the head |
| HashMap.HashMap.Get | src/hash/hashmap.c:153-163 | the value a lookup finds for a key that is present, with a lawful pair the map's value |
| HashMap.HashMap.Exists | src/hash/hashmap.c:227-251 | true exactly when a lookup finds the key, with a lawful pair exactly for the keys of the map |
| HashMap.HashMap.Remove | src/hash/hashmap.c:170-225 | the linked buckets become those of the specified remove; true exactly when a lookup finds the key |
| HashMap.HashMap.SearchOverflow | src/hash/hashmap.c:202-216 | the search behind the head stops at the first equal entry, with its predecessor, or at the end |
| HashMap.HashMap.ResetHashMap | src/hash/hashmap.c:42-106 | the linked buckets become those of the specified rehash; nothing happens below eight buckets |
| HashMap.HashMap.CopyEntries | src/hash/hashmap.c:47-61 | draining an iterator over the unchanged map fills the temporary list exactly, in iteration order |
| HashMap.HashMapIterator.Next | src/hash/hashmap.c:314-338 | call number k hands out entry number k, bucket by bucket in link order, until size entries are out; then nothing changes |
| HashChains.TakeHead | src/hash/hashmap.c:182-199 | the head's entry goes, its successor's content moves into the inline head, the rest of the chain keeps its order |
| DefaultHash.HashCode | src/hash/hashmap.c:5-22 | the result is the hash of the whole string reduced to the table size; what that hash is, the next rows say |
| DefaultHash.MixHex | src/hash/hashmap.c:12-18 | one character on numbers, digit by hexadecimal digit: digit 7 of the word taken in is xored into digit 1 and cleared, the others stay |
| DefaultHash.SignedChar | src/hash/hashmap.c:12 | a char above 0x7F is taken in as a negative number |
| DefaultHash.RawShort | src/hash/hashmap.c:5-22 | up to six ASCII characters hash to the sum of their codes, each weighing 16 times the next |
| DefaultHash.SinaRaw | src/hash/hashmap.c:5-22 | www.sina.com hashes to 0x9AEEDCD |
| DefaultKeying.EqualIs | src/hash/hashmap.c:165-168 | strings of three characters or more are equal exactly when the four bytes at their start are, terminator included |
| HashTableAnyPair.ChainOrder | src/hash/hashmap.c:120-150 | of unequal keys put into one bucket the first stays in front, behind it the latest comes first |
| DefaultKeying.DoublingKeeps | src/hash/hashmap.c:110-118 | with a hash that is one number reduced to the table size, doubling loses no entry, lawful pair or not |
| DefaultKeying.DoublingMoves | src/hash/hashmap.c:110-118 | with such a hash doubling moves each entry of bucket i to bucket i or i + n |
| HashTableAnyPair.RunTable | src/hash/hashmap.c:108-225 | for any pair in range, every run keeps each key in the bucket its hash names and no two equal keys in one bucket |
| HashTableAnyPair.FindExactly | src/hash/hashmap.c:153-163 | for any such pair a lookup answers with the entry that is equal to the key and in its bucket, and with nothing if there is none |
| HashTableAnyPair.ResetKeeps | src/hash/hashmap.c:42-106 | for any pair a rehash loses no entry exactly when no two equal entries share a bucket of the new size |
| HashTableOn.RunOn | src/hash/hashmap.c:42-251 | if equal keys of a set hash alike at every size the map can come to have with them, every run on those keys answers as the finite map does, keeps the load bounds and has only such sizes |
| HashTableOn.ServesExactly | src/hash/hashmap.c:108-296 | a pair serves a set of keys in every run of a new map exactly when equal keys of the set hash alike at 8 and at every larger size 8 * 2^k of which the set holds half as many unequal keys |
| HashTableGrowth.PutsStored | src/hash/hashmap.c:108-151 | a new map keeps one entry for each of the unequal keys put into it, whatever the hash does, and is more than half full beyond 8 buckets |
| DefaultKeying.DefaultFind | src/hash/hashmap.c:165-168 | in every table with the default pair a lookup answers with the entry that agrees on the first four bytes and shares the bucket, and with nothing if there is none |
| DefaultKeying.HalvingKeeps | src/hash/hashmap.c:219-223 | with a hash that is one number reduced to the table size, shrinking keeps at least half of the entries |
| DefaultKeying.RunLoadReduced | src/hash/hashmap.c:110-223 | with such a hash the load bounds hold in every run, lawful pair or not |
| DefaultKeying.DefaultTables | src/hash/hashmap.c:275-296 | every run of a new map with the default pair leads to a well-formed table within the load bounds |
| DefaultKeying.DefaultRehash | src/hash/hashmap.c:42-106 | with the default pair a rehash merges entries exactly when two agree on four bytes and share a bucket of the new size |
| HashTableLoss.RunLoses | src/hash/hashmap.c:108-225 | for any two equal keys apart in 16 buckets and together in 8, a run of a new map ends in a removal that takes two entries off |
| DefaultKeying.DefaultRunLoses | src/hash/hashmap.c:219-223 | such a run with the default pair: eight entries, one removed, six left |
| DefaultKeying.DefaultServes | src/hash/hashmap.c:280-281 | with the default pair every run of a new map on a set of keys answers as the finite map does exactly when keys agreeing on four bytes share a bucket at every size the map can come to have with the set |
| DefaultKeying.DefaultServesMany | src/hash/hashmap.c:280-281 | for sets that hold half as many unequal keys as some table size above all their unreduced hashes: exactly when keys agreeing on four bytes have the same unreduced hash |
| HashTableApart.TellsApartExactly | src/hash/hashmap.c:108-296 | every run of a new map on a set of keys answers as the map keyed by the keys themselves exactly when no two different keys are equal and share a bucket at 8, or at a larger size 8 * 2^k of which the set holds half as many different keys |
| HashTableApart.TwinRun | src/hash/hashmap.c:42-251 | on keys that never meet so, every run does exactly what it would do if keys were equal to themselves only |
| HashTableApart.MixedUp | src/hash/hashmap.c:108-151 | from keys that meet at such a size, the first one at which any do can be reached, and there the second put overwrites the value of the first |
| DefaultKeying.DefaultTellsApart | src/url/url.c:179-190 | with the default pair every run of a new map on a set of names keeps one value for each name exactly when no two names are confused (agree on four bytes and share a bucket) at 8 or at a larger size of which the set holds half as many names |
| HostAddresses.OwnAddressesExactly | src/url/url.c:176-194 | names that the map knows are answered by it, others resolved and put; every URL gets the address of its own host, in every sequence of turns and whatever the addresses, exactly when no two names are equal and share a bucket at 8, or at a larger size 8 * 2^k of which the set holds more than half |
| HostAddresses.LooksRight | src/url/url.c:176-194 | on such names every turn ends with the right address, and without one only if the name cannot be resolved |
| HostAddresses.SameAnswer | src/url/url.c:176-194 | of two names that meet in the table as it is, the second gets the first one's address |
| DefaultKeying.DefaultOwnAddresses | src/url/url.c:22 | the same with the default pair, which the program uses: exactly when no two names agree on four bytes and share a bucket at such a size |
| DefaultHash.RawTail | src/hash/hashmap.c:5-22 | modulo 8 the hash is the code of the last character, whatever comes before it |
| DefaultKeying.DefaultByTails | src/url/url.c:176-194 | with the default pair every URL gets its own host's address, and a map tells names apart in every run, exactly when no two names of the set agree on the first four bytes and on the last character's code modulo 8 |
| DefaultKeying.AtMostEight | src/url/url.c:176-194 | of names that agree on four bytes at most eight can be kept apart |
| DefaultKeying.TwoHosts | src/url/url.c:176-194 | for www.sina.com and www.baidu.com some sequence of turns gives a URL the other host's address |
| DefaultKeying.DefaultNotLawful | src/hash/hashmap.c:165-168 | the default pair breaks the contract: two keys that are equal hash apart |
| Scheduler.PeakAlways | src/threads/threads.c:33-49 | in every interleaving, count plus attaches owed plus the parser's pending attach is at most the peak: max_job_num + 1 from 2 up, 3 at 1, 2 at 0, 1 below |
| SchedulerRuns.PeakReached | src/threads/threads.c:33-49 | for every max_job_num a run without faults has as many jobs in flight as the peak |
| SchedulerRuns.PeakExact | src/threads/threads.c:33-49 | the bounds on jobs in flight over all reachable states are exactly the numbers from the peak up |
| Scheduler.BoundOrderly | src/threads/threads.c:33-49 | at most max(max_job_num, 0) + 1 on runs where no reader finishes before its own count |
| Scheduler.SettledIsOrderly | src/epoll/epoll.c:70-81 | runs in which readers finish only when no attach is between registration and count are such runs |
| SchedulerRuns.BoundExact | src/url/url.c:192-193 | max_job_num + 1 bounds the jobs in flight in all reachable states exactly when max_job_num is at least 2 |
| Scheduler.CountedAlways | src/epoll/epoll.c:70-142 | jobs are conserved: the count plus attaches not yet counted equals waiting, reading and lost sockets, in every reachable state |
| Scheduler.AttendedAlways | src/url/url.c:190-193 | without faults and with max_job_num >= 1, a nonempty ourl queue means a job that will still call end_thread, an attach owed or pending, or the parser between push and test |
| Scheduler.AllDone | src/epoll/epoll.c:124-129 | under the same assumptions, when no thread can take another step both queues are empty and the count is 0 |
| Scheduler.StuckIs | src/epoll/epoll.c:85-157 | nothing moves exactly when there is no such job or attach, nothing to resolve and the lock is free |
| SchedulerRuns.AttendedExact | src/threads/threads.c:33-49 | every reachable state is attended, and no run ends with a queued URL, exactly when max_job_num >= 1, no attach fails on a nonempty queue and no error event occurs |
| SchedulerRuns.StrandedByEvent | src/epoll/epoll.c:136-142 | for every max_job_num one error event can leave a queued URL that no thread will ever look at |
| SchedulerRuns.StrandedByAttach | src/epoll/epoll.c:41-57 | for every max_job_num failing attaches can leave a queued URL that no thread will ever look at |
| Threads.Shared.AttachEpollTask | src/epoll/epoll.c:24-83 | pops, registers and counts as the scheduler's attach steps do; returns 0 exactly when there was a URL and the connect worked |
| Threads.Shared.EndThread | src/threads/threads.c:33-49 | lowers the count and starts none, one or two successors: the run of the scheduler's finish and attach steps |
| Threads.EndThreadRestarts | src/threads/threads.c:36-46 | undisturbed and with working connects it takes that many URLs off the queue and never raises the count above max_job_num |
| Crawl.DiscoveryBounded | src/url/url.c:308-318 | every run enqueues at most 32,000,000 discovered URLs and none twice; each turned an unset filter bit on |
| Discovery.SurlIs | src/url/url.c:308-318 | in every run the queue to resolve holds what it held at first and every URL discovered, in order, less one for each lookup |
| Discovery.OurlIs | src/url/url.c:158-194 | the queue to fetch holds the URLs that were resolved, in order, less one for each connection begun |
| Discovery.PagesAre | src/epoll/epoll.c:70-142 | every socket registered waits, was lost or had one page served |
| Discovery.ReadersTake | src/url/url.c:268-323 | each page served has one reader, which takes the page's links and no others, in order, all of them before it finishes |
| Discovery.FoundIs | src/url/url.c:308-318 | discovery is one pass of the filter over the links taken: exactly those reported as new are enqueued, and the filter holds what was searched |
| Discovery.LinksSeen | src/url/url.c:308-318 | every link taken tests as seen ever after, and the filter holds the bits of the discovered URLs and no others |
| Discovery.CrawlComplete | src/epoll/epoll.c:85-157 | when a run without faults has come to its end, every URL queued or discovered was looked up, every resolved one was fetched, and every link on the pages tests as seen |
| Crawl.MeasureFalls | src/url/url.c:268-324 | every step lowers (unset bits, work left per stage, links left) lexicographically |
| Crawl.CrawlTerminates | src/epoll/epoll.c:85-157 | there is no infinite run, however many pages the web has |
| Crc32Program.Table.InitTable | src/crc32/crc32.c:10-24 | fills all 256 entries, each eight shift/xor steps of its index |
| Crc32Program.Table.Crc32 | src/crc32/crc32.c:27-39 | the table loop computes the checksum of the buffer, filling the table on first use |
| Crc32.TableStep | src/crc32/crc32.c:35-36 | one table lookup does the work of eight shift/xor steps |
| Crc32.StepLinear | src/crc32/crc32.c:17-20 | a step of a sum is the sum of the steps |
| Crc32.StepInjective | src/crc32/crc32.c:17-20 | a step can be undone |
| Crc32.CrcIsBitSerial | src/crc32/crc32.c:27-39 | byte-wise table processing equals bit-serial processing of all bits from 0xFFFFFFFF, complemented |
| Crc32.BurstDetected | src/crc32/crc32.c:27-39 | messages that differ, and only inside 32 consecutive bits, have different checksums |
| Crc32.CrcOfSum | src/crc32/crc32.c:27-39 | the checksum of the xor of three equally long messages is the xor of their checksums |
| CrcDivision.CrcIsRemainder | src/crc32/crc32.c:27-39 | the checksum's bits are the inverted remainder of polynomial long division |
| CrcDivision.FeedingDivides | src/crc32/crc32.c:14-23 | from any register, feeding bits is long division of the message followed by 32 zeros |
| CrcDivision.ChecksumOfChecked | src/crc32/crc32.c:27-39 | a message followed by its own checksum, little-endian, always has the checksum 0x2144DF1C |
| CrcDivision.CheckValue | src/crc32/crc32.c:27-39 | the digits 1 to 9 have the checksum 0xCBF43926 |
| Bloom.Filter.Search | src/bloomfilter/bloomfilter.c:74-95 | true exactly when all eight bits were on before the call, even if positions coincide; afterwards those are on and no others changed |
| Bloom.Filter.TestAndSet | src/bloomfilter/bloomfilter.c:83-91 | one bit of the packed table tested and set, within bounds |
| Bloom.SeenExactly | src/bloomfilter/bloomfilter.c:74-95 | after any searches of an empty filter a URL tests as seen exactly when each of its eight hashes agrees modulo 32,000,000 with one of the eight hashes of some URL searched |
| Bloom.HistoryIsUnion | src/bloomfilter/bloomfilter.c:74-95 | after any calls the table holds the union of the bits of all URLs searched |
| Bloom.SeenForEver | src/bloomfilter/bloomfilter.c:74-95 | a URL searched once is reported seen ever after |
| Bloom.NewUrlGrows | src/bloomfilter/bloomfilter.c:87-90 | a URL reported new turns at least one more bit on |
| Rings.InitListHead | src/include/list.h:78-82 | a head alone is a ring |
| Rings.ListAddBetween | src/include/list.h:85-93 | the new node is on the ring between the two |
| Rings.ListAdd | src/include/list.h:95-98 | the new node comes first |
| Rings.ListAddTail | src/include/list.h:101-104 | the new node comes last |
| Rings.ListDel | src/include/list.h:128-133 | the ring is closed without the node, whose pointers are cleared |
| Rings.ListReplace | src/include/list.h:142-148 | the new node stands in the old one's place |
| Rings.ListMove | src/include/list.h:157-161 | the node leaves its ring and comes first on the other one or its own; both stay rings |
| Rings.ListMoveTail | src/include/list.h:163-167 | likewise, to the end |
| Rings.NextPrevInverse | src/include/list.h:85-148 | around a ring next and prev undo each other |
| Queues.Queue.Push | src/url/url.c:56-66 | appends, and bufSize stays the length of the ring |
| Queues.Queue.Pop | src/url/url.c:70-87 | takes the oldest element off, or nothing when empty |
| Queues.Queue.IsEmpty | src/url/url.c:89-99 | bufSize is 0 exactly when the ring holds no element |
| Queues.Sweep | src/url/url.c:158-196 | the safe iteration that deletes as it goes visits each element once in order, empties the queue, and queues the resolved URLs in the same order |
| CString.AmortisedAppend | src/cstring/cstring.c:38-98 | for any appends to an empty string that stay below 1 MiB, all capacity ever recopied fits the current capacity, which is at most twice the length |
| CString.SpareRoom | src/cstring/cstring.c:52-57 | spare room never exceeds the length or 1 MiB |
| CString.RoomToSpare | src/cstring/cstring.c:38-57 | making room leaves a character to spare |
| CString.CStr.MakeRoomFor | src/cstring/cstring.c:38-70 | room for the addition, the text kept, capacity as the growth rule says |
| CString.CStr.Append | src/cstring/cstring.c:78-98 | the text is followed by the new one, terminator in bounds, len + free is the capacity |
| CString.CStr.Trim | src/cstring/cstring.c:165-192 | the text is trimmed in place on both sides, the room gained is free |
| CString.TrimmedIsCore | src/cstring/cstring.c:175-178 | only trimmed characters were cut, and none is left at either end |
| Splitting.SplitLen | src/cstring/cstring.c:106-163 | yields the tokens; NULL exactly for an empty separator; the slot array, five and then doubled, is never overrun |
| Splits.PiecesUnique | src/cstring/cstring.c:127-152 | for every separator the pieces are the one list of tokens that joins to the string and that no separator cuts |
| Splits.JoinOfTokens | src/cstring/cstring.c:127-152 | joining the tokens with the separator gives the string back |
| Splits.NoTokenContains | src/cstring/cstring.c:127-152 | no token contains the separator |
| Splits.TokensOfJoin | src/cstring/cstring.c:121-152 | splitting a join at a one-character separator returns the tokens; only the single empty token is lost |
| Splits.PiecesConcat | src/cstring/cstring.c:127-152 | two texts with the separator character between them are split side by side |
| ArgScanning.SplitArgs | src/cstring/cstring.c:194-276 | on lines without quotes the nested loops end with the arguments of the line |
| Args.StopsExactly | src/cstring/cstring.c:219-246 | the scanner reaches its end exactly on lines without quote characters, and then holds the arguments |
| Args.RoundTrip | src/cstring/cstring.c:203-268 | the scanner stops on arguments joined with '=' and returns them exactly when none holds a delimiter or quote or starts with a space and the last is not empty |
| Args.LastEmpty | src/cstring/cstring.c:246-260 | a trailing empty argument is lost |
| Numbers.AtoiDecimal | src/url/url.c:128 | reading a printed number gives the number, whatever text follows |
| Numbers.DecimalIs | src/url/url.c:128 | the numbers meant are printed in decimal, the last digit behind the number without it |
| Numbers.AtoiSigned | src/config/config.c:124 | white space in front is skipped and one sign is read |
| Configs.LoadAppend | src/config/config.c:78-166 | loading a, line break, b is loading a and then b from the result, line numbers included; an error or endless line in a ends it |
| Configs.LoadedMakes | src/config/config.c:117-151 | for each key, after a complete load: modules and accepted types hold all values in order, scalars the last one, others what they had |
| Configs.ReadSetting | src/config/config.c:87-151 | a line name=value reads as that directive, names without regard to case, or as unknown; with an empty value it is refused as no key=value |
| Configs.EmptySettingStops | src/config/config.c:87-151 | a line name= ends the loading there, with what the lines before it set |
| ConfigTexts.TwoWords | src/cstring/cstring.c:202-250 | a name, one of '=', tab, CR, LF, white space and a value are cut into the two words; spaces inside them stay |
| ConfigTexts.ReadWords | src/config/config.c:94-157 | so they read as that setting, with tabs and line ends around them or not |
| ConfigTexts.NumberSettings | src/config/config.c:123-145 | max_job_num, log_level, max_depth, stat_interval, letters in either case, set their number and nothing else |
| ConfigTexts.TextSettings | src/config/config.c:125-134 | logfile, include_prefixes, exclude_prefixes, seeds, module_path set their text and nothing else |
| ConfigTexts.ListSettings | src/config/config.c:135-152 | load_module and accept_types add an element to their list |
| ConfigTexts.FlagSettings | src/config/config.c:146-147 | make_hostdir is 1 for yes, 0 for no, in either case, and -1 for anything else |
| ConfigTexts.OtherSettings | src/config/config.c:153-156 | any other name stops the loader as unknown |
| ConfigTexts.CommentSkipped | src/config/config.c:94-97 | a line whose first character but tabs and line ends is '#' changes nothing, whatever is in it |
| ConfigTexts.WhiteSkipped | src/config/config.c:94-116 | nor does a line of white space |
| ConfigTexts.QuoteHangs | src/cstring/cstring.c:217-250 | a quote of either kind in any other line keeps the loader for ever |
| ConfigTexts.NotTwoWords | src/config/config.c:158-162 | one word, or more than two, stop it as no key=value |
| Configs.LoadJoined | src/config/config.c:85-87 | a text joined from lines is loaded line by line |
| ConfigLoading.SpiderConfig.constructor | src/config/config.c:60-75 | the initial settings |
| ConfigLoading.SpiderConfig.SetKey | src/config/config.c:119-150 | one setting changes as its key says, all others stay |
| ConfigLoading.SpiderConfig.LoadLine | src/config/config.c:87-157 | comments and blank lines change nothing, a directive sets its key, anything else is refused without a change |
| ConfigLoading.SpiderConfig.LoadFromString | src/config/config.c:78-172 | settings and complaint, with its line number, are those of the text's meaning |
| UrlParsing.Surl2Ourl | src/url/url.c:101-138 | the two in-place cuts leave domain and path as texts in one buffer, and the port |
| Urls.RoundTrip | src/url/url.c:109-133 | for ports that fit an int, domain:port/path comes apart into its parts exactly when the domain holds neither mark and the port is not 0 |
| Urls.Defaults | src/url/url.c:110-133 | port 80 when absent, empty path without a '/' |
| UrlParsing.UrlNormalized | src/url/url.c:221-263 | the buffer is normalised in place; refused exactly when it is blank or more than MAX_LINK_LEN characters are left; the character before the buffer is changed exactly if it is a '/' and nothing follows the scheme |
| Urls.BareExactly | src/url/url.c:239-255 | nothing is left behind the scheme exactly for trimmed links of eight characters that start with https |
| Urls.SameLink | src/url/url.c:228-263 | u with or without http:// or https://, a closing '/' and trailing spaces is normalised to u |
| Urls.FixedPoints | src/url/url.c:228-263 | exactly which links normalising leaves alone |
| Urls.SecondPass | src/url/url.c:221-263 | normalising the result again changes nothing exactly when something other than one '/' follows the scheme, a closing '/' follows neither another one nor a space, and what is left does not look like a scheme again |
| Urls.NotIdempotent | src/url/url.c:255-256 | a link that a second pass changes again |
| Receiving.Response.Receive | src/socket/socket.c:167-231 | header, body and ending are those the reads fold to, for all bytes and any reads that fit the buffer |
| Receiving.Response.Take | src/socket/socket.c:201-228 | one more read takes the buffer one step of that fold further |
| Receiving.Response.CutHeader | src/socket/socket.c:205-210 | parse_header gets the bytes up to and including the line end before the blank line, and the body bytes stay untouched |
| Receiving.Response.Shift | src/socket/socket.c:216-224 | the overlapping front-to-back move brings the body to the front as far as its first NUL |
| Receiving.ParseHeader | src/socket/socket.c:107-144 | cutting lines in place yields the header the text spells and changes nothing behind it |
| HeaderTexts.HeaderStatus | src/socket/socket.c:115-128 | a first line of three words, a space between each, gives the number in the second; any other number of words gives 600 |
| HeaderTexts.HeaderType | src/socket/socket.c:130-142 | the content type is the value, without tabs and line ends around it, of the last line name:value whose name reads content-type in either case |
| HeaderTexts.HeaderNoType | src/socket/socket.c:130-142 | without such a line there is none; other lines change nothing |
| HeaderTexts.HeaderBare | src/socket/socket.c:107-144 | a text without a line end is no header |
| Responses.StreamEnds | src/socket/socket.c:167-200 | what came before the end of the stream or an error counts, and nothing after it |
| Chunking.FoldedIs | src/socket/socket.c:167-231 | reads of at most n bytes lead where the whole stream leads unless a NUL is among the first n - 1 characters of the body; so streams without NUL do however they are cut |
| Chunking.FoldedBytewise | src/socket/socket.c:167-231 | in reads of one byte every stream leads where it leads as a whole |
| Chunking.IndependentExactly | src/socket/socket.c:169-231 | the outcome is the same for all ways of cutting the stream into reads of up to 1024 bytes exactly when no NUL is among the first 1023 characters of the body |
| Responses.ShortFits | src/socket/socket.c:155-202 | a stream shorter than the buffer fits it with its terminator, however it is read |
| Responses.OutcomeParts | src/socket/socket.c:205-224 | a stream taken apart at its first blank line has that header text and exactly the bytes after it as body, unless a NUL comes first, which hides it |
| Responses.OutcomeSplits | src/socket/socket.c:205-224 | whenever a header is found the stream comes apart so |
| Responses.OutcomeGrows | src/socket/socket.c:201-228 | after the header more data only lengthens the body, and a refusal stays |

## Left out

- HashMap.HashMap.ResetHashMap: the chain clearing at src/hash/hashmap.c:65-79 is modelled as dropping the chains; freeing memory, failing allocation and the `realloc` fallback are not modelled, nor is `int` overflow of the sizes.
- HashMap.HashMap.Get: asks for a key that a lookup finds, because the source dereferences NULL for an absent one.
- HashMap.HashMap.constructor: asks for hashes in range and an equivalence for equality, without which the source reads outside its buckets or depends on the order of its comparisons.
- DefaultKeying.DefaultFind: for keys of fewer than three characters the source compares bytes behind the terminator; the model compares the keys themselves.
- HostAddresses.OwnAddressesExactly: a name has one address for the whole run, and the callback of a lookup has run before the next turn, as `event_dispatch` sees to.
- `defaultClear` frees inline heads and leaves the map unusable; no amortised cost is claimed for the map.
- Crawl.CrawlTerminates: speaks of steps that change the model's state; idle polling and the exit test of `epoll_proc` are not steps, since a popped URL is not counted while it connects.
- Scheduler.AttendedAlways: claims no wake-up, because the queue's condition is signalled without its mutex and only at length 1. A reader that never starts or dies before `end_thread` has the effect of an error event.
- Threads.Shared.EndThread: is the undisturbed run of one lock holder; interleavings with the other threads are the scheduler's business.
- Bloom.Filter.Search: the eight string hashes are arbitrary functions from URLs to 32-bit numbers.
- Queues.Sweep: whether a visit resolves its host is a parameter; mutexes are left to the scheduler. The zero test and the attach after a push are scheduler steps too.
- CString.CStr.Append: allocation failure and `size_t` overflow are not modelled.
- ArgScanning.SplitArgs: asks for a line without quotes, since the quoted states are unfinished in the source; `StopsExactly` shows that is exactly when it ends.
- Numbers.AtoiDecimal: numbers are unbounded; where `atoi` overflows an `int` C leaves the result undefined.
- ConfigLoading.SpiderConfig.LoadFromString: asks that no line reached by loading hangs the argument scanner; the parameter queues are sequences here, as the list itself is proved in `Rings`; file reading in `loadConfig` is not modelled.
- UrlParsing.Surl2Ourl: a NULL argument and the copied `level` are not modelled.
- UrlParsing.UrlNormalized: the character before the buffer is a parameter, since C leaves reading it undefined; what a refused buffer holds is not stated.
- Receiving.Response.Receive: asks for reads that fit the buffer, which the source does not check; post-header modules are one predicate on the header. A stream that ends without a blank line leaves no header, and the source then dereferences it when cleaning up.
- Regular expressions, link attachment, `url2fn`, `is_bin_url`, DNS, sockets, `dlopen`, logging and daemonising are foreign calls or thin code.
- Depth limiting: no code in the repository walks the pre-URL module list.

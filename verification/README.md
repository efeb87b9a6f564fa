# Verified models of the stack's hard parts

These Dafny modules model the parts of the AmiTCP_NG network stack whose correctness is hardest to
see from the code, and prove what they promise: the Internet checksum over fragmented buffers, DNS
wire names and the answer parser, the DNS cache, descriptor tables and socket sharing, the
WaitSelect wait and wakeup protocol, the DHCP exchange, and the life of library bases.
`dafny verify dfyconfig.toml` checks everything.

| module | models |
|---|---|
| `Checksum` | `docker/bench/cksumbench.c`: the portable checksum, the flat reference, the chain builder |
| `Names`, `Expand`, `Compress`, `RoundTrip`, `NameMeaning` | `src/api/res_comp.c`: names as text, labels and octets; reading, skipping, writing and searching them, and what they mean by RFC 1035 |
| `Answer`, `Responses` | `src/api/gethostnamadr.c`: `getanswer` for forward queries, `makehostent`, and what a response laid out by RFC 1035 yields |
| `DnsCache` | `src/api/dns_cache.c` |
| `Bitmap`, `DescriptorTable` | the usage bitmap, `sdFind`, `getLastSockFd`, `setdtablesize` |
| `ReleaseIds`, `SocketRefs`, `SocketCalls` | socket reference counts across tables and the released list, and the vectors that change them |
| `SelectChains`, `WaitSelect` | the select item chains as memory cells, and one `WaitSelect` call against events |
| `DhcpOptions`, `DhcpExchange`, `DhcpRuns`, `DhcpMeaning` | `src/api/amiga_roadshow_compat.c`: options, the exchange, what its runs can and cannot do, and what datagrams mean by RFC 2131 and RFC 2132 |
| `Lifecycle` | `src/api/amiga_api.c`: open, close, shared close, abandon; reclamation of descriptor tables under running scans |

Code that works in place is imperative here too: `array`s for buffers, tables, bitmaps and slots, classes for
objects that are updated, loops where the C has loops. Concurrency is a state machine whose
steps are what runs without another task in between (Forbid, the semaphores and splnet make
steps atomic); a vector that can sleep is cut at the sleep. Memory exhaustion, the link library's
callback, the clock, received datagrams and new addresses are parameters.

What the code is specified by is in turn tied to definitions that share nothing with it: the checksum to the sum of
16-bit words (`Checksum.ChecksumCompletes`), names to octets and text as the standards lay them out
(`NameMeaning.AcceptedExactly`, `NameMeaning.ParsedExactly`), compression to the shortest form there is
(`Compress.SizeIsLeast`), responses and replies to their octets (`Responses.ReadResponse`, `DhcpMeaning.ReplyMeans`), the
DHCP exchange to the kinds of the replies (`DhcpMeaning.LeaseExactly`), the select chains to the lists that following the
pointers gives, and the state machines to what holds over their runs.

## Results where the code falls short

Each is stated as an exact condition or with a concrete input; the code is modelled as it is.

- A name survives `dn_comp` and `dn_expand` unchanged if and only if every backslash in it escapes a
  dot and no unescaped dot ends it (`Names.TextRoundTrip`). Labels printed by `dn_expand` are read back
  as they were if and only if none contains a backslash or a NUL (`Names.LabelRoundTrip`): only dots are
  escaped, and a NUL cuts the text short (`Names.NulCutsLabel`).
- A compression pointer leads back to its offset if and only if the offset is below 2^14; `dn_comp` does not
  check. It succeeds with a wrong pointer if and only if the entry it points at lies beyond (`Compress.Composed`, in the
  contract of `Compress.DnComp`).
- `dn_find` finds what is written if and only if the text ends neither in a lone backslash nor in an empty label;
  `dn_comp` drops both ends and `dn_find` does not (`Compress.DnFind`, `Compress.DottedEndIsNotFound`).
- `dn_comp` restores the pointer list on every failure but one: when it runs out of room for a
  pointer after having saved entries; when that is, is exact for every text (`Compress.Failed`). The comment at
  `src/api/res_comp.c:264` says that `..` is not accepted; a name that ends in two dots is.
- `dn_expand` rejects some finite names, because octets passed, not pointers followed, are counted
  against the message length (`Expand.BudgetRejectsSomeFiniteNames`; the exact condition is `Expand.Accepted`).
- A resize keeps the descriptor table if and only if it is not a shrink to exactly the highest used descriptor
  (`DescriptorTable.ResizePreserves`). A search leaves usage bits past the end of the table if and only if the link library
  refuses the descriptor just beyond the end too (`DescriptorTable.SearchStray`), after which any shrink reads past the old
  pointers (`DescriptorTable.OverreadExactly`, `DescriptorTable.RefusalsLeaveStrayBits`).
- `so_refcnt` is a `short`. Apart from resizes that read past the old pointers, steps keep the counts right if and only if they
  take no reference beyond 32767 and no resize loses a socket (`SocketRefs.StepKeepsInv`); a run of safe steps
  gets there (`SocketRefs.CountReaches`), and two copies beyond it, one close is enough to start `soclose` on a socket that
  is still referenced (`SocketRefs.OverflowClosesEarly`).
- A `Dup2Socket` that slept does not check that its target is still inside the table. If the target was the highest used
  descriptor, a shrink to it during the sleep puts it outside (`SocketCalls.ResizeDuringDup2`, and the outcome
  `overran` of `SocketCalls.SocketLayer.Dup2Finish`).
- A scan uses the sockets it finds without a reference. Who keeps a descriptor, neither closing nor releasing it, can count on
  a socket through everything the others do if and only if that descriptor names it (`SocketRefs.SnapshotSocketLives`);
  a table replaced meanwhile can go on naming a socket that is freed (`SocketRefs.SnapshotOutlivesSocket`).
- `unselect` writes no back pointers. Those left are right if and only if the items it took out were the oldest of their
  chains (`SelectChains.BackRest`); with a single waiting select buffer they always are. When a second buffer leaves
  after that, it leaves one of its own items on a chain if and only if the item right above it was the first buffer's
  (`SelectChains.SelectMemory.UnselectTwo`, with a memory where it happens in `SelectChains.LeavingFromAboveBreaksBack`).
- The cache's signed clock test is right if and only if the whole periods of 2^31 seconds between the times are even
  in number, odd for an earlier time (`DnsCache.SignedTestExactly`), so within one period. A dead entry that stays in its
  slot is served again exactly in the odd periods after its death (`DnsCache.DeadEntryRevives`).
- The DHCP server identifier of a lease is the accepted offer's if and only if that offer carries one; otherwise it is
  the one left from an earlier offer (`DhcpRuns.LeaseServer`), and `DhcpRuns.StaleServer` is a run that ends so. It is read
  without a look at its length: it depends on memory behind the receive buffer if and only if the option's value lies fewer
  than four octets before the buffer's end (`DhcpRuns.ServerDependsOnMemory`, with such an offer in `DhcpRuns.ServerFromMemory`). So is the message type:
  it depends on that memory if and only if its option lies without a value at the very end of the buffer
  (`DhcpRuns.TypeDependsOnMemory`, `DhcpRuns.TypeFromMemory`).
- The result of sending is not looked at. A lease's request was transmitted if and only if a send succeeds at the turn
  after the offer's or a twentieth one from there, up to the acknowledgement's (`DhcpRuns.TransmittedExactly`); `DhcpRuns.StaleServer`
  ends with a lease although none does.

## Model

| member | source | states |
|---|---|---|
| Checksum.RefCksum | docker/bench/cksumbench.c:63-74 | The flat reference returns the RFC 1071 checksum of the bytes: the complement of the one's complement sum of its big-endian words |
| Checksum.CksumC | docker/bench/cksumbench.c:79-135 | On every chain of pieces, empty ones and odd or even addresses included, and every length, the result is the checksum of the first len bytes of the concatenation; the sum, a `u32`, never wraps |
| Checksum.ChecksumCompletes | docker/bench/cksumbench.c:63-74 | For every input, of odd length too: checksum and plain sum of its 16-bit words, high octet first and an odd last one padded, add up to a multiple of 65535, and the checksum is 65535 only if all words are 0 |
| Checksum.FoldAdd | docker/bench/cksumbench.c:77-78 | Carries may be added back at any time: folding early does not change the final sum |
| Checksum.ByteSumSwap | docker/bench/cksumbench.c:100-105 | Bytes summed in the opposite positions give the sum shifted by eight bits (byte-order independence) |
| Checksum.EqvTwoShifts | docker/bench/cksumbench.c:122-125 | Shifting by eight and, with the rest summed, by eight again restores the sum modulo 65535 |
| Checksum.AddPiece | docker/bench/cksumbench.c:88-128 | One turn of the outer loop: from the state between two pieces for the bytes so far to that for the bytes so far and this piece's |
| Checksum.AddPlainRun | docker/bench/cksumbench.c:106-127 | A run at an even address adds the run's bytes, leaving an odd last byte pending |
| Checksum.AddSwappedRun | docker/bench/cksumbench.c:100-125 | A run at an odd address, summed byte-swapped between two shifts, adds the run's bytes, pending byte and all |
| Checksum.BuildChain | docker/bench/cksumbench.c:150-165 | Whatever the cut points, the pieces concatenate to the buffer (a prefix of it beyond 63 pieces) and carry the right address parity |
| Checksum.CheckCase | docker/bench/cksumbench.c:62-165 | The comparison the harness makes on each case always finds both routines equal |
| Checksum.ChecksumVerifies | docker/bench/cksumbench.c:63-74 | Bytes of even number with their checksum appended check to zero |
| Expand.DnExpand | src/api/res_comp.c:104-197 | Succeeds exactly on the names that following labels and pointers decodes within the budget and whose text and NUL fit; then prints that text, returns the octets the name occupies, and in all cases writes only inside the given buffer and terminates |
| Expand.CopyLabel | src/api/res_comp.c:141-153 | A label is copied exactly when it is inside the message and its escaped text fits, and then the output is that text |
| Expand.PutChar | src/api/res_comp.c:147-152 | One character, escaped if it is a dot, is written exactly when it leaves room for the rest of the label |
| Expand.FollowPointer | src/api/res_comp.c:156-177 | A pointer is followed with the meaning of the whole name unchanged and the budget strictly spent; if not, no name is accepted |
| Expand.FollowLabel | src/api/res_comp.c:135-154 | A label is appended with the meaning of the whole name unchanged; if it is not, the name is not accepted |
| Expand.DnSkipname | src/api/res_comp.c:288-311 | Returns the octets a name occupies where it stands, or -1 at an illegal length octet |
| Expand.NameHasLength | src/api/res_comp.c:288-311 | Where dn_expand can decode a name, __dn_skipname passes it, inside the message; dn_expand's contract returns the same length |
| Expand.AcceptedForAnyHops | src/api/res_comp.c:169-176 | The loop budget is the only bound: any number of pointers that ends within it gives the same name |
| Expand.BudgetRejectsSomeFiniteNames | src/api/res_comp.c:169-176 | A finite name that the budget rejects |
| NameMeaning.AcceptedExactly | src/api/res_comp.c:104-197 | dn_expand accepts exactly the names spelt so in the message whose text fits and up to whose last pointer fewer octets are passed than the message has, and prints their text |
| NameMeaning.SpeltIsDecoded | src/api/res_comp.c:128-187 | Labels after their lengths, two-octet pointers and a final zero, standing in the message by section 4.1.4 of RFC 1035, are read as those labels over the octets up to the first pointer |
| NameMeaning.RenderIsDotted | src/api/res_comp.c:135-153 | The text printed is the labels with a dot between each two and a backslash before each dot in them |
| NameMeaning.ParsedExactly | src/api/res_comp.c:211-283 | dn_comp takes exactly the text that is labels of 1 to 63 plain or escaped characters with a dot between each two, up to the endings it drops, as those labels; dn_find can look for it exactly if it ends in nothing or one dot |
| Names.TextRoundTrip | src/api/res_comp.c:211-283 | The text of the labels parsed from a name is that name if and only if the name is canonical |
| Names.LabelRoundTrip | src/api/res_comp.c:141-262 | Labels printed by dn_expand are read back by dn_comp, which reads a C string, if and only if none contains a backslash or a NUL |
| Names.NulCutsLabel | src/api/res_comp.c:141-262 | Of a label with a NUL inside only what comes before it is read back |
| Compress.DnFind | src/api/res_comp.c:319-362 | Terminates on a well-formed list and returns the first entry that spells the remaining suffix; -1 exactly when none does or the text ends in a lone backslash or an empty label |
| Compress.FirstIsFirst | src/api/res_comp.c:319-362 | No entry before the one that dn_find returns spells the suffix |
| Compress.MatchEntry | src/api/res_comp.c:327-359 | One entry matches exactly when the name written there, through its pointers, spells the rest of the text and that ends as the search reads it |
| Compress.DnComp | src/api/res_comp.c:211-283 | Success: the size is that of pointing at the longest listed suffix, and if the entry pointed at is below 2^14 the octets written decode to the labels of the text and the list stays well formed, and otherwise the pointer leads to the entry's low 14 bits; one entry is saved for each label written, while there is space. Failure: the text has no labels or that size does not fit, and the list is as before but exactly when the pointer runs out of room after entries were saved |
| Compress.SizeIsLeast | src/api/res_comp.c:211-283 | The size of a compressed name is the least of writing it in full and of writing a beginning of it and a pointer to any entry that spells the rest |
| Compress.AddedEntries | src/api/res_comp.c:241-246 | The entries a success has added say where its first labels begin; for text that ends tidily they are all that were written, as far as the array has space |
| Compress.DottedEndIsNotFound | src/api/res_comp.c:344-358 | A text ending in two dots parses as a label that dn_find then cannot find |
| Compress.CanonicalIsSearchable | src/api/res_comp.c:319-362 | Canonical text always ends as the search reads it, so it is compressed as far as the entries allow |
| Compress.WrittenIsFound | src/api/res_comp.c:169-176 | A name that dn_comp wrote passes fewer octets than the message has, so dn_expand's budget never rejects it |
| Compress.WrittenFrame | src/api/res_comp.c:223-246 | Writing elsewhere or later in the message keeps every listed name |
| Compress.PointerRoundTrip | src/api/res_comp.c:237-238 | The two octets of a pointer lead back to its offset if and only if the offset is below 2^14 |
| RoundTrip.NameRoundTrip | src/api/res_comp.c:104-283 | dn_expand accepts what dn_comp wrote, its pointer being in reach, in any buffer that holds the text, over the same octets, and prints the very text given if and only if it was canonical |
| RoundTrip.CompressThenExpand | src/api/res_comp.c:104-283 | Written and expanded again, a canonical name whose pointer is in reach comes back unchanged and over the number of octets dn_comp reported |
| RoundTrip.WrittenShortest | src/api/res_comp.c:211-283 | What dn_comp writes is no longer than the name in full or any beginning of it with a pointer to an entry for the rest |
| RoundTrip.RefusedDoesNotFit | src/api/res_comp.c:211-283 | A name that parses is refused only if neither it nor any beginning of it with a pointer to an entry for the rest fits |
| RoundTrip.CompressTwice | src/api/res_comp.c:211-283 | A name written a second time takes two octets, given space to have saved it and a place that a pointer can reach |
| Answer.GetAnswer | src/api/gethostnamadr.c:200-455 | For every message of at least header size: the records walked are consecutive and inside the message, writes stay in the buffer, the addresses are in order the first 34 four-octet A records of the first one's class, the aliases the first 34 CNAME owners, the TTL the least of all records walked, and the reason the walk ended is exact |
| Responses.WalksAll | src/api/gethostnamadr.c:280-446 | Where every record fits, nothing stops the walk before the last one |
| Responses.QuestionsRead | src/api/gethostnamadr.c:233-268 | Questions laid out one after the other are passed to where the answers start |
| Responses.RecordReads | src/api/gethostnamadr.c:296-328 | A record whose name, kind, class, time to live, length and data stand in the message, high octets first, is read as just that |
| Responses.ReadResponse | src/api/gethostnamadr.c:200-455 | A response laid out octet by octet whose names and addresses fit the 512 octets: all its records are walked; an answer is found exactly if one is a four-octet A record; aliases, addresses, name and least time to live are those of the records, in order |
| Answer.ReadRecord | src/api/gethostnamadr.c:296-328 | Reads a name and fixed fields only where they are inside the message, and says why it stops |
| Answer.TakeRecord | src/api/gethostnamadr.c:330-442 | One record changes the entry by exactly what that record adds, or there is no room for its address |
| Answer.SkipQuestions | src/api/gethostnamadr.c:233-268 | The answers start after as many questions as the header counts, a malformed one passing three octets |
| Answer.MinTtlIsLeast | src/api/gethostnamadr.c:316-319 | The time to live is the least of the records' and one of them has it |
| Answer.CommitName | src/api/gethostnamadr.c:336-338 | Committing a name keeps exactly its C string, which an embedded NUL cuts short |
| Answer.MakeHostent | src/api/gethostnamadr.c:684-724 | The relocated copy holds the same strings and addresses at the relocated pointers |
| DnsCache.NameIeq | src/api/dns_cache.c:56-68 | A stored lowercase name matches exactly the names that equal it when lowercased |
| DnsCache.LowerExactly | src/api/dns_cache.c:56-84 | Two names have the same lowercase form exactly if only the case of letters tells them apart |
| DnsCache.SignedTestExactly | src/api/dns_cache.c:125-125 | The signed 32-bit test agrees with the real order of times exactly when the half-turns of the clock between them are even in number (odd for an earlier time), so within 2^31 seconds |
| DnsCache.DeadEntryRevives | src/api/dns_cache.c:125-125 | An entry that stays in its slot after it died reads as live exactly in the odd periods of 2^31 seconds since |
| DnsCache.Cache.EntFind | src/api/dns_cache.c:118-133 | At any time, finds the one slot of the key's entry if it reads as live, and removes one that reads as expired |
| DnsCache.Cache.PickSlot | src/api/dns_cache.c:99-114 | Picks the first slot that is empty or expired, else the first of those that die first (the comment speaks of empty slots before expired ones) |
| DnsCache.Cache.Store | src/api/dns_cache.c:257-298 | The map gains the entry, keeps at most one slot per key, and loses at most one other key, which had expired or dies first of a full live table, and none if the key was live |
| DnsCache.Cache.Put | src/api/dns_cache.c:229-272 | As Store, with the clamped lifetime; a response of bad size, no room or a disabled cache changes nothing |
| DnsCache.Cache.PutNegative | src/api/dns_cache.c:274-301 | As Store, with the negative lifetime |
| DnsCache.Cache.Get | src/api/dns_cache.c:188-227 | At any time, answers exactly when the map has an entry for the key that reads as live; the answer is the last one written for the key since the last flush and, within 2^31 seconds of its expiry, within its lifetime |
| DnsCache.Cache.Flush | src/api/dns_cache.c:174-186 | Empties every slot and the map |
| DnsCache.PutThenGet | src/api/dns_cache.c:188-272 | A response is served under its name in any case for its time to live, taken to be between 30 and 3600 seconds, and within 2^31 seconds not after |
| DnsCache.PutNegativeThenGet | src/api/dns_cache.c:188-301 | A name not found is served as that for 30 seconds, under its name in any case, and within 2^31 seconds not after |
| DnsCache.StoreAt | src/api/dns_cache.c:257-267 | Writing a free slot with a new key keeps slots and map in agreement, one slot per key |
| DnsCache.ClearAt | src/api/dns_cache.c:85-94 | Clearing a slot removes exactly its key |
| DnsCache.RoomMade | src/api/dns_cache.c:99-114 | The slot a write takes costs at most one other key, and a live one only from a full live table, the first to die |
| DnsCache.WriteKeepsCurrent | src/api/dns_cache.c:229-301 | Every entry stays the last thing written for its key since the last flush |
| Bitmap.LowestClearIsLowest | src/api/amiga_syscalls.c:678-690 | The add, xor and shift isolate the lowest clear bit of a word that is not full, and the five masks give its position |
| Bitmap.HighestIsHighest | src/api/amiga_generic2.c:321-327 | The narrowing masks compute the position of the highest set bit |
| Bitmap.Cascade | src/api/amiga_generic2.c:321-327 | Each mask keeps the highest set bit, and the gains add up to its position |
| Bitmap.SetClear | src/api/amiga_generic.c:877-877 | Setting or clearing one usage bit leaves all others |
| DescriptorTable.DescriptorBase.Find | src/api/amiga_syscalls.c:669-709 | Returns the lowest descriptor that is neither used nor refused if it is inside the table, marks exactly the refused ones below it, and terminates |
| DescriptorTable.FirstFreeIsLeast | src/api/amiga_syscalls.c:674-707 | The descriptor found is unused and accepted, and every lower one is used or refused |
| DescriptorTable.NoneFree | src/api/amiga_syscalls.c:700-708 | EMFILE comes exactly when every descriptor of the table is used or refused |
| DescriptorTable.LowestFree | src/api/amiga_syscalls.c:678-690 | The bit found is clear and every lower bit of the word is set |
| DescriptorTable.HighestUsed | src/api/amiga_generic2.c:321-329 | The bit found is set and no higher bit of the word is |
| DescriptorTable.DescriptorBase.LastSockFd | src/api/amiga_generic2.c:308-330 | Returns the highest used descriptor of the whole bitmap, or -1 |
| DescriptorTable.LastUsedIsHighest | src/api/amiga_generic2.c:308-330 | The word scan and the masks together give a used descriptor above which none is used |
| DescriptorTable.DescriptorBase.SetDTableSize | src/api/amiga_generic2.c:335-428 | Publishes a fresh block with the resized contents, leaves the old block unwritten and retires it; keeps everything when memory is short; overruns exactly when the copy would read past the old pointers |
| DescriptorTable.ResizePreserves | src/api/amiga_generic2.c:345-366 | Every used descriptor keeps its place, bit and pointer and no other becomes used, if and only if this is not a shrink to exactly the highest used descriptor |
| DescriptorTable.ResizedSize | src/api/amiga_generic2.c:345-366 | A resize gives the size asked for unless a shrink meets a higher used descriptor, and then the least that holds all; what is new is empty |
| DescriptorTable.OverreadExactly | src/api/amiga_generic2.c:345-366 | A shrink reads past the old pointers exactly when a usage bit lies past the table's end |
| DescriptorTable.ResizeStray | src/api/amiga_generic2.c:345-366 | A resize creates a usage bit past the end exactly when it drops the descriptor just past the new end and shares a copied word with it |
| DescriptorTable.ResizeGuarded | src/api/amiga_generic2.c:364-366 | A resize keeps every pointer guarded by its usage bit |
| DescriptorTable.ShrinkDropsLast | src/api/amiga_generic2.c:348-349 | A concrete table that a shrink to its highest used descriptor damages |
| DescriptorTable.RefusalsLeaveStrayBits | src/api/amiga_syscalls.c:695-699 | If the link library refuses everything, bits past the end stay set and any shrink then overreads |
| DescriptorTable.SearchStray | src/api/amiga_syscalls.c:695-705 | For every link library: a search leaves a usage bit past the end exactly when it goes past the descriptor just beyond the end |
| DescriptorTable.DescriptorBase.Install | src/api/amiga_syscalls.c:170-171 | Publishing a socket sets its pointer and its bit and nothing else |
| DescriptorTable.DescriptorBase.Remove | src/api/amiga_generic.c:876-877 | Releasing a descriptor clears its pointer and its bit and nothing else |
| ReleaseIds.IdCounter.MakeId | src/api/amiga_generic.c:987-1006 | A unique id is the next free candidate after the last, with wrap-around, and is found whenever one is free; a given id is accepted exactly when no released socket has it |
| ReleaseIds.CheckId | src/api/amiga_generic.c:966-978 | Free exactly when no released socket has the id |
| ReleaseIds.SomeFree | src/api/amiga_generic.c:991-999 | By pigeonhole a candidate is free while fewer than (2^31 - 65536) / 4 sockets are released |
| ReleaseIds.AddKeepsDistinct | src/api/amiga_generic.c:1022-1025 | Ids that must be unique stay pairwise distinct when a node is added |
| ReleaseIds.RemoveKeepsDistinct | src/api/amiga_generic.c:1193-1193 | And when one is removed |
| SocketRefs.StepKeepsInv | src/api/amiga_generic.c:809-1322 | Every step but a resize that reads past the old pointers keeps counts equal to references, pointers guarded by bits, ids distinct and closing sockets unreferenced, if and only if it takes no reference beyond the 16-bit counter and loses no socket by a resize |
| SocketRefs.RunKeepsInv | src/api/amiga_generic.c:809-1322 | So does every run of safe steps, in any interleaving |
| SocketRefs.ClosesExactlyAtZero | src/api/amiga_generic.c:883-884 | soclose starts in exactly those steps that take a socket's last reference away |
| SocketRefs.ReferencedIsLive | src/api/amiga_generic.c:809-1322 | Whatever a table, a released node or the reaper refers to is published, not freed and not being closed |
| SocketRefs.StepRefs | src/api/amiga_generic.c:809-1322 | By how much each step changes the number of references to each socket |
| SocketRefs.ResizeRefs | src/api/amiga_generic2.c:345-366 | A resize keeps every reference but the one of the socket it drops |
| SocketRefs.ClosedIsFree | src/api/amiga_generic.c:876-877 | A closed or released descriptor is free for the rest of every run that does not take it again: a search comes to it at the latest, and to exactly it if every lower one is used or refused |
| SocketRefs.TableBits | src/api/amiga_generic.c:876-877 | Publishing sets exactly one usage bit, closing and releasing clear exactly one |
| SocketRefs.ReleasedIsObtained | src/api/amiga_generic.c:1008-1214 | A released socket is at its node under its id, and obtaining that node gives back the very socket with its count and leaves the other nodes as they were |
| SocketRefs.OverflowClosesEarly | src/api/amiga_generic.c:1118-1118 | With two copies beyond 32767 references, one close starts soclose with 32768 left |
| SocketRefs.CountReaches | src/api/amiga_generic.c:1118-1118 | Releasing copies, all safe steps, brings the count of any socket in a table to 32767 |
| SocketRefs.SnapshotSocketLives | src/api/amiga_generic.c:612-622 | Exactly the socket that a descriptor names stays published in every run of safe steps that neither closes nor releases that descriptor |
| SocketRefs.DescriptorHolds | src/api/amiga_generic.c:809-1322 | In such a run the socket also stays at its descriptor, whatever happens to other descriptors, the released list, resizes and the reaper |
| SocketRefs.OthersCanFree | src/api/amiga_generic.c:809-954 | Any other socket can be freed by a run that spares the descriptor: the reaper takes the released nodes, the table entries are closed, and soclose ends |
| SocketRefs.SnapshotOutlivesSocket | src/api/amiga_generic.c:612-622 | After a resize, a close and the end of soclose the replaced table names a socket that is freed |
| SocketCalls.SocketLayer.Socket | src/api/amiga_syscalls.c:89-178 | A socket is published with one reference at a free descriptor, or orphaned when the link library refuses, with the error of the first failing check |
| SocketCalls.SocketLayer.Accept | src/api/amiga_syscalls.c:289-323 | A queued connection is published with one reference once a descriptor is found and agreed |
| SocketCalls.SocketLayer.CloseSocketLocked | src/api/amiga_generic.c:809-888 | Errors leave everything as it was; otherwise the descriptor's pointer and usage bit are cleared, nothing else in the table is, and then the reference dropped |
| SocketCalls.SocketLayer.Dup2Start | src/api/amiga_generic.c:1230-1261 | The checks up to the possible sleep, and the close of what was at the target |
| SocketCalls.SocketLayer.Dup2Finish | src/api/amiga_generic.c:1262-1322 | After a sleep nothing is assumed of the table: the target is taken only if it is still free and the source still the same socket |
| SocketCalls.ResizeDuringDup2 | src/api/amiga_generic.c:1253-1275 | If fd2 is the highest used descriptor, its close and then a shrink to fd2 are both safe steps, and leave fd2 outside the table |
| SocketCalls.SocketLayer.ReleaseSocket | src/api/amiga_generic.c:1008-1087 | Moves the reference to a node with an acceptable id and clears the descriptor's pointer and bit, or returns the error of the first failing check and changes nothing |
| SocketCalls.SocketLayer.ReleaseCopyOfSocket | src/api/amiga_generic.c:1089-1126 | Adds a node and a reference, or changes nothing |
| SocketCalls.SocketLayer.ObtainSocket | src/api/amiga_generic.c:1128-1214 | Takes the first released node with the id and an acceptable protocol to a free descriptor, or fails as the first failing check says |
| SocketCalls.FirstNodeIsFirst | src/api/amiga_generic.c:1183-1199 | The node taken matches and no earlier one does |
| SocketCalls.SocketLayer.PopNode | src/api/amiga_generic.c:936-950 | The reaper unlinks the first node, whose reference it now holds |
| SocketCalls.SocketLayer.DropReaped | src/api/amiga_generic.c:952-954 | And drops it, starting soclose if it was the last |
| SocketCalls.SocketLayer.FinishClose | src/api/amiga_generic.c:883-884 | When soclose ends, the socket is gone |
| SocketCalls.SocketLayer.SetDTableSize | src/api/amiga_generic2.c:335-428 | Resizes the table in one step, or keeps it when memory is short, or overruns exactly when the copy would |
| SocketCalls.SocketLayer.CloseAll | src/api/amiga_api.c:745-748 | The sweep at the last close drops every socket of the table, clears exactly their usage bits and leaves no reference in it |
| SocketCalls.FindSearches | src/api/amiga_syscalls.c:669-709 | What the descriptor search guarantees is what these vectors rely on |
| SelectChains.SelectMemory.SelEnter | src/api/amiga_generic.c:641-663 | Pushes the item in front of the chain with all forward and back pointers right: following the pointers gives the item and then the old list, and every other list unchanged |
| SelectChains.SelectMemory.SelWakeup | src/api/amiga_generic.c:692-717 | Clears every select buffer with an item on the list its head leads to, wakes each waiting one once, points the items at themselves and empties that list only |
| SelectChains.SelectMemory.Unselect | src/api/amiga_generic.c:665-684 | Run in the order of entry, following the pointers from every head gives exactly the other buffers' items, in order, and memory is well formed again if and only if what it took out were the oldest items of their chains |
| SelectChains.SelectMemory.UnselectTwo | src/api/amiga_generic.c:665-684 | When two buffers leave one after the other, following the pointers from every head gives the others' items and those of the second right behind one of the first's, and no more |
| SelectChains.Unlink | src/api/amiga_generic.c:683-683 | The one assignment takes one item out of the forward pointers of its chain |
| SelectChains.UnselectStep | src/api/amiga_generic.c:674-684 | An item of the buffer either leaves its chain; or is stuck, the item above it having gone with another buffer, and only a departed item is written; or was passed by a wakeup and nothing happens |
| SelectChains.ForwardRest | src/api/amiga_generic.c:674-684 | The forward pointers left run through the survivors, in order |
| SelectChains.BackRest | src/api/amiga_generic.c:683-683 | The back pointers left are right if and only if no survivor stands right below an item that has gone |
| SelectChains.SoleWaiterLeavesNothing | src/api/amiga_generic.c:641-717 | With one waiting select buffer unselect leaves every chain empty, however often it entered the same chain and whichever wakeups came between |
| SelectChains.LeavingFromAboveBreaksBack | src/api/amiga_generic.c:683-683 | A well-formed memory with two items on one chain: taken out oldest first they leave it empty, the other way round the head still leads to the older one |
| WaitSelect.StepKeepsInv | src/api/amiga_generic.c:432-503 | Every step of the waiting task and of the sockets keeps: each scanned unready condition is on its chain with any event since still unannounced, or the wait condition is cleared |
| WaitSelect.EventIsNotLost | src/api/amiga_generic.c:432-503 | An event on a scanned condition has cleared the wait condition or woken the sleeper, or is about to be announced |
| WaitSelect.AnnouncementWakes | src/api/amiga_generic.c:692-717 | The announcement clears the wait condition before the sleep, and wakes the task after |
| WaitSelect.ClearedMeansRescan | src/api/amiga_generic.c:459-467 | A cleared wait condition stays so until the next scan: the task does not go to sleep on it |
| WaitSelect.SleepsOnlyUnready | src/api/amiga_generic.c:432-503 | In every interleaving, a task left asleep with nothing to be announced waits only for conditions that have not held since it scanned them |
| WaitSelect.OverExactly | src/api/amiga_generic.c:432-503 | In every run the call is over exactly if the timeout or a signal came or a condition held when it was looked at |
| WaitSelect.UndisturbedSleeps | src/api/amiga_generic.c:432-470 | A call that is not stopped and hears no announcement looks at its conditions one by one, decides, sleeps, and stays asleep: its own steps alone say where it is |
| WaitSelect.HoldingIsFound | src/api/amiga_generic.c:499-503 | A condition that goes on holding is found before the task could go to sleep on it |
| WaitSelect.ReturnsClean | src/api/amiga_generic.c:446-497 | However the call ends, it leaves every head NIL |
| DhcpOptions.DhcpFind | src/api/amiga_roadshow_compat.c:4143-4172 | Finds the first option with the code within the received length, its length clamped |
| DhcpOptions.LookupWithin | src/api/amiga_roadshow_compat.c:4143-4172 | What is found lies inside the datagram received |
| DhcpOptions.OptsDependOnReceived | src/api/amiga_roadshow_compat.c:4143-4172 | The options depend on no byte beyond what was received |
| DhcpOptions.DhcpPut | src/api/amiga_roadshow_compat.c:4121-4127 | Writes one option and nothing else |
| DhcpOptions.LaidIsRead | src/api/amiga_roadshow_compat.c:4121-4172 | Options written one after the other and ended are read back as they were |
| DhcpMeaning.ItemsRead | src/api/amiga_roadshow_compat.c:4143-4172 | Pads are skipped, an end mark or the end of the datagram ends the options, a value beyond it is cut off, a code without a length is none; a search finds the first value with the code |
| DhcpExchange.BuildPacket | src/api/amiga_roadshow_compat.c:4336-4356 | The packet is exactly header, cookie, the intended options, an end mark and zeros |
| DhcpExchange.ReadLease | src/api/amiga_roadshow_compat.c:4379-4417 | Every field is the first matching option of the acknowledgement, up to three name servers and 127 characters of text |
| DhcpExchange.Exchange | src/api/amiga_roadshow_compat.c:4319-4447 | Goes as the turn by turn specification says, and logs just what that says; reports a lease only after a matching offer was accepted and a request for its address handed to sendto, at known turns, with no refusal since; every field but the server identifier comes from the final acknowledgement |
| DhcpExchange.Settle | src/api/amiga_roadshow_compat.c:4369-4442 | The datagram of one turn changes the stand of the exchange as specified |
| DhcpExchange.Transmit | src/api/amiga_roadshow_compat.c:4335-4357 | A request is handed to sendto at the turn after the offer's and at every twentieth from there, and says what it should |
| DhcpMeaning.PacketMeans | src/api/amiga_roadshow_compat.c:4346-4356 | A receiver finds under each option code exactly what is meant; an address and a server in a request and in no other packet |
| DhcpMeaning.PacketHeads | src/api/amiga_roadshow_compat.c:4337-4345 | A receiver reads from the fixed part a request on Ethernet, the transaction, the broadcast flag, the hardware address and the cookie |
| DhcpMeaning.ReplyMeans | src/api/amiga_roadshow_compat.c:4369-4375 | Every datagram with a fixed part is a reply of the kind, transaction and server that its octets say |
| DhcpMeaning.LeaseMeans | src/api/amiga_roadshow_compat.c:4379-4417 | Every field of the lease is the first value of its option, by the octets of the datagram |
| DhcpMeaning.SendsExactly | src/api/amiga_roadshow_compat.c:4335-4357 | A packet is sent at exactly every twentieth tick since what is asked for has changed: a request for the address and server on offer, or a discovery |
| DhcpMeaning.PlayStops | src/api/amiga_roadshow_compat.c:4335-4447 | An exchange stops at the deadline, at an abort or with a lease, and at the first of these |
| DhcpMeaning.LeaseExactly | src/api/amiga_roadshow_compat.c:4319-4447 | For every sequence of ticks: a lease is reported exactly when a tick acknowledges what is asked for (an offer came and no refusal since), no earlier one does, and neither an abort nor the deadline since the last change comes first; and it is the lease of that acknowledgement with the last taken offer's server |
| DhcpRuns.LeaseServer | src/api/amiga_roadshow_compat.c:4372-4377 | A reported lease's server identifier is the accepted offer's if and only if that offer has one, and otherwise the one from before it |
| DhcpRuns.ServerAfterOffer | src/api/amiga_roadshow_compat.c:4372-4377 | For every log: what the server identifier is after an offer and any number of sends |
| DhcpRuns.StaleServer | src/api/amiga_roadshow_compat.c:4369-4442 | There are four ticks on which the exchange reports a lease with the identifier of another server than the accepted offer's, and none of whose sends succeeds |
| DhcpRuns.ServerFromDatagram | src/api/amiga_roadshow_compat.c:4373-4375 | Where each of the identifier's four octets comes from: received, cleared, or behind the buffer; all are received exactly when the value lies four octets before the datagram's end, and then it is what the datagram says |
| DhcpRuns.ServerDependsOnMemory | src/api/amiga_roadshow_compat.c:4373-4375 | The identifier depends on memory behind the receive buffer if and only if its value lies fewer than four octets before the buffer's end |
| DhcpRuns.ServerFromMemory | src/api/amiga_roadshow_compat.c:4373-4375 | An offer whose identifier is entirely what follows the receive buffer |
| DhcpRuns.TypeFromDatagram | src/api/amiga_roadshow_compat.c:4370-4371 | Where the message type comes from: the option's value, or what follows it when it has none |
| DhcpRuns.TypeDependsOnMemory | src/api/amiga_roadshow_compat.c:4370-4371 | The message type depends on memory behind the receive buffer if and only if its option lies without a value at the buffer's end |
| DhcpRuns.TypeFromMemory | src/api/amiga_roadshow_compat.c:4370-4371 | A reply whose type is the octet that follows the receive buffer |
| DhcpRuns.TransmittedExactly | src/api/amiga_roadshow_compat.c:4335-4357 | A reported lease's request was transmitted if and only if a send succeeds at one of the turns for it |
| DhcpRuns.ToldReads | src/api/amiga_roadshow_compat.c:4369-4375 | A reply built with a kind and perhaps a server identifier is taken for what it is |
| Lifecycle.StepKeepsInv | src/api/amiga_api.c:371-1039 | Open, close, shared close, abandon, sharing on and off, resizes, calls, and scans at the start of a call or after any of its sleeps keep the invariant |
| Lifecycle.OpenCountHolds | src/api/amiga_api.c:388-424 | In every run the open count is the number of listed bases, no two of which have one owner, and each base is given back exactly once, when it leaves the list |
| Lifecycle.ScansReadLiveTables | src/api/amiga_generic.c:557-616 | In every run a running scan's snapshot of the two fields of its base fits the table it names, and the table is not freed until the scan ends, also when the base was closed or abandoned under the call |
| Lifecycle.OpenersKeepTheBase | src/api/amiga_api.c:588-593 | In every run a base that is not abandoned stays listed, with its owner and its table, as long as the closes have not caught up with the opens, and counts what is outstanding |
| Lifecycle.DeadStaysDead | src/api/amiga_api.c:595-612 | Closing a dead base only counts down |
| Lifecycle.LastCloseEnds | src/api/amiga_api.c:592-802 | The close that uses up the last open takes exactly this base off the list and gives it back once; one ever shared is dead and keeps everything, of any other exactly its table and the retired ones are freed |
| Lifecycle.NothingLeaks | src/api/amiga_api.c:778-796 | In every run in which the nodes for replaced tables could be had, every table still allocated belongs to a base that is not freed |
| Lifecycle.FreeingASharedBaseBreaksScans | src/api/amiga_api.c:652-716 | At an enabled last close of a base that was ever shared, with a scan on it, the close keeps the invariant and the ordinary teardown would not |
| Lifecycle.SharerScansADeadBase | src/api/amiga_api.c:652-716 | A run to such a close, after which the sharer scans the dead base again |
| Lifecycle.SocketLibrary.Open | src/api/amiga_api.c:388-424 | A task that has a base gets it again; any other gets a new one, listed and counted |
| Lifecycle.SocketLibrary.FindSocketBase | src/api/amiga_api.c:388-391 | Finds the listed base of the task, or there is none |
| Lifecycle.SocketLibrary.Close | src/api/amiga_api.c:592-802 | Counts down; leaves a dead base alone, buries a base that was ever shared, and frees any other with its table and all retired ones |
| Lifecycle.SocketLibrary.AbandonBases | src/api/amiga_api.c:1013-1039 | Every listed base but the tracer's is off the list, dead and given back once; nothing else changes and nothing is freed |

## Left out

- AmigaOS plumbing (registers, vectors, ports, timers, MakeLibrary) and everything behind `socreate`, `soclose`,
  the resolver's sockets and the mbuf pool: their outcomes are parameters.
- The assembly checksum: its source is not part of this model. Buffer chains are sequences of pieces, not linked nodes.
- Compress.DnComp: a null `dnptrs` and a null first slot are one case, a first slot of -1.
  After a success whose pointer is out of reach the saved entries are where the labels are, but what they decode to is not said.
- Compress.DnFind: the return on an illegal length octet is not reached, as every listed entry is well formed.
- Answer.GetAnswer: inverse queries (PTR answers and the no-question error) are not modelled; h_errno is not set.
- Responses.ReadResponse: responses whose names are well formed and fit; any other message is covered by `Answer.GetAnswer`.
- Answer.MakeHostent: the pointer arrays behind the copied strings are sequences, without their NULL ends.
- DnsCache.Cache.Get: the replay of a hit through the answer parser, out-of-memory details and the lock are not
  modelled.
- DnsCache.Cache.Store: for writes the time is within 2^31 seconds of every expiry in the table, as
  `DnsCache.SignedTestExactly` demands; beyond that the comparison of expiries is no order.
- SocketRefs.StepKeepsInv: resizes that read past the old pointers, whose outcome is not defined, are not steps;
  `DescriptorTable.OverreadExactly` says which they are.
- SocketCalls.SocketLayer.Socket: `sdFind` enters as a result that satisfies `SocketCalls.Searches`, which
  `SocketCalls.FindSearches` derives from the contract of `DescriptorTable.DescriptorBase.Find`; the owner for asynchronous events (`so_pgid`) is not modelled.
- SocketCalls.SocketLayer.Accept: it starts when a connection is queued on the listener; the wait before it is not modelled.
- SocketCalls.SocketLayer.ReleaseSocket: that a UNIQUE_ID request finds an id needs a free candidate; `ReleaseIds.SomeFree` shows there
  is one while fewer than 536854528 sockets are released.
- WaitSelect.StepKeepsInv: one waiting call; other calls that wait on the same buffers are not in it, since their unselect may leave
  a wrong back pointer. The scan before the loop is not modelled, an EBADF counts as found, and a wakeup after
  the task has gone to sleep is taken to make it return.
- SelectChains.SelectMemory.UnselectTwo: no wakeup or entry comes between the two unselects.
- DhcpExchange.Exchange: termination is not claimed, as offers and refusals can alternate for ever: the arrivals are a finite sequence and the
  exchange may still be running when they end. Applying the lease is not modelled.
- Lifecycle.SocketLibrary.Open: the failure paths inside it, and lingering closes that overlap the abandoning of bases,
  are not modelled; delayed expunge is not.
- Lifecycle.StepKeepsInv: a base is closed only by the task that opened it, not while that task is in a call, and not called by
  it after it was freed.
- Tag get and set arms, tunables, interface and route vectors, hostname joining, error lists, the installer
  and the tools: they would only add easy members.

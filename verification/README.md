# Verification model of the DNS splitter

The repository splits DNS traffic between upstreams. This project models the
four parts of it whose correctness is hard to see, and proves what they are for.

* **Domain lists** (`Labels`, `LevelMask`, `DomainNames`, `DnlTable`, `Dnl`,
  `DomainList`): a bump arena of name records, an L1 hash table whose full
  buckets are promoted to a growable L2 table, in-place doubling of L2, and the
  longest-suffix lookup with its level mask. For every hash function the whole
  is a finite map with first-insert-wins and "longest whole-label suffix wins".
* **Batched set updates** (`Netlink`, `IpsetMsg`, `IpsetWire`, `Ipset`, `AddCtx`):
  addresses are appended to netlink messages, tested at flush time, and the
  missing ones are sent through a scatter-gather vector over the same buffers.
  The gathered bytes are the bytes of a plainly built message, and `IpsetWire`
  says which these are.
* **Messages and the cache** (`DnsName`, `DnsWalk`, `DnsRecords`, `DnsMsg`,
  `CacheMsg`, `CacheFile`, `CacheIgnore`): wire and text names (section 3.1 of
  RFC 1035), walking over records (section 4.1.3 of RFC 1035) with compressed
  names (section 4.1.4),
  stripping the additional section, TTL rewriting (section 8 of RFC 2181),
  ageing, the dump format with the tool that deletes from it, and the domains
  that are not cached.
* **Event loop** (`EvState`, `EvRun`, `EvWakes`, `EvLoop`, `Ring`): the cache of
  epoll interest changes, the dispatch of epoll batches while objects are freed
  and their addresses are used again, and the intrusive ring list. `EvRun` tells
  what a run does by the identities of objects; the loop in `EvLoop`, which goes
  by address and keeps a record of destroyed ones, is proved to do the same.
  `EvWakes` says who is resumed, in terms of wait slots and event bits.

`Bytes` holds the integer encodings. Code that works in place is modelled by
methods over arrays and class fields; each is proved against functions and
predicates on values, and the lemmas are about those. What these functions
themselves mean is proved once more without them: in bytes and numbers, in
labels and records, or in slots and event bits (the lemmas whose names end in
`When`, `Means` or `Is`, and `IpsetWire`, `DnsRecords` and `EvWakes`).

Conventions. A chain, a list or a batch appears twice: as the linked or packed
form that the code works on, and as a ghost sequence that an invariant ties to
it. Records of the arena are split into an immutable part and the link, keyed by
arena address, and a bucket's address is its place in the table. In the event
loop an object is known by its address, which may be handed out again, and by an
identity that is never used twice; what coroutines do between two suspension
points is a script of operations, and an operation that its caller must not ask
for ends the run. Netlink headers and the dump format are little-endian.

Two properties are false of the code in part. Ageing a record in several steps
or in one gives the same TTL except for TTLs strictly between 2^31 and 2^32 - 1,
where the 32-bit sum may wrap (`CacheMsgs.AgeTwiceDiffers`,
`CacheMsgs.StepsAgreeWhen`, and for whole entries `CacheMsgs.PathFreeWhen`). An
entry made from a checked reply with a positive dns_get_ttl result holds no such
TTL, and being dumped and loaded does not change that (`CacheFile.Restart`), so
for such entries the property holds as long as the clock is at most 2^31 - 1
seconds ahead. What a file holds is not checked when it is loaded
(`src/CacheMsg.zig:138`); for other entries than those,
`CacheMsgs.CacheMsg.UpdateTtl` says when the assertions of an update hold and
when its 32-bit sum overflows. And the 32-bit product of TTL and refresh
percentage overflows for large TTLs, exactly as `CacheMsgs.RefreshFits` says.

Where the code and its comment disagree the code is followed: `src/Node.zig:113`
says that unlinking leaves the node's own links unmodified, but lines 118-119
set them to undefined, and the model gives them arbitrary values.

## Model

| member | source | states |
|---|---|---|
| `DomainList.Classify` | src/dnl.c:518-608 | end to end, for every hash function and every set of lists, told over the lines of the lists: of the names that are the query or stand behind one of its dots, the longest that any list holds gives the tag of the list that outranks the others with it: tags 7 to 2 before the built-in two, the higher first, and of these gfwlist before chnlist exactly if the option says so; the default when there is none |
| `DomainList.OrderDecides` | src/dnl.c:541-553 | a list is found for a name exactly if some list holds it, and it is the one that outranks all others that do |
| `DomainNames.AcceptedWhen` | src/dnl.c:357-388 | a name is stored for a list exactly if some line of it, made of labels with dots between them, not starting with a dot or a comment sign, has it as its last eight labels or fewer, of 1 to 63 bytes each |
| `Labels.SuffixWhen` | src/dnl.c:394-416 | the whole-label suffixes of a name are the name and what stands behind each of its dots |
| `DomainList.Dnl.Init` | src/dnl.c:518-579 | after loading all lists the tables hold exactly the accepted names, each with the tag of the first list, in the order 7..2 and then gfw/chn, that contains it; with no names the tables stay null |
| `DomainList.Dnl.GetTag` | src/dnl.c:585-608 | the lookup returns the stored tag of the longest whole-label suffix that is stored, else the default |
| `DomainList.AnswerInIsAnswer` | src/dnl.c:518-608 | the answer computed from the stored map is that answer over the lists themselves |
| `DomainList.LastIsLongest` | src/dnl.c:599-607 | the last listed suffix that is stored is the longest stored whole-label suffix of the query |
| `DomainList.PutListsGet` | src/dnl.c:541-566 | inserting list after list with first-insert-wins gives each name the tag of the first list that contains it |
| `DomainList.CalcLcap` | src/dnl.c:145-150 | the smallest capacity, as a power of two, that is not below the number of names |
| `DomainList.Dnl.LoadList` | src/dnl.c:428-481 | one list's accepted names lie in the arena one behind the other, in load order |
| `DomainList.Dnl.LoadAll` | src/dnl.c:518-532 | the same for all lists, with the total count |
| `DomainList.Dnl.AddAll` | src/dnl.c:554-564 | the lists are added in priority order, and the number of added names is the growth of the map |
| `DnlStore.Store.AddToDnl` | src/dnl.c:290-321 | insertion refines "put unless present" on a finite map, through every promotion and doubling; all table invariants and counters are kept; a new name joins its L1 bucket while that holds fewer than four, and a bucket of four is emptied and marked |
| `DnlStore.Store.Promote` | src/dnl.c:304-313 | a full L1 bucket moves wholesale to L2: afterwards all names of its index are in L2 and none in L1, and what is stored does not change |
| `DnlStore.Store.MoveToL2` | src/dnl.c:308-311 | one step of that move keeps the number of stored names while its name is counted in L2 instead of L1 |
| `DnlStore.Store.InsertAfterNext` | src/dnl.c:315-319 | a name whose L1 bucket is marked goes to L2, again as "put unless present" |
| `DnlStore.Store.InsertIn1` | src/dnl.c:293-303 | a new name enters an L1 bucket with room, and chains there never exceed MAX_COLLISION |
| `DnlStore.Store.AddToMap2` | src/dnl.c:266-287 | L2 insertion is "put unless present", with the item count to match, and the redo is taken at most once |
| `DnlStore.Store.TryAddToMap2` | src/dnl.c:270-286 | one pass over the label: it asks for a repetition only when L2 was full, and has then doubled it without changing what it stores |
| `DnlStore.Store.ResizeMap2` | src/dnl.c:204-264 | L2 doubles exactly at 3/4 load; every name then stands in the bucket of its new index, no name is lost, duplicated or changed, and the item count is unchanged |
| `DnlStore.Store.GrowMap2` | src/dnl.c:210-261 | the doubling itself: the new buckets directly follow the old ones, and each old chain is split between its bucket and the one a capacity further |
| `DnlStore.Store.SplitChain` | src/dnl.c:227-260 | the loop over one chain relinks it in place: what stays keeps its order, what moves is reversed, and the list counter follows the HEAD buckets |
| `DnlStore.Store.SplitNext` | src/dnl.c:227-260 | one turn of that loop, reading the next address before any relinking |
| `DnlStore.Store.MoveOne` | src/dnl.c:240-259 | one record is unlinked from its chain and becomes the head of the other; its assertions on the new bucket hold |
| `DnlStore.Store.Unlink` | src/dnl.c:240-247 | the three ways of taking a record out of a chain, with or without a predecessor or a successor |
| `DnlStore.Store.Store` | src/dnl.c:249-258 | store_as_head and store_as_body put the record in front of the chain of its bucket |
| `DnlStore.Store.StoreIn1` | src/dnl.c:294-303 | storing in L1 changes the chain of one bucket only |
| `DnlStore.Store.StoreIn2` | src/dnl.c:273-285 | storing in L2 changes the chain of one bucket only |
| `DnlStore.Store.InsertIn2` | src/dnl.c:273-285 | a new name is found in L2 afterwards, all others as before |
| `DnlStore.Store.ExistsIn` | src/dnl.c:182-189 | whether a chain holds a record's name, and otherwise the length of the chain |
| `DnlStore.Store.ExistsInList` | src/dnl.c:323-333 | the chain walk returns the tag of the first record with this name |
| `DnlStore.Store.ExistsInDnl` | src/dnl.c:335-347 | finds exactly the inserted names, with their first tag, in whichever level they are |
| `DnlStore.Store.ExistsInMap2` | src/dnl.c:341-343 | the L2 half of it, which is asked only when L2 exists: a marked L1 bucket implies that |
| `DnlStore.Store.AddName` | src/dnl.c:115-126 | a record is allocated directly behind the previous one, unlinked, with the name's hash |
| `DnlStore.Store.AddList` | src/dnl.c:483-490 | the stride walk visits exactly the names of the list in load order, and returns the number of new distinct names |
| `DnlStore.Store.Alloc` | src/dnl.c:74-92 | an allocation lies at or behind the old end, aligned, and ends at the new one |
| `DnlStore.Store.AllocBuckets` | src/dnl.c:103-104 | fresh buckets are free |
| `DnlStore.Store.SetNotNull` | src/dnl.c:534 | the first L1 table is empty and behind all names, and from then on no record, L1 bucket or L2 bucket overlaps another |
| `DnlTable.SplitFind` | src/dnl.c:204-264 | a name is found after the split exactly as before |
| `DnlTable.SplitDone` | src/dnl.c:217-261 | when all buckets are split, the chains form a table over the doubled index, and the list count is the number of non-empty ones |
| `DnlTable.IdxDouble` | src/dnl.c:168-169 | the doubled index of a hash is its old index, or that plus the old capacity |
| `DnlTable.IdxIs` | src/dnl.c:168-169 | the index of a hash is the hash divided by 2 to the power of the shift, modulo the capacity |
| `DnlTable.MaxLoadIs` | src/dnl.c:163-164 | the maximal load is three quarters of the capacity, rounded down |
| `DnlTable.StayMovedOk` | src/dnl.c:227-260 | what stays and what moves of a chain are two chains that together hold its records |
| `DnlTable.PutAllGet` | src/dnl.c:308-311 | inserting the records of a chain with first-insert-wins gives what looking along the chain gives |
| `DnlTable.StoredFind` | src/dnl.c:191-202 | after a record is stored its name is found with its tag and every other name as before |
| `DomainNames.Levels.CheckName` | src/dnl.c:357-388 | accepts exactly the names without empty or over-long labels among the last eight, yields the last eight labels at most, and records their count and nothing else |
| `DomainNames.Levels.GetSuffix` | src/dnl.c:395-416 | lists, shortest first, exactly the whole-label suffixes whose label count is recorded |
| `DomainNames.ListedComplete` | src/dnl.c:395-416 | the level mask loses nothing: every whole-label suffix at a recorded level is listed |
| `DomainNames.ListedSound` | src/dnl.c:395-416 | nothing but whole-label suffixes at recorded levels is listed |
| `DomainNames.AcceptedNames` | src/dnl.c:357-388 | what a list stores are the last eight labels of its acceptable candidates, each with good labels |
| `Labels.SuffixIsLabelSuffix` | src/dnl.c:394-416 | whole-label suffixes of a text name are exactly the names whose label list is a suffix of its label list |
| `Labels.SplitJoin` | src/dns.c:614-643 | joining labels without dots and splitting again gives the labels |
| `Labels.JoinSplit` | src/dns.c:56-91 | splitting and joining gives the text |
| `LevelMask.HasRecord` | src/dnl.c:382 | recording a level adds that level to the mask and no other |
| `LevelMask.MinLevel` | src/dns.c:598-600 | count-trailing-zeros plus one is the smallest recorded level |
| `Netlink.Nlmsg.AddNla` | src/nl.h:20-48 | an attribute with its length and kind is appended, padded to four bytes; without data its space keeps its contents |
| `Netlink.Nlmsg.EndNest` | src/nl.h:53-54 | the nest's length becomes the distance to the end, nothing else changes |
| `Netlink.Nlmsg.SetLen` | src/nl.h:25 | only the length field changes |
| `Netlink.AttrsAppend` | src/nl.h:39-48 | attributes appended to a well-formed list are read after it |
| `Netlink.AttrsOne` | src/nl.h:39-48 | one attribute with its padding is read back |
| `IpsetMsg.SuccValue` | src/ipset.c:755-759 | the end of an interval is the address plus one, modulo 256 to the power of its length, in network byte order |
| `IpsetMsg.Increment` | src/ipset.c:755-759 | the in-place carry loop computes that successor and touches no other byte |
| `IpsetMsg.AddElemIpset` | src/ipset.c:326-334 | the two nests are closed with the right lengths around the address |
| `IpsetMsg.AddElemNftset` | src/ipset.c:336-344 | the same for an nftables element, with its flags when there are any |
| `IpsetMsg.AddIpNftset` | src/ipset.c:752-760 | an address becomes the pair of interval start and interval end |
| `IpsetMsg.AddIp` | src/ipset.c:747-760 | exactly one entry for the address is appended |
| `IpsetMsg.EntriesRead` | src/ipset.c:747-760 | parsing the appended bytes attribute by attribute gives back exactly the addresses, in order, each interval ending right behind its start |
| `IpsetMsg.IpsetElemRead` | src/ipset.c:326-334 | all nested lengths of an ipset element are consistent and lead to its address |
| `IpsetMsg.NftElemRead` | src/ipset.c:336-344 | the same for nftables, with the flags |
| `IpsetMsg.InitAddMsg` | src/ipset.c:373-392 | the add template parses to the right header and attributes, ends with an open list, and leaves room for ten entries |
| `IpsetMsg.InitTestMsg` | src/ipset.c:357-371 | the test template parses to the right header and attributes and ends with room for one address |
| `IpsetMsg.InitTestNftset` | src/ipset.c:457-482 | the same for nftables, with the enclosing list closed |
| `IpsetMsg.PutAttr` | src/nl.h:39-48 | a template with one more attribute parses to one more attribute |
| `Ipset.GatherPicked` | src/ipset.c:883-889 | the picked pieces, gathered, are the concatenation of exactly the entries whose bit is not set |
| `Ipset.FlushBytes` | src/ipset.c:862-904 | template plus picked pieces, gathered after the two length patches, are byte for byte a plainly built request for the missing addresses |
| `Ipset.AddRequestRead` | src/ipset.c:855-906 | that request's length field is its size, its header and attributes are those of the template, and its list parses to exactly the missing addresses |
| `Ipset.TestRequestRead` | src/ipset.c:804-841 | a test request's length field is its size and it asks about its address |
| `Ipset.TestsSent` | src/ipset.c:810-834 | the two pieces of test message i, gathered, are the plain test request for address i |
| `Ipset.Side.Fill` | src/ipset.c:871-904 | one family of a flush: its pieces are one request for its missing addresses, or nothing is sent |
| `Ipset.Side.Seal` | src/ipset.c:897-899 | patching the list's length and the message's turns the pieces into that request |
| `Ipset.Side.FillPicks` | src/ipset.c:883-889 | one piece for each entry whose bit is not set, in order, from the given bit on |
| `Ipset.Side.PatchLengths` | src/ipset.c:897-899 | both lengths are those of n entries, and the entries themselves are not touched |
| `Ipset.Side.FillTests` | src/ipset.c:810-829 | one message of two pieces for each address of the batch |
| `Ipset.Side.Add` | src/ipset.c:778-789 | while the batch is not empty the message length is template plus entries; a batch never exceeds IP_N and the buffer is never overrun |
| `Ipset.Side.constructor` | src/ipset.c:628-667 | an empty batch over two templates for the given set |
| `AddCtxs.AddCtx.AddGroup` | src/ipset.c:772-789 | run-wide: after a group every address that was not turned away has been in exactly one flush, in the order of the calls, and what the kernel has been handed is, flush by flush, with the bytes that `AddCtxs.AddCtx.SentMeans` gives, the plain test request of each address and then requests to add exactly those whose bit was not set |
| `AddCtxs.GroupOnce` | src/ipset.c:772-789 | however a group is split into flushes, each accepted address is in exactly one of them, in order, none is empty and none holds more than IP_N addresses of a family |
| `AddCtxs.AddCtx.AddIp` | src/ipset.c:772-789 | an address is ignored if its family has no set or the blacklist holds it; otherwise it joins its batch, and both batches are flushed first, with all that the kernel is handed then, exactly when its own is full |
| `AddCtxs.AddCtx.EndAddIp` | src/ipset.c:981-1008 | nothing is sent when both batches are empty; otherwise one flush tests every batched address, v4 before v6, and sends requests for exactly those whose bit is not set, with the bytes that `AddCtxs.AddCtx.SentMeans` gives; both batches are empty afterwards, whichever family triggered it |
| `AddCtxs.AddCtx.TestIps` | src/ipset.c:804-841 | the requests are the plain test requests of both batches; bit i is set exactly if answer i arrived and was positive |
| `AddCtxs.AddCtx.EndAddIpset` | src/ipset.c:855-906 | one message for each family with missing addresses, v4 first |
| `AddCtxs.AddCtx.EndAddNftset` | src/ipset.c:917-976 | one message: batch begin, the families' requests, batch end; nothing at all when nothing is missing |
| `AddCtxs.AddCtx.SendAdds` | src/ipset.c:981-997 | what is handed to the kernel are those messages, within IOV_N pieces and MSG_N messages |
| `AddCtxs.AddCtx.constructor` | src/ipset.c:628-667 | a context with empty batches and buffers that do not overlap |
| `AddCtxs.AddCtx.SentRead` | src/ipset.c:804-976 | parsed as netlink messages, and byte by byte in numbers, what a flush hands to the kernel is one test of each address and, a family, one request whose list holds exactly the missing addresses |
| `AddCtxs.AddCtx.SentMeans` | src/ipset.c:804-1008 | the same for the whole flush: the tests of all addresses in one go, then a request a family for exactly the addresses, in order, without a positive answer, as messages of their own or between the two batch headers |
| `AddCtxs.MissingMeans` | src/ipset.c:883-889 | which addresses are missing, by their places and the answers |
| `AddCtxs.OfferedWhen` | src/ipset.c:762-789 | what one call does, in numbers: which addresses are passed over, and that a batch of exactly ten is flushed first, with the other family's |
| `AddCtxs.BatchHeaders` | src/ipset.c:579-581 | the two batch headers, byte by byte |
| `IpsetWire.AddMessage` | src/ipset.c:373-392 | an add request in numbers: type 0x0609 or 0x0a0c, flag 1 only, the family (2 or 10, or the set's), port, its attributes with lengths and kinds, and the bytes of its list |
| `IpsetWire.TestMessage` | src/ipset.c:357-371 | a test request in numbers: type 0x060b with flags 5 or 0x0a0d with flag 1, family, port and attributes, ending with the bytes of its address |
| `IpsetWire.EntriesAre` | src/ipset.c:747-760 | what the entries of an add request are, byte by byte, the interval's end being the address plus one |
| `IpsetWire.FrontIs` | src/ipset.c:314-324 | the header field by field, with byte orders |
| `IpsetWire.Listed` | src/nl.h:39-48 | whatever is read as attributes is, byte by byte, their lengths, kinds and payloads, padded to four bytes |
| `AddCtxs.AddsRead` | src/ipset.c:855-906 | the request for missing addresses parses to the template's header and attributes and a list of exactly these addresses |
| `AddCtxs.TestsRead` | src/ipset.c:804-841 | the j-th test request parses to the template's header and attributes and asks about the j-th address |
| `AddCtxs.BlacklistValues` | src/ipset.c:762-770 | as numbers: for IPv4 the blacklist is exactly 0/8 and 127/8, for IPv6 exactly :: and ::1 |
| `DnsName.AsciiToWire` | src/dns.c:614-643 | accepts exactly labels of 1..63 bytes with at most 253 bytes of text; the result is the wire form, two bytes longer, with the label count |
| `DnsName.DecodeName` | src/dns.c:56-91 | succeeds exactly if all bytes but the last are labels of 1..63 bytes (or the name is the root) and writes them joined by dots |
| `DnsName.TextRoundTrip` | src/dns.c:614-648 | decoding the wire form of a text name gives the text back |
| `DnsName.WireRoundTrip` | src/dns.c:614-648 | encoding the text of a non-root wire name whose labels hold no dot gives the same bytes |
| `DnsName.ParseWire` | src/dns.c:56-91 | the wire form of a label list is read back as that list |
| `DnsName.ParseExact` | src/dns.c:56-91 | whatever is read as labels is their wire form |
| `DnsName.WireInjective` | src/dns.c:614-643 | different names have different wire forms |
| `DnsName.ParseWhen` | src/dns.c:56-91 | what is read as labels is exactly what is made of a length byte, 1 to 63, and as many bytes each |
| `DnsName.EncodableWhen` | src/dns.c:614-643 | the text names with a wire form: at most 253 bytes, of labels of 1 to 63 bytes with dots between them |
| `DnsWalk.ForeachRecord` | src/dns.c:196-234 | succeeds exactly if that many records stand there; visits each of them once, and those before a malformed one, and leaves every other byte |
| `DnsWalk.SkipName` | src/dns.c:160-191 | ends where the name ends, at a null label or a compression pointer, and needs the fixed fields to follow |
| `DnsWalk.VisitRecord` | src/dns.c:494-540 | the two visitors: OPT is skipped, get_ttl clamps and keeps the minimum, update_ttl adds with 32-bit wrap-around and never goes below one |
| `DnsWalk.WalkSetTtl` | src/dns.c:519-538 | overwriting the TTL of one record changes nothing about the walk over all of them |
| `DnsWalk.RewriteWalk` | src/dns.c:494-540 | nor does visiting any number of them |
| `DnsWalk.RewriteTtl` | src/dns.c:494-540 | each record's TTL becomes what the visitor makes of its own TTL, and no type changes |
| `DnsWalk.RewriteKeeps` | src/dns.c:494-540 | no byte outside the TTLs changes |
| `DnsWalk.WalkPrefix` | src/dns.c:196-234 | a walk does not depend on what follows the last record |
| `DnsRecords.WalkBuilt` | src/dns.c:160-234 | a message that holds a list of records as section 4.1.3 of RFC 1035 lays them out, their names labels ended by a null byte or a pointer, is walked over to the end of the last, and each record's own type and TTL are read behind its name |
| `DnsRecords.WalkParsed` | src/dns.c:160-234 | conversely whatever is walked over is such a list |
| `DnsRecords.WalkWhen` | src/dns.c:196-234 | so a walk over n records ends at a place exactly if n records fill the message up to there |
| `DnsRecords.RewriteRecords` | src/dns.c:494-540 | visiting the records of a message leaves records in the same places; the TTL of each other than OPT (41) is the visitor's, and no byte outside the TTLs changes |
| `DnsRecords.NewTtlMeans` | src/dns.c:494-540 | what the visitors make of a TTL, in signed 32-bit numbers with wrap-around |
| `DnsRecords.ClampMeans` | src/dns.c:505-515 | positive bounds raise or lower a TTL to themselves, the upper one last, and leave what lies between them |
| `DnsMsg.CheckMsg` | src/dns.c:94-153 | accepts exactly on size, QR, question count, a name ended by a zero byte within 255 bytes, its text form if wanted, and room for the question; only a query's TC bit changes |
| `DnsMsg.RmAdditional` | src/dns.c:371-388 | for a good reply the end of the authority section, with the additional count zeroed; 0 exactly if the records before are malformed; a reply that is not good keeps its length |
| `DnsMsg.CheckReply` | src/dns.c:394-405 | a reply is accepted exactly if its header, question and name are in order and, if it is good, as many records as it counts in its first two sections stand behind the question; the new length is the end of these, for another reply the old one; RA is set and a good reply's additional count is zero; a rejected reply is not changed |
| `DnsMsg.ReplyWhen` | src/dns.c:371-405 | the same as an equivalence, for each length of the name and each end |
| `DnsMsg.AcceptsWhen` | src/dns.c:94-153 | what check_msg accepts, by header bytes, the first null byte behind the header and, if the text is wanted, labels before it |
| `DnsMsg.TrimmedWhen` | src/dns.c:371-388 | where a reply is cut, by the records that stand in it |
| `DnsMsg.CheckedWhen` | src/dns.c:114-115 | a query with one question loses its TC bit, and no other bit |
| `DnsMsg.WalkableWhen` | src/dns.c:561-568 | the assertions of dns_update_ttl, by the records that stand in the message |
| `DnsMsg.StrippedWalkable` | src/dns.c:371-405 | a good reply is cut exactly behind its answer and authority records, which fill the rest completely |
| `DnsMsg.Recheck` | src/dns.c:394-405 | checking a stripped reply again accepts it with the same length and changes no byte |
| `DnsMsg.GetTtl` | src/dns.c:542-559 | -1 unless the reply is good and well formed, else the result over its records; TTLs are clamped in place |
| `DnsMsg.SmallestTtl` | src/dns.c:494-526 | that result is the smallest TTL, other than OPT's, that is left in the message, or the given one if there is none |
| `DnsMsg.ResultWhen` | src/dns.c:542-559 | the result of dns_get_ttl over the records of a message: -1 if it is not good, the given one if there are none but OPT, and otherwise the smallest of their clamped signed TTLs |
| `DnsMsg.UpdateTtl` | src/dns.c:561-568 | its two assertions hold exactly if the records fill the message |
| `DnsMsg.AgedWalk` | src/dns.c:542-568 | rewriting TTLs keeps header, question and record layout, so a message whose records fill it stays one |
| `DnsMsg.UsableForever` | src/dns.c:371-568 | after a good reply has been accepted and stripped, any number of reads and ageings leave a message that its records fill, so the assertions of dns_update_ttl hold every time |
| `DnsMsg.AfterOpsWalk` | src/dns.c:542-568 | any number of reads and ageings of any message leave it filled by its records exactly if it was before |
| `DnsMsg.UseReply` | src/dns.c:394-568 | the same as a run over one buffer: accepted exactly as dns_check_reply does, left as the stripped reply after all operations, and the assertions hold exactly if the stripped reply is filled by its records or nothing is aged; for a good reply they do |
| `CacheMsgs.PathFreeWhen` | src/CacheMsg.zig:87-105 | that any updates under any clock readings are one update at the latest time seen holds of an entry exactly if each of its records' TTLs, OPT's aside, is at most 2^31 or is 2^32 - 1 |
| `CacheMsgs.PathIndependent` | src/CacheMsg.zig:87-105 | for such entries any updates under any clock readings leave the entry as one update at the latest time seen does, message bytes included |
| `CacheMsgs.AfterRecords` | src/CacheMsg.zig:87-105 | an update by records: with a clock that has moved on the elapsed seconds are taken from the entry's TTL and from that of each record other than OPT, of which one second is left at least, and nothing else changes |
| `CacheMsgs.AfterAfter` | src/CacheMsg.zig:87-105 | two updates are one at the later time |
| `CacheMsgs.AgeTwice` | src/dns.c:528-540 | ageing a TTL of at most 2^31 - 1 in two steps or one gives the same TTL |
| `CacheMsgs.AgeTwiceDiffers` | src/dns.c:528-540 | a TTL for which the number of steps matters |
| `CacheMsgs.StepsAgreeWhen` | src/dns.c:528-540 | the steps never matter exactly for the TTLs up to 2^31 and for 2^32 - 1 |
| `CacheMsgs.AgeForm` | src/dns.c:528-540 | the aged TTL in closed form, wrap-around included |
| `CacheMsgs.SmallestAged` | src/CacheMsg.zig:94-105 | while the entry's TTL stays positive it stays the smallest TTL of the message |
| `CacheMsgs.SmallestBounds` | src/dns.c:494-526 | with a smallest TTL that is not negative, all TTLs are at most 2^31 - 1 |
| `CacheMsgs.NewEntry` | src/cache.zig:166-201 | an entry is made exactly if dns_get_ttl's result is positive, with that TTL, which is the smallest one in its message unless there are no records but OPT |
| `CacheMsgs.CacheMsg.UpdateTtl` | src/CacheMsg.zig:94-105 | unless the 32-bit sum overflows, which is said exactly, the entry moves to the state of the new time; the assertions in the message update then hold exactly if its records fill the message or nothing is to be aged, and for an entry that was made from a checked reply always; such an entry keeps the smallest-TTL law |
| `CacheMsgs.NeverOverflows` | src/CacheMsg.zig:100 | the TTL of an entry that was made with one of at least zero never overflows, however often it is updated, while the clock is at most 2^31 - 1 seconds ahead |
| `CacheMsgs.CacheMsg.GetTtl` | src/CacheMsg.zig:108-110 | foretells what an update at the same time returns, or that it overflows |
| `CacheMsgs.CacheMsg.constructor` | src/CacheMsg.zig:30-41 | the entry's fields, the message copied whatever it is, and the refresh limit rounded towards zero whenever its 32-bit product does not overflow |
| `CacheMsgs.RefreshFits` | src/CacheMsg.zig:35 | the product overflows exactly if the TTL exceeds 2^31 - 1 divided by the percentage; a limit that does not lies between zero and the TTL for percentages up to 100 |
| `CacheMsgs.DivTruncMeans` | src/CacheMsg.zig:35 | the limit times one hundred is next to the product, on the side of zero |
| `CacheFile.LoadDumpAll` | src/CacheMsg.zig:126-169 | loading the concatenated dumps of any entries with non-empty messages gives them back in order, with added_ip false |
| `CacheFile.LoadDump` | src/CacheMsg.zig:126-169 | one entry is read back, whatever follows it and whatever the padding byte is |
| `CacheFile.Load` | src/CacheMsg.zig:126-155 | the load loop stops at the first incomplete entry |
| `CacheFile.LoadWhen` | src/CacheMsg.zig:126-155 | an entry is read exactly when its header, byte by byte, its message and then the rest stand there, and something follows the header |
| `CacheFile.LoadDumpTail` | src/CacheMsg.zig:126-155 | a file cut in the middle of an entry, or of its header, gives all entries before |
| `CacheFile.HeaderIs` | src/CacheMsg.zig:114-169 | the header of a dump byte by byte, signed numbers in two's complement |
| `CacheFile.Delete` | tool/dns_cache_mgr.c:70-107 | the tool exits with an error exactly if some entry's name has no text form; otherwise the new file holds, byte for byte and in order, exactly the entries whose text name neither is nor ends, behind a dot, with one of the suffixes |
| `CacheFile.KeptWhen` | tool/dns_cache_mgr.c:70-107 | the kept entries are, in order, exactly those whose text name none of the suffixes is or ends behind a dot |
| `CacheFile.TextNameReads` | tool/dns_cache_mgr.c:24-51 | the text name is that of the labels behind the twelve header bytes |
| `CacheFile.Next` | tool/dns_cache_mgr.c:24-51 | an entry is read exactly if its name has a text form, and that is the text, in a buffer that is used again and again |
| `CacheFile.Matches` | tool/dns_cache_mgr.c:85-95 | one of the suffixes is a whole-label suffix of the name |
| `CacheFile.DumpDeleteLoad` | tool/dns_cache_mgr.c:70-107 | dump, delete and load together give exactly the kept entries |
| `CacheFile.Restart` | src/CacheMsg.zig:126-169 | entries in memory that are dumped and loaded come back the same and as sound as they were, smallest-TTL law included, so that their ageing goes on as before |
| `CacheFile.Restore` | src/CacheMsg.zig:126-155 | a loaded entry has the fields of its dump, and its message is not checked |
| `CacheIgnore.Ignored.Add` | src/cache_ignore.zig:21-43 | refused exactly when the name is not made of at most eight labels of 1 to 63 bytes, or has more than 253 bytes; otherwise its label list joins the set |
| `CacheIgnore.Ignored.IsIgnored` | src/cache_ignore.zig:45-63 | for a name made of labels true exactly when some added domain's label list ends its label list; with an empty set never, for a name that does not begin with labels and a null byte otherwise always |
| `CacheIgnore.Ignored.Agrees` | src/cache_ignore.zig:45-63 | looking up the listed suffixes decides that |
| `CacheIgnore.Ignored.LevelsExist` | src/cache_ignore.zig:11-14 | the mask is non-zero whenever the set is not empty |
| `CacheIgnore.QnameDomains` | src/dns.c:570-612 | lists the starts of the suffixes whose label count is recorded, longest first and at most eight, or reports a malformed name |
| `CacheIgnore.ListedIf` | src/dns.c:602-607 | every suffix whose label count is recorded is listed |
| `CacheIgnore.ListedOnly` | src/dns.c:602-607 | only suffixes that start at a label are listed |
| `CacheIgnore.NoneRecorded` | src/dns.c:598-600 | the early return for names with too few labels loses nothing |
| `CacheIgnore.LevelParse` | src/dns.c:579-596 | a name counted up to its first zero byte is malformed exactly if its bytes are not labels |
| `CacheIgnore.LevelWhen` | src/dns.c:579-596 | so many labels are counted exactly if so many labels and a null byte stand in front |
| `EvRun.GoesSound` | src/EvLoop.zig:375-426 | every run, over any number of turns and whatever coroutines do, ends well with every reference given back that the loop took, or at a step that the program must not take: an operation that is not allowed in that very state, or the last reference given back while a coroutine waits |
| `EvRun.DoesAllSound` | src/EvLoop.zig:72-141 | what keeps over any operations, cancels in cancels included: objects are the same or on record as destroyed, pinned ones live, identities are not used twice, and a canceled object is not waited on again |
| `EvRun.CancelEmpties` | src/EvLoop.zig:124-141 | the two assertions that end a cancel hold whatever the two coroutines do: both slots are free |
| `EvRun.ServesSound` | src/EvLoop.zig:408-423 | the same for one entry of a batch, while the loop holds a reference of its own |
| `EvRun.TrackedLater` | src/EvLoop.zig:407-409 | the record of destroyed addresses goes on telling exactly which entries of the batch are out of date, even when addresses are used again |
| `EvRun.HeldSound` | src/EvLoop.zig:411-413 | an object whose reference the loop holds cannot go in between, and giving the reference back is sound or ends the run as it must |
| `EvLoop.Loop.Run` | src/EvLoop.zig:375-426 | the loop, which goes by address, does in any number of turns exactly what the run told by identity does: same operations in the same order, same resumptions, same epoll_ctl calls, same end; all its own assertions hold and every epoll_ctl call is legal; in a run that ends well no turn loses a wake-up |
| `EvLoop.Loop.RunTurn` | src/EvLoop.zig:375-426 | the same for one turn, with the calls of its change list, each entry handled once; and no wake-up is lost |
| `EvLoop.Loop.Dispatch` | src/EvLoop.zig:399-424 | a batch served by address, with the record of destroyed addresses, is served as by identity: no coroutine of another object runs, even when addresses are used again |
| `EvLoop.Loop.DispatchOne` | src/EvLoop.zig:408-423 | an entry whose object is gone changes nothing; otherwise the reader is resumed first if bits 0x2003 or an error, 0x18, are reported, then the writer for 0x4 or an error if it waits by then; without those bits nobody is resumed and nothing changes; whoever was due at first has been resumed in the end, and the object lives until both have run |
| `EvWakes.ServesWakes` | src/EvLoop.zig:408-423 | the same of the run told by identity |
| `EvWakes.TurnWakes` | src/EvLoop.zig:375-426 | no wake-up is lost: whoever waits when the kernel is asked, and whose events it reports, has been resumed when the turn has ended well, whatever the coroutines of other objects did before it was his turn |
| `EvWakes.GoesWakes` | src/EvLoop.zig:375-426 | the same of every turn of a run of any length that ends well |
| `EvWakes.ServesAllWakes` | src/EvLoop.zig:399-424 | the same of a batch; and through all of it whoever waited still waits there or has been resumed |
| `EvWakes.DoesAllFollows` | src/EvLoop.zig:72-141 | that holds of any operations as well: a wait slot is emptied only by resuming the coroutine in it |
| `EvWakes.ServesMeans` | src/EvLoop.zig:408-423 | one entry step by step: a reference is taken, the two slots are served in order, each resumed coroutine leaving its slot and running its script, and the reference is given back |
| `EvWakes.CancelWakes` | src/EvLoop.zig:124-141 | a cancel that ends well has resumed both coroutines that waited, the reader first, and nobody waits on the object again |
| `EvWakes.DoesMeans` | src/EvLoop.zig:72-141 | what each operation does, and exactly when the program must not ask for it |
| `EvWakes.BatchMeans` | src/EvLoop.zig:383-405 | a batch has one entry for each reported descriptor that someone waits on, with its object, in order |
| `EvLoop.Loop.Serve` | src/EvLoop.zig:418-422 | a waiting coroutine runs exactly if one of its events, or an error, is reported |
| `EvLoop.Loop.Wait` | src/EvLoop.zig:383-397 | the kernel, whose interest then equals the wait slots, reports exactly objects that someone waits on, with their identities |
| `EvLoop.Loop.ApplyChange` | src/EvLoop.zig:321-339 | afterwards a descriptor is registered exactly if a coroutine waits on its object, with the object's address and for bits 0x2003 exactly if a reader waits, 0x4 exactly if a writer does, and edge-triggered; the change list is empty, and the calls were those for its entries in the order of the walk |
| `EvLoop.Loop.ApplyOne` | src/EvLoop.zig:323-337 | each change issues the one legal call, or none when old and new events agree |
| `EvState.OneCallEach` | src/EvLoop.zig:321-339 | in whatever order the list is walked, a descriptor gets at most one call, and none when its slots are back where they were |
| `EvLoop.Loop.AddListener` | src/EvLoop.zig:304-307 | the state before the first change is remembered, then the slot is taken |
| `EvLoop.Loop.DelListener` | src/EvLoop.zig:310-313 | the same, then the slot is given back |
| `EvLoop.Loop.CacheChange` | src/EvLoop.zig:315-319 | only the first change since the last application is recorded |
| `EvLoop.Loop.OnCloseFd` | src/EvLoop.zig:341-347 | the descriptor is not registered when it is closed: it is unregistered exactly if a non-empty state was still to be applied |
| `EvState.NotRegistered` | src/EvLoop.zig:341-347 | an object without waiting coroutines is registered exactly if a non-empty state is still to be applied |
| `EvLoop.Loop.Destroy` | src/EvLoop.zig:87-100 | the object is gone, its descriptor unregistered and its address on record |
| `EvLoop.Loop.Unref` | src/EvLoop.zig:87-100 | the object goes with its last reference; the assertions fail exactly if a coroutine still waits on it |
| `EvLoop.Loop.Ref` | src/EvLoop.zig:78-81 | one reference more |
| `EvLoop.Loop.New` | src/EvLoop.zig:72-76 | a new object with one reference and an identity of its own |
| `EvLoop.Loop.Cancel` | src/EvLoop.zig:124-141 | the reader is resumed first, then the writer if it still waits, while the object is held; both have been resumed in the end and nobody waits on it again; its closing assertions are proved |
| `EvLoop.Loop.Wake` | src/EvLoop.zig:310-313 | the resumed coroutine leaves its slot before it goes on |
| `EvLoop.Loop.Exec` | src/EvLoop.zig:72-141 | each operation has its effect exactly if the program may ask for it, and otherwise ends the run |
| `EvState.EventsTell` | src/EvLoop.zig:49-62 | two slot states ask for the same events only if they are equal, and for none only if both slots are free |
| `EvState.EventBits` | src/EvLoop.zig:49-62 | which bits they ask for, in numbers |
| `EvState.CallMeans` | src/EvLoop.zig:323-337 | whether a change needs a call, which, and for what events |
| `Ring.List.LinkToHead` | src/Node.zig:82-84 | prepends to the sequence |
| `Ring.List.LinkToTail` | src/Node.zig:86-88 | appends to it |
| `Ring.List.Unlink` | src/Node.zig:115-120 | removes a member from it |
| `Ring.List.MoveToHead` | src/Node.zig:91-96 | moves a member to its front |
| `Ring.List.MoveToTail` | src/Node.zig:99-104 | moves a member to its back |
| `Ring.List.IsEmpty` | src/Node.zig:32-34 | true exactly for the empty sequence |
| `Ring.Sweep` | src/Node.zig:52-64 | a forward walk yields all nodes in order even when any of them are unlinked as they are yielded, and the others stay linked in order |
| `Ring.SweepBack` | src/Node.zig:66-78 | the backward walk yields them in the opposite order under the same conditions |
| `Ring.KeptWhen` | src/Node.zig:52-78 | the nodes left by a sweep are, in order, those that were not unlinked |
| `Ring.ReverseAt` | src/Node.zig:66-78 | the opposite order, place by place |

## Left out

- Reading the lists from files, standard input and gzip archives (`src/dnl.c:428-472`): loading starts from a sequence of candidate names per tag.
- mmap, mremap, page rounding and failing allocation (`src/dnl.c:78-89`): the arena grows without bound; all name addresses are assumed to stay below the 29-bit end marker, as the program assumes.
- The packing of tag, link and length into one record header (`src/dnl.c:31-37`): they are separate fields.
- The hash function (`src/dnl.c:117`): any function to 32 bits.
- DomainList.Dnl.GetTag: its precondition is the source's own assertions, a table that is not null and a query of 1..255 bytes.
- CacheMsgs.CacheMsg.UpdateTtl: the clock may be at most 2^31 - 1 seconds ahead of the entry, because the source converts the difference to a 32-bit integer; header, name and question fit the message, which loading does not check.
- CacheMsgs.CacheMsg.constructor: when the product of TTL and refresh percentage overflows 32 bits, which `CacheMsgs.RefreshFits` characterises, the source aborts or is undefined, depending on the build; nothing is said of the limit then.
- CacheMsgs.NewEntry: as for the constructor, nothing is said of the refresh limit when its product overflows.
- CacheFile.Delete: the temporary file, its renaming and what is printed; what the tool does with a file that is not a sequence of complete entries, each with a name that ends at its first zero byte.
- CacheFile.Restart: dumping leaves out expired entries (`src/cache.zig:255-257`); the entries here are those that are dumped.
- CacheFile.Load: the limit on the number of entries in `src/cache.zig:222`, and adding the entries to the cache's hash map and list.
- The cache's hash map, its eviction and its duplicate check (`src/cache.zig:14-108`, `src/cache.zig:180-196`).
- IpsetMsg.InitAddMsg: set names arrive already split; the option parsers (`src/ipset.c:394-455`, `src/ipset.c:509-537`) are not modelled, and a name of a length for which the program exits gives a negative result.
- AddCtxs.AddCtx.TestIps: sockets and the contents of replies; an answer is a bit per test request, and fewer answers than requests stand for failures to send or receive.
- AddCtxs.AddCtx.EndAddIp: the replies to add requests, which are only logged.
- The single-address test (`src/ipset.c:722-743`) and its context.
- EvLoop.Loop.Run: the coroutines themselves, timers, errors of epoll_ctl other than an illegal call, the size of the event array, and the socket functions built on the two wait slots; the order in which the change list is walked is arbitrary.
- Other users of messages: truncated, empty and error replies (`src/dns.c:344-369`), the EDNS buffer size (`src/dns.c:279-320`), and the record visitors that test and add addresses (`src/dns.c:407-485`), which would be further instances of the same walk.
- Tags, reference counters, string lists, the verdict cache, local records, option parsing and the address routing data.

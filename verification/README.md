# Verified models of the resolver, buffers and device protocols

A Dafny 4.11 project that models the hardest logic of the repository and proves what it is meant to do:

* the DNS name codec, query builder and answer parser of the bundled c-ares resolver
  (RFC 1035 sections 3.1, 4.1.2 and 4.1.4),
* its query lists, cancellation, destination ordering (RFC 6724 section 6) and the two lookup machines behind
  `ares_getaddrinfo` and `ares_gethostbyname`,
* the in-place string replacement, tokenizer, number conversions and block buffers of the base library,
* the record-list paging and the SIP dialog table of the GB28181 device and server.

`dafny verify dfyconfig.toml` checks everything.

## How the project is laid out

One module per source file or component. Code that changes things step by step is a method on an array or a
class with the source's fields. Each such method is proved against a function (or a predicate) on values, and the
properties are then lemmas about that function.

| Module | Subject |
|---|---|
| `Octets`, `Slices` | bytes, C strings, network-order fields; facts about sequence slices |
| `DomainNames` | names as label lists, as escaped text and as wire form; the maps between them and their inverses |
| `ExpandName`, `CreateQuery` | decoder and encoder as loops over buffers, and the two round trips |
| `ParseAddrInfo`, `AddrInfoList` | the answer loop; the linked-list helpers it relies on |
| `Responses` | records, sections and responses as they are written (RFC 1035 section 4.1.3, RFC 6891), and that decoding undoes writing |
| `CancelEffects`, `QueryList` | what cancelling does when callbacks send queries and cancel again; circular lists with a dummy head, and `ares_cancel` |
| `AddressPrefix`, `AddressSort`, `HostAddresses` | three prefix comparisons, the RFC 6724 comparator and relinking, the sortlist sort |
| `PolicyTable` | the policy table of RFC 6724 section 2.1 and its scopes, by longest prefix, against the tests of the code |
| `GetAddrInfo`, `GetHostByName` | the lookup machines; answers are events that arrive later, in any order |
| `StringReplace`, `StringTokenize`, `NumberConversions`, `Buffers` | the base library |
| `RecordPaging`, `SipSessions` | the device and server protocols |

Three ideas carry most of the proofs. A name is the label list `Walk` reads; its recursion is ordered by (pointers left,
bytes left), which is also why both C loops end on looping compression. In `StringReplace` the distance between
the read and the write position is the growth still to come or the shrinkage already made, so no store reaches
text that is still to be scanned. The lookup machines are functions from state and answer to state; an invariant
and a budget that every answer lowers give "exactly one callback" and termination over every run.

## Findings

Places where the code does less than a caller might expect. Each is stated exactly, with a concrete input.

* Expanding a name and encoding the expansion gives the labels back exactly when no label holds a NUL byte
  (`CreateQuery.DecodeEncode`, `CreateQuery.NulLabelExample`).
* The RFC 6724 comparator is a strict total order on a list exactly when no three elements straddle; V4-mapped
  destinations next to IPv4 ones can, and then precede each other in a circle (`AddressSort.OrderIffNoStraddle`,
  `AddressSort.MappedCycleExample`).
* The source says that queries added by callbacks are not cancelled. A callback that cancels the channel again cancels
  them: only the queries present on entry are called back exactly when no callback cancels while a query sent
  meanwhile is pending (`CancelEffects.CancelsEntryOnlyIff`, `CancelEffects.NestedCancelExample`).
* Label and precedence are those of the policy table for every IPv6 address but the unspecified one, which the test for
  ::/96 leaves out and which gets those of ::/0 (`PolicyTable.PolicyExact`).
* An IPv4 sortlist pattern with an address bit outside its mask matches nothing, not even its own address
  (`HostAddresses.MaskOfLeadingOnes`).
* An unreachable destination is ranked by a source address that was never written; those bytes cannot matter exactly
  when the other destination has a source (`AddressSort.JunkDecidesIff`).
* `ares_getaddrinfo` ends on the first answer reporting channel destruction; the callback is the last thing to
  happen exactly when that answer was the last one due (`GetAddrInfo.DestructionEnds`,
  `GetAddrInfo.DestructionExample`).
* `ares_getaddrinfo` reports success without any address exactly when its last answer is a response made of aliases
  only and no answer brought an address (`GetAddrInfo.QuerySucceedsWithoutAddresses`,
  `GetAddrInfo.AliasesOnlyExample`). Unless the caller set ARES_AI_NOSORT it then hands an empty list to
  `ares__sortaddrinfo`, which reads the first element of an empty array (`AddressSort.SortAddrInfo`).
* `ares_getaddrinfo` drops addresses it has collected exactly when the response that comes last cannot be parsed
  (`GetAddrInfo.AddressesReachUser`, `GetAddrInfo.AddressesDroppedExample`).
* A session that is sending when its dialog is cancelled is dropped without being stopped, and so is one whose
  recording ends (there the source counts on the media server). Over every run exactly the sessions a BYE removed
  have been stopped (`SipSessions.HandleAll`, `SipSessions.CancelledWhileSendingExample`,
  `SipSessions.EndedWithoutStopExample`).
* `StringReplaceAllT` ends with a `memcpy` of overlapping cells exactly when the text shrinks and what lies behind the
  last occurrence is longer than all that has been freed (`StringReplace.LastCopyOverlaps`). C promises nothing
  for such a copy; the text is right if it runs upwards and can be wrong if it does not
  (`StringReplace.OverlapExample`).
* `StringReplaceAllT` returns twice the number of replacements when the text grows (`StringReplace.Text.ReplaceAll`,
  `StringReplace.CountedTwiceExample`).
* A nonzero number behind a `-` is accepted by the unsigned parsers unless some prefix of its digits is a multiple of
  the modulus and something other than a zero follows it (`NumberConversions.RightUnlessUnsignedMinus`,
  `NumberConversions.UnsignedMinusExample`).
* `BlockBuffer::replace` of a stretch that reaches the end cuts the buffer there before it appends, so when appending
  fails the tail is lost (`Buffers.BlockBuffer.Replace`, `Buffers.ReplaceLosesTailExample`);
  `BlockBuffer::reserve` gives free space for the request less the old capacity (`Buffers.BlockBuffer.Reserve`,
  `Buffers.ReserveFallsShortExample`).

## Model

| member | source | states |
|---|---|---|
| `DomainNames.WalkLabels` | libexosip2-5.3.0/c-ares/ares_expand_name.c:152-192 | whatever pointers are followed, every label of an accepted name has 1 to 63 bytes |
| `DomainNames.SpanInMessage` | libexosip2-5.3.0/c-ares/ares_expand_name.c:101-129 | the bytes a name takes at its own position (up to its first pointer or its zero byte) are at least one and lie in the message |
| `DomainNames.ExpansionBound` | libexosip2-5.3.0/c-ares/ares_expand_name.c:146-197 | each pointer adds at most twice the message length to the expansion, for any message and budget |
| `DomainNames.ExpansionFitsInt` | libexosip2-5.3.0/c-ares/ares_expand_name.c:146-197 | for any message of DNS size the `int` that counts the expansion cannot overflow |
| `DomainNames.WalkReadsWire` | libexosip2-5.3.0/c-ares/ares_create_query.c:138-174 | a label list written uncompressed anywhere in any message is read back as that list and spans exactly its bytes |
| `DomainNames.WalkReadsCompressed` | libexosip2-5.3.0/c-ares/ares_expand_name.c:155-171 | labels followed by a pointer, anywhere in any message, are those labels followed by what stands at the 14-bit target, with one pointer less to spend, and span their own bytes and two |
| `DomainNames.LoopRefused` | libexosip2-5.3.0/c-ares/ares_expand_name.c:163-170 | a name whose pointer leads back to its own start is refused, whatever the budget |
| `DomainNames.NoPointerLeft` | libexosip2-5.3.0/c-ares/ares_expand_name.c:166-170 | once the budget is spent, a compressed name is refused |
| `DomainNames.BudgetOnlyCuts` | libexosip2-5.3.0/c-ares/ares_expand_name.c:166-170 | more pointers allowed never change a name that could be read |
| `DomainNames.FarPointerExample` | libexosip2-5.3.0/c-ares/ares_expand_name.c:105-113 | a pointer to offset 256 leads there and not to offset 0 |
| `DomainNames.ReadLabelsDotted` | libexosip2-5.3.0/c-ares/ares_expand_name.c:114-135 | the escaped, dotted text of any label list reads back as that list |
| `DomainNames.ReadLastBackslash` | libexosip2-5.3.0/c-ares/ares_create_query.c:145-152 | a backslash that ends the text stands for itself |
| `DomainNames.ReadNameDotted` | libexosip2-5.3.0/c-ares/ares_create_query.c:132-171 | the same through the special case of the lone dot: no label list has "." as its text |
| `DomainNames.ReadLabelsGood` | libexosip2-5.3.0/c-ares/ares_create_query.c:138-171 | accepted text stands for labels of 1 to 63 bytes only |
| `DomainNames.CanonicalSameName` | libexosip2-5.3.0/c-ares/ares_create_query.c:138-171 | the canonical text of a name stands for the same labels as the name |
| `DomainNames.CanonicalPlain` | libexosip2-5.3.0/c-ares/ares_create_query.c:138-171 | on text without backslashes canonical form only drops a trailing dot |
| `DomainNames.WireFitsText` | libexosip2-5.3.0/c-ares/ares_create_query.c:105-109 | length bytes plus labels never outgrow the text by more than one: why two extra bytes suffice |
| `ExpandName.NameLength` | libexosip2-5.3.0/c-ares/ares_expand_name.c:143-198 | for any message and offset, also past the end: -1 exactly on unreadable names (cut off, reserved bits, stray or too many pointers), otherwise the exact text length; terminates on pointer loops |
| `ExpandName.LabelLength` | libexosip2-5.3.0/c-ares/ares_expand_name.c:174-182 | counting one label gives the length of its escaped form |
| `ExpandName.WalkPointer` | libexosip2-5.3.0/c-ares/ares_expand_name.c:155-171 | a pointer is refused in exactly these three cases and otherwise continues the same name elsewhere |
| `ExpandName.Expand` | libexosip2-5.3.0/c-ares/ares_expand_name.c:65-138 | bad name exactly when the length walk says so; otherwise the buffer is filled exactly with the text and its NUL, and `enclen` is at least 1 and stays in the message |
| `ExpandName.ExpandLabels` | libexosip2-5.3.0/c-ares/ares_expand_name.c:101-129 | the loop without checks follows the path the length walk took, reads inside the message, terminates, and fills the sized buffer to the last byte |
| `ExpandName.ExpandLabel` | libexosip2-5.3.0/c-ares/ares_expand_name.c:116-125 | one round appends the escaped label and its dot, within the room left |
| `ExpandName.RoomForLabel` | libexosip2-5.3.0/c-ares/ares_expand_name.c:80-127 | wherever the unchecked loop is, the next label and its dot fit what is left of the buffer |
| `ExpandName.RootSpan` | libexosip2-5.3.0/c-ares/ares_expand_name.c:85-99 | a name that expands to nothing takes two bytes if it starts with a pointer, else one |
| `CreateQuery.Create` | libexosip2-5.3.0/c-ares/ares_create_query.c:87-206 | never writes past its allocation; refuses exactly .onion names, empty or overlong labels and names over 255 bytes, leaving no buffer; otherwise the bytes are header, wire form, question fields and EDNS record |
| `CreateQuery.WriteLabels` | libexosip2-5.3.0/c-ares/ares_create_query.c:138-171 | the label loop fails exactly on unreadable text and otherwise writes the counted labels, leaving room for the terminator |
| `CreateQuery.ScanLabel` | libexosip2-5.3.0/c-ares/ares_create_query.c:145-152 | the counting pass finds the unescaped length and the label's end |
| `CreateQuery.CopyLabel` | libexosip2-5.3.0/c-ares/ares_create_query.c:160-165 | the copying pass stores exactly the bytes the counting pass counted |
| `CreateQuery.MessageFits` | libexosip2-5.3.0/c-ares/ares_create_query.c:105-111 | the finished message is never longer than the allocation made from the text |
| `CreateQuery.EncodeDecode` | libexosip2-5.3.0/c-ares/ares_create_query.c:105-198 | decoding the message at offset 12 gives the canonical form of the name, spanning exactly the encoded name; type, class and counts read back |
| `CreateQuery.HeaderCounts` | libexosip2-5.3.0/c-ares/ares_create_query.c:115-130 | id, recursion flag, question count and the three record counts read back from the header, all other bits are zero |
| `CreateQuery.OnionExactly` | libexosip2-5.3.0/c-ares/ares_create_query.c:101-103 | a name is refused as .onion exactly when its last six or seven bytes spell that suffix, case aside, with or without the final dot |
| `Responses.EdnsReadsBack` | libexosip2-5.3.0/c-ares/ares_create_query.c:179-187 | with a payload size the last 11 bytes of the message are read as an OPT record of the root with that size as its class |
| `CreateQuery.DecodeEncode` | libexosip2-5.3.0/c-ares/ares_expand_name.c:101-135 | for any readable, possibly compressed name, the encoder reads its expansion as the same label sequence if and only if no label has a NUL byte |
| `CreateQuery.NulLabelExample` | libexosip2-5.3.0/c-ares/ares_expand_name.c:116-125 | a readable name of one NUL byte whose expansion reads back as the root |
| `CreateQuery.DecodeEncodeAccepted` | libexosip2-5.3.0/c-ares/ares_create_query.c:101-199 | and it accepts that expansion exactly when it is no .onion name and has at most 255 wire bytes |
| `ParseAddrInfo.Parse` | libexosip2-5.3.0/c-ares/ares__parse_into_addrinfo.c:48-255 | on success the caller's lists grow by exactly the answering addresses and the aliases, in message order; on every other status they are unchanged |
| `ParseAddrInfo.ReadAnswers` | libexosip2-5.3.0/c-ares/ares__parse_into_addrinfo.c:91-230 | for every announced count the loop succeeds exactly when all records and alias targets can be read, with the cursor always inside the message |
| `ParseAddrInfo.ReadAnswer` | libexosip2-5.3.0/c-ares/ares__parse_into_addrinfo.c:94-229 | one round either adds exactly what its record contributes and moves the cursor behind it, or shows the response unreadable |
| `ParseAddrInfo.ReadRecord` | libexosip2-5.3.0/c-ares/ares__parse_into_addrinfo.c:94-117 | owner and fixed fields are read exactly when they and the data lie inside the message |
| `ParseAddrInfo.TakeAddress` | libexosip2-5.3.0/c-ares/ares__parse_into_addrinfo.c:119-191 | a node is added exactly for an Internet A record of 4 bytes or AAAA record of 16 whose owner is the current host name, case aside |
| `ParseAddrInfo.TakeAlias` | libexosip2-5.3.0/c-ares/ares__parse_into_addrinfo.c:193-221 | an alias record changes the host name to its target and is recorded; any other record changes nothing |
| `ParseAddrInfo.PickedExact` | libexosip2-5.3.0/c-ares/ares__parse_into_addrinfo.c:119-209 | the records taken are exactly those whose owner matches the host name as the aliases before them left it, each once, in order |
| `ParseAddrInfo.AliasIsFollowed` | libexosip2-5.3.0/c-ares/ares__parse_into_addrinfo.c:119-205 | behind an alias and up to the next one, a record is taken if and only if it holds an address and its owner is the target of that alias, case aside |
| `ParseAddrInfo.QuestionIsAnswered` | libexosip2-5.3.0/c-ares/ares__parse_into_addrinfo.c:119-191 | before any alias the name is that of the question |
| `ParseAddrInfo.StatusExactly` | libexosip2-5.3.0/c-ares/ares__parse_into_addrinfo.c:232-248 | no data is reported exactly for a readable response without an alias and without an address of the name asked for; bad response exactly for an unreadable one |
| `Octets.EqualExactly` | libexosip2-5.3.0/c-ares/ares__parse_into_addrinfo.c:119-121 | names are compared byte for byte up to the case of ASCII letters |
| `Responses.RecordReadsBack` | libexosip2-5.3.0/c-ares/ares__parse_into_addrinfo.c:94-117 | a record written anywhere in any message is read back: owner, type, class, time to live, length, and the place of its data |
| `Responses.RecordsReadBack` | libexosip2-5.3.0/c-ares/ares__parse_into_addrinfo.c:91-230 | so is an answer section of any number of records |
| `Responses.ResponseDecodes` | libexosip2-5.3.0/c-ares/ares__parse_into_addrinfo.c:66-230 | a message written from a question and records, its aliases holding names, decodes into exactly these |
| `Responses.NodeReadBack` | libexosip2-5.3.0/c-ares/ares__parse_into_addrinfo.c:135-150 | what is copied of an address record is its family, the bytes written and the time to live |
| `Responses.CnameReadBack` | libexosip2-5.3.0/c-ares/ares__parse_into_addrinfo.c:193-217 | what is recorded of an alias is its time to live, its owner and its target, each in its place |
| `Responses.AliasFollowedExample` | libexosip2-5.3.0/c-ares/ares__parse_into_addrinfo.c:193-205 | for any question a, a alias of b and an address of b: the second record is taken and the first is not |
| `ParseAddrInfo.AliasesExact` | libexosip2-5.3.0/c-ares/ares__parse_into_addrinfo.c:193-217 | the aliases recorded are exactly the CNAME records of class Internet, in order |
| `ParseAddrInfo.RecordAdvances` | libexosip2-5.3.0/c-ares/ares__parse_into_addrinfo.c:94-117 | a decoded record moves the cursor by at least 11 bytes and ends inside the message |
| `ParseAddrInfo.RecordsFit` | libexosip2-5.3.0/c-ares/ares__parse_into_addrinfo.c:92-230 | so announced answers are accepted only if 11 bytes each fit the message |
| `ParseAddrInfo.DecodedInMessage` | libexosip2-5.3.0/c-ares/ares__parse_into_addrinfo.c:66-230 | every address copied out of an accepted response lies inside it; it announced one question and exactly the records decoded, and its name at offset 12 is the question |
| `AddrInfoList.Append` | libexosip2-5.3.0/c-ares/ares_getaddrinfo.c:188-205 | the NULL-terminated list gains a new last node |
| `AddrInfoList.Concatenate` | libexosip2-5.3.0/c-ares/ares_getaddrinfo.c:207-223 | two disjoint lists become one, in order, also when the first is empty |
| `QueryList.InitHead` | libexosip2-5.3.0/c-ares/ares_llist.c:27-31 | a head alone is the empty circular list |
| `QueryList.IsEmpty` | libexosip2-5.3.0/c-ares/ares_llist.c:41-43 | true exactly on the empty list |
| `QueryList.Append` | libexosip2-5.3.0/c-ares/ares_llist.c:46-52 | a new node goes to the end and every link still has its opposite |
| `QueryList.Remove` | libexosip2-5.3.0/c-ares/ares_llist.c:55-62 | the node at any position leaves the list, the rest keep their order; a node in no list is left alone |
| `QueryList.TakeOver` | libexosip2-5.3.0/c-ares/ares_cancel.c:40-46 | the whole list moves to the copied head and the original head is the empty list |
| `QueryList.Cancel` | libexosip2-5.3.0/c-ares/ares_cancel.c:26-63 | does to the lists what `CancelEffects.CancelPending` says, for callbacks that send queries and cancel the channel again, to any depth; every query present on entry ends up on no list, what remains has been sent meanwhile, and without STAYOPEN, and only then, sockets close exactly when some call leaves its list empty: always if no query remains, never if one does and no callback cancels |
| `CancelEffects.CancelConserves` | libexosip2-5.3.0/c-ares/ares_cancel.c:34-54 | every query present on entry or sent meanwhile is called back once or is pending, never lost, never both, never twice |
| `CancelEffects.CalledInOrder` | libexosip2-5.3.0/c-ares/ares_cancel.c:47-53 | whatever the callbacks do, the queries present on entry are called back in list order |
| `CancelEffects.CancelsEntryOnlyIff` | libexosip2-5.3.0/c-ares/ares_cancel.c:36-54 | a call of ares_cancel calls back exactly the queries present on entry, once and in list order, if and only if no callback cancels while a query sent meanwhile is pending; then exactly what was sent remains, and the list is found empty if and only if some callback cancels or none sends |
| `CancelEffects.CallsEntryOnlyIff` | libexosip2-5.3.0/c-ares/ares_cancel.c:47-53 | the same for its loop, with queries pending already; and then the list is found empty by some call exactly when some callback cancels |
| `CancelEffects.EmptiedExactly` | libexosip2-5.3.0/c-ares/ares_cancel.c:55-62 | in every case: the list is found empty if and only if it is among the lists the call and the calls nested in it, to any depth, leave at their ends |
| `CancelEffects.NeverEmptiedExample` | libexosip2-5.3.0/c-ares/ares_cancel.c:55-62 | a nested call after which a query is still pending, so that no call finds the list empty |
| `CancelEffects.RunCallsNone` | libexosip2-5.3.0/c-ares/ares_cancel.c:51 | one callback has nothing called back exactly when it does not cancel what is pending |
| `CancelEffects.CancelOnlySends` | libexosip2-5.3.0/c-ares/ares_cancel.c:36-53 | in particular when no callback cancels at all |
| `CancelEffects.NestedCancelExample` | libexosip2-5.3.0/c-ares/ares_cancel.c:47-53 | a callback that sends and cancels again: the query it sent is called back, the rest of the list being cancelled is not, until its turn |
| `QueryList.CancelEach` | libexosip2-5.3.0/c-ares/ares_cancel.c:47-53 | throughout the loop both circular lists are well formed and share no node |
| `QueryList.CallBack` | libexosip2-5.3.0/c-ares/ares_cancel.c:51 | a callback, even one that cancels the channel again, leaves the list being cancelled as it is |
| `QueryList.BypassedIsRing` | libexosip2-5.3.0/c-ares/ares_llist.c:57-58 | bypassing a node in both directions leaves a ring of the others |
| `QueryList.CancelOne` | libexosip2-5.3.0/c-ares/ares_cancel.c:49-52 | the successor remembered before the callback is still the successor after it and after unlinking |
| `QueryList.Unlink` | libexosip2-5.3.0/c-ares/ares_process.c:1433 | freeing a query takes its node out of the list of all queries |
| `QueryList.Channel.Send` | libexosip2-5.3.0/c-ares/ares_send.c:123-126 | a sent query joins at the end of all queries |
| `AddressPrefix.CommonPrefix` | libexosip2-5.3.0/c-ares/ares__sortaddrinfo.c:253-255 | the reference definition: the addresses agree on their first m bits exactly for m up to this number |
| `AddressPrefix.CommonPrefixLen` | libexosip2-5.3.0/c-ares/ares__sortaddrinfo.c:256-280 | the bit scan computes the length of the longest common prefix |
| `AddressPrefix.SubnetMatches` | libexosip2-5.3.0/c-ares/ares_init.c:2064-2089 | the byte-mask test holds exactly when the mask is at most 128 and the common prefix is at least as long |
| `AddressPrefix.BuildMask` | libexosip2-5.3.0/c-ares/ares_init.c:2068-2081 | byte k of the mask has as many leading ones as there are mask bits in that byte |
| `AddressPrefix.MaskedEqual` | libexosip2-5.3.0/c-ares/ares_init.c:2083-2086 | two bytes agree under a mask of r leading ones exactly when their first r bits agree |
| `AddressPrefix.BitNCmp` | libexosip2-5.3.0/c-ares/bitncmp.c:36-58 | zero exactly when the first n bits agree |
| `AddressPrefix.TopBitsCmp` | libexosip2-5.3.0/c-ares/bitncmp.c:46-57 | the loop over the last byte compares its first bits only |
| `AddressPrefix.CommonPrefixSymmetric` | libexosip2-5.3.0/c-ares/ares__sortaddrinfo.c:256-280 | the prefix length does not depend on the order of its arguments |
| `AddressPrefix.CommonPrefixUltrametric` | libexosip2-5.3.0/c-ares/ares__sortaddrinfo.c:256-280 | cpl(a, c) is at least the smaller of cpl(a, b) and cpl(b, c) |
| `AddressPrefix.CommonPrefixFull` | libexosip2-5.3.0/c-ares/ares__sortaddrinfo.c:279 | all bits agree on equal addresses only |
| `AddressSort.Rfc6724Compare` | libexosip2-5.3.0/c-ares/ares__sortaddrinfo.c:286-374 | the rules as executed, with the bit scan, compute the comparator the order lemmas are about |
| `AddressSort.PrecedesExactly` | libexosip2-5.3.0/c-ares/ares__sortaddrinfo.c:297-373 | one element precedes another exactly when the first rule that tells them apart prefers it, with the direction of every rule written out |
| `PolicyTable.PolicyExact` | libexosip2-5.3.0/c-ares/ares__sortaddrinfo.c:145-246 | every IPv6 address has one row of the policy table (longest matching prefix), and its label and precedence are those of the row if and only if it is not the unspecified address |
| `PolicyTable.Scope6Exact` | libexosip2-5.3.0/c-ares/ares__sortaddrinfo.c:89-113 | IPv6 scopes by prefix: multicast its own, ::1 and fe80::/10 link-local, fec0::/10 site-local, the rest global |
| `PolicyTable.Scope4Exact` | libexosip2-5.3.0/c-ares/ares__sortaddrinfo.c:114-135 | IPv4 scopes by prefix: 127.0.0.0/8 and 169.254.0.0/16 link-local, the rest global |
| `AddressSort.CompareAntisymmetric` | libexosip2-5.3.0/c-ares/ares__sortaddrinfo.c:286-374 | swapping the elements negates the result |
| `AddressSort.ClassesTransitive` | libexosip2-5.3.0/c-ares/ares__sortaddrinfo.c:297-349 | precedence carries over when rules 1 to 8 decide one of the two comparisons |
| `AddressSort.InClassTransitive` | libexosip2-5.3.0/c-ares/ares__sortaddrinfo.c:351-373 | where they do not, it carries over unless the three straddle |
| `AddressSort.StraddleIsCycle` | libexosip2-5.3.0/c-ares/ares__sortaddrinfo.c:351-373 | straddling elements precede each other in a circle |
| `AddressSort.OrderIffNoStraddle` | libexosip2-5.3.0/c-ares/ares__sortaddrinfo.c:286-374 | strict total order on any list with distinct original positions if and only if no three elements straddle |
| `AddressSort.OrderWithoutV4Mapped` | libexosip2-5.3.0/c-ares/ares__sortaddrinfo.c:286-374 | in particular on IPv4 and IPv6 destinations without V4-mapped ones |
| `AddressSort.MappedCycleExample` | libexosip2-5.3.0/c-ares/ares__sortaddrinfo.c:351-373 | three destinations of one host, two of them V4-mapped, in a circle |
| `AddressSort.PermutationIndices` | libexosip2-5.3.0/c-ares/ares__sortaddrinfo.c:467-491 | sorted elements name each original position exactly once |
| `AddressSort.JunkDecidesIff` | libexosip2-5.3.0/c-ares/ares__sortaddrinfo.c:297-333 | the unwritten source address of an unreachable destination decides nothing if and only if the other destination has a source, and then the other goes first |
| `AddressSort.SortAddrInfo` | libexosip2-5.3.0/c-ares/ares__sortaddrinfo.c:443-495 | reads out of bounds exactly on an empty list; fails exactly on a fatal source lookup and then leaves the list alone; otherwise the same nodes are relinked in sorted order, NULL at the end |
| `AddressSort.NothingLost` | libexosip2-5.3.0/c-ares/ares__sortaddrinfo.c:486-491 | every node of the old list is in the relinked one, which is as long |
| `AddressSort.Relink` | libexosip2-5.3.0/c-ares/ares__sortaddrinfo.c:486-491 | the list starting at the sentinel is exactly the nodes in sorted order |
| `HostAddresses.AddressIndex` | libexosip2-5.3.0/c-ares/ares_gethostbyname.c:467-491 | index of the first pattern of the address's family that matches, or the number of patterns; IPv6 patterns are compared by number of bits whatever their type |
| `HostAddresses.MaskOfLeadingOnes` | libexosip2-5.3.0/c-ares/ares_gethostbyname.c:478-489 | a mask of n leading ones matches exactly the addresses that agree with the pattern in n bits, provided the pattern has no bit outside its mask; else it matches none |
| `HostAddresses.SortAddresses` | libexosip2-5.3.0/c-ares/ares_gethostbyname.c:437-462 | in place, a stable permutation sorted by that index; one method for both families |
| `HostAddresses.ShiftDown` | libexosip2-5.3.0/c-ares/ares_gethostbyname.c:504-515 | elements with larger keys move up one place, and the gap stops behind the first that has not |
| `HostAddresses.StableSort` | libexosip2-5.3.0/c-ares/ares_gethostbyname.c:443-461 | insertion sort with any key: sorted, equal keys in their old order, a permutation |
| `HostAddresses.InsertStable` | libexosip2-5.3.0/c-ares/ares_gethostbyname.c:456-460 | stopping at an equal key puts an element at the end of its class and leaves the other classes as they were |
| `GetAddrInfo.HostQuery.constructor` | libexosip2-5.3.0/c-ares/ares_getaddrinfo.c:668-682 | a new query does its first lookup at once |
| `GetAddrInfo.HostQuery.RunNextLookup` | libexosip2-5.3.0/c-ares/ares_getaddrinfo.c:507-534 | the recursive lookup step as a function of the old state |
| `GetAddrInfo.HostQuery.RunNextDns` | libexosip2-5.3.0/c-ares/ares_getaddrinfo.c:684-751 | which name is sent next, and how many queries for it |
| `GetAddrInfo.HostQuery.HostCallback` | libexosip2-5.3.0/c-ares/ares_getaddrinfo.c:536-577 | the effect of one answer |
| `GetAddrInfo.CountsAsIsFirst` | libexosip2-5.3.0/c-ares/ares_getaddrinfo.c:753-765 | true exactly when the name has at least `ndots` dots |
| `GetAddrInfo.NextDnsKeeps` | libexosip2-5.3.0/c-ares/ares_getaddrinfo.c:684-751 | the next name in the fixed order is sent, or the list is at its end or the name cannot be built |
| `GetAddrInfo.NextDnsTakesOne` | libexosip2-5.3.0/c-ares/ares_getaddrinfo.c:684-751 | each DNS round considers exactly one more name while there is one |
| `GetAddrInfo.QueryAnswersConserved` | libexosip2-5.3.0/c-ares/ares_getaddrinfo.c:536-751 | over every run, destruction included, the answers received and those still due are one for each query sent: one or two for each name tried |
| `GetAddrInfo.NextLookupKeeps` | libexosip2-5.3.0/c-ares/ares_getaddrinfo.c:507-534 | after a lookup step either the answers of one name are due or the user has been called once |
| `GetAddrInfo.OnAnswerKeeps` | libexosip2-5.3.0/c-ares/ares_getaddrinfo.c:536-577 | every answer keeps the invariant and lowers the number of answers that can still come; a new round starts without addresses |
| `GetAddrInfo.CallbackExactlyOnce` | libexosip2-5.3.0/c-ares/ares_getaddrinfo.c:507-751 | every run without destruction: waiting and no callback, or nothing due and one callback; names in order, each at most once; at most two answers a name |
| `GetAddrInfo.BuildableDistinct` | libexosip2-5.3.0/c-ares/ares_getaddrinfo.c:690-719 | the names tried come from the list and do not repeat |
| `GetAddrInfo.RunOutcome` | libexosip2-5.3.0/c-ares/ares_getaddrinfo.c:507-577 | over every run, destruction included: the collected addresses are those the answers brought, none lost and none twice, and the reported status is the verdict on the last answer; or the hosts file ended the query, no answer had an address, and the file's are reported |
| `GetAddrInfo.NextLookupOutcome` | libexosip2-5.3.0/c-ares/ares_getaddrinfo.c:507-534 | a lookup step ends with the status it was given, or with the hosts file's addresses |
| `GetAddrInfo.AllNamesTried` | libexosip2-5.3.0/c-ares/ares_getaddrinfo.c:554-574 | when all names can be built, a query that ends on a not-found answer without an address has tried the whole list |
| `GetAddrInfo.QueryTriesAllNames` | libexosip2-5.3.0/c-ares/ares_getaddrinfo.c:507-751 | so does every query with a DNS entry in its lookup string, and it then reports not found |
| `GetAddrInfo.LookupsGoOn` | libexosip2-5.3.0/c-ares/ares_getaddrinfo.c:507-574 | over every run: when the last answer is not-found and none brought an address, the lookups behind the DNS entry are tried: the first hosts-file entry to come is reported with success and its addresses, and not-found exactly when there is none |
| `GetAddrInfo.QueryLookupsGoOn` | libexosip2-5.3.0/c-ares/ares_getaddrinfo.c:668-682 | the same for whole queries, from any lookup string; without any answer the status is connection refused |
| `GetAddrInfo.OnlyNotFoundGoesOn` | libexosip2-5.3.0/c-ares/ares_getaddrinfo.c:554-574 | any other last answer of a round, and any with addresses collected, ends the query |
| `GetAddrInfo.FileAfterDnsExample` | libexosip2-5.3.0/c-ares/ares_getaddrinfo.c:513-527 | lookups "bf": DNS finds nothing, the hosts file has one address |
| `GetAddrInfo.AddressesReachUser` | libexosip2-5.3.0/c-ares/ares_getaddrinfo.c:554-574 | a finished query whose answers brought addresses reports success, unless its last response could not be parsed: then that error |
| `GetAddrInfo.AddressesDroppedExample` | libexosip2-5.3.0/c-ares/ares_getaddrinfo.c:556-560 | an IPv4 answer with an address, then an IPv6 answer with records of which none is an address of the name or an alias: no data is reported |
| `GetAddrInfo.EmptyResponseExample` | libexosip2-5.3.0/c-ares/ares_getaddrinfo.c:561-565 | with a response without records, which arrives as a no-data answer, success and the address are reported |
| `GetAddrInfo.DestructionEnds` | libexosip2-5.3.0/c-ares/ares_getaddrinfo.c:548-552 | destruction ends the query at once; nothing is left outstanding if and only if it was the last answer |
| `GetAddrInfo.DestructionExample` | libexosip2-5.3.0/c-ares/ares_getaddrinfo.c:548-552 | a run whose callback comes while one answer is still due |
| `GetAddrInfo.SuccessWithoutAddresses` | libexosip2-5.3.0/c-ares/ares_getaddrinfo.c:507-577 | from any waiting state and over every run: success without an address if and only if the query has ended, no answer brought one and the last answer holds aliases only |
| `GetAddrInfo.QuerySucceedsWithoutAddresses` | libexosip2-5.3.0/c-ares/ares_getaddrinfo.c:668-682 | the same for whole queries, from any lookup string |
| `GetAddrInfo.AliasesOnlyExample` | libexosip2-5.3.0/c-ares/ares_getaddrinfo.c:554-574 | an IPv4 query answered with aliases only |
| `GetHostByName.HostQuery.constructor` | libexosip2-5.3.0/c-ares/ares_gethostbyname.c:115-131 | a new query does its first lookup at once |
| `GetHostByName.HostQuery.RunNextLookup` | libexosip2-5.3.0/c-ares/ares_gethostbyname.c:133-177 | the lookup loop as a function of the old state: skipped entries are not remembered |
| `GetHostByName.HostQuery.HostCallback` | libexosip2-5.3.0/c-ares/ares_gethostbyname.c:179-236 | the effect of one answer, with the fallback from AAAA to A |
| `GetHostByName.NextLookupKeeps` | libexosip2-5.3.0/c-ares/ares_gethostbyname.c:139-176 | after a lookup step one search is out or the user has been called once, and no more answers can come than before |
| `GetHostByName.OnAnswerKeeps` | libexosip2-5.3.0/c-ares/ares_gethostbyname.c:187-235 | every answer keeps the invariant and lowers (lookups left, family still AAAA); a fallback cannot follow a fallback |
| `GetHostByName.FirstAddressesReachUser` | libexosip2-5.3.0/c-ares/ares_gethostbyname.c:187-222 | in every run the first reply that brings addresses is the last one awaited, and the user gets success with exactly its addresses |
| `GetHostByName.RunSuccessHasCause` | libexosip2-5.3.0/c-ares/ares_gethostbyname.c:133-236 | every reported success comes from a hosts-file entry or from the last reply, with that entry's or reply's addresses |
| `GetHostByName.NextLookupGoesOn` | libexosip2-5.3.0/c-ares/ares_gethostbyname.c:139-176 | a lookup step starts the next DNS lookup if one comes before the hosts file has the name; else it ends with that entry, or with the status it was given |
| `GetHostByName.FailuresEndInFile` | libexosip2-5.3.0/c-ares/ares_gethostbyname.c:133-236 | a finished query all of whose answers failed reports the first hosts-file entry behind its lookups that has the name, else the last failure |
| `GetHostByName.AllLookupsMade` | libexosip2-5.3.0/c-ares/ares_gethostbyname.c:139-176 | when all answers are not-found there is exactly one for each DNS entry before that hosts-file entry, and the outcome is exactly that entry or not-found |
| `GetHostByName.QueryMakesAllLookups` | libexosip2-5.3.0/c-ares/ares_gethostbyname.c:115-177 | the same for whole queries, from any lookup string |
| `GetHostByName.FirstSearch` | libexosip2-5.3.0/c-ares/ares_gethostbyname.c:146-157 | a DNS lookup starts with the IPv4 search if and only if only IPv4 is wanted, and else with the IPv6 search |
| `GetHostByName.FallbackHappens` | libexosip2-5.3.0/c-ares/ares_gethostbyname.c:195-231 | with either family wanted, an IPv6 search that brings nothing (no data, malformed, timed out, or no address) is followed by an IPv4 search of the same lookup |
| `GetHostByName.NoOtherFallback` | libexosip2-5.3.0/c-ares/ares_gethostbyname.c:187-235 | any other answer ends the query or, if it failed, starts a later lookup |
| `GetHostByName.GivesUpOnIpv4` | libexosip2-5.3.0/c-ares/ares_gethostbyname.c:195-231 | over every run with either family wanted, the user is told of no data, of a malformed response or of a time-out only when IPv4 was asked for last; parsing a reply is taken never to report a time-out itself |
| `GetHostByName.QueryGivesUpOnIpv4` | libexosip2-5.3.0/c-ares/ares_gethostbyname.c:115-236 | the same for whole queries |
| `GetHostByName.LastReplyReported` | libexosip2-5.3.0/c-ares/ares_gethostbyname.c:214-233 | a query that ends on a reply reports what parsing it gave, no data if that was success without addresses; on destruction, destruction |
| `GetHostByName.CallbackExactlyOnce` | libexosip2-5.3.0/c-ares/ares_gethostbyname.c:133-236 | every run: one search out and no callback, or none and one callback; success comes with addresses; at most two answers per DNS entry |
| `StringReplace.Text.ReplaceAll` | base/util/string_util.cpp:48-140 | the buffer ends up as the leftmost, non-overlapping replacement of its old text in the growing, equal and shrinking cases, if memcpy copies upwards or is never asked for an overlapping copy; its length and the count are exact in any case, the count twice over when growing |
| `StringReplace.CountedTwiceExample` | base/util/string_util.cpp:70-123 | one replacement reported as two |
| `StringReplace.Text.CountAll` | base/util/string_util.cpp:70-78 | the first pass counts the occurrences that will be replaced |
| `StringReplace.Text.OpenGap` | base/util/string_util.cpp:83-93 | after enlarging, the whole old text stands at the end of the buffer |
| `StringReplace.Text.SecondPass` | base/util/string_util.cpp:102-134 | from a gap of the right size the pass leaves the replaced text at the front |
| `StringReplace.Text.FindNext` | base/util/string_util.cpp:105-106 | searching the buffer finds what searching the original text would: nothing to be scanned has been overwritten |
| `StringReplace.ScannedStep` | base/util/string_util.cpp:108-123 | one replacement keeps the read and write positions the right distance apart, never negative |
| `StringReplace.ReplaceOne` | base/util/string_util.cpp:108-121 | the stretch between occurrences and the replacement are appended to the output; everything behind the occurrence is untouched |
| `StringReplace.MoveTail` | base/util/string_util.cpp:127-132 | the rest of the text is brought down to the write position, if memcpy copies upwards or the cells do not overlap |
| `StringReplace.MemCpy` | base/util/string_util.cpp:129-131 | a cell-by-cell copy in either direction |
| `StringReplace.CopyUpIsCopy` | base/util/string_util.cpp:129-131 | copying upwards is right whenever the target does not lie inside the source |
| `StringReplace.CopyDownIsCopy` | base/util/string_util.cpp:129-131 | copying downwards is right on disjoint cells |
| `StringReplace.Text.Finish` | base/util/string_util.cpp:125-133 | the copy made overlaps if and only if the text says so, in terms of its occurrences alone |
| `StringReplace.LastCopyOverlaps` | base/util/string_util.cpp:125-133 | it does if and only if the text shrinks and what lies behind the last occurrence is longer than what has been freed |
| `StringReplace.OverlapExample` | base/util/string_util.cpp:127-131 | removing "ab" from "abxyz": copied upwards "xyz", copied downwards "zyz" |
| `StringReplace.Move` | base/util/string_util.cpp:91-93 | an overlapping move copies the old bytes whichever way they overlap |
| `StringReplace.ScanFinds` | base/util/string_util.cpp:105-123 | replacing from one occurrence on is copying up to it, replacing it and going on behind it |
| `StringReplace.ReplacedLength` | base/util/string_util.cpp:83-87 | the new length is the old one plus or minus the difference times the count |
| `StringReplace.ReplacedUnchanged` | base/util/string_util.cpp:80-81 | returning early without an occurrence leaves the right text |
| `StringTokenize.Tokenize` | base/util/string_util.cpp:25-46 | the two-cursor loop gives the tokens of the text, for any text and delimiters |
| `StringTokenize.TokensKeepText` | base/util/string_util.cpp:35-43 | tokens are not empty, hold no delimiter, and together are the text without its delimiters |
| `StringTokenize.TokensOfJoin` | base/util/string_util.cpp:35-43 | tokenizing undoes joining with any delimiter |
| `NumberConversions.Parse` | base/util/string_number_conversions.cpp:176-200 | base 10, every text and width: accepts exactly an optional sign and digits whose exact value is in range; the output is that value, or the bound first passed; unsigned `-` is stated apart |
| `NumberConversions.ReadDigits` | base/util/string_number_conversions.cpp:211-243 | the digit loop is exact for any number of digits, and no intermediate value leaves the type |
| `NumberConversions.MayAppendExact` | base/util/string_number_conversions.cpp:246-276 | the check made before multiplying allows a digit exactly when the longer number is in range |
| `NumberConversions.ReadWrapping` | base/util/string_number_conversions.cpp:262-276 | a `-` on an unsigned type accepts all digits but those stopped at a zero, and gives the negated value modulo the width |
| `NumberConversions.RightUnlessUnsignedMinus` | base/util/string_number_conversions.cpp:186-199 | the conversion judges a text rightly if and only if it is not such a nonzero, unstopped unsigned `-` number |
| `NumberConversions.UnsignedMinusExample` | base/util/string_number_conversions.cpp:186-189 | "-5" is accepted as 4294967291 |
| `NumberConversions.Print` | base/util/string_number_conversions.cpp:65-96 | the printed text is the decimal form, and the fill never reaches the first cell of its buffer |
| `NumberConversions.FillDigits` | base/util/string_number_conversions.cpp:79-94 | digits are written backwards into at most as many cells as the number has digits |
| `NumberConversions.ToUnsignedIsMagnitude` | base/util/string_number_conversions.cpp:40-45 | negation and cast give the magnitude even at the minimum, the one value whose negation leaves the type |
| `NumberConversions.WidestFits` | base/util/string_number_conversions.cpp:66-72 | digits, sign and the cell never used fit 3 * sizeof + 1 |
| `NumberConversions.PrintParse` | base/util/string_number_conversions.cpp:65-96 | a printed number is a numeral with that value, at every width, and never hits the unsigned `-` |
| `NumberConversions.DigitsOfValue` | base/util/string_number_conversions.cpp:79-94 | printing the value of digits without leading zeros gives the digits back |
| `Buffers.BlockBuffer.Append` | base/memory/blockbuffer.h:133-145 | appends the bytes, or fails and changes nothing; fails exactly when the bytes do not fit the capacity and there is no memory or the size would pass the maximum |
| `Buffers.BlockBuffer.Resize` | base/memory/blockbuffer.h:154-165 | pads or cuts; fails as above and then changes nothing |
| `Buffers.BlockBuffer.Replace` | base/memory/blockbuffer.h:168-181 | overwrites, extends or appends by position; exactly when it fails, and what a failure leaves |
| `Buffers.ReplaceLosesTailExample` | base/memory/blockbuffer.h:173-177 | a failed replacement after which a byte is gone |
| `Buffers.BlockBuffer.Erase` | base/memory/blockbuffer.h:184-199 | cuts a stretch out; an emptied buffer gives its blocks back unless held |
| `Buffers.CutExactly` | base/memory/blockbuffer.h:184-199 | the cut byte by byte: before the stretch unchanged, behind it moved down, and nothing if the stretch reaches past the end |
| `Buffers.BlockBuffer.IncreaseCapacity` | base/memory/blockbuffer.h:206-240 | the new block count is the least that fits; contents are kept; counters move with the blocks |
| `Buffers.BlockBuffer.GrowthIsLeast` | base/memory/blockbuffer.h:217-222 | the two-step rounding is the least sufficient block count, and passes the block limit exactly when the bytes pass the maximum |
| `Buffers.BlockBuffer.Reserve` | base/memory/blockbuffer.h:148-151 | when it succeeds, what it gives, and exactly when that reaches the capacity asked for |
| `Buffers.ReserveFallsShortExample` | base/memory/blockbuffer.h:148-151 | three bytes reserved with success in a buffer of two |
| `Buffers.BlockBuffer.Destroy` | base/memory/blockbuffer.h:74 | destruction returns the blocks to the count |
| `Buffers.ApplyKeepsBalance` | base/memory/blockbuffer.h:121-130 | creation, growth, release and destruction keep the current total equal to the sum over live buffers and at most the peak |
| `Buffers.TotalsBalanced` | base/memory/blockbuffer.h:233-235 | so does any history of them over any number of buffers |
| `Buffers.Pool.Do` | base/memory/blockbuffer.h:87-94 | any operation on one live buffer leaves the bytes of all others alone and moves the totals by one such event |
| `Buffers.Pool.Destroy` | base/memory/blockbuffer.h:74 | so does destroying one |
| `Buffers.ForwardBuffer.Erase` | base/memory/blockbuffer.h:248-257 | what the reader still sees is cut as asked, whether bytes move or only the position does |
| `Buffers.ForwardBuffer.Close` | base/memory/blockbuffer.h:243 | closing leaves in the buffer exactly what was still to be read |
| `RecordPaging.SendRecordInfo` | SipClient/Device.cpp:824-909 | pages of 1 to 6 items, all full but the last, concatenate to the list and announce its length; an empty list is one empty page |
| `RecordPaging.RecordRequest.Handle` | SipService/EventHandler.cpp:581-607 | a page's items are added and the request is finished exactly when the count is the announced one |
| `RecordPaging.ItemsPermuted` | SipService/EventHandler.cpp:588-602 | what has been collected does not depend on the order of the pages |
| `RecordPaging.CompleteExactlyAtEnd` | SipService/EventHandler.cpp:604-607 | for any list, also an empty one, and any arrival order the count matches after the last page and after none before, holding a permutation of the list |
| `RecordPaging.Collect` | SipService/EventHandler.cpp:567-611 | so the request is declared finished exactly once |
| `SipSessions.Device.OnCallInvite` | SipClient/Device.cpp:373-512 | a session is entered exactly for a new dialog with a valid offer whose target no live session has; else 483 or the refusal, and nothing changes |
| `SipSessions.Device.OnCallAck` | SipClient/Device.cpp:320-335 | starts an unused live session once, loads a recording, touches no other session |
| `SipSessions.Device.OnCallClosed` | SipClient/Device.cpp:337-359 | one or all sessions leave the table, each stopped exactly once |
| `SipSessions.Device.OnCallCancelled` | SipClient/Device.cpp:361-371 | exactly the cancelled dialog leaves the table |
| `SipSessions.Device.OnStreamChanged` | SipClient/Device.cpp:1098-1126 | a recording that ends drops one session playing it; one that begins starts one unused session waiting for it, if there is one |
| `SipSessions.HandleAll` | SipClient/Device.cpp:320-371 | over every interleaving: keys are dialog ids, live targets differ, no session ever created was started twice, started exactly if marked used; none was stopped twice, and stopped are exactly those a BYE removed; a trace of the table, the sessions in use and those closed takes one step for each event |
| `SipSessions.Device.Handle` | SipClient/Device.cpp:320-512 | each kind of event does to the table, the sessions in use and the closed ones what its own handler does |
| `SipSessions.StepKeepsTargets` | SipClient/Device.cpp:320-512 | no such step lets two live sessions share a target |
| `SipSessions.TraceKeepsTargets` | SipClient/Device.cpp:320-512 | nor does any sequence of them; and nothing but a BYE stops a session |
| `SipSessions.CancelledWhileSendingExample` | SipClient/Device.cpp:361-371 | a started session whose dialog is cancelled is gone and not stopped |
| `SipSessions.EndedWithoutStopExample` | SipClient/Device.cpp:1102-1113 | so is one whose recording has ended |

## Left out

- Allocation failures: `ARES_ENOMEM` paths and the freeing of memory; only `Buffers` models a failing allocation, as a parameter.
- `QueryList.Cancel`: callbacks that destroy the channel are not modelled, nor is the loop of `ares_destroy`; a query is represented by its id and what its callback will do.
- `QueryList.Unlink`: only the list of all queries is modelled, not the by-id, by-timeout and to-server lists a query hangs on as well.
- `GetAddrInfo.CallbackExactlyOnce`: an answer delivered from inside `ares_query` is taken as an event after the step; the early exits of `ares_getaddrinfo` (bad family, .onion, service names, literal addresses) are left out; how many addresses the hosts file gives (none: it changes nothing) and which names `ares__cat_domain` can build are parameters.
- `GetHostByName.CallbackExactlyOnce`: the reply parsers are inputs of which only "a failed parse brings no addresses" is used, and a hosts-file entry is taken to have at least one address; searching with domains inside `ares_search` is not part of this model.
- `AddressSort.SortAddrInfo`: says nothing of what follows the read out of bounds on an empty list; the library sort is a parameter known only to permute, and to sort when the comparator is an order; source lookup by socket is an input; the array element's node pointer is represented by the element's original position.
- `HostAddresses.SortAddresses`: requires that comparing with a pattern reads inside the two addresses, as the patterns `config_sortlist` builds do (it is not part of this model); the NULL-terminated pointer list is an array of the address buffers.
- `ParseAddrInfo.Parse`: result lists are sequences; the linked-list helpers it calls are proved to be concatenation in `AddrInfoList`. Socket address structures hold address bytes and time to live only.
- `CreateQuery.Create`: text is a sequence of bytes without NUL, its end standing for the terminator.
- `StringReplace.Text.ReplaceAll`: of an overlapping `memcpy` only the two cell-by-cell directions are modelled, chosen by a parameter; `size_t` wrap-around of the new size is not modelled.
- `NumberConversions.Parse`: base 16, floating point and wide-character whitespace are not modelled; whitespace is that of the C locale.
- `NumberConversions.Print`: negating the smallest value of a signed type overflows in C; it is taken to wrap, as on two's-complement machines.
- `Buffers.BlockBuffer.Append`: sources that alias the buffer and `size_t` wrap-around of sizes are not modelled.
- `RecordPaging.SendRecordInfo`: the XML fields of an item, the time-range query and the request lookup by serial number are left out; the ceiling of a floating-point quotient is an integer ceiling.
- `SipSessions.Device.OnCallInvite`: each event is one atomic step although the source looks the table up outside its lock; SDP parsing and file lookup are the `offer` input; which of several matching sessions an unordered map yields first is an arbitrary choice; pause, seek and speed requests are left out.
- Sockets, timers, logging, HTTP, SQLite and XML; retransmission, search and reply parsing inside c-ares.
- The character-set validators, MD5, time conversions, PTZ commands, request pool, channel settings and platform code: thin wrappers, or members that would only be easy.

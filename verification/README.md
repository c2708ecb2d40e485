# A verified model of BIND's zone signing, name decompression, DS update, DNS64 and transfer logic

This project models the algorithms at the heart of six files of the BIND distribution and proves
what they are for. It is self-contained: `dafny verify dfyconfig.toml` checks all of it.

| file | what it models |
|---|---|
| `Names.dfy`, `Zones.dfy` | octet strings, names with the root end first, the canonical order of section 6.1 of RFC 4034; a zone as ordered nodes with sets of types; occlusion by one saved zone cut |
| `Sorting.dfy` | sorting octet strings |
| `Nsec.dfy` | the walk that builds the NSEC chain |
| `HashLists.dfy`, `Spans.dfy`, `Nsec3.dfy` | the list of NSEC3 hashes, the empty non-terminals between two names, the two passes that build the NSEC3 chain |
| `Workers.dfy` | the distribution of nodes over signing workers, as interleaved steps under a lock |
| `SignSet.dfy`, `Coverage.dfy` | keeping, dropping and making the signatures of an RRset; which algorithms are provably signed afterwards |
| `Wire.dfy`, `Decompress.dfy` | compressed names: a recursive reading, the spelling relation, and the byte-at-a-time machine of `old_name_fromwire` |
| `Serials.dfy`, `Replay.dfy` | serial number comparison and the replay limit of `dnssec-cds` |
| `DsSets.dfy`, `NewDs.dfy`, `Cds.dfy` | digest consistency, making a DS set, and the decision whether to replace the parent's DS set |
| `Dns64.dfy` | the reverse zones of DNS64 prefixes |
| `Transfer.dfy` | when an AXFR or IXFR is complete |

Objects whose methods update fields are classes, buffers are arrays, loops are loops; every such
method is proved against a function of its inputs or of the old state, and the theorems are about
those functions. Hashing, signing, verifying, key tags and digests are uninterpreted functions
passed in as parameters. Files with keys or DS sets and the clock are parameters too.

## Where the code differs from what it or its comments promise

Each of these is kept as the code has it. The member named first shows it at a concrete input, the
ones named after give the exact condition, for all inputs.

- The workers never let the origin set a zone cut, so a DNAME at the apex hides nothing from them,
  although it does hide everything below from the NSEC3 chain: `Workers.ApexDnameSigned`,
  `Workers.SignsChainUnlessApexDname` and, without opt-out, `Workers.SignsChainWithoutOptout`.
- The age test of `dnssec-cds` admits a time exactly half a circle after the limit. Such a time does
  not compare with the limit itself, so `oldestsig` need not be the minimum and the next run may
  refuse what this run verified: `Replay.MaskedRun`, `Replay.OldestWithoutZero`,
  `Replay.NextRunWithoutZero`.
- An inception time of 0 reads as "none", so once it is remembered the run forgets what came before:
  `Replay.ZeroRun`, `Replay.OldestIsMinimum`, `Replay.NextRunAdmits`.
- `consistent_digests` is documented to require the same digest types for every key. It accepts a
  last key that has only the lowest of them: `DsSets.ShortLastGroupAccepted`,
  `DsSets.UniformIsAccepted`.
- In `signed_strict` a key that has not signed is listed as algorithm 0, so a DS record of algorithm
  0 passes whenever some key has not signed: `Cds.AlgorithmZeroAccepted`,
  `Cds.Checker.NewSetSafeMeans`.
- `dns64_cname` looks for the well-known addresses at the end of the IPv6 address. Unless the prefix
  is a /96 that is the suffix, so an embedded address with a suffix can be given the PTR instead of
  its CNAME: `Dns64.SuffixTakenForAddress`, `Dns64.EmbeddedIsAnswered`.
- `signset` keeps an unexpired signature dated in the future without verifying it, and counts its key
  as signing, so an algorithm can be left without a signature that verifies:
  `Coverage.FutureSignatureKept`, `Coverage.Call.AlgorithmProven`.
- `nsecify` does not remove old NSEC records of nodes that precede the origin, and the workers then
  sign these nodes: `Nsec.StaleNsecStays`, `Nsec.Database.Nsecify`, `Workers.EligibleNsecNames`.

## Model

| member | source | states |
|---|---|---|
| `Names.SubtreeContiguous` | bin/dnssec/dnssec-signzone.c:1869-1941 | a subtree is contiguous in canonical order: whatever lies between two names below `top` is below `top` |
| `Names.SpanAncestor` | bin/dnssec/dnssec-signzone.c:2399-2417 | an ancestor of the next name that is longer than the part shared with the current one lies after the current name and not above it |
| `Zones.OneCutSuffices` | bin/dnssec/dnssec-signzone.c:1892-1925 | one saved zone cut suffices: a later node is below the saved cut if and only if it is below some cut visited so far |
| `Zones.OccludedIsCovered` | bin/dnssec/dnssec-signzone.c:1892-1925 | at each node of the walk, being below the saved cut is the same as being strictly below some delegation or DNAME of the zone |
| `Zones.InactiveIsNoCut` | bin/dnssec/dnssec-signzone.c:1258-1380 | a node without data of its own is never a cut, so skipping it forgets none |
| `Nsec.Database.ActiveNode` | bin/dnssec/dnssec-signzone.c:1258-1380 | a node is active if it holds more than DNSSEC records; an inactive one loses its NSEC record |
| `Nsec.Database.AddDs` | bin/dnssec/dnssec-signzone.c:1685-1718 | the DS set of a delegation becomes what the DS set file says, and is removed if there is none |
| `Nsec.Database.NextOwner` | bin/dnssec/dnssec-signzone.c:1902-1928 | the inner loop stops at the next name of the chain, or at the end, with the zone cut brought up to date and the NSEC records of skipped nodes dropped |
| `Nsec.Database.Walk` | bin/dnssec/dnssec-signzone.c:1869-1941 | every chain name points at the next one and the last at the origin; no other node from the origin on keeps an NSEC record |
| `Nsec.Database.Nsecify` | bin/dnssec/dnssec-signzone.c:1814-1944 | for every zone the NSEC records from the origin on are one closed chain, starting at the origin, over the selected names and no others; exactly the records before the origin survive; DS sets are refreshed at exactly the delegations in the chain |
| `Nsec.ChainNames` | bin/dnssec/dnssec-signzone.c:1869-1941 | the chain ascends in canonical order and its names are exactly the active in-zone names not strictly below a delegation or DNAME |
| `Nsec.StaleNsecStays` | bin/dnssec/dnssec-signzone.c:1875-1884 | a zone with a node before the origin whose old NSEC record is still there after the walk |
| `Nsec.Database.PassOwner` | bin/dnssec/dnssec-signzone.c:1892-1900 | at an owner the zone cut and the DS sets become those of the specification |
| `HashLists.HashList.constructor` | bin/dnssec/dnssec-signzone.c:798-814 | a new list is empty and its entries are one octet longer than a hash |
| `HashLists.HashList.Add` | bin/dnssec/dnssec-signzone.c:826-840 | adding appends one entry, padded to the entry length, and keeps all others, whether or not the buffer had to grow |
| `HashLists.HashList.AddHash` | bin/dnssec/dnssec-signzone.c:842-863 | a hash is stored with a final octet that tells a speculative entry from an owner |
| `HashLists.HashList.Sort` | bin/dnssec/dnssec-signzone.c:865-876 | sorting puts the entries in octet order and permutes them |
| `HashLists.HashList.HasDup` | bin/dnssec/dnssec-signzone.c:878-904 | true exactly if two different owner entries have the same hash; speculative twins do not count |
| `HashLists.HashList.Search` | bin/dnssec/dnssec-signzone.c:906-926 | the binary search finds an entry exactly if it is there |
| `HashLists.HashList.FindNext` | bin/dnssec/dnssec-signzone.c:906-926 | for a hash in the list as an owner, the next owner entry in cyclic order; otherwise nothing |
| `HashLists.FollowsIsSuccessor` | bin/dnssec/dnssec-signzone.c:906-926 | the entry found by skipping speculative ones is the cyclic successor in the list of owner hashes |
| `HashLists.OwnersAscend` | bin/dnssec/dnssec-signzone.c:865-904 | sorting the entries sorts the owner hashes, strictly if no duplicates are reported |
| `HashLists.ChainCoversEverything` | bin/dnssec/dnssec-signzone.c:865-926 | in any ascending list of owners every hash value is an owner or lies in exactly one owner-to-next interval, never both, with wrap-around and with one owner |
| `Nsec3.RecordsCover` | bin/dnssec/dnssec-signzone.c:2468-2551 | in the finished chain a hash has a record if and only if no record covers it, and at most one does |
| `Spans.SpanListAll` | bin/dnssec/dnssec-signzone.c:2318-2418 | the names added by the walk are exactly the kept names and their proper ancestors below the origin |
| `Spans.SpanListDistinct` | bin/dnssec/dnssec-signzone.c:2318-2418 | no name is added twice |
| `Spans.SpanStep` | bin/dnssec/dnssec-signzone.c:2394-2417 | one step adds exactly the names that were not needed by the names visited before and are needed now |
| `Nsec3.Signer.Visit` | bin/dnssec/dnssec-signzone.c:2347-2386 | one node of the inner loop: kept exactly if in the chain and not an opted-out insecure delegation |
| `Nsec3.Signer.NextKept` | bin/dnssec/dnssec-signzone.c:2341-2393 | the inner loop stops at the next kept name |
| `Nsec3.Signer.HashSpan` | bin/dnssec/dnssec-signzone.c:2394-2417 | hashing a name and the empty non-terminals up to the next one adds exactly their hashes as owners; the wildcard hashes added besides are no owners |
| `Nsec3.Signer.HashNoWildcard` | bin/dnssec/dnssec-signzone.c:938-970 | the speculative hash of a wildcard changes no owner |
| `Nsec3.Signer.HashPass` | bin/dnssec/dnssec-signzone.c:2318-2418 | after the first pass the owner hashes are those of the span list, in walk order |
| `Nsec3.Signer.Clean` | bin/dnssec/dnssec-signzone.c:2062-2165 | NSEC3 records whose hash is no owner of the list are removed, the others stay |
| `Nsec3.Signer.AddNsec3` | bin/dnssec/dnssec-signzone.c:2002-2050 | the lookup of the next hash succeeds for every owner, and the record written points at the cyclic successor |
| `Nsec3.Signer.LinkPass` | bin/dnssec/dnssec-signzone.c:2468-2551 | the second pass looks up only names that the first has hashed, and writes a record for each |
| `Nsec3.Signer.Nsec3ify` | bin/dnssec/dnssec-signzone.c:2289-2553 | it succeeds exactly if no two needed names collide, and then the records are one closed cycle over exactly the hashes of the needed names |
| `Nsec3.DuplicateOwners` | bin/dnssec/dnssec-signzone.c:878-904 | the list reports a duplicate exactly if the owner hashes repeat |
| `Nsec3.SpansCollide` | bin/dnssec/dnssec-signzone.c:2318-2432 | after sorting, owner hashes repeat exactly if two different needed names have the same hash |
| `Workers.StepInv` | bin/dnssec/dnssec-signzone.c:1565-1680 | every step of every worker keeps the invariant (each eligible node passed so far is either signed once or held by one worker), makes progress, and takes back neither a signature nor a shutdown |
| `Workers.NoDeadlock` | bin/dnssec/dnssec-signzone.c:1565-1680 | as long as a worker has not ended, some step is possible |
| `Workers.RunSafe` | bin/dnssec/dnssec-signzone.c:1565-1680 | in every state of every run no node is signed twice and none is signed that is not eligible; shutdown is called at most once and only when everything eligible is signed and all workers have ended |
| `Workers.RunCompletes` | bin/dnssec/dnssec-signzone.c:1565-1680 | every run is bounded, and one that cannot go on has called shutdown and has signed exactly the eligible nodes, each once, whatever the interleaving and the number of workers |
| `Workers.Pool.AssignWork` | bin/dnssec/dnssec-signzone.c:1565-1669 | a call of `assignwork` is a sequence of steps of the protocol that ends with the lock free and the worker either holding a node or ended |
| `Workers.EligibleNames` | bin/dnssec/dnssec-signzone.c:1602-1643 | in an NSEC3 zone the eligible nodes are the in-zone names except the origin that lie below no delegation or DNAME other than one at the origin, and are not opted out |
| `Workers.SignsChainUnlessApexDname` | bin/dnssec/dnssec-signzone.c:1602-1643 | the active nodes given to workers are those of the NSEC3 chain if and only if there is no DNAME at the apex above an active name that lies below no other cut and is not opted out |
| `Workers.SignsChainWithoutOptout` | bin/dnssec/dnssec-signzone.c:1602-1643 | without opt-out, if and only if there is no DNAME at the apex above any active name |
| `Workers.EligibleNsecNames` | bin/dnssec/dnssec-signzone.c:1602-1621 | in an NSEC zone the workers get the names of the chain, the apex aside, and the nodes before the origin whose NSEC records were left over |
| `Workers.Pool.constructor` | bin/dnssec/dnssec-signzone.c:1544-1551 | the shared variables start as those of the protocol's initial state |
| `Workers.Pool.Consider` | bin/dnssec/dnssec-signzone.c:1602-1643 | the decision about one node and the new zone cut are those of the specification |
| `Workers.ApexDnameSigned` | bin/dnssec/dnssec-signzone.c:1602-1643 | a zone with a DNAME at the apex in which a worker signs a name that the chain leaves out |
| `SignSet.Signer.KeyThatSigned` | bin/dnssec/dnssec-signzone.c:363-436 | the key a signature refers to, taken from the list or loaded from disk and appended as a key that does not sign |
| `SignSet.Signer.JudgeSig` | bin/dnssec/dnssec-signzone.c:556-629 | the decision whether a signature is kept, dropped, or replaced |
| `SignSet.Signer.TakeOne` | bin/dnssec/dnssec-signzone.c:547-672 | one signature: the deletions, additions and keys that sign afterwards |
| `SignSet.Signer.FindKsk` | bin/dnssec/dnssec-signzone.c:698-716 | whether the key, or another one of its algorithm that is not revoked, is a KSK |
| `SignSet.Signer.FindPredecessor` | bin/dnssec/dnssec-signzone.c:728-774 | whether a key that already signs is the mutually linked predecessor of the same algorithm |
| `SignSet.Signer.SignMissing` | bin/dnssec/dnssec-signzone.c:682-785 | the second loop adds one signature for every signing key that has to sign and does not |
| `SignSet.Signer.SignRRset` | bin/dnssec/dnssec-signzone.c:491-789 | both loops together compute the specification that the theorems are about |
| `SignSet.LoopOne` | bin/dnssec/dnssec-signzone.c:547-672 | after the first loop a signature is in the result exactly if its fate was to be kept, everything added is justified by a signature that was there, and the keys marked as signing do sign |
| `SignSet.LoopTwo` | bin/dnssec/dnssec-signzone.c:682-785 | the second loop only adds, only by signing keys, and for every key that must sign |
| `SignSet.EveryAlgorithmSigned` | bin/dnssec/dnssec-signzone.c:682-785 | after signing an ordinary RRset every algorithm with a signing ZSK has a signature in the result, even if the key was skipped for its predecessor |
| `Coverage.Call.ApexKeySigned` | bin/dnssec/dnssec-signzone.c:693-722 | a signing key ends up with a signature over a key set at the apex if and only if it has one that stays or is replaced, or it is a KSK, or there is none of its algorithm among the given keys and those the signatures refer to, or ZSKs are to sign too |
| `Coverage.Call.ApexKeysSigned` | bin/dnssec/dnssec-signzone.c:693-722 | whatever the signatures are like, every signing KSK and every signing key of an algorithm without a KSK ends up with one |
| `Coverage.Call.KskFound` | bin/dnssec/dnssec-signzone.c:698-716 | the loop finds a KSK exactly if one is among the given keys or those the signatures refer to |
| `SignSet.OnlySoundSignatures` | bin/dnssec/dnssec-signzone.c:547-672 | every signature in the result was made by a signing key, or was there, does not expire within the cycle and, unless it is from the future or its key is unknown or no zone key, was made for this TTL and verifies |
| `SignSet.SoundStays` | bin/dnssec/dnssec-signzone.c:547-672 | no such signature is lost |
| `Coverage.Call.AlgorithmProven` | bin/dnssec/dnssec-signzone.c:547-785 | an algorithm ends up with a signature that has begun and verifies if and only if one of its signatures does and stays, or is replaced, or one of its signing ZSKs is neither marked by a signature that stays or is replaced nor the successor of a key that is |
| `Coverage.Call.ZskAlgorithmProven` | bin/dnssec/dnssec-signzone.c:682-785 | so it does if it has a signing ZSK and no signature of it stays that is from the future or does not verify |
| `Coverage.Call.Origins` | bin/dnssec/dnssec-signzone.c:547-785 | every signature of the result was there and stays, replaces one of the same key, or was made by a key that had to sign |
| `Coverage.Call.CoveredNow` | bin/dnssec/dnssec-signzone.c:733-773 | a key counts as signing, or as having a predecessor that does, exactly if some signature marks it or its linked predecessor |
| `Coverage.FutureSignatureKept` | bin/dnssec/dnssec-signzone.c:576-579 | a call whose new signatures would verify, with one signature from the future that does not: it stays, nothing is added, and the algorithm has no signature that verifies |
| `SignSet.SigningAgainChangesNothing` | bin/dnssec/dnssec-signzone.c:491-789 | signing is idempotent: run on its own result it deletes nothing, adds nothing and loads no key |
| `Wire.DecodesExactly` | fuzz/old.c:132-193 | the recursive reading yields a name if and only if the name fits and some list of segments spells it, each pointer going below the start of its own segment |
| `Wire.SpelledIsDecoded` | fuzz/old.c:132-193 | whatever is so spelled is read, and lack of room is the only failure |
| `Wire.DecodedIsSpelled` | fuzz/old.c:132-193 | whatever is read is so spelled |
| `Wire.PlainRoundTrip` | fuzz/old.c:139-176 | the uncompressed form of any legal name reads back as that name |
| `Wire.CompressedRoundTrip` | fuzz/old.c:139-188 | labels followed by a pointer to any name earlier in the message read back as the labels in front of that name |
| `Decompress.Decoder.constructor` | fuzz/old.c:94-125 | the machine starts in a state that tracks the recursive reading |
| `Decompress.Decoder.AtStart` | fuzz/old.c:140-166 | a length octet or the first half of a pointer; each error is the one the recursive reading reports |
| `Decompress.Decoder.InLabel` | fuzz/old.c:167-176 | one octet of a label is copied, in lower case if asked for |
| `Decompress.Decoder.AtPointer` | fuzz/old.c:177-188 | a pointer is followed only below the biggest pointer so far, which then decreases |
| `Decompress.Decoder.Run` | fuzz/old.c:132-196 | the loop terminates, by the biggest pointer and then the octets left, with exactly the outcome of the recursive reading; on success the buffer holds the wire form of the name |
| `Decompress.OffsetsPointAtLengths` | fuzz/old.c:141-151 | the offsets increase strictly and each indexes the length octet of its label |
| `Decompress.LengthAt` | fuzz/old.c:141-151 | where the length octets of a written name stand |
| `Decompress.NameFromWire` | fuzz/old.c:85-222 | on success the name has at most 255 octets and 128 labels, the source advances by the octets up to the root label or through the first pointer, and the target by the length of the name; on every failure nothing advances, the name is empty, and the code tells a full buffer from a name that is too long |
| `Decompress.NameFromWireOwnBuffer` | fuzz/old.c:80-83 | without a target the name's own buffer is cleared and filled, with the same outcome, contents, offsets and advance |
| `Transfer.Query.TakeRecord` | bin/dig/dighost.c:3678-3760 | one record changes the query's flags and serials as the specification says |
| `Transfer.Query.CheckForMoreData` | bin/dig/dighost.c:3633-3774 | one message: the verdict and the new memory are those of its records in turn, and the record count grows by those looked at; a message without answer fails and changes no flag |
| `Transfer.PackingIrrelevant` | bin/dig/dighost.c:3666-3766 | how the records are split into names, sets and messages with an answer does not matter |
| `Transfer.AxfrCloses` | bin/dig/dighost.c:3730-3733 | an AXFR is reported complete exactly at the last record, if and only if that is the second SOA and the first record is one |
| `Transfer.IxfrCloses` | bin/dig/dighost.c:3716-3759 | the same for every stream answering an IXFR: up to date, empty, whole zone, or differences |
| `Transfer.WholeZone` | bin/dig/dighost.c:3730-3733 | after the first SOA of a whole zone the next SOA completes the transfer |
| `Transfer.Incremental` | bin/dig/dighost.c:3751-3759 | within differences the second repetition of the first serial completes the transfer |
| `Transfer.DifferencesClose` | bin/dig/dighost.c:3716-3759 | a stream of difference sequences closes exactly at its last SOA if and only if the new serial is ahead of the client's and no older or intermediate serial equals it |
| `Replay.LtByAge` | lib/isc/serial.c:21-30 | admitted times compare by their distance from the limit, except 0 against exactly half a circle |
| `Replay.OldestIsSeen` | bin/dnssec/dnssec-cds.c:674-680 | the remembered time is one that was verified and never precedes the limit |
| `Replay.TailLowest` | bin/dnssec/dnssec-cds.c:674-680 | as long as no time of 0 is remembered, the remembered time is the smallest one that is not hidden by a time half a circle off |
| `Replay.RestartIs` | bin/dnssec/dnssec-cds.c:674-680 | where, by the ages of the times, the last 0 is remembered: what came before is forgotten |
| `Replay.RestartIsLast` | bin/dnssec/dnssec-cds.c:674-680 | from there on 0 is never remembered |
| `Replay.OldestIsMinimum` | bin/dnssec/dnssec-cds.c:629-680 | for all admitted times, 0 included: the remembered time is the minimum over all verified ones if and only if a remembered 0 is the smallest, or else nothing is masked since the last remembered 0 and nothing before it is smaller than all the rest |
| `Replay.OldestWithoutZero` | bin/dnssec/dnssec-cds.c:629-680 | without times of 0, if and only if none at the limit is masked by one half a circle later |
| `Replay.NextRunAdmits` | bin/dnssec/dnssec-cds.c:629-680 | for all admitted times: a run with the remembered time as its limit admits everything verified now, if and only if nothing forgotten or masked comes before it |
| `Replay.NextRunWithoutZero` | bin/dnssec/dnssec-cds.c:629-680 | without times of 0, if and only if not both something was masked and a time in between was seen |
| `Replay.MaskedRun` | bin/dnssec/dnssec-cds.c:629-680 | three times with which the minimum is missed and the next run refuses one of them |
| `Replay.ZeroForgets` | bin/dnssec/dnssec-cds.c:674-680 | once a time of 0 is remembered, the result depends only on what follows |
| `Replay.ZeroRun` | bin/dnssec/dnssec-cds.c:674-680 | three admitted times, one of them 0, of which the latest is remembered and the next run refuses the others |
| `DsSets.SortRecordsOrders` | bin/dnssec/dnssec-cds.c:889-916 | sorting by rdata groups the records by key, with digest types ascending within each |
| `DsSets.CheckBlocks` | bin/dnssec/dnssec-cds.c:918-945 | the loop compares blocks of the size of the first key's group with that group, type by type |
| `DsSets.ConsistentDigests` | bin/dnssec/dnssec-cds.c:879-954 | a set is accepted exactly if its records, sorted, match the first key's block by block |
| `DsSets.ConsistentMeans` | bin/dnssec/dnssec-cds.c:879-954 | for a set without repeats that is the case exactly if every key but the last has the first key's digest types and the last has the lowest of them |
| `DsSets.BlocksAreGroups` | bin/dnssec/dnssec-cds.c:918-945 | comparing blocks of a fixed size decides a property of the groups, although the blocks need not be the groups |
| `DsSets.UniformIsAccepted` | bin/dnssec/dnssec-cds.c:875-878 | the documented property holds if and only if the set is accepted and the last key has all the first key's types |
| `DsSets.ShortLastGroupAccepted` | bin/dnssec/dnssec-cds.c:875-878 | a set that the check accepts although its keys have different digest types |
| `DsSets.RdataRoundTrip` | bin/dnssec/dnssec-cds.c:911-916 | reading the rdata of a DS record back gives the record |
| `NewDs.DigestTypes.AddDtype` | bin/dnssec/dnssectool.c:406-423 | the table stays ascending, duplicate-free and zero-terminated; the type is in it afterwards; only a full table without it is an error |
| `NewDs.AppendNewDsSet` | bin/dnssec/dnssec-cds.c:791-827 | the records made for one digest type are appended in order, or the buffer was too small for them, or one of them cannot be made |
| `NewDs.TryNewDsSet` | bin/dnssec/dnssec-cds.c:850-861 | one attempt: all records for all types in order, or not enough space |
| `NewDs.MakeNewDsSet` | bin/dnssec/dnssec-cds.c:829-867 | doubling terminates and the set does not depend on the size started with |
| `NewDs.DoublingReaches` | bin/dnssec/dnssec-cds.c:832-866 | the bound under which that is stated is exact: doubling from 16 octets reaches a size if and only if twice the size is within the 32-bit range; beyond it the size becomes 0 |
| `Cds.MatchKeyDsset` | bin/dnssec/dnssec-cds.c:470-525 | a key matches if some record has its tag, algorithm and digest; if strict, the first record that claims the key decides |
| `Cds.MatchKeysetDsset` | bin/dnssec/dnssec-cds.c:531-579 | the table has a row for each key, usable exactly if the key matches and can be loaded |
| `Cds.Checker.Note` | bin/dnssec/dnssec-cds.c:674-680 | the remembered time stays the one the specification gives for the times seen |
| `Cds.Checker.MatchSig` | bin/dnssec/dnssec-cds.c:625-681 | one signature against all keys: which entries it sets, and that its time is noted once for each key that verifies it |
| `Cds.Checker.MatchingSigs` | bin/dnssec/dnssec-cds.c:608-685 | a key's entry is its algorithm exactly if it has signed, not too long ago; the times are noted signature by signature, key by key |
| `Cds.Checker.TimesAre` | bin/dnssec/dnssec-cds.c:608-685 | the times so noted are exactly those of the verified signatures |
| `Cds.Checker.SignedLoose` | bin/dnssec/dnssec-cds.c:691-702 | some key with an algorithm has signed |
| `Cds.Checker.SignedStrict` | bin/dnssec/dnssec-cds.c:710-744 | every algorithm of the DS set is in the list |
| `Cds.Checker.VerifyChild` | bin/dnssec/dnssec-cds.c:1207-1263 | the child's sets are accepted exactly if each that is present is signed by a key the old DS set vouches for; the times noted are then those of the three sets in turn |
| `Cds.Checker.CheckNewSet` | bin/dnssec/dnssec-cds.c:1320-1341 | a new set is accepted exactly if it leaves the child reachable and is consistent; the times of the DNSKEY set are then noted again |
| `Cds.Checker.MakeSet` | bin/dnssec/dnssec-cds.c:1291-1313 | the set made from the preferred source, or from the CDNSKEY set if that gives nothing |
| `Cds.Checker.Run` | bin/dnssec/dnssec-cds.c:1207-1352 | the set stays as it is exactly if the child is authentic and has neither CDS nor CDNSKEY; a new set is written exactly if the child is authentic and the set made is not empty, leaves the child reachable and is consistent; then the chain of trust goes through the old set to its sources and through it to the child's keys; unless the run fails, the times noted are a function of the input, in order, and the one remembered is their minimum exactly under the condition of `Kept` on them |
| `Cds.Checker.RunTimesAre` | bin/dnssec/dnssec-cds.c:1207-1352 | these times are exactly those of the signatures verified against the old set and, for a new set, against that |
| `Cds.Checker.UpdateIsTrusted` | bin/dnssec/dnssec-cds.c:1207-1352 | both halves of that chain of trust |
| `Cds.Checker.VouchedMeans` | bin/dnssec/dnssec-cds.c:1228-1263 | vouched for means: a key of the child matches a record of the old DS set by tag, algorithm and digest and has a verified, not too old signature |
| `Cds.Checker.SourcesVouched` | bin/dnssec/dnssec-cds.c:1228-1263 | the DNSKEY set and whichever of CDS and CDNSKEY are present have been signed by such keys |
| `Cds.Checker.NewSetSafeMeans` | bin/dnssec/dnssec-cds.c:710-744 | the strict check passes if and only if every algorithm in the new set has a matching child key that has signed the DNSKEY set, except that algorithm 0 also passes when some key has not signed |
| `Cds.Checker.ChainOfTrust` | bin/dnssec/dnssec-cds.c:1320-1341 | in a new set every algorithm but 0 has a child key that matches a record of the set by tag, algorithm and digest and has a verified, not too old signature over the DNSKEY set |
| `Cds.AlgorithmZeroAccepted` | bin/dnssec/dnssec-cds.c:710-744 | a run that replaces the DS set by one record of algorithm 0, which no key of the child matches |
| `Dns64.DecimalValue` | bin/named/builtin.c:262-278 | the digits written denote the octet and have no leading zero |
| `Dns64.ReadNibbles` | bin/named/builtin.c:310-329 | the name is accepted exactly if all labels are hexadecimal digits; the index stays within the 16 octets for odd and even counts, and the octets are the nibbles in pairs counted from the zone down |
| `Dns64.PutOctet` | bin/named/builtin.c:258-279 | an octet is written as the wire form of its decimal label |
| `Dns64.Dns64Rdata` | bin/named/builtin.c:255-283 | the target written is the wire form of the in-addr.arpa name, within 30 octets |
| `Dns64.Settle` | bin/named/builtin.c:338-437 | the answer once the nibbles are read, for any prefix length |
| `Dns64.Select` | bin/named/builtin.c:338-443 | the switch on the zone's length picks the layout of that prefix length |
| `Dns64.Dns64Cname` | bin/named/builtin.c:285-458 | the answer, with its TTL, is the one the layout of section 2.2 of RFC 6052 gives; for other zone lengths there is none |
| `Dns64.Lookup` | bin/named/builtin.c:460-469 | only the apex has the zone's own records |
| `Dns64.EmbeddedIsAnswered` | bin/named/builtin.c:338-457 | for each prefix length, every IPv4 address and any suffix, the embedded address has the CNAME to its own in-addr.arpa name, or the PTR if the IPv6 address ends like a well-known one |
| `Dns64.WellKnownAddresses` | bin/named/builtin.c:445-453 | with the suffix zero the PTR is given exactly for 192.0.0.170 and 192.0.0.171 behind a /96 |
| `Dns64.SuffixTakenForAddress` | bin/named/builtin.c:445-453 | an embedded address behind a /64 whose answer is the PTR |
| `Dns64.TargetReadsBack` | bin/named/builtin.c:255-283 | every target has at most 30 octets and reads back as the four decimal labels in reverse, in-addr and arpa |
| `Dns64.ExistsIffRecordBelow` | bin/named/builtin.c:331-437 | a name exists if and only if it or some name below it has a record |

## Left out

- Workers.RunCompletes: runs are without abort; `abortwork` and the check of `shuttingdown` are not modelled.
- NewDs.MakeNewDsSet: the space the set needs must be at most half the 32-bit range, since beyond that the doubled size wraps around to 0 and no attempt has a large enough buffer (`NewDs.DoublingReaches`).
- Cds.Checker.Run: has the same bound on the space of the new set, and does not say which of several fatal errors is reported.
- DsSets.ConsistentMeans: is about sets without two records of one tag, algorithm and digest type.
- SignSet.SigningAgainChangesNothing: assumes distinct keys and that new signatures verify, have begun and do not expire within the cycle, since otherwise they would be dropped at once.
- SignSet.EveryAlgorithmSigned: the signature it finds may be from the future; `Coverage.Call.AlgorithmProven` says when one verifies.
- Coverage.Call.ApexKeysSigned: is one half of `Coverage.Call.ApexKeySigned`, under fewer assumptions.
- HashLists.HashList.Sort: `qsort` is an insertion sort; `bsearch` in `Search` is a binary search over the sequence of entries.
- Nsec3.Signer.Clean: whether a record's parameters agree with the chain being built is not modelled, only its hash.
- Nsec.Database.ActiveNode: the removal of RRSIG records without their set is not modelled.
- Nsec.Database.AddDs: the removal of RRSIG(DS) is not modelled.
- Nsec.Database.Nsecify: the removal of an old NSEC3 chain and of RRSIG records is not modelled.
- The removal of RRSIG records in the NSEC and NSEC3 walks, and of NSEC records when a zone changes to NSEC3.
- The NSEC3PARAM record and the fatal checks of parameters of an existing chain.
- `signname` (which sets of a node are signed), `cleanup_zone`, journals, zone loading and dumping.
- Growth of the key list by other workers during `signset`: the list grows only by the keys this call loads.
- Key selection, timing metadata, command lines, logging, statistics, file and network input and output of all the tools.
- `dig`'s sockets and queries around `check_for_more_data`; the tools without algorithms of their own.
- Memory exhaustion and internal errors of the libraries.

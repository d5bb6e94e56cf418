# Models and proofs for the libbpf fork and the bandwidth reporter

This project models the parts of the repository whose correctness is hardest to
see from the code, and proves what they promise. Code that changes state in
place is modelled by classes and methods over arrays, maps and sequences; each
method is proved against a specification, and the specifications are proved to
mean what the code is for. Paths below are relative to the repository's root.

## What is modelled

**BTF type graphs** (`framework/ebpf/internal/src/btf.c`, `hashmap.c`,
`hashmap.h`, `btf_dump.c`).

- `BtfTypes`, `BtfMeaning`: descriptors, and the meaning of a type id as the
  infinite tree its graph unfolds to, which is shown to be bisimilarity.
- `IdForest`, `BtfEquivalence`, `BtfCanon`, `BtfTwins`, `BtfRefPass`,
  `BtfFinal`, `BtfComplete`, `BtfDedup`: the passes of `btf__dedup` on the type
  array, the canonical map and the hypothetical map. The main theorem is
  `BtfDedup.DedupTypes`: the result means the same, and without forward
  resolution ids end as one exactly if they mean the same, on every graph whose
  structs can be paired one to one with all that means the same. One
  proof serves both modes: with `dont_resolve_fwds` the meaning of a descriptor
  is everything it says; without it, structs, unions and forward declarations
  count by tag and enums by name and size, since the source admits that
  resolution may merge structs that only share a tag (`btf.c:2260-2267`).
- `StringDedup`: the string pass, on bytes. `BtfBytes`: the compaction of the
  type section, on bytes, in one buffer. `BtfDecode`: what the records decode
  to, and that the compaction of the bytes is the compaction of the descriptors
  in `BtfDedup`.
- `HashMap` (module `HashMaps`): the chained hash map beneath, as a finite map
  and as a multimap.
- `BtfDumpRun`, `BtfDumpUnique`, `BtfDumpRepeat`, `BtfDumpFail`,
  `BtfDumpOrder`: the topological sort by which the C dumper orders definitions,
  and when it succeeds.

**CO-RE relocation and linking** (`libbpf.c`, `bpf_core_read.h`).

- `CoreSpec`, `CoreLayout`: what an access string denotes, and that it lies
  where the layout of the types puts it, apart from what others denote.
- `CoreSearch`, `CoreCompat`, `CoreUnique`, `CoreMatch`: compatibility of types,
  the backtracking member search, and the match of a local spec against a target
  type, which is sound, complete and unique and finds a spec in its own BTF.
- `CoreField`: the bitfield window, the relocated values, and the two macros
  that read a field through them, on either byte order.
- `ProgramLink`, `ProgramRuns`: appending `.text` and rewriting calls, and the
  proof that a linked program runs as its sections did. Calls follow section
  4.3.2 of RFC 9669.
- `PerfRing` (module `PerfRings`): the reader of the perf event ring.

**Bandwidth reporting** (`framework/bandwidth`).

- `RingBuff` (module `RingBuffs`), `FileStore` (module `FileStores`),
  `ReportJob` (module `ReportJobs`): the ring, the record file behind a
  buffered reader, and the job that joins them, each method proved to make one
  step of `ReportQueue` (module `ReportQueues`), a state machine of which
  conservation and order are proved over all runs.
- `Samples`: the collector, the bounded sample store and the windows, with the
  proof that every sample is counted in exactly one window or dropped first.

**Two arithmetic cores.** `BumpAlloc` is the per-CPU allocator of
`framework/ebpf/internal/include/alloc.h`; `LineInfo` is the dissection and
lookup of `bpf_prog_linfo.c`. `Basics` holds what several modules share.

## Where the code does less than it says

- `hashmap.h:77-79` says that a find returns the entry of a key inserted last.
  Growing pushes entries at bucket heads and so turns the order of every key
  round. An insertion of another key leaves the entry found if and only if it
  does not make the buckets grow, or the entries of the key begin and end alike
  (`HashMaps.FoundStaysIff`, promised by every insertion);
  `HashMaps.FindAfterGrowth` is a run of four insertions after which the older
  entry is found. Iterating a key is not affected but for the order.
- Deduplication is not complete on graphs that hold duplicates below structs: a
  candidate pairs each type of the canonical side with one type of the other, so
  that two pointers to int on one side cannot stand for one on the other. In
  `BtfComplete.PointersApart` two structs mean the same and the later is not
  merged; in the other order it would be. What can be paired one to one is
  merged (`BtfComplete.MergeableMerged`).
- The emit queue of the dumper can list a typedef of a bare function prototype
  twice (`BtfDumpUnique.TypedefRepeats`): the result of such a prototype makes a
  pointer to it count as strongly linked. Nothing else repeats
  (`BtfDumpUnique.QueueUnrepeated`), and nothing repeats unless the dumped type
  leads to a typedef whose own target leads back to it, which can be told from
  the graph before the call (`BtfDumpRepeat.NoReturnNoRepeat`). That condition
  is not necessary: with `typedef struct S t(void); struct S { t *p; };` the
  typedef returns and is listed once (`BtfDumpRepeat.ReturningListedOnce`),
  because it is met again while its result is still open, and so only behind a
  pointer to a name. Which of the two happens depends on the order in which this
  and earlier dumps visit the types; `BtfDumpRepeat.QueueRepeatsIff` gives the
  exact condition on the visit.
- `libbpf.c:4405` says that enums are assumed unsigned; the value computed for
  them is 1, signed. The model follows the code.
- `BPF_CORE_READ_BITFIELD` falls through its switch and always loads 8 bytes.
  On little-endian machines this does not matter; on big-endian ones the field
  read is right for all memory contents only when the window is 8 bytes.
- `bpf_core_match_member` does not take back the bit offset and raw index of a
  member whose name matches but whose type does not (`libbpf.c:4238-4243`). With
  member names unique, as C demands, no later member can match, so no result is
  affected; the search may then answer "too deep" instead of "not found".
- A call relocation on the last instruction of a program is rejected as out of
  range unless an earlier one has already appended `.text`.
- `Record.write` stores only the low byte of a length: records read back exactly
  for payloads under 256 bytes. The file is not opened for appending, and a load
  moves its cursor: a store appends exactly if the cursor is at the end, and a
  load leaves it there exactly under `FileStore.ReachesEnd`. Of three thousand
  empty records, `FileStores.LoadThenStore` loads one and stores one: the new
  record overwrites one of those waiting.
- `tryLoadData` can set `dataBuffOnly` with records still in the file, so that a
  later request overtakes them. Nothing is lost; order holds exactly as long as
  no load finds the overflow slice empty and more in the file than the ring takes.
- `fileEngine.Add` panics for a batch that does not fit when less than half the
  capacity is stored, and `Query` panics when a sample lies between its end and
  a later start. Both conditions are stated exactly.
- `write_target_data` places an empty request one byte beyond a partition that
  is used up to its last byte. In every other case blocks stay inside. After it,
  `end - start` wraps, so that for requests of no negative size the CPU never
  begins its partition again and its blocks go through its neighbours';
  `BumpAlloc.Overrun` is a run in which a block overlaps another CPU's.

## Model

| member | source | states |
|---|---|---|
| `BtfMeaning.SameIffBisimilar` | framework/ebpf/internal/src/btf.c:2217-2309 | two ids unfold to the same trees at every depth if and only if some bisimulation of the two graphs relates them, cycles included |
| `BtfMeaning.RewrittenSame` | framework/ebpf/internal/src/btf.c:2608-2632 | replacing references by references that mean the same changes the meaning of no id, although the replaced graph is what the new meanings are computed from |
| `BtfMeaning.EqualAfterRewrite` | framework/ebpf/internal/src/btf.c:2633-2739 | descriptors that became equal after their references were resolved meant the same in the graph as given |
| `BtfTypes.EqualByKindIsEquality` | framework/ebpf/internal/src/btf.c:1819-2046 | the field-by-field comparison of each plain kind accepts exactly equal descriptors |
| `IdForest.RootByAnyRank` | framework/ebpf/internal/src/btf.c:2184-2189 | where following the links ends does not depend on the rank that shows they end |
| `IdForest.LinkEnd` | framework/ebpf/internal/src/btf.c:2473-2517 | linking a root to an id whose own chain ends elsewhere keeps the links free of cycles |
| `IdForest.RootSame` | framework/ebpf/internal/src/btf.c:2184-2189 | the id a chain of links ends at means the same as the id it starts from |
| `BtfEquivalence.RecordedSame` | framework/ebpf/internal/src/btf.c:2310-2445 | if every pair recorded since the hypothetical map was cleared agrees locally and its children are recorded or resolve alike, all recorded pairs mean the same |
| `BtfEquivalence.RecordRoom` | framework/ebpf/internal/src/btf.c:2324-2331 | recording a pair uses up one of the ids not recorded yet, which bounds the recursion of the check |
| `BtfEquivalence.PartnersFollowed` | framework/ebpf/internal/src/btf.c:2310-2445 | with nothing recorded yet, any matching of two ids is one the check can follow |
| `BtfCanon.RootMapped` | framework/ebpf/internal/src/btf.c:2174-2189 | when links only lead to mapped ids, a mapped id resolves to a canonical one |
| `BtfCanon.RelinkSound` | framework/ebpf/internal/src/btf.c:2473-2517 | each link that merging a hypothetical map makes keeps the map a forest of ids that mean the same |
| `BtfCanon.EnumResolved` | framework/ebpf/internal/src/btf.c:2122-2132 | re-pointing a valueless enum to a later full one keeps the forest, its meaning and the candidate table |
| `BtfCanon.FreeLinked` | framework/ebpf/internal/src/btf.c:2486-2515 | linking an end to something defined leaves everything that resolved resolved, and resolves what ended at either |
| `BtfTwins.DirectMatches` | framework/ebpf/internal/src/btf.c:2310-2445 | a pairing of types that agree locally and whose references stand for each other is a matching under every map the struct pass may have reached |
| `BtfTwins.PairedMatches` | framework/ebpf/internal/src/btf.c:2560-2591 | so structs paired by one look alike, have the same hash and must be accepted by the check |
| `BtfTwins.StructAlone` | framework/ebpf/internal/src/btf.c:2560-2591 | a struct all candidates turned down matches no canonical struct, so that no two canonical structs are twins |
| `BtfTwins.AllEnumsSeen` | framework/ebpf/internal/src/btf.c:2113-2134 | an enum that stays its own representative clashes with no canonical enum, since all that could are candidates |
| `BtfRefPass.SettleSafe` | framework/ebpf/internal/src/btf.c:2734-2738 | linking a reference type, its references resolved, to an equal canonical one keeps the map sound |
| `BtfRefPass.ShallowSame` | framework/ebpf/internal/src/btf.c:2642-2648 | ids that mean the same have equally long chains of reference kinds below them |
| `BtfRefPass.SafeChild` | framework/ebpf/internal/src/btf.c:2642-2648 | when no cycle runs through reference kinds alone, visiting a reference never meets a type in progress |
| `BtfFinal.NewIdIncreases` | framework/ebpf/internal/src/btf.c:2767-2815 | new ids strictly increase with the canonical ids and never exceed them |
| `BtfFinal.NewIdOnto` | framework/ebpf/internal/src/btf.c:2767-2815 | every id from 1 to the number of types kept is the new id of a canonical type |
| `BtfFinal.PackOne` | framework/ebpf/internal/src/btf.c:2782-2795 | one turn of the compaction writes below what is still to be read and leaves the rest alone |
| `BtfFinal.FinalMeaning` | framework/ebpf/internal/src/btf.c:1308-1353 | every original id means the same in the graph as given as its final id does in the packed and remapped one |
| `BtfFinal.FinalDistinct` | framework/ebpf/internal/src/btf.c:2541-2947 | no two ints, enums, reference descriptors or forward declarations without a type of the result are equal |
| `BtfFinal.FinalNoClash` | framework/ebpf/internal/src/btf.c:2122-2132 | with forward resolution no valueless enum of the result stays beside a full one of its name and size |
| `BtfComplete.MergeableMerged` | framework/ebpf/internal/src/btf.c:2597-2606 | without forward resolution, a struct that can be paired one to one with all that means the same gets the final id of all of them |
| `BtfComplete.CanonicalUnique` | framework/ebpf/internal/src/btf.c:1308-1353 | canonical ids that mean the same are one id: structs by pairing, plain kinds by equality, reference kinds by what they refer to |
| `BtfComplete.AllCompleted` | framework/ebpf/internal/src/btf.c:1308-1353 | if every struct can be so paired and no cycle consists of references alone, two ids end as one if and only if they mean the same |
| `BtfComplete.FewTypes` | framework/ebpf/internal/src/btf.c:2767-2815 | then no more types are left than there are ids in any set that represents every meaning |
| `BtfComplete.FlatMergeable` | framework/ebpf/internal/src/btf.c:2541-2595 | structs whose members are ints, enums or forward declarations can be so paired |
| `BtfComplete.CopiesMergeable` | framework/ebpf/internal/src/btf.c:2541-2595 | so can all structs of a graph that holds every type twice, cycles included |
| `BtfComplete.HalfLeft` | framework/ebpf/internal/src/btf.c:2767-2815 | of such a graph at most half of the types are left |
| `BtfComplete.AcceptedMatches` | framework/ebpf/internal/src/btf.c:2310-2445 | starting with nothing recorded, without forward resolution, whatever the equivalence check accepts matches |
| `BtfComplete.PointersApart` | framework/ebpf/internal/src/btf.c:2324-2331 | two structs that mean the same, of which the later does not match the earlier while the earlier would match the later |
| `BtfFinal.ClearIds` | framework/ebpf/internal/src/btf.c:2774-2777 | before the compaction no id has a new number |
| `BtfDedup.DedupTypes` | framework/ebpf/internal/src/btf.c:1308-1353 | on success every id means the same before and after, as many types are left as there are canonical ones, nothing plain is left to merge, no valueless enum stays beside a full one, and no reference dangles; without forward resolution, structs that can be paired one to one end as one, and if all can, ids end as one exactly if they mean the same and no more types are left than it takes to represent them all; it succeeds on every graph of known kinds whose reference cycles all pass through a struct |
| `BtfDedup.Dedup.constructor` | framework/ebpf/internal/src/btf.c:1470-1533 | void, variables and data sections start out canonical, everything else unprocessed |
| `BtfDedup.Dedup.ResolveTypeId` | framework/ebpf/internal/src/btf.c:2184-2189 | the loop ends, at the root of the forest |
| `BtfDedup.Dedup.ResolveFwdId` | framework/ebpf/internal/src/btf.c:2195-2209 | a forward declaration gives the struct it resolves to if there is one, any other id itself |
| `BtfDedup.Dedup.ClearHypotMap` | framework/ebpf/internal/src/btf.c:1429-1436 | afterwards nothing is recorded |
| `BtfDedup.Dedup.IsEquiv` | framework/ebpf/internal/src/btf.c:2310-2335 | a positive answer leaves the pair linked and every newly recorded pair justified; a negative one is never given when a matching exists; an error only on unknown kinds or sections used as types |
| `BtfDedup.Dedup.ComparePair` | framework/ebpf/internal/src/btf.c:2333-2445 | the same for the comparison behind the recording |
| `BtfDedup.Dedup.CompareRef` | framework/ebpf/internal/src/btf.c:2374-2382 | the same for pointers, typedefs, modifiers and functions |
| `BtfDedup.Dedup.CompareArray` | framework/ebpf/internal/src/btf.c:2384-2396 | the same for arrays: index type, then element type |
| `BtfDedup.Dedup.CompareMembers` | framework/ebpf/internal/src/btf.c:2398-2417 | the same for the members of structs and unions |
| `BtfDedup.Dedup.CompareParams` | framework/ebpf/internal/src/btf.c:2419-2439 | the same for prototypes: result, then parameters |
| `BtfDedup.Dedup.Candidates` | framework/ebpf/internal/src/hashmap.h:162-168 | exactly the ids filed under the hash are visited |
| `BtfDedup.Dedup.FindEqual` | framework/ebpf/internal/src/btf.c:2662-2727 | the first equal candidate, or none when no canonical type is equal |
| `BtfDedup.Dedup.Settle` | framework/ebpf/internal/src/btf.c:2152-2156 | the map gets the new link, and a type that is its own representative becomes a candidate; this never fails for lack of room |
| `BtfDedup.Dedup.SearchEnum` | framework/ebpf/internal/src/btf.c:2113-2134 | the representative found means the same, valueless enums resolve to the full one, and an enum that stays its own clashes with no canonical one |
| `BtfDedup.Dedup.TryEnum` | framework/ebpf/internal/src/btf.c:2116-2132 | the effect of one candidate: linked to it, it re-pointed here, or nothing |
| `BtfDedup.Dedup.DedupPrimType` | framework/ebpf/internal/src/btf.c:2076-2157 | fails exactly on an unknown kind; otherwise the id is mapped and the invariant kept |
| `BtfDedup.Dedup.DedupPrimTypes` | framework/ebpf/internal/src/btf.c:2159-2169 | succeeds exactly if all kinds are known; then everything but structs and reference kinds is mapped, and with forward resolution no canonical valueless enum is left beside a full one |
| `BtfDedup.Dedup.MergeHypotMap` | framework/ebpf/internal/src/btf.c:2473-2517 | from pairs that mean the same, only resolvable forward declarations and unmapped structs get linked, and soundly; of every recorded pair, if one resolves to something defined, both do afterwards |
| `BtfDedup.Dedup.MergePair` | framework/ebpf/internal/src/btf.c:2481-2515 | the effect of one recorded pair: nothing resolved becomes unresolved, and a forward declaration beside something defined resolves to it |
| `BtfDedup.Dedup.SearchStruct` | framework/ebpf/internal/src/btf.c:2560-2588 | an accepted candidate means the same as the struct and, without forward resolution, matches it; when none is accepted, none matches |
| `BtfDedup.Dedup.DedupStructType` | framework/ebpf/internal/src/btf.c:2541-2595 | the struct is mapped and the invariant kept; it stays its own representative only if it matches no canonical struct that looks like it and, without forward resolution, is linked only to one it matches; an error only on a graph that is not well formed |
| `BtfDedup.Dedup.DedupStructTypes` | framework/ebpf/internal/src/btf.c:2597-2606 | the same for all structs |
| `BtfDedup.Dedup.DedupRefType` | framework/ebpf/internal/src/btf.c:2633-2739 | returns the canonical id of the type, leaves types visited before alone, and fails only when the type can reach one in progress |
| `BtfDedup.Dedup.ResolveRefs` | framework/ebpf/internal/src/btf.c:2650-2728 | afterwards every reference of the descriptor is canonical and means what it meant |
| `BtfDedup.Dedup.DedupRefTypes` | framework/ebpf/internal/src/btf.c:2741-2754 | afterwards every id is mapped; it fails only if a reference cycle avoids all structs |
| `BtfDedup.Dedup.CompactTypes` | framework/ebpf/internal/src/btf.c:2767-2815 | the canonical descriptors are packed in order and the hypothetical map holds their new ids |
| `BtfDedup.Dedup.RemapTypeId` | framework/ebpf/internal/src/btf.c:2823-2832 | the new id of the root, or an error exactly if it has none |
| `BtfDedup.Dedup.RemapType` | framework/ebpf/internal/src/btf.c:2844-2935 | fails exactly if some reference has no new id; otherwise every reference is rewritten |
| `BtfDedup.Dedup.RemapTypes` | framework/ebpf/internal/src/btf.c:2937-2947 | never fails after a compaction, and leaves each canonical descriptor with final references |
| `BtfDedup.Dedup.Run` | framework/ebpf/internal/src/btf.c:1319-1348 | the six passes in sequence: what DedupTypes promises |
| `HashMaps.HashBits` | framework/ebpf/internal/src/hashmap.h:20-24 | the upper bits of the 64-bit multiplicative shuffle index a table of that many bits |
| `HashMaps.AllCount` | framework/ebpf/internal/src/hashmap.c:128-150 | an entry is found in the bucket of its hash as often as in the whole table |
| `HashMaps.PutBinds` | framework/ebpf/internal/src/hashmap.c:152-202 | a successful ADD, SET or UPDATE binds equal keys to the value and leaves all other bindings |
| `HashMaps.RemoveUnbinds` | framework/ebpf/internal/src/hashmap.c:218-237 | a delete unbinds equal keys and leaves all other bindings |
| `HashMaps.FoundStaysIff` | framework/ebpf/internal/src/hashmap.h:72-80 | after an entry of another key is linked, the entry a find of a key meets is the same if and only if the buckets did not grow or the key's entries begin and end alike |
| `HashMaps.FindAfterGrowth` | framework/ebpf/internal/src/hashmap.h:72-80 | a run on a new table: two entries of one key, then two of others; the find then returns the first of the two, not the last inserted |
| `HashMaps.Another` | framework/ebpf/internal/src/hashmap.h:121-125 | one append of that run: the new size, capacity and order |
| `HashMaps.ReversedFirst` | framework/ebpf/internal/src/hashmap.c:115-118 | the entry met first after a growth is the one that was last |
| `HashMaps.PutRebinds` | framework/ebpf/internal/src/hashmap.c:152-202 | as a finite map, storing a key changes that binding and no other, and keys stay unique |
| `HashMaps.RemoveRebinds` | framework/ebpf/internal/src/hashmap.c:218-237 | as a finite map, deleting a key removes that binding and no other |
| `HashMaps.PushedNext` | framework/ebpf/internal/src/hashmap.c:115-118 | pushing one more entry of a chain puts it before the others of its key |
| `HashMaps.TurnedNext` | framework/ebpf/internal/src/hashmap.c:115-118 | moving one old bucket turns round the order of the entries of its keys and of no others |
| `HashMaps.HashMap.constructor` | framework/ebpf/internal/src/hashmap.c:35-58 | an empty table |
| `HashMaps.HashMap.Clear` | framework/ebpf/internal/src/hashmap.c:60-71 | empties the table |
| `HashMaps.HashMap.KeyEntriesExact` | framework/ebpf/internal/src/hashmap.h:162-168 | iterating a key visits each of its entries as often as it is held, and nothing else |
| `HashMaps.HashMap.LookupMeetsKey` | framework/ebpf/internal/src/hashmap.c:128-150 | a lookup meets an entry of the key whenever there is one |
| `HashMaps.HashMap.LookupIsBound` | framework/ebpf/internal/src/hashmap.c:204-216 | while keys are unique a lookup is the finite map of the entries |
| `HashMaps.HashMap.RehashChain` | framework/ebpf/internal/src/hashmap.c:115-118 | all entries of the chain arrive in their buckets, each key's in reverse |
| `HashMaps.HashMap.Rehash` | framework/ebpf/internal/src/hashmap.c:98-126 | the entries keep their multiset, and those of every key are turned round |
| `HashMaps.HashMap.Grow` | framework/ebpf/internal/src/hashmap.c:98-126 | the capacity doubles and no entry is lost; on failure nothing changes |
| `HashMaps.HashMap.AddEntry` | framework/ebpf/internal/src/hashmap.c:188-201 | one entry more, met first; fails, changing nothing, only with 2^59 entries or more |
| `HashMaps.HashMap.FindEntry` | framework/ebpf/internal/src/hashmap.c:128-150 | the first entry of the key, or none exactly if there is none |
| `HashMaps.HashMap.StoreAt` | framework/ebpf/internal/src/hashmap.c:166-175 | replaces the entry by the new key and value |
| `HashMaps.HashMap.Insert` | framework/ebpf/internal/src/hashmap.c:152-202 | each strategy's exact outcome and error, the prior entry, the new multiset, capacity and order; as a finite map, the key is bound to the value and nothing else changes; which finds change |
| `HashMaps.HashMap.AppendEntry` | framework/ebpf/internal/src/hashmap.h:121-125 | always one entry more; for every key, the order iterated afterwards |
| `HashMaps.HashMap.Find` | framework/ebpf/internal/src/hashmap.c:204-216 | the value of the first entry of the key; while keys are unique, the value the finite map binds it to |
| `HashMaps.HashMap.Delete` | framework/ebpf/internal/src/hashmap.c:218-237 | takes out the first entry of the key and nothing else; as a finite map, the key is unbound and nothing else changes |
| `BtfBytes.CompactedRecord` | framework/ebpf/internal/src/btf.c:2767-2815 | each canonical record is byte for byte where the new table says |
| `BtfBytes.CompactedNext` | framework/ebpf/internal/src/btf.c:2767-2815 | the new records lie one behind the other, the last ending where the strings begin |
| `BtfDecode.DecodedKind` | framework/ebpf/internal/src/btf.c:152-185 | the kind, length and size-or-type of the decoded descriptor are those of its record |
| `BtfDecode.SameDecode` | framework/ebpf/internal/src/btf.c:2782-2795 | records equal byte for byte decode to equal descriptors |
| `BtfDecode.CompactionRefines` | framework/ebpf/internal/src/btf.c:2767-2815 | compacting the bytes of a graph leaves the bytes of the compacted graph, with the same new ids and records one behind the other up to the strings |
| `BtfBytes.PackedNext` | framework/ebpf/internal/src/btf.c:2782-2795 | moving one record down overwrites nothing still to be read, in the buffer or in the pointer table |
| `BtfBytes.BtfData.CompactTypes` | framework/ebpf/internal/src/btf.c:2767-2815 | fails exactly if a canonical record is of an unknown kind; otherwise records, pointer table, lengths and the string section behind them are as they should be |
| `BtfBytes.BtfData.CompactOne` | framework/ebpf/internal/src/btf.c:2782-2795 | one turn of the loop |
| `StringDedup.StringTable.DedupStrings` | framework/ebpf/internal/src/btf.c:1694-1807 | fails, changing nothing, exactly if a reference is not the start of a string; otherwise every reference reads its old string in a section no longer than before, with distinct strings, all of them referenced but the empty one |
| `StringDedup.EqualNamesEqualOffsets` | framework/ebpf/internal/src/btf.c:1666-1681 | afterwards two references are the same number exactly if they name the same string |
| `StringDedup.BuildIndex` | framework/ebpf/internal/src/btf.c:1709-1729 | the index lists exactly the starts of strings |
| `StringDedup.MarkUsed` | framework/ebpf/internal/src/btf.c:1649-1664 | fails exactly if a reference is not the start of a string; marks exactly the referenced ones |
| `StringDedup.EmitGroups` | framework/ebpf/internal/src/btf.c:1747-1786 | every used string is placed once, with the offset its entries carry |
| `StringDedup.EmitGroup` | framework/ebpf/internal/src/btf.c:1772-1780 | writing one more string keeps all earlier ones, the distinctness and the bound on the length |
| `StringDedup.Find` | framework/ebpf/internal/src/btf.c:1640-1647 | a binary search finds an entry of the offset exactly if there is one |
| `StringDedup.LessTotal` | framework/ebpf/internal/src/btf.c:1622-1628 | byte-wise comparison is a strict total order |
| `StringDedup.SortKeeps` | framework/ebpf/internal/src/btf.c:1744-1745 | sorting keeps the entries and orders them |
| `BtfDumpOrder.TopoMeans` | framework/ebpf/internal/src/btf_dump.c:345-407 | in the emit queue whatever a definition needs, through arrays, modifiers, typedefs, anonymous members and pointers to anonymous structs, stands before it |
| `BtfDumpOrder.PtrNeedsLess` | framework/ebpf/internal/src/btf_dump.c:345-407 | a use behind a pointer needs no more than one by value |
| `BtfDumpOrder.MetFromUses` | framework/ebpf/internal/src/btf_dump.c:408-549 | a use is met when all it expands to is, and it asks not for itself or is listed |
| `BtfDumpOrder.NotInOrder` | framework/ebpf/internal/src/btf_dump.c:345-407 | a definition that needs itself stands in no topological order |
| `BtfDumpOrder.NeverMet` | framework/ebpf/internal/src/btf_dump.c:345-407 | so a use that needs one is never met |
| `BtfDumpOrder.Dump.constructor` | framework/ebpf/internal/src/btf_dump.c:124-176 | void is ordered, nothing else, and nothing is queued |
| `BtfDumpOrder.Dump.OrderType` | framework/ebpf/internal/src/btf_dump.c:408-549 | terminates; agrees with the visit as a function, and on success extends a topological order, leaving only what was open open |
| `BtfDumpOrder.Dump.OrderPtr` | framework/ebpf/internal/src/btf_dump.c:445-448 | the pointer case |
| `BtfDumpOrder.Dump.OrderSame` | framework/ebpf/internal/src/btf_dump.c:450-451 | the array case, and that of the modifiers at lines 516 to 519 |
| `BtfDumpOrder.Dump.OrderTypedef` | framework/ebpf/internal/src/btf_dump.c:497-515 | the typedef case: queued unless weakly linked behind a pointer |
| `BtfDumpOrder.Dump.OrderEnum` | framework/ebpf/internal/src/btf_dump.c:482-495 | the enum and forward case |
| `BtfDumpOrder.Dump.OrderStruct` | framework/ebpf/internal/src/btf_dump.c:453-481 | the struct case: all members first, then the struct itself if it has a name |
| `BtfDumpOrder.Dump.OrderProto` | framework/ebpf/internal/src/btf_dump.c:521-539 | the prototype case: strong if the result or a parameter is |
| `BtfDumpOrder.Dump.DumpType` | framework/ebpf/internal/src/btf_dump.c:224-240 | fails on an unknown id; otherwise agrees with the visit as a function, and on success everything queued so far is one topological order, with repeated entries exactly as the repetition results say, and none if the type leads to no typedef that returns; it fails only if the type leads to a struct whose members lead back to it or to an unknown kind, and does fail if the type needs a definition that needs itself; whatever is listed is a definition of its own that was not ordered before |
| `BtfDumpRun.VisitMore` | framework/ebpf/internal/src/btf_dump.c:408-549 | a visit that ends within a bound ends alike within any larger one |
| `BtfDumpRun.EndsOnce` | framework/ebpf/internal/src/btf_dump.c:408-549 | two visits from one state that end, end alike |
| `BtfDumpUnique.VisitKept` | framework/ebpf/internal/src/btf_dump.c:408-549 | what waits for an open struct stays unordered through a successful visit, so nothing queued is queued again |
| `BtfDumpUnique.QueueUnrepeated` | framework/ebpf/internal/src/btf_dump.c:224-240 | no entry repeats unless it is a typedef of a prototype named through typedefs, modifiers and arrays only |
| `BtfDumpRepeat.VisitRepeats` | framework/ebpf/internal/src/btf_dump.c:408-549 | from any state, a successful visit keeps the list free of repetitions if and only if it never lists a typedef that is ordered already |
| `BtfDumpRepeat.QueueRepeatsIff` | framework/ebpf/internal/src/btf_dump.c:224-240 | the queue of a dump repeats an entry if and only if it did before or a typedef is met already ordered after its target |
| `BtfDumpRepeat.VisitLed` | framework/ebpf/internal/src/btf_dump.c:408-549 | whatever a visit orders, the visited type leads to through the references a visit follows |
| `BtfDumpRepeat.MeetsReturning` | framework/ebpf/internal/src/btf_dump.c:497-515 | a visit that lists an ordered typedef leads to a typedef whose target leads back to it |
| `BtfDumpRepeat.NoReturnNoRepeat` | framework/ebpf/internal/src/btf_dump.c:224-240 | when the dumped type leads to no such typedef, a condition on the graph alone, the queue gets no repeated entry, whatever was dumped before |
| `BtfDumpRepeat.ReturningListedOnce` | framework/ebpf/internal/src/btf_dump.c:497-539 | such a typedef need not repeat: a concrete graph on which it is listed once |
| `BtfDumpFail.VisitExplained` | framework/ebpf/internal/src/btf_dump.c:408-549 | from any state, a visit fails with a loop only if it comes to a struct that is open, or leads to one whose members lead back to it, each time not as a name behind a pointer; and as invalid only toward an unknown kind |
| `BtfDumpFail.FailsOnly` | framework/ebpf/internal/src/btf_dump.c:224-240 | when nothing is open, a condition on the graph alone: without such a struct and with known kinds only, the visit succeeds |
| `BtfDumpFail.RankedNoLoop` | framework/ebpf/internal/src/btf_dump.c:408-549 | there is no such struct if a rank goes down along all that follows from the type, a named struct behind a pointer being a leaf |
| `BtfDumpFail.VisitLists` | framework/ebpf/internal/src/btf_dump.c:408-549 | only typedefs, named structs, and enums and forward declarations that are named or not referred to are listed, none of them ordered before the visit |
| `BtfDumpFail.VisitSteady` | framework/ebpf/internal/src/btf_dump.c:408-549 | a successful visit leaves open exactly the structs that were, and orders no less |
| `BtfDumpUnique.TypedefRepeats` | framework/ebpf/internal/src/btf_dump.c:497-539 | such a typedef can be queued twice: a concrete graph on which it is |
| `CoreSpec.StepsThen` | framework/ebpf/internal/src/libbpf.c:3941-3997 | walking two access strings one after the other is walking their concatenation |
| `CoreSpec.SkipIdempotent` | framework/ebpf/internal/src/libbpf.c:1834-1848 | skipping modifiers and typedefs twice is skipping them once |
| `CoreLayout.MemberWord` | framework/ebpf/internal/src/btf.h:293-312 | offset and bitfield size are read back from the word that encodes both |
| `CoreLayout.ArraySize` | framework/ebpf/internal/src/btf.c:236-286 | the size of an array, behind typedefs and modifiers, is the product of its dimensions and the size of its elements; it is found exactly if nothing overflows 32 bits within 32 types |
| `CoreLayout.StepSucceeds` | framework/ebpf/internal/src/libbpf.c:3941-3997 | a member that exists or an element in bounds is always reached, with its accessor unless it is an anonymous member |
| `CoreLayout.WalkInside` | framework/ebpf/internal/src/libbpf.c:3941-3997 | what a walk reaches lies inside what it started from |
| `CoreLayout.WalksApart` | framework/ebpf/internal/src/libbpf.c:3941-3997 | access strings that part at a struct or an array denote bits that do not overlap, whatever follows |
| `CoreLayout.DenotedInside` | framework/ebpf/internal/src/libbpf.c:3893-4000 | what an access string denotes lies inside the element of the root type its first index names |
| `CoreSearch.MemberHasIs` | framework/ebpf/internal/src/libbpf.c:4220-4244 | a member has a name when it bears it, or is anonymous and its type has it |
| `CoreSearch.HitIsClean` | framework/ebpf/internal/src/libbpf.c:4216-4248 | names being unique, a hit leaves nothing of the members tried before |
| `CoreSearch.DenotesLocal` | framework/ebpf/internal/src/libbpf.c:3893-4000 | every access string that denotes something gives a well-formed local spec |
| `CoreSearch.SkipRank` | framework/ebpf/internal/src/libbpf.c:4112-4163 | comparing array elements goes down, so compatibility is decided |
| `CoreCompat.EssentialLenIs` | framework/ebpf/internal/src/libbpf.c:4002-4024 | the essential length ends at the last flavor separator, or is all of the name |
| `CoreCompat.FlavorDropped` | framework/ebpf/internal/src/libbpf.c:4002-4024 | X___Y has the essential name X |
| `CoreCompat.FlavorsSame` | framework/ebpf/internal/src/libbpf.c:4133-4147 | flavors of one name are the same and flavors of different names are not |
| `CoreCompat.SkippedUnseen` | framework/ebpf/internal/src/libbpf.c:4119-4123 | typedefs and modifiers on either side make no difference |
| `CoreCompat.AlwaysCompatible` | framework/ebpf/internal/src/libbpf.c:4125-4132 | any two structs or unions, and any two pointers, are compatible |
| `CoreCompat.OtherKindsDiffer` | framework/ebpf/internal/src/libbpf.c:4125-4162 | nothing else is across kinds, nor any kind the list leaves out |
| `CoreCompat.CompatibleWithin` | framework/ebpf/internal/src/libbpf.c:4130-4162 | integers unless one starts inside its bytes, enums and forward declarations by essential name, arrays by their elements |
| `CoreCompat.CompatibleSymmetric` | framework/ebpf/internal/src/libbpf.c:4112-4163 | it makes no difference which side is local |
| `CoreCompat.CompatibleSelfIff` | framework/ebpf/internal/src/libbpf.c:4112-4163 | the types compatible with themselves are exactly those of the listed kinds, down to the elements |
| `CoreCompat.SelfCorresponds` | framework/ebpf/internal/src/libbpf.c:4257-4325 | what an access string denotes corresponds to itself exactly if the members it names are of such types |
| `CoreCompat.SelfFindable` | framework/ebpf/internal/src/libbpf.c:4257-4325 | and then it must be found, if the nesting leaves room |
| `CoreUnique.PathHas` | framework/ebpf/internal/src/libbpf.c:4181-4250 | a walk whose first accessor bears a name goes through a member that bears or has that name |
| `CoreUnique.SamePath` | framework/ebpf/internal/src/libbpf.c:4181-4250 | the path to the first accessor of a name is the beginning of every walk that passes one |
| `CoreUnique.OnlyMember` | framework/ebpf/internal/src/libbpf.c:4278-4284 | after a member is matched, whatever corresponds to the local spec so far begins with the path found |
| `CoreUnique.NoMember` | framework/ebpf/internal/src/libbpf.c:4278-4284 | when no member is found, nothing on the target corresponds to the local spec |
| `CoreUnique.NoIndex` | framework/ebpf/internal/src/libbpf.c:4285-4304 | nor when there is no array or the index is beyond it |
| `CoreUnique.FailedNoRoom` | framework/ebpf/internal/src/libbpf.c:4212-4214 | when the member search runs out of room, no corresponding spec leaves room for the deepest anonymous nesting |
| `CoreUnique.FullNoRoom` | framework/ebpf/internal/src/libbpf.c:4306-4308 | nor when the spec is full before an index |
| `CoreUnique.SizelessNoRoom` | framework/ebpf/internal/src/libbpf.c:4317-4319 | nor when the element indexed has no size |
| `CoreMatch.Spec.constructor` | framework/ebpf/internal/src/libbpf.c:4266-4267 | an empty spec |
| `CoreMatch.Spec.Parse` | framework/ebpf/internal/src/libbpf.c:3893-4000 | succeeds exactly when the access string denotes something, with its accessors and bit offset, and the same error otherwise |
| `CoreMatch.Spec.ParseStep` | framework/ebpf/internal/src/libbpf.c:3941-3997 | one element of the access string |
| `CoreMatch.Spec.MatchMember` | framework/ebpf/internal/src/libbpf.c:4181-4251 | finds the one compatible member of that name through any anonymous nesting, reports none exactly if there is none, leaves the spec unchanged where the name is absent, and fails only when the spec is full |
| `CoreMatch.Spec.SpecMatch` | framework/ebpf/internal/src/libbpf.c:4257-4325 | on a match the target spec is what its own access string denotes, it corresponds to the local spec and nothing else does; on no match nothing corresponds; it does match whenever something corresponds and the anonymous nesting of the target leaves room for it in the spec |
| `CoreMatch.MatchOwn` | framework/ebpf/internal/src/libbpf.c:4257-4325 | a spec parsed from an access string and matched against the BTF it comes from finds the same members, if those are of kinds a relocation can go to |
| `CoreField.BitfieldWindow` | framework/ebpf/internal/src/libbpf.c:4362-4380 | the smallest aligned load from the storage size up that holds the field, for every storage size and with 32-bit wrap-around |
| `CoreField.HoldsIff` | framework/ebpf/internal/src/libbpf.c:4367-4380 | the 32-bit test of the loop is the true one: the aligned load starts at or before the field, and the test passes exactly if it reaches the end of it |
| `CoreField.BestWindowExact` | framework/ebpf/internal/src/libbpf.c:4367-4380 | such a load exists exactly if the aligned 8 bytes around the field hold it, and no smaller one does |
| `CoreField.CalcFieldRelo` | framework/ebpf/internal/src/libbpf.c:4327-4434 | each relocated value, the validation flag and each error; the byte offset of what is no bitfield is that of the byte its bits start in |
| `CoreField.ProbedReadsField` | framework/ebpf/internal/src/bpf_core_read.h:25-59 | for every memory, loading the window and shifting gives the field, zero- or sign-extended, in either byte order |
| `CoreField.LoadableWindow` | framework/ebpf/internal/src/libbpf.c:4360-4388 | the window of a field that can be loaded holds exactly its bits; an ordinary field always has one, a bitfield exactly if 8 aligned bytes hold it |
| `CoreField.ReadRelocated` | framework/ebpf/internal/src/bpf_core_read.h:49-59 | with the five relocated values, the macro reads exactly the bits of the field, bitfield or not, extended by its sign, for every memory and either byte order |
| `CoreField.ReadElement` | framework/ebpf/internal/src/libbpf.c:4340-4358 | the bytes at the relocated offset of an array element, of the relocated size, are the element |
| `CoreField.SignIsEncodingBit` | framework/ebpf/internal/src/libbpf.c:4404-4410 | the sign is bit 0 of the encoding of an integer, and enums read as signed |
| `CoreField.DirectReadsFieldLittle` | framework/ebpf/internal/src/bpf_core_read.h:67-83 | on little-endian machines the fall-through switch still reads the field |
| `CoreField.DirectReadsFieldBig` | framework/ebpf/internal/src/bpf_core_read.h:67-83 | on big-endian machines it does for every memory if and only if the window is 8 bytes |
| `CoreField.ShlMultiplies` | framework/ebpf/internal/src/bpf_core_read.h:77-77 | the left shift multiplies and drops what leaves the word |
| `CoreField.ShrDivides` | framework/ebpf/internal/src/bpf_core_read.h:81-81 | the right shift divides |
| `ProgramLink.FindProgram` | framework/ebpf/internal/src/libbpf.c:2884-2896 | a program of that section exactly if there is one |
| `ProgramLink.PatchedStep` | framework/ebpf/internal/src/libbpf.c:4894-4950 | carrying out one more relocation leaves the earlier ones as they were |
| `ProgramLink.Program.constructor` | framework/ebpf/internal/src/libbpf.c:4849-4892 | a program as loading leaves it |
| `ProgramLink.Object.constructor` | framework/ebpf/internal/src/libbpf.c:4953-4997 | an object as loading leaves it |
| `ProgramLink.Object.RelocText` | framework/ebpf/internal/src/libbpf.c:4849-4892 | appends the text section once, on the first call, and re-aims the call; fails exactly if there is no such section |
| `ProgramLink.Object.RelocLoad` | framework/ebpf/internal/src/libbpf.c:4921-4935 | a load gets its map, its value offset or its extern, and no other instruction changes |
| `ProgramLink.Object.RelocateOne` | framework/ebpf/internal/src/libbpf.c:4911-4945 | one relocation: fails exactly in the three error cases |
| `ProgramLink.Object.RelocateProgram` | framework/ebpf/internal/src/libbpf.c:4894-4950 | succeeds exactly if no relocation meets an error case; then the program is linked |
| `ProgramLink.Object.RelocateText` | framework/ebpf/internal/src/libbpf.c:4970-4981 | the text section first |
| `ProgramLink.Object.RelocateMains` | framework/ebpf/internal/src/libbpf.c:4985-4996 | then every other program, against the text section as it then is |
| `ProgramLink.Object.Relocate` | framework/ebpf/internal/src/libbpf.c:4953-4997 | succeeds exactly if no relocation of any program meets an error case; then every program is linked |
| `ProgramRuns.TargetKept` | framework/ebpf/internal/src/libbpf.c:4888-4890 | each call of the linked program lands on the image of the instruction the unlinked one named, in the main part and in the copy |
| `ProgramRuns.EffectKept` | framework/ebpf/internal/src/libbpf.c:4921-4940 | each instruction yields the same map, value address or constant as before |
| `ProgramRuns.StepKept` | framework/ebpf/internal/src/libbpf.c:4849-4950 | one step of the linked program is the image of one step of the unlinked sections |
| `ProgramRuns.RunsKept` | framework/ebpf/internal/src/libbpf.c:4849-4950 | so is every run, with everything it does |
| `ProgramRuns.LinkingKeepsRuns` | framework/ebpf/internal/src/libbpf.c:4953-4997 | the programs a successful relocation leaves run as the sections did, from the first instruction, for every choice of branches |
| `ProgramRuns.WellFormedSeparate` | framework/ebpf/internal/src/libbpf.c:2954-3081 | relocations as recorded never write the same slot |
| `PerfRings.MaskIsRemainder` | framework/ebpf/internal/src/libbpf.c:7959-7959 | masking with one less than a power of two takes the remainder |
| `PerfRings.WrapKeepsPlace` | framework/ebpf/internal/src/libbpf.c:7983-7983 | counters that wrap at 2^64 keep their place in the ring |
| `PerfRings.RecordsTile` | framework/ebpf/internal/src/libbpf.c:7958-7986 | the records of a stream join up to the stream |
| `PerfRings.StreamInMemory` | framework/ebpf/internal/src/libbpf.c:7962-7980 | a piece of the stream is one piece of memory or its end and its beginning |
| `PerfRings.PerfBuffer.JoinPieces` | framework/ebpf/internal/src/libbpf.c:7976-7979 | the two copies put a wrapped record together |
| `PerfRings.PerfBuffer.TakeRecord` | framework/ebpf/internal/src/libbpf.c:7959-7980 | the record handed out is the next one of the stream; no record only if memory was needed and refused |
| `PerfRings.PerfBuffer.ReadSimple` | framework/ebpf/internal/src/libbpf.c:7947-7993 | terminates; the callback sees the records of the stream in order until it stops or memory is refused, and the tail written back is past exactly those |
| `RingBuffs.RingBuff.constructor` | framework/bandwidth/report/ring_buff.go:15-23 | an empty queue of that capacity |
| `RingBuffs.RingBuff.Enqueue` | framework/bandwidth/report/ring_buff.go:25-35 | adds at the end exactly if there is room |
| `RingBuffs.RingBuff.Dequeue` | framework/bandwidth/report/ring_buff.go:37-47 | takes the first value, or nothing from an empty queue |
| `RingBuffs.RingBuff.Current` | framework/bandwidth/report/ring_buff.go:49-54 | the first value |
| `RingBuffs.RingBuff.Surplus` | framework/bandwidth/report/ring_buff.go:60-67 | all values in order, across the wrap |
| `ReportQueues.LoadedKeepsOrder` | framework/bandwidth/report/report_job.go:120-146 | a load moves requests and keeps them all, in order |
| `ReportQueues.LoadedFills` | framework/bandwidth/report/report_job.go:120-146 | a load fills the ring with the first requests that wait, and when nothing is left elsewhere new requests go straight into it |
| `ReportQueues.StartedKeepsOrder` | framework/bandwidth/report/report_job.go:44-68 | a restart keeps all requests in order and fills the ring |
| `ReportQueues.AddedKeepsAll` | framework/bandwidth/report/report_job.go:100-118 | an addition adds one request, the overflow slice stays below the buffer length, and buffer-only implies it is empty |
| `ReportQueues.AddedInBatches` | framework/bandwidth/report/report_job.go:100-118 | the file grows by exactly one buffer length at a time, and never while a request may go into the ring |
| `ReportQueues.AddedLastIff` | framework/bandwidth/report/report_job.go:100-118 | a new request goes behind all others if and only if it does not enter the ring ahead of different ones |
| `ReportQueues.LoadedInOrderIff` | framework/bandwidth/report/report_job.go:120-146 | a load keeps the order promise exactly when it does not find the slice empty and more in the file than the ring takes |
| `ReportQueues.NextIsSound` | framework/bandwidth/report/report_job.go:69-92 | the request being sent heads the ring until its own report succeeded |
| `ReportQueues.NextConserves` | framework/bandwidth/report/report_job.go:69-146 | each step conserves the multiset of accepted requests |
| `ReportQueues.NothingLost` | framework/bandwidth/report/report_job.go:69-146 | over every interleaving of additions, loads, reports, failures and restarts, accepted requests are reported or wait, and only one in flight at a restart is reported again |
| `ReportQueues.RunOrdered` | framework/bandwidth/report/report_job.go:69-146 | over every run without the two disturbing steps, requests are reported in the order accepted |
| `ReportQueues.StepProgress` | framework/bandwidth/report/report_job.go:69-92 | each step of the loop comes nearer to the end and reports in order |
| `ReportQueues.AllReported` | framework/bandwidth/report/report_job.go:69-92 | from every state that can be reached, the loop alone reports everything that waits, in order, within four steps a request, if its reports succeed |
| `ReportQueues.Overtaking` | framework/bandwidth/report/report_job.go:120-146 | without that condition a later request can overtake: concrete buffers |
| `ReportJobs.ReportJob.constructor` | framework/bandwidth/report/report_job.go:29-42 | an empty job over the file, with the configured or default buffer length |
| `ReportJobs.ReportJob.DoAdd` | framework/bandwidth/report/report_job.go:100-118 | makes the addition step on ring, slice and file, unless the slice is written while the cursor is not at the end; then the bytes of the slice overwrite the file from the cursor on |
| `ReportJobs.ReportJob.Add` | framework/bandwidth/report/report_job.go:94-98 | the same under the lock |
| `ReportJobs.ReportJob.LoadFromFile` | framework/bandwidth/report/report_job.go:150-152 | the oldest waiting requests leave the file |
| `ReportJobs.ReportJob.TryLoadData` | framework/bandwidth/report/report_job.go:120-146 | makes the load step; the source's mixed loops over file and slice come to the one function; the cursor is at the end afterwards exactly if the load reached it |
| `ReportJobs.ReportJob.AddBuffered` | framework/bandwidth/report/report_job.go:132-143 | the slice goes into the ring as far as there is room, in order, and the rest stays |
| `ReportJobs.ReportJob.Start` | framework/bandwidth/report/report_job.go:44-62 | makes the restart step, and leaves the cursor at the end exactly if the first load reaches it |
| `ReportJobs.ReportJob.Stop` | framework/bandwidth/report/report_job.go:63-67 | the file holds ring, file and slice in that order and nothing else |
| `ReportJobs.ReportJob.Turn` | framework/bandwidth/report/report_job.go:78-92 | the request to send is the head of the ring, or else a load is made; where the cursor is left |
| `ReportJobs.ReportJob.Dequeue` | framework/bandwidth/report/report_job.go:85-87 | the head leaves the ring and nothing else changes |
| `FileStores.RecordRoundTrip` | framework/bandwidth/store/store.go:151-187 | a record reads back as written, whatever follows it, if and only if its payload is shorter than 256 bytes |
| `FileStores.RecordsInjective` | framework/bandwidth/store/store.go:151-187 | different lists of short records are different bytes |
| `FileStores.WriteAppendsIff` | framework/bandwidth/store/store.go:33-46 | a write adds to the file exactly if the cursor is at its end |
| `FileStores.OverwrittenBytes` | framework/bandwidth/store/store.go:56-67 | every byte after a write: what was written where it was, what was there elsewhere |
| `FileStores.FetchedExactly` | framework/bandwidth/store/store.go:69-101 | after a load the cursor is at the end exactly if the buffers filled for the records taken and one more reach it |
| `FileStores.DecodedNext` | framework/bandwidth/store/store.go:79-95 | decoding stops at the first payload that does not decode |
| `FileStores.File.Read` | framework/bandwidth/store/store.go:188-207 | the bytes from the cursor on |
| `FileStores.File.Write` | framework/bandwidth/store/store.go:56-67 | overwrites from the cursor on |
| `FileStores.Reader.constructor` | framework/bandwidth/store/store.go:74-75 | a reader that has taken nothing yet |
| `FileStores.Reader.Fill` | framework/bandwidth/store/store.go:188-207 | refills an empty buffer with the next 4096 bytes |
| `FileStores.Reader.Read` | framework/bandwidth/store/store.go:188-207 | at most that many bytes, at least one unless the file has ended |
| `FileStores.Reader.ReadFixedLength` | framework/bandwidth/store/store.go:188-207 | that many bytes if the file has them, in one read or two |
| `FileStores.Reader.ReadRecord` | framework/bandwidth/store/store.go:162-184 | the next record, or nothing at the end |
| `FileStores.FileStore.constructor` | framework/bandwidth/store/store.go:33-46 | the records an earlier process left are pending |
| `FileStores.FileStore.DoWrite` | framework/bandwidth/store/store.go:56-67 | the encoded records overwrite the file from the cursor on, which at its end is to append them |
| `FileStores.FileStore.Store` | framework/bandwidth/store/store.go:50-55 | the file and the cursor after the write; with the cursor at the end and payloads under 256 bytes, the new records come after all pending ones |
| `FileStores.FileStore.Truncate` | framework/bandwidth/store/store.go:103-134 | the pending records between two new parts, nothing else, and offset 0 |
| `FileStores.FileStore.Load` | framework/bandwidth/store/store.go:69-101 | the first records in order, the offset past exactly their bytes, the file cleaned past a megabyte and emptied by a payload that does not decode; where the cursor is left |
| `FileStores.FileStore.Advance` | framework/bandwidth/store/store.go:96-100 | the offset goes past the bytes of the records taken, or the file is cleaned and holds the others |
| `FileStores.FileStore.Collect` | framework/bandwidth/store/store.go:74-95 | the loop of the load |
| `FileStores.LoadThenStore` | framework/bandwidth/store/store.go:50-101 | a run on three thousand empty records: after one is loaded and one stored, the bytes that were waiting are no longer there |
| `Samples.KeyInjective` | framework/bandwidth/collector/collector.go:132-137 | the joined key names one endpoint |
| `Samples.Group` | framework/bandwidth/model/bandwidth.go:84-90 | the totals of both directions |
| `Samples.BandwidthCollector.constructor` | framework/bandwidth/collector/collector.go:28-36 | no samples yet |
| `Samples.BandwidthCollector.AddPacketLen` | framework/bandwidth/collector/collector.go:132-146 | the endpoint's own sample grows in the packet's direction; no other changes |
| `Samples.BandwidthCollector.ExportAndClean` | framework/bandwidth/collector/collector.go:148-160 | every sample once, stamped, and none left |
| `Samples.WithinCut` | framework/bandwidth/model/bandwidth.go:71-82 | a cut at the first sample in range and the first beyond it is the linear half-open filter |
| `Samples.FileEngine.constructor` | framework/bandwidth/store/bandwidth_engine.go:104-111 | an empty store of the configured or default capacity |
| `Samples.FileEngine.Add` | framework/bandwidth/store/bandwidth_engine.go:85-100 | drops nothing while all fit; otherwise what is needed or half the capacity, whichever is more, from the old end; stays within capacity, stays sorted exactly if what is kept of both is, and panics, changing nothing, exactly when half the capacity is to go and less is there |
| `Samples.FileEngine.FirstFrom` | framework/bandwidth/model/bandwidth.go:71-82 | binary search for the first sample at or after a time |
| `Samples.FileEngine.Query` | framework/bandwidth/store/bandwidth_engine.go:46-54 | the samples of the half-open range that pass the filter; a panic exactly when a sample lies between an end and a later start |
| `Samples.MatchingIsQuery` | framework/bandwidth/store/bandwidth_engine.go:46-54 | the positions of a window name exactly what the query returns |
| `Samples.StoredExactly` | framework/bandwidth/store/bandwidth_engine.go:85-100 | storing keeps every sample counted once or lost before its window |
| `Samples.FetchedExactly` | framework/bandwidth/report/report_task.go:76-114 | so does closing a window: windows are disjoint and leave no gap |
| `Samples.ReportTask.constructor` | framework/bandwidth/report/report_task.go:30-57 | the first window starts at the given time |
| `Samples.ReportTask.PeriodFetchBandwidth` | framework/bandwidth/report/report_task.go:76-114 | the window advances exactly when it holds a sample; a report exactly when it and its stream part carry bytes, with their totals |
| `Samples.TaskRun.constructor` | framework/bandwidth/report/report_task.go:50-57 | a run with nothing counted |
| `Samples.TaskRun.Collect` | framework/bandwidth/store/bandwidth_engine.go:73-83 | storing a batch in the running system keeps exactly-once, without panic for batches up to half the capacity |
| `Samples.TaskRun.Fetch` | framework/bandwidth/report/report_task.go:76-114 | fetching a window in the running system keeps exactly-once |
| `BumpAlloc.Bounded` | framework/ebpf/internal/include/alloc.h:62-73 | the nearest number in the bounds |
| `BumpAlloc.PlacedFits` | framework/ebpf/internal/include/alloc.h:92-99 | in what is left of a partition that ends on a page, a block moved to the next page still fits and is aligned |
| `BumpAlloc.Allocator.constructor` | framework/ebpf/internal/include/alloc.h:13-25 | a region on page boundaries with at least a page for each CPU, nothing allocated |
| `BumpAlloc.Allocator.Partitions` | framework/ebpf/internal/include/alloc.h:27-60 | partitions lie in the region, on pages, and do not meet |
| `BumpAlloc.Allocator.Isolated` | framework/ebpf/internal/include/alloc.h:75-127 | over every sequence of calls, blocks of different CPUs never overlap, nor do those of one CPU between two beginnings of its partition |
| `BumpAlloc.Allocator.GetAreaStart` | framework/ebpf/internal/include/alloc.h:27-43 | the stored start, or the beginning of the partition |
| `BumpAlloc.Allocator.GetAreaEnd` | framework/ebpf/internal/include/alloc.h:45-60 | the stored end, or one partition from the start |
| `BumpAlloc.Allocator.FindStart` | framework/ebpf/internal/include/alloc.h:82-90 | where the block starts, with both tables afterwards; the partition begins again exactly if too little is left |
| `BumpAlloc.Allocator.BeginAgain` | framework/ebpf/internal/include/alloc.h:87-89 | the partition of this CPU begins again and no other changes |
| `BumpAlloc.Allocator.WriteTargetData` | framework/ebpf/internal/include/alloc.h:75-127 | from every state, the address returned and both tables afterwards; from a valid one, each block is in its CPU's partition, aligned and within one page, except exactly for an empty request when the partition is used up; after that the CPU never begins again and writes behind its partition |
| `BumpAlloc.Allocator.WriteAt` | framework/ebpf/internal/include/alloc.h:92-126 | the second half of the call: the block is moved to the next page if it would cross one, and the free part starts at the next multiple of eight behind it |
| `BumpAlloc.Allocator.GetArea` | framework/ebpf/internal/include/alloc.h:82-83 | both ends of the free part, set if they are not |
| `BumpAlloc.Allocator.EscapedLeft` | framework/ebpf/internal/include/alloc.h:84-86 | behind the partition, what is left in unsigned arithmetic is more than any request |
| `BumpAlloc.Overrun` | framework/ebpf/internal/include/alloc.h:75-127 | a run on two CPUs: four blocks and an empty request, and the next block overlaps the other CPU's first |
| `BumpAlloc.Call` | framework/ebpf/internal/include/alloc.h:75-127 | one call of that run |
| `LineInfo.RunIncreases` | framework/ebpf/internal/src/bpf_prog_linfo.c:42-79 | in every function but the last the addresses strictly increase |
| `LineInfo.RunInSymbol` | framework/ebpf/internal/src/bpf_prog_linfo.c:59-62 | and lie inside the function's symbol |
| `LineInfo.RunsTile` | framework/ebpf/internal/src/bpf_prog_linfo.c:42-85 | the runs of the functions tile all records |
| `LineInfo.RunsOrdered` | framework/ebpf/internal/src/bpf_prog_linfo.c:42-85 | the runs follow one another |
| `LineInfo.OneDissection` | framework/ebpf/internal/src/bpf_prog_linfo.c:42-85 | there is at most one such cut |
| `LineInfo.ProgLinfo.constructor` | framework/ebpf/internal/src/bpf_prog_linfo.c:103-181 | tables for that many functions |
| `LineInfo.ProgLinfo.Dissect` | framework/ebpf/internal/src/bpf_prog_linfo.c:25-89 | succeeds exactly if the addresses can be cut, and then the tables are that cut |
| `LineInfo.ProgLinfo.FindAddress` | framework/ebpf/internal/src/bpf_prog_linfo.c:183-220 | the record before the first one above the address, from the skipped ones on; none exactly if there is no such record |
| `LineInfo.ProgLinfo.FoundIsPredecessor` | framework/ebpf/internal/src/bpf_prog_linfo.c:183-220 | in every function but the last this is the greatest record not above the address |
| `LineInfo.ProgLinfo.Find` | framework/ebpf/internal/src/bpf_prog_linfo.c:222-249 | the same over instruction offsets |

## Left out

- `BtfDedup.DedupTypes`: the condition for success is one way, because graphs of unknown kinds or with cycles of pointers alone may still be deduplicated when the odd part is never compared; allocation failure is not modelled.
- `BtfComplete.AllCompleted`: for `dont_resolve_fwds`, and one way, since structs that cannot be paired both ways are merged in one order of their ids and not in the other; with resolution a struct may be merged with others of its tag, and what is promised is `BtfDedup.Dedup.DedupStructType`, `BtfFinal.FinalNoClash` and `BtfDedup.Dedup.MergeHypotMap`. Variables and sections are never merged.
- `BtfFinal.FinalDistinct`: structs and unions are not among the kinds shown to be pairwise distinct on every graph, because a struct is compared once, against the canonical map as it then is; `BtfComplete.MergeableMerged` says which are merged. Forward declarations whose type field, which should be zero, is a type are left out too.
- `BtfDedup.Dedup.constructor`: table sizes other than the one that forces collisions are not told apart, since none changes a result.
- `BtfDedup.Dedup.RemapType`: references are rewritten in descriptors; the 32-bit stores into the records are not modelled. `BtfDecode.CompactionRefines` relates descriptors and bytes for the compaction, for little-endian records whose unused info bits are not looked at.
- `StringDedup.StringTable.DedupStrings`: the places that refer to strings are given as a list in visiting order, so walking types and `.BTF.ext` to find them is not modelled; `qsort` and `bsearch` are modelled by an insertion sort and a binary search.
- `HashMaps.HashMap.Grow`: chains are sequences, so relinking `next` pointers is not modelled; an allocation fails exactly if the new bucket array would not fit the address space.
- `BtfDumpOrder.Dump.DumpType`: that every reference cycle passes through a struct or union is required, as the source assumes when it recurses; whether a visit fails when a struct leads back to itself only through the parameters of a prototype depends on what is ordered before; between the two conditions stated only the visit as a function decides.
- `BtfDumpUnique.QueueUnrepeated`: one way, since a typedef of a bare prototype may also be queued once; so is `BtfDumpRepeat.NoReturnNoRepeat`, which is about the graph alone. `BtfDumpRepeat.QueueRepeatsIff` is exact, but about the visit, since which types are ordered when decides it.
- `btf_dump_mark_referenced` and the C text itself: which types are referenced is an input.
- `CoreMatch.Spec.Parse`: the numbers of the access string are given; reading them with `sscanf`, and negative ones, are not modelled.
- `CoreMatch.Spec.SpecMatch`: that nothing corresponds after "no match" is stated for targets without anonymous members of array type, which C does not have, and so is that a match is found when there is one with room; when something corresponds and the nesting may not leave room, the answer depends on which members come first.
- `CoreField.CalcFieldRelo`: `BPF_FIELD_EXISTS`, which is decided before this function, only has its error; a bitfield of a type of no size, on which the source divides by zero, is excluded; a signedness relocation for a member that is neither integer nor enum reads the bytes behind its descriptor, and the model says 0.
- Candidate search by name, instruction patching and poisoning for CO-RE: no branching of their own that the spec match does not decide.
- `ProgramLink.Object.Relocate`: BTF.ext function and line records are not moved along, maps and sections come resolved, and after a failure nothing is stated of the programs.
- `ProgramRuns.LinkingKeepsRuns`: registers and memory are not modelled; conditional branches are free choices, and what an instruction does is compared as decoded. Programs longer than 2^31 instructions are excluded.
- `PerfRings.PerfBuffer.ReadSimple`: the kernel does not write between the head being read and the tail being written back; records are at least a header long and multiples of eight bytes, as the kernel writes them.
- `ReportJobs.ReportJob.Start`: on a new job; starting a stopped job object again, failing file operations, and torn files after a crash are not modelled. Additions and loads are atomic under the mutex; the loop's own `Current` and `Dequeue`, which the code makes without it, are taken as atomic too.
- `FileStores.FileStore.Store`: which records are pending afterwards is stated for the cursor at the end and payloads under 256 bytes; otherwise the bytes of the file are stated, and `WriteAppendsIff` and `RecordRoundTrip` say what becomes of them.
- `FileStores.FileStore.Truncate`: for payloads under 256 bytes.
- `ReportJobs.ReportJob.constructor`: the buffer length is a package variable in the source, so that a later job changes that of an earlier one; the model keeps it in the job. Requests are those the codec gives back, with payloads under 256 bytes.
- `FileStores.Reader.ReadFixedLength`: lengths stay below the buffer's 4096 bytes, as the source's comment demands.
- `Samples.FileEngine.Add`: on a store in order. The deferred sort, which works on the slice as it was on entry, then changes nothing; a batch that runs back leaves a store out of order, of which no further calls are described. Aliasing between the slice kept and slices handed out is not modelled.
- `Samples.Group`: byte counters are unbounded integers; totals are assumed to fit 32 bits.
- `Samples.BandwidthCollector.constructor`: the MAC address, constant for a collector, is not kept in samples.
- `BumpAlloc.Allocator.WriteTargetData`: needs at least one CPU, page-aligned partitions of at least a page; what follows an empty request beyond a used-up partition is stated for requests of no negative size, in a region 2 GB away from the top of the address space.
- `LineInfo.ProgLinfo.Dissect`: record sizes and the 32-bit product of index and record size are not modelled; records are their addresses.
- Syscalls, ELF, mmap, epoll, pinning, packet capture, cron, logging and the HTTP client: foreign calls; their results are inputs or free choices.
- `go_context.h`, `arguments.h`, `uprobe.h`, `otel_types.h`: they depend on what eBPF helpers do to user memory.
- Generated headers and the kimi, proxy, hardware, nnet and orm packages: they would only add easy members.

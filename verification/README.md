# Reflexive forwarding for NDN: a verified model

This project models, in Dafny, the reflexive-forwarding demo for Named Data Networking: the modified
ndn-cxx library, the modified NFD forwarder, and the demo producer. It proves what that code keeps over
whole runs. `dafny verify dfyconfig.toml` checks all files.

The layers, lowest first:

- `Tlv`, `Encoding`, `Blocks`: VAR-NUMBER and NonNegativeInteger, the double-ended growing `Encoder`, the
  size estimator, recursive `Block` encoding and parsing (the TLV chapter of NDN Packet Format 0.3).
- `Names`, `Successors`: canonical order of names, the memcmp fast path, and `getSuccessor` (the section
  "Canonical Order" of the Name chapter of NDN Packet Format 0.3). `WireForms`, `WireNames`: all encodings a decoder
  accepts for an element, and the order of names that comparing their octets gives.
- `Matching`, `PacketIndex`, `Cleanup`, `Storage`: the in-memory storage, filed by the octets of full names, with its
  FIFO, LRU and LFU policies. `ContentRange`, `ContentStore`: the forwarder's store with its range search.
- `InterestCodec`, `InterestPacket`, `InterestObject`: the Interest packet, its decoder and reverse encoder,
  and the object with its digest and cached wire. `LpPacket`: NDNLPv2 packets.
- `PendingInterests`, `FaceRuns`, `FaceDispatch`, `FaceOutcomes`, `Face`: the pending-Interest state machine of a Face,
  with posted tasks, and what each packet makes it do.
- `ReflexiveNames`, `PitTokens`, `TokenTables`, `Forwarder`, `DataForwarding`, `Daemon`, `ReflexiveNetwork`,
  `ReflexiveData`, `Producer`, `ReflexiveExchange`, `Provenance`: the reflexive extension: filters that look through reflexive
  components, PIT tokens on the wire, the token maps and the PIT of one forwarder, a network of forwarders in any
  topology with its Interests and Data, the producer's exchange, and all of them together.
- `StatusDataset`: segmentation of status datasets.
- `Demo`: the demo's own names and token on two forwarders. `Counterexamples`, `Circling`: concrete inputs on which the
  code departs from what it seems to promise.

Code that updates state is modelled by classes and loops; each method is proved against a function on values,
and the properties are proved about that function. SHA-256 is an arbitrary function to 32 octets. Random
words, clocks, timers, packet arrival and the choices of the forwarding strategy are parameters of events.

The main results:

- **The way back** (`ReflexiveNetwork`). In every run of every topology, with messages lost, repeated or reordered
  and anything else happening between hops, a reflexive Interest that carries a forwarder's token for a name stays on
  track at every hop if and only if the newest face waiting there had sent the token of the first Interest of that
  name (`ReflexiveInterestRightIff`). Where each newest face is the first one, or had sent that token and is an
  application or a node that knew the name earlier, it arrives at an application that asked for the name, with the
  token of that application (`ReflexiveInterestReachesConsumer`).
- **Data** (`ReflexiveData`). In every run the Data that answers a reflexive Interest goes back, over the nodes that
  Interest passed, to the application that sent it, if and only if every node on the route still waits where it came in
  (`ReplyRetracesIff`); the final Data reaches a consumer that sent I1 (`DataReachesConsumer`).
- **The whole** (`ReflexiveExchange`). In every run of producer, Face and network together both reflexive Interests
  carry the token that the producer's own forwarder gave to the name of I1, so the results on the way back are about
  them (`ProducerUsesNodeToken`, `ReflexiveInterestsGoBack`). No packet of the exchange comes out of nowhere
  (`Provenance.AskedAreSent`, `Provenance.RepliesComeFromElsewhere`).
- **The exchange** (`Producer.ActsFollowExchange`, `Producer.SentTokenIff`). In every run of the producer, on a Face it
  shares with prefix registration and other filters, the final Data comes at most once, and only after RI1, RD1, RI2,
  RD2 in this order; both reflexive Interests leave with I1's token if and only if that has four octets.
- **One callback** (`FaceRuns.AtMostOneCallback`, `FaceOutcomes.ExactlyOneCallback`, `FaceRuns.NoneAfterCancel`). In
  every run of a Face identifiers are not reused, each Interest is called back at most once, exactly once unless it was
  taken out, and never after that.
- **Exactly these outputs** (`FaceDispatch`, `Forwarder.LeavesByChosenFace`, `ReflexiveNetwork.InterestGoesOnward`). In
  every run of a Face each packet calls exactly the filters and records it is for; in every run of a network an Interest
  leaves by the chosen face and no other, with the token of that node.
- **Nacks** (`PendingInterests.KthNackReleases`, `FaceRuns.NackReleasedInRun`).
- **Order** (`Names.WireCompareTells`, `WireNames.NameCompareByKey`, `WireNames.ShortestIsCanonical`,
  `Successors.PrefixRange`): comparing names is comparing the octets they were decoded from, which on shortest forms
  refines the canonical order; the successor bounds exactly the names under a prefix.
- **Caches** (`PacketIndex.FindIsLinearScanIff`, `PacketIndex.FoundInEveryStoreIff`, `Storage`,
  `Cleanup.EvictedAsPromised`, `ContentRange.FoundIsLinearScanIff`, `ContentStore`): over whatever encodings the stored
  names have, when indexed lookup equals linear search, and that a packet held in other octets than the Interest's can
  always be hidden; pool accounting; eviction as promised over the whole history.
- **Codecs** (`Blocks.EncodeTree`, `Blocks.ReencodeIffShortest`, `InterestCodec.InterestRoundTrip`,
  `InterestPacket.WriteInterest`, `InterestObject`, `LpPacket.PacketRoundTripIff`), and which element lists the decoders
  accept, by types and order alone (`InterestCodec.FieldsAcceptedIff`, `InterestCodec.HintAcceptedIff`,
  `LpPacket.AcceptedByTypes`).

Where the code and its documentation disagree, the model follows the code:

- `Name::getSuccessor` is documented as the immediate successor. It is so only for the empty name
  (`Successors.ImmediateOnlyForEmptyName`); what it does give is the bound of a prefix range.
- `Component::compare` is documented to follow the canonical order. On components decoded from longer forms it does
  not, while equality and prefix tests ignore the form, so stores can miss such packets
  (`Counterexamples.LongTypeStored`).
- `InMemoryStorage::find(Interest)` returns a packet named in full even when it is not fresh.
- `StatusDatasetContext::end` is documented to throw only after a rejection; it also throws when called twice.
- `recordNack` asserts that its counter stays non-negative; it does not for an Interest from the forwarder that
  matched no filter (`FaceRuns.NackCounterIff`).
- `Strategy::sendData` is meant to give each downstream its own PIT token back; for reflexive Interests it gives
  the forwarder's own (`Forwarder.DataTokenIff`).
- `InMemoryStorage` with a limit below 16 exceeds that limit once an erasure shrinks it, and a full one then fails its
  assertion on the next packet (`Storage.InMemoryStorage.Insert`).

## Model

| member | source | states |
|---|---|---|
| Tlv.ReadNumberSlow | Mods/ndn-cxx/encoding/tlv.hpp:337-345 | the octet-by-octet reader accepts exactly when enough octets remain, returns their big-endian number, and agrees with the contiguous fast reader in every case, including how far it advances on failure |
| Tlv.FastIsBigEndian | Mods/ndn-cxx/encoding/tlv.hpp:295-335 | the fast reader (native load and byte swap) gives the big-endian number of the first 1, 2, 4 or 8 octets |
| Tlv.VarNumberRoundTrip | Mods/ndn-cxx/encoding/tlv.hpp:349-366 | every 64-bit number written as VAR-NUMBER is read back from the front of any longer input, with the same size |
| Tlv.ReadVarNumberShortest | Mods/ndn-cxx/encoding/tlv.hpp:349-366 | a VAR-NUMBER that is read is never shorter than the writer's form, and is that form exactly when it has its size (longer forms are accepted) |
| Tlv.VarNumberOrder | Mods/ndn-cxx/encoding/encoder.cpp:108-133 | VAR-NUMBER encoding is strictly order-preserving and prefix-free |
| Tlv.NonNegativeIntegerRoundTrip | Mods/ndn-cxx/encoding/tlv.hpp:415-438 | a NonNegativeInteger of every width is read back unchanged |
| Tlv.MemcmpOrder | Mods/ndn-cxx/name-component.cpp:473-496 | what the sign of memcmp means: lexicographic order either way, zero exactly when one is a prefix of the other |
| Encoding.Encoder.constructor | Mods/ndn-cxx/encoding/encoder.cpp:30-34 | an empty window at the requested place in the buffer |
| Encoding.Encoder.Reserve | Mods/ndn-cxx/encoding/encoder.cpp:63-94 | reallocation keeps the written octets and the distance to the side that is not grown |
| Encoding.Encoder.ReserveFront | Mods/ndn-cxx/encoding/encoder.cpp:50-55 | room in front; the window is unchanged, and so is the buffer when there was room already |
| Encoding.Encoder.ReserveBack | Mods/ndn-cxx/encoding/encoder.cpp:43-48 | room behind; the window is unchanged, and so is the buffer when there was room already |
| Encoding.Encoder.PrependRange | Mods/ndn-cxx/encoding/encoder.hpp:250-263 | the window becomes the new octets followed by the old ones, across any reallocation; without one, nothing else in the buffer moves |
| Encoding.Encoder.AppendRange | Mods/ndn-cxx/encoding/encoder.hpp:265-278 | the window becomes the old octets followed by the new ones, across any reallocation |
| Encoding.Encoder.PrependVarNumber | Mods/ndn-cxx/encoding/encoder.cpp:108-133 | prepends the shortest VAR-NUMBER, and returns the size the estimator gives |
| Encoding.Encoder.AppendVarNumber | Mods/ndn-cxx/encoding/encoder.cpp:135-160 | appends the shortest VAR-NUMBER, and returns the size the estimator gives |
| Encoding.Encoder.PrependNonNegativeInteger | Mods/ndn-cxx/encoding/encoder.cpp:162-180 | prepends the shortest NonNegativeInteger, and returns the size the estimator gives |
| Encoding.Encoder.AppendNonNegativeInteger | Mods/ndn-cxx/encoding/encoder.cpp:182-200 | appends the shortest NonNegativeInteger, and returns the size the estimator gives |
| Blocks.ParseBlock | Mods/ndn-cxx/encoding/block.cpp:325-350 | the parse loop ends, and reports and leaves behind what the recursive reading of the TLV-VALUE says, including the list it keeps or clears when it throws |
| Blocks.ParseRetry | Mods/ndn-cxx/encoding/block.cpp:325-350 | calling `parse` again after it threw succeeds, with a truncated list, exactly when some element had been read before an unreadable number |
| Blocks.MakeElementIsElement | Mods/ndn-cxx/encoding/block.cpp:165-190 | an encoded element is read back with its type and value |
| Blocks.ReadHeadExtend | Mods/ndn-cxx/encoding/block.cpp:165-190 | an element is read the same whatever octets follow it |
| Blocks.ParseWires | Mods/ndn-cxx/encoding/block.cpp:325-350 | parsing the concatenation of elements gives exactly those elements |
| Blocks.ParseSound | Mods/ndn-cxx/encoding/block.cpp:325-350 | a successful parse is the only split: its elements concatenate to the input and each is what its own octets say |
| Blocks.ParsesIff | Mods/ndn-cxx/encoding/block.cpp:325-350 | a block without sub-elements parses if and only if its value is elements one after the other, and then has those; sub-elements that are there are trusted |
| Blocks.ParseReencoded | Mods/ndn-cxx/encoding/block.cpp:388-411 | encoding any list of types and values and parsing it gives the same list |
| Blocks.ReencodeIffShortest | Mods/ndn-cxx/encoding/block.cpp:388-411 | re-encoding a successful parse gives the same octets if and only if every element was in shortest form |
| Blocks.EstimateCovers | Mods/ndn-cxx/encoding/block.cpp:365-386 | for every Block tree the estimate is at least the encoded size, and equal when buffered sub-blocks are in shortest form |
| Blocks.EncodeAllReadBack | Mods/ndn-cxx/encoding/block.cpp:388-411 | the octets of any list of block trees are read back as those blocks, in order, with their types and values |
| Blocks.EncodeBlockReadBack | Mods/ndn-cxx/encoding/block.cpp:388-411 | a block tree is read back with its type and value, and its value as its sub-blocks, level by level |
| Blocks.EncodeInto | Mods/ndn-cxx/encoding/block.cpp:388-411 | the recursive backward encoder writes the encoding in front without reallocating, and leaves every nested block pointing at its own encoding |
| Blocks.EncodeElements | Mods/ndn-cxx/encoding/block.cpp:388-411 | the loop over sub-elements, last to first, does the same for a list |
| Blocks.EncodeTree | Mods/ndn-cxx/encoding/block.cpp:352-363 | a block that has a wire is left alone; otherwise the tree is encoded into a buffer of the estimated size that is never reallocated, and afterwards every nested block's slice of the shared buffer is exactly its own encoding |
| WireForms.ReadIsForm | Mods/ndn-cxx/encoding/tlv.hpp:349-366 | whatever is read as a VAR-NUMBER starts with one of the four forms of that number |
| WireForms.HeaderDecides | Mods/ndn-cxx/encoding/block.cpp:325-350 | octets that start with a TLV-TYPE and a TLV-LENGTH in any form give that element if its value is there, and otherwise an overrun |
| WireForms.BadNumberIff | Mods/ndn-cxx/encoding/block.cpp:325-350 | reading ends with an unreadable number if and only if there is no such header |
| WireForms.WireOfOrder | Mods/ndn-cxx/name-component.cpp:475-484 | encodings of elements compare by the width of TLV-TYPE, then its number, then the width and number of TLV-LENGTH |
| WireForms.AnotherBetween | Mods/ndn-cxx/name-component.cpp:475-484 | between any two different encodings of one element lies an encoding of another element |
| Names.ComponentOrder | Mods/ndn-cxx/name-component.cpp:473-496 | type, then length, then value is a strict total order on components |
| Names.NameLessConnected | Mods/ndn-cxx/name.cpp:363-378 | the canonical order of names is total and antisymmetric |
| Names.NameLessTransitive | Mods/ndn-cxx/name.cpp:363-378 | the canonical order of names is transitive |
| Names.EncodeOrder | Mods/ndn-cxx/name-component.cpp:473-496 | a smaller component has a lexicographically smaller encoding, in either case not a prefix of the other |
| Names.WireCompareTells | Mods/ndn-cxx/name-component.cpp:473-484 | memcmp over the wires of shortest-form components has the sign of the (type, length, value) comparison, and is zero only for equal components |
| Names.WireCompareNeedsShortest | Mods/ndn-cxx/name-component.cpp:473-484 | comparing a component held with some wire against its own shortest form gives "equal" if and only if the wire is the shortest form |
| Names.CompareFieldsTells | Mods/ndn-cxx/name-component.cpp:485-496 | the comparison without wires is right if and only if the types differ or the difference of lengths fits the int it is cast to |
| Names.CompareTells | Mods/ndn-cxx/name-component.cpp:473-496 | `compare` of shortest forms decides the canonical order if and only if both wires are held, the types differ, or the difference of lengths fits the int |
| Names.CompareNames | Mods/ndn-cxx/name.cpp:363-378 | the comparison loop over any two sub-names, for all positions and counts, is the comparison of those sub-names as whole names |
| Names.NameCompareTells | Mods/ndn-cxx/name.cpp:363-378 | where component comparisons are right, the comparison of names decides the canonical order if and only if they differ before the end of both or the difference of their lengths fits the int |
| WireNames.NameCompareByKey | Mods/ndn-cxx/name.cpp:363-378 | on names whose components have wires, in whatever form, the comparison is the order of those octets if and only if the names part or the difference of their lengths fits the int |
| WireNames.KeyLessConnected | Mods/ndn-cxx/name-component.cpp:475-484 | the order by octets is total and antisymmetric, since no element is a prefix of another |
| WireNames.KeyLessTransitive | Mods/ndn-cxx/name-component.cpp:475-484 | the order by octets is transitive |
| WireNames.ShortestIsCanonical | Mods/ndn-cxx/name-component.cpp:475-484 | on shortest forms the order by octets is the canonical order |
| WireNames.NameCompareWithoutWires | Mods/ndn-cxx/name.cpp:363-378 | a name without wires compares against one in shortest form like its own shortest form, as long as size differences fit the int |
| WireNames.KeyContiguous | Mods/ndn-cxx/ims/in-memory-storage.cpp:197-214 | names that share the octets of a prefix are contiguous in the order by octets |
| Names.IsPrefixOf | Mods/ndn-cxx/name.cpp:333-347 | true exactly for prefixes |
| Names.Equals | Mods/ndn-cxx/name.cpp:349-361 | true exactly for equal names |
| Successors.IncrementIsPlusOne | Mods/ndn-cxx/impl/name-component-types.hpp:122-145 | the increment adds one to the big-endian number, and overflows exactly at all ones |
| Successors.WriteNextValue | Mods/ndn-cxx/impl/name-component-types.hpp:122-145 | the carry loop that prepends into the encoder leaves the next value in it, one octet longer after an overflow |
| Successors.SuccessorWire | Mods/ndn-cxx/impl/name-component-types.hpp:122-145 | the block built by `getSuccessorImpl` is the shortest encoding of the next value, and the overflow flag is right |
| Successors.ComponentSuccessorImmediate | Mods/ndn-cxx/name-component.cpp:498-509 | the successor of a valid component is valid and the next one: nothing valid lies between, including the hand-over from type 1 to 2 and from 2 to 3 |
| Successors.PrefixRange | Mods/ndn-cxx/name.cpp:322-331 | for a non-empty valid name x, x is a prefix of z if and only if x <= z < successor(x) |
| Successors.ImmediateOnlyForEmptyName | Mods/ndn-cxx/name.hpp:568-593 | the documented definition of the successor, nothing in between, holds if and only if the name is empty |
| Matching.MatchesDataPrefix | Mods/ndn-cxx/interest.cpp:318-348 | Data that matches an Interest has the Interest's name as a prefix of its full name |
| Matching.MatchesDataIff | Mods/ndn-cxx/interest.cpp:318-348 | Data matches if and only if it may be fresh where that is asked for, and is named in full by the Interest, has its name or, with CanBePrefix only, a name that extends it |
| Matching.CanBePrefixAdds | Mods/ndn-cxx/interest.cpp:338-340 | CanBePrefix loses no match, and adds exactly the Data of longer names |
| Matching.ExactAnswers | Mods/ndn-cxx/interest.cpp:325-340 | without it matched Data has as many components as the Interest or is named in full, and equally long names of matched Data are equal |
| Matching.FullNameExtends | Mods/ndn-cxx/data.cpp:199-211 | the full name is the name and one implicit digest, and tells packets apart by name and digest |
| PacketIndex.KeyAtLowerBound | Mods/ndn-cxx/ims/in-memory-storage.cpp:216-248 | the octets of a full name are stored if and only if they are at their lower bound, and only there |
| PacketIndex.InsertSortedSorted | Mods/ndn-cxx/ims/in-memory-storage.hpp:46-57 | filing a packet by the octets of its full name keeps the index in order, whatever form they have |
| PacketIndex.FindIsLinearScanIff | Mods/ndn-cxx/ims/in-memory-storage.cpp:216-308 | where the packets that satisfy the Interest hold its name in its own octets, `find(Interest)` is the leftmost of them if and only if it is not a MustBeFresh Interest naming in full a packet that is stale or never fresh |
| PacketIndex.FoundIsAskedFor | Mods/ndn-cxx/ims/in-memory-storage.cpp:216-308 | whatever the forms, `find(Interest)` answers only with a packet that the Interest names in full, that has its name, or with CanBePrefix one that extends it |
| PacketIndex.FoundInEveryStoreIff | Mods/ndn-cxx/ims/in-memory-storage.cpp:216-308 | that condition is exact: a packet that satisfies the Interest guarantees an answer from every store it is in if and only if it holds the octets of the Interest's name; otherwise two packets of other names can hide it |
| PacketIndex.ShortestSameForm | Mods/ndn-cxx/ims/in-memory-storage.cpp:216-308 | with all names in shortest form the condition holds for every Interest |
| Storage.EraseIsExactIff | Mods/ndn-cxx/ims/in-memory-storage.cpp:320-343 | where packets hold the prefix in its own octets, prefix erase takes out exactly those whose name has the prefix, if and only if the prefix is not a stored full name with further packets named under it |
| Storage.ErasedFromEveryStoreIff | Mods/ndn-cxx/ims/in-memory-storage.cpp:320-343 | a packet named under the prefix is erased from every store that does not hold the prefix as a full name, if and only if it holds the octets of the prefix |
| Storage.HalvingRespectsLimitIff | Mods/ndn-cxx/ims/in-memory-storage.cpp:130-158 | halving keeps the capacity within the limit if and only if the limit is at least 16; below that it always exceeds it |
| Storage.InMemoryStorage.constructor | Mods/ndn-cxx/ims/in-memory-storage.cpp:84-112 | an empty, consistent storage with the minimum capacity, or the limit if that is smaller |
| Storage.InMemoryStorage.SetCapacity | Mods/ndn-cxx/ims/in-memory-storage.cpp:130-158 | evicts down to the new capacity and resizes the pool so that packets and free entries add up to it |
| Storage.InMemoryStorage.AdjustPool | Mods/ndn-cxx/ims/in-memory-storage.cpp:145-157 | growing adds and shrinking pops entries; the pool is never popped empty |
| Storage.InMemoryStorage.Insert | Mods/ndn-cxx/ims/in-memory-storage.cpp:160-195 | octets of a full name that are stored already change nothing; otherwise growth or eviction frees an entry and the packet is filed by its octets, with the doubled or limited capacity; the assertion that an entry is free fails exactly for a full storage whose capacity is zero or beyond the limit |
| Storage.InMemoryStorage.AddEntry | Mods/ndn-cxx/ims/in-memory-storage.cpp:181-194 | takes the top of the pool and files the packet by the octets of its full name |
| Storage.InMemoryStorage.MarkStale | Mods/ndn-cxx/ims/in-memory-storage.cpp:188-190 | a packet that becomes stale keeps its place and every invariant |
| Storage.InMemoryStorage.EvictItem | Mods/ndn-cxx/ims/in-memory-storage-lru.cpp:45-56 | takes out the policy's victim and frees its entry; nothing happens only when the storage is empty |
| Storage.InMemoryStorage.FreeEntry | Mods/ndn-cxx/ims/in-memory-storage.cpp:310-318 | moves one entry from the cache to the pool and keeps all invariants |
| Storage.InMemoryStorage.AfterAccess | Mods/ndn-cxx/ims/in-memory-storage-lfu.cpp:67-72 | the cleanup index follows the recorded access |
| Storage.InMemoryStorage.FindName | Mods/ndn-cxx/ims/in-memory-storage.cpp:197-214 | returns the packet at the lower bound if the name is a prefix of its full name; no packet that holds the name's octets comes before it, and there is none at all if nothing is returned |
| Storage.InMemoryStorage.FindNextFresh | Mods/ndn-cxx/ims/in-memory-storage.cpp:250-259 | the first fresh position from where it starts |
| Storage.InMemoryStorage.SelectChild | Mods/ndn-cxx/ims/in-memory-storage.cpp:261-308 | the loop, with its fresh skipping and early stop, is the recursive walk that `PacketIndex.FindIsLinearScanIff` is about |
| Storage.InMemoryStorage.FindInterest | Mods/ndn-cxx/ims/in-memory-storage.cpp:216-248 | answers with the exact hit, else the walk, which is the linear search where the forms agree and no stale packet is named; without CanBePrefix never with Data of another name unless that is named in full; the access is recorded only for the walk |
| Storage.InMemoryStorage.ErasePrefix | Mods/ndn-cxx/ims/in-memory-storage.cpp:320-343 | removes the run from the lower bound on, logs only erasures, and halves the capacity at most once without evicting |
| Storage.InMemoryStorage.EraseExact | Mods/ndn-cxx/ims/in-memory-storage.cpp:331-343 | removes exactly the packet with these octets as full name, if stored |
| Storage.InMemoryStorage.Shrink | Mods/ndn-cxx/ims/in-memory-storage.cpp:341-342 | halving keeps every packet and every invariant |
| Cleanup.IndexIsInUse | Mods/ndn-cxx/ims/in-memory-storage-lru.cpp:37-71 | in every possible history the cleanup index holds exactly the entries in use |
| Cleanup.IndexInUseOrder | Mods/ndn-cxx/ims/in-memory-storage-fifo.cpp:36-62 | in every history the FIFO and LRU indexes are ordered by insertion, respectively by last insertion or access |
| Cleanup.IndexCountsAccesses | Mods/ndn-cxx/ims/in-memory-storage-lfu.cpp:36-72 | in every history the LFU frequency is the number of accesses since insertion |
| Cleanup.EvictedAsPromised | Mods/ndn-cxx/ims/in-memory-storage-lfu.cpp:46-57 | in every history each evicted entry was the earliest inserted, the least recently used, or one of least access count among those in use |
| InterestCodec.NameRoundTrip | Mods/ndn-cxx/name.cpp:149-191 | a name is read back from its TLV-VALUE |
| InterestCodec.HintRoundTrip | Mods/ndn-cxx/interest.cpp:208-247 | a forwarding hint is read back, name by name |
| InterestCodec.InterestRoundTrip | Mods/ndn-cxx/interest.cpp:142-306 | decoding an encoded Interest restores every field: omitted defaults, forwarding hint, trailing parameter elements, digest |
| InterestCodec.EmptyNameRejected | Mods/ndn-cxx/interest.cpp:142-306 | an encoded Interest with an empty name is always rejected |
| InterestCodec.DecodeSound | Mods/ndn-cxx/interest.cpp:142-306 | whatever is accepted has a non-empty valid name, parameters that start with ApplicationParameters, and a valid digest |
| InterestCodec.FieldsAcceptedIff | Mods/ndn-cxx/interest.cpp:183-300 | which element lists behind the name are accepted, by types and places: a recognised critical element only behind all of earlier place and well formed, HopLimit of one octet unless it comes too late, of other types only even ones above 31 |
| InterestCodec.FieldsComeFrom | Mods/ndn-cxx/interest.cpp:183-300 | each field is what an element of its type says, and at its default without one |
| InterestCodec.OldHintReads | Mods/ndn-cxx/interest.cpp:217-245 | forwarding hints written in the old format, with preferences, are read as the same names |
| InterestCodec.HintAcceptedIff | Mods/ndn-cxx/interest.cpp:217-245 | a forwarding hint is accepted if and only if each element is a readable name, an old-style delegation whose first name is readable, or of an even type above 31; it is then the names they stand for, in order |
| InterestCodec.HintLeft | Mods/ndn-cxx/interest.cpp:217-245 | a rejected hint leaves the names read before the element at fault |
| InterestCodec.DecodingLeaves | Mods/ndn-cxx/interest.cpp:183-300 | the fields that `wireDecode` leaves behind: the decoded ones on success, otherwise those of the elements before the rejected one and the names of a hint read in part |
| InterestCodec.NothingDecodedIff | Mods/ndn-cxx/interest.cpp:161-183 | the fields are left alone if and only if the name is missing, empty, unreadable or has several digests, and decoding then fails |
| InterestCodec.DigestIndexMeaning | Mods/ndn-cxx/interest.cpp:746-758 | the digest search tells none, the only one, and more than one apart |
| InterestPacket.PrependBinaryBlock | Mods/ndn-cxx/encoding/block-helpers.cpp:151-160 | prepends one shortest-form element |
| InterestPacket.PrependName | Mods/ndn-cxx/name.cpp:149-161 | the reverse loop prepends the name's encoding |
| InterestPacket.PrependHint | Mods/ndn-cxx/encoding/block-helpers.hpp:356-373 | the reverse loop prepends the nested element of names |
| InterestPacket.WriteInterest | Mods/ndn-cxx/interest.cpp:51-122 | the reverse encoder leaves exactly the Interest's encoding in front of what was there, and returns its length |
| InterestObject.InterestObject.constructor | Mods/ndn-cxx/interest.cpp:38-42 | a valid Interest with default fields |
| InterestObject.InterestObject.SetName | Mods/ndn-cxx/interest.cpp:360-376 | refused exactly for a name with two digests; otherwise the digest component is brought up to date and the invariant kept |
| InterestObject.InterestObject.SetCanBePrefix | Mods/ndn-cxx/interest.cpp:378-386 | changes the one field; an equal value keeps the cached wire, which still decodes to the fields |
| InterestObject.InterestObject.SetMustBeFresh | Mods/ndn-cxx/interest.cpp:388-396 | changes the one field, with the same invariant |
| InterestObject.InterestObject.SetForwardingHint | Mods/ndn-cxx/interest.cpp:398-413 | changes the one field and drops the cached wire |
| InterestObject.InterestObject.GetNonce | Mods/ndn-cxx/interest.cpp:415-423 | returns the nonce, making one up if there is none; a nonce that was there leaves the cached wire alone |
| InterestObject.InterestObject.SetNonce | Mods/ndn-cxx/interest.cpp:425-433 | changes the one field, with the same invariant |
| InterestObject.InterestObject.SetHopLimit | Mods/ndn-cxx/interest.cpp:462-470 | changes the one field, with the same invariant |
| InterestObject.InterestObject.SetInterestLifetime | Mods/ndn-cxx/interest.cpp:448-460 | refused exactly for negative lifetimes |
| InterestObject.InterestObject.SetApplicationParameters | Mods/ndn-cxx/interest.cpp:472-503 | replaces the first parameter, keeps the signature elements, and recomputes the digest |
| InterestObject.InterestObject.UnsetApplicationParameters | Mods/ndn-cxx/interest.cpp:526-536 | removes all parameters and the digest component |
| InterestObject.InterestObject.SetSignatureInfo | Mods/ndn-cxx/interest.cpp:558-590 | puts the element over the old one or before the signature value, adding empty parameters first, and recomputes the digest; an equal one changes nothing |
| InterestObject.InterestObject.SetSignatureValue | Mods/ndn-cxx/interest.cpp:602-635 | refused exactly without signature info; else replaces or inserts behind it and recomputes the digest; an equal one changes nothing |
| InterestObject.InterestObject.AddOrReplaceDigest | Mods/ndn-cxx/interest.cpp:726-744 | the name then has exactly one digest, equal to the hash of the parameters |
| InterestObject.WithDigestKeepsOthers | Mods/ndn-cxx/interest.cpp:724-744 | a new digest component goes behind the name, another takes the place of the old one, all other components stay, and taking it out again gives the same as before |
| InterestObject.WithoutDigestKeepsOthers | Mods/ndn-cxx/interest.cpp:526-536 | taking the digest out leaves exactly the other components, in order |
| InterestObject.InfoIsPlaced | Mods/ndn-cxx/interest.cpp:558-600 | a new signature info is the first of its type, directly before the signature value or last, and changes no element of another type |
| InterestObject.ValueIsPlaced | Mods/ndn-cxx/interest.cpp:602-635 | a new signature value is the first of its type, directly behind the first signature info, and changes no element of another type |
| InterestObject.InterestObject.WireDecode | Mods/ndn-cxx/interest.cpp:142-306 | accepts exactly what the decoder specification does; on success the object is valid and caches the block; when it fails midway the fields are what had been read, up to half a forwarding hint |
| InterestObject.InterestObject.WireEncode | Mods/ndn-cxx/interest.cpp:126-140 | succeeds exactly with a cached wire or a named Interest whose digest matches its parameters; the wire then decodes to the fields; with an empty name it throws but leaves a cached wire that cannot be decoded |
| LpPacket.AcceptedIffOrdered | Mods/ndn-cxx/lp/packet.cpp:117-147 | the check of neighbours on decode holds if and only if the whole list is in field order |
| LpPacket.AcceptedByTypes | Mods/ndn-cxx/lp/packet.cpp:129-152 | which field lists are accepted, by their types alone: only known fields, none behind the fragment, header types never descending, and equal ones only for Ack |
| LpPacket.KnownTypes | Mods/ndn-cxx/lp/packet.cpp:75-84 | known are five one-octet types and every fourth type from 800 to 959 |
| LpPacket.FragmentIsLast | Mods/ndn-cxx/lp/packet.cpp:34-41 | a fragment is the last field of an accepted list |
| LpPacket.AtMostOnce | Mods/ndn-cxx/lp/packet.cpp:117-147 | an accepted packet has at most one of each non-repeatable field |
| LpPacket.InsertedOrdered | Mods/ndn-cxx/lp/packet.hpp:148-166 | inserting at the upper bound keeps the order |
| LpPacket.InsertedValues | Mods/ndn-cxx/lp/packet.hpp:148-166 | an inserted value comes behind the earlier values of its field, and no other field changes |
| LpPacket.PacketRoundTripIff | Mods/ndn-cxx/lp/packet.cpp:86-147 | encoding and decoding gives the same fields back if and only if the packet has a header or its fragment is one whole Interest or Data |
| LpPacket.HeaderRoundTrip | Mods/ndn-cxx/lp/packet.cpp:98-147 | every ordered packet with a header decodes to the same field list |
| LpPacket.NetworkPacketRoundTrip | Mods/ndn-cxx/lp/packet.cpp:86-111 | a bare Interest or Data passes through unchanged |
| LpPacket.Packet.Add | Mods/ndn-cxx/lp/packet.hpp:148-166 | refused exactly when a non-repeatable field is there; otherwise the value goes behind the field's values and no other field changes |
| LpPacket.Packet.Set | Mods/ndn-cxx/lp/packet.hpp:136-142 | never fails; the field has the one value and no other field changes |
| LpPacket.Packet.Remove | Mods/ndn-cxx/lp/packet.hpp:173-189 | refused exactly when there are not that many; otherwise takes out the one value |
| LpPacket.Packet.Clear | Mods/ndn-cxx/lp/packet.hpp:194-200 | removes the field's values and no others |
| LpPacket.Packet.Count | Mods/ndn-cxx/lp/packet.hpp:84-90 | the number of the field's values |
| LpPacket.Packet.Get | Mods/ndn-cxx/lp/packet.hpp:96-110 | the index-th of the field's values, or out of range |
| LpPacket.Packet.WireDecode | Mods/ndn-cxx/lp/packet.cpp:105-147 | accepts exactly the ordered packets and bare network packets; a failure leaves the packet as it was |
| LpPacket.Packet.WireEncode | Mods/ndn-cxx/lp/packet.cpp:86-100 | a bare network packet, or an LpPacket from which the same fields are decoded |
| PendingInterests.SeverityIsStrictOrder | Mods/ndn-cxx/lp/nack-header.cpp:43-54 | a strict total order on Nack reasons: the lower number is less severe, Congestion before Duplicate before NoRoute, and None is the most severe |
| PendingInterests.LessSevereIff | Mods/ndn-cxx/lp/nack-header.cpp:118-130 | over the codes on the wire: a Nack is less severe if it carries one of the three known codes and the other a higher one or none of them |
| PendingInterests.NackReleases | Mods/ndn-cxx/impl/pending-interest.hpp:117-128 | while destinations remain a Nack is kept back; the last releases the earliest of the least severe |
| PendingInterests.KthNackReleases | Mods/ndn-cxx/impl/pending-interest.hpp:106-128 | forwarded to k destinations: the first k-1 Nacks release nothing, the k-th releases the earliest least severe of all k, and the counter never goes below zero |
| PendingInterests.EarliestLeastSevereUnique | Mods/ndn-cxx/impl/pending-interest.hpp:117-128 | the released Nack is determined by the list |
| FaceRuns.RunKeeps | Mods/ndn-cxx/impl/face-impl.hpp:86-188 | every run of calls, tasks, packets and timeouts keeps the Face's invariant |
| FaceRuns.AtMostOneCallback | Mods/ndn-cxx/impl/face-impl.hpp:86-188 | in every run each expressed Interest gets at most one of Data, Nack and timeout callback, only one it was given, the Data or Nack is for that Interest, and it is sent with its own PIT token |
| FaceOutcomes.ExactlyOneCallback | Mods/ndn-cxx/impl/face-impl.hpp:86-188 | in every run an Interest expressed with all callbacks that is neither queued nor pending was called back exactly once, unless a cancellation, a clearing, a shutdown or an oversized packet took it out; then not at all |
| FaceOutcomes.RunAccounts | Mods/ndn-cxx/impl/record-container.hpp:124-160 | in every run every Interest expressed with all three callbacks is queued, pending, removed or called back, and any removed one is none of the others |
| FaceRuns.PutNeverCollides | Mods/ndn-cxx/impl/record-container.hpp:94-122 | in every run the identifier about to be put is neither zero nor in the table, the queue or any earlier handle |
| FaceRuns.RetiredForever | Mods/ndn-cxx/impl/record-container.hpp:125-160 | once an identifier has left the table and the queue it never comes back and is never called back |
| FaceRuns.NoneAfterCancel | Mods/ndn-cxx/impl/face-impl.hpp:112-121 | in every run, once a cancelled Interest's removal has run, nothing is ever reported for it |
| FaceRuns.NoneAfterClear | Mods/ndn-cxx/impl/face-impl.hpp:123-127 | in every run, once a removal of everything has run, only Interests expressed after it can be called back |
| FaceRuns.DataAnswersExactly | Mods/ndn-cxx/impl/face-impl.hpp:132-155 | in every run arriving Data removes exactly the records it matches, leaves the others as they were, and calls back exactly the applications that asked for it |
| FaceDispatch.RunFilters | Mods/ndn-cxx/impl/record-container.hpp:94-122 | in every run filters are in the order of distinct identifiers, also against those still to be set |
| FaceDispatch.FiltersInRunIff | Mods/ndn-cxx/impl/face-impl.hpp:190-207 | in every run a filter is there once it was set or its registration succeeded, until it is unset |
| FaceDispatch.InterestCallsExactly | Mods/ndn-cxx/impl/face-impl.hpp:209-215 | in every run an Interest from the forwarder is passed to exactly the filters that match its name, each once, in order, and its record counts them |
| FaceDispatch.ExpressCallsExactly | Mods/ndn-cxx/impl/face-impl.hpp:86-110 | in every run an expressed Interest is sent and passed to exactly the filters that allow loopback and match its name; an oversized one is neither, but stays in the table unless the exception shuts the Face down |
| FaceDispatch.PutDataExactly | Mods/ndn-cxx/impl/face-impl.hpp:217-237 | in every run Data from the application goes to the forwarder if and only if it fits and a record of the forwarder matches or none of the application does; it takes out and calls back exactly the matching records |
| FaceDispatch.PutNackExactly | Mods/ndn-cxx/impl/face-impl.hpp:239-258 | in every run a Nack from the application goes to the forwarder if and only if it fits and a record of the forwarder is released, as the earliest least severe of that record |
| FaceDispatch.NackAnswersExactly | Mods/ndn-cxx/impl/face-impl.hpp:160-188 | in every run a Nack leaves other records alone, is counted in those that still wait, and takes out and calls back those it is the last one for |
| FaceDispatch.TimeoutExactly | Mods/ndn-cxx/impl/pending-interest.hpp:165-173 | in every run a timeout takes out its own record and no other, and calls back if there is a callback for it |
| FaceRuns.NackReleasedInRun | Mods/ndn-cxx/impl/face-impl.hpp:160-188 | in every run a Nack releases a pending Interest exactly when it is for it and the last outstanding, with the earliest least severe Nack |
| FaceRuns.NackCounterIff | Mods/ndn-cxx/impl/pending-interest.hpp:117-121 | in every run the counter assertion of `recordNack` holds if and only if the record was dispatched somewhere; every expressed Interest was |
| FaceRuns.NackCounterFails | Mods/ndn-cxx/impl/pending-interest.hpp:117-121 | an incoming Interest that matches no filter violates the assertion on its first Nack |
| Face.Face.ExpressInterest | Mods/ndn-cxx/face.cpp:162-179 | allocates an identifier never handed out before and posts an express task |
| Face.Face.Cancel | Mods/ndn-cxx/impl/face-impl.hpp:112-121 | posts the removal behind the express task of that Interest |
| Face.Face.PutDataPacket | Mods/ndn-cxx/face.cpp:197-203 | posts a task behind all earlier ones |
| Face.Face.PutNackPacket | Mods/ndn-cxx/face.cpp:205-211 | posts a task behind all earlier ones |
| Face.Face.RunOne | Mods/ndn-cxx/impl/face-impl.hpp:86-126 | runs the oldest posted task, exactly as the state machine says, oversized packets included, under `processEvents` or an event loop of the application |
| Face.Face.RegisterFilter | Mods/ndn-cxx/impl/face-impl.hpp:275-290 | the success of a prefix registration sets a filter with the next filter identifier |
| Face.Face.SatisfyPendingInterests | Mods/ndn-cxx/impl/face-impl.hpp:132-155 | the erasing loop removes and calls back exactly the matching records in order, and tells whether the Data goes to the forwarder |
| Face.Face.NackPendingInterests | Mods/ndn-cxx/impl/face-impl.hpp:160-188 | the erasing loop updates or releases exactly the matching records, and returns the Nack for the forwarder |
| Face.Face.DispatchInterest | Mods/ndn-cxx/impl/face-impl.hpp:357-368 | every matching filter is called once, in order, and counted as a destination |
| Face.Face.ReceiveInterestPacket | Mods/ndn-cxx/impl/face-impl.hpp:209-215 | an incoming Interest gets the next identifier and is dispatched |
| Face.Face.ReceiveDataPacket | Mods/ndn-cxx/face.cpp:336-342 | an incoming Data satisfies the table |
| Face.Face.ReceiveNackPacket | Mods/ndn-cxx/face.cpp:322-328 | an incoming Nack is recorded in the table |
| Face.Face.TimeoutRecord | Mods/ndn-cxx/impl/pending-interest.hpp:165-173 | a timeout calls back and removes its own record only |
| Face.Face.PutRecord | Mods/ndn-cxx/impl/record-container.hpp:94-107 | puts a record at the place of its identifier |
| Face.Face.Erase | Mods/ndn-cxx/impl/record-container.hpp:125-132 | removes the record of an identifier and no other |
| ReflexiveNames.IsReflexiveName | Mods/ndn-cxx/name.hpp:650-659 | true exactly when some component is reflexive |
| ReflexiveNames.GetNonReflexiveName | Mods/ndn-cxx/name.hpp:661-676 | the name without its first reflexive component |
| ReflexiveNames.DoesMatch | Mods/ndn-cxx/interest-filter.cpp:57-74 | a filter compares both names without their first reflexive component, in all four cases, and then asks its regular expression about the rest |
| ReflexiveNames.PrefixMatches | Mods/ndn-cxx/interest-filter.cpp:57-74 | a name that starts with the filter's prefix always matches |
| ReflexiveNames.MatchesIsPrefixIff | Mods/ndn-cxx/interest-filter.cpp:57-74 | the plain prefix test holds if and only if the filter matches and the reflexive components are aligned |
| ReflexiveNames.ReflexiveComponentIsTransparent | Mods/ndn-cxx/interest-filter.cpp:57-74 | inserting a reflexive component anywhere in a name does not change which ordinary filters it matches |
| PitTokens.SetPitToken | Experiments/consumer-producer_RI/assist.hpp:7-18 | the byte loop writes the value in four octets, least significant first |
| PitTokens.ReadPitToken | Experiments/consumer-producer_RI/assist.hpp:20-27 | the byte loop reads four octets back as a number, those beyond the end of a shorter token being whatever memory holds |
| PitTokens.TokenRoundTrip | Mods/NFD/daemon/table/assist.cpp:3-23 | every 32-bit token value survives the wire |
| PitTokens.TokenOctets | Experiments/consumer-producer_RI/assist.hpp:7-17 | the octets of a token are its value in base 256, least significant first |
| PitTokens.KindIff | Mods/ndn-cxx/interest.cpp:764-783 | what an Interest is taken for, by the octets of its components: the producer's if a component 9999 comes before any in marker form, malformed the other way round, else a consumer's reflexive one if some component is reflexive |
| PitTokens.TokenRestoredIff | Experiments/consumer-producer_RI/assist.hpp:7-27 | reading and setting a token of any length restores it if and only if it has four octets |
| PitTokens.ScanRN9999 | Mods/ndn-cxx/interest.cpp:774-783 | the loop tells reflexive Interests of the producer from others, and where it throws |
| PitTokens.ReservedComponent | Mods/ndn-cxx/name-component.cpp:249-259 | the reserved reflexive component is the text "9999" in four or eight octets and nothing else |
| TokenTables.CreatedOk | Mods/NFD/daemon/table/assist.hpp:30-38 | a new name keeps names and tokens in one-to-one correspondence, zero unused, and every earlier translation |
| TokenTables.FirstNewIsFirst | Mods/NFD/daemon/table/assist.hpp:45-59 | the token is the first drawn word that is neither reserved nor in use |
| TokenTables.TokenBijection | Mods/NFD/daemon/table/assist.hpp:85-107 | two names have the same token only if they are equal |
| TokenTables.PitAssist.GenerateToken | Mods/NFD/daemon/table/assist.hpp:45-59 | the first random word that is neither reserved nor in use |
| TokenTables.PitAssist.CreateName | Mods/NFD/daemon/table/assist.hpp:30-38 | writes the four maps for a new name and keeps every earlier translation |
| Forwarder.ReceiveOk | Mods/NFD/daemon/fw/forwarder.cpp:143-172 | every Interest keeps the node's invariant; translations and first faces never change |
| Forwarder.ReceiveLearns | Mods/NFD/daemon/fw/forwarder.cpp:153-172 | the past of a name is the token and the face of the first Interest with that name |
| Forwarder.ReceiveSends | Mods/NFD/daemon/fw/forwarder.cpp:426-432 | a consumer's reflexive Interest leaves with this forwarder's own token for its name |
| Forwarder.LeavesByChosenFace | Mods/NFD/daemon/fw/best-route-strategy.cpp:92-154 | for every node in order and every Interest of a consumer: it leaves by the chosen face and no other, once, a reflexive one with the own token for its name, a plain one without token, or with its own to a next hop chosen by the application; with nothing chosen nothing leaves, and a loop is nacked only on a point-to-point face |
| Forwarder.IsRecorded | Mods/NFD/daemon/fw/forwarder.cpp:313-335 | a loop or a hit leaves the in-records as they were; otherwise the Interest waits at its face, in front if that is new |
| Forwarder.ForgetRecordsIff | Mods/NFD/daemon/table/pit-entry.cpp:73-81 | deleting an in-record or an entry takes out exactly that |
| Forwarder.ReflectsToFront | Mods/NFD/daemon/fw/forwarder.cpp:220-311 | a reflexive Interest with this forwarder's token for a name goes to the newest face waiting for the name, with the token of the first Interest of that name |
| Forwarder.UnknownTokenIsNacked | Mods/NFD/daemon/fw/forwarder.cpp:231-249 | a reflexive Interest is nacked with NONE exactly without token, and with NO_ROUTE exactly when the token was never given out |
| Forwarder.OwnTokenBackIff | Mods/NFD/daemon/fw/best-route-strategy.cpp:66-89 | the face it goes to gets its own token back if and only if it had sent the token of the first Interest of that name |
| Forwarder.SecondConsumerGetsFirstToken | Mods/NFD/daemon/fw/best-route-strategy.cpp:66-89 | two consumers with one name and two tokens: the second is reached with the token of the first |
| Forwarder.DataTokenIff | Mods/NFD/daemon/fw/strategy.cpp:237-258 | the Data sent to a waiting downstream carries back what that downstream sent if and only if this forwarder set no token on the stored Interest, or that very one; a token of zero counts as a token |
| Forwarder.ForwardedIsTagged | Mods/NFD/daemon/fw/forwarder.cpp:325-363 | it sets its own token on every reflexive Interest it forwards, because the in-record shares the Interest tagged for the next hop |
| Forwarder.FirstConsumerGetsOtherToken | Mods/NFD/daemon/fw/strategy.cpp:237-258 | a consumer that sent 11 gets Data with 5 |
| Forwarder.ErasedMovesLast | Mods/NFD/daemon/table/name-tree-entry.cpp:96-109 | erasing an entry puts the last entry of its name tree node in its place, and changes no other list |
| Forwarder.FoundAtTreeNode | Mods/NFD/daemon/table/pit.cpp:44-61 | the search by name is the search of the list at that name's tree node |
| Forwarder.EnteredAtEnd | Mods/NFD/daemon/table/name-tree-entry.cpp:86-94 | a new PIT entry comes last at its name tree node and at no other; a known query adds none |
| Daemon.Daemon.OnIncomingInterest | Mods/NFD/daemon/fw/forwarder.cpp:143-197 | the pipeline takes the step of the node model, in every branch, and keeps its invariant |
| Daemon.Daemon.OnSendingRI | Mods/NFD/daemon/fw/forwarder.cpp:220-311 | the reflexive pipeline takes its step |
| Daemon.Daemon.OnContentStoreMiss | Mods/NFD/daemon/fw/forwarder.cpp:314-364 | the in-record is written before the Interest is tagged for the next hop; with a chosen next hop a plain Interest keeps its token |
| Daemon.Daemon.FindEntryBasedOnName | Mods/NFD/daemon/table/pit.cpp:44-61 | the first entry with that name in the list of its name tree node, if the name has an entry at its own node |
| Daemon.Daemon.EraseEntry | Mods/NFD/daemon/table/name-tree-entry.cpp:96-109 | the last entry at the same name tree node takes the place of the erased one |
| Daemon.Daemon.SendDataTo | Mods/NFD/daemon/fw/strategy.cpp:237-258 | Data goes out with the token on the in-record, zero or not, if it has one, and the record is deleted |
| Daemon.Daemon.SendDataToAll | Mods/NFD/daemon/fw/strategy.cpp:260-282 | each downstream that is waiting, but for the one the Data came from, gets it once with the token of its own in-record; the other in-records are left |
| Daemon.Daemon.SatisfyAll | Mods/NFD/daemon/fw/forwarder.cpp:602-645 | when several entries match, all their in-records are cleared, and each downstream gets the Data once with the token it has |
| Daemon.Daemon.OnIncomingData | Mods/NFD/daemon/fw/forwarder.cpp:471-646 | the Data pipeline takes the step of the node model in both cases, and keeps its invariant |
| DataForwarding.ReceiveDataOk | Mods/NFD/daemon/fw/forwarder.cpp:471-646 | Data keeps the node's invariant, adds no in-record and changes no translation |
| DataForwarding.DataGoesToIff | Mods/NFD/daemon/fw/forwarder.cpp:471-646 | Data goes to a face if and only if that is not where it came from and an in-record of that face, in an entry it matches, has not expired |
| DataForwarding.DataTokens | Mods/NFD/daemon/fw/strategy.cpp:237-258 | each downstream gets the token of its own in-record, or the Data as it is when several entries match |
| DataForwarding.DataTokensOnly | Mods/NFD/daemon/fw/strategy.cpp:237-282 | and nothing else is sent |
| DataForwarding.DataLeavesIff | Mods/NFD/daemon/fw/forwarder.cpp:556-645 | the in-records left are those of entries the Data does not match and, in a single match, those not served |
| Daemon.Daemon.InsertEntry | Mods/NFD/daemon/table/pit.cpp:63-106 | the entry for the query, added at the end if there was none |
| Daemon.Daemon.InsertOrUpdateInRecord | Mods/NFD/daemon/table/pit-entry.cpp:57-71 | replaces a face's record in place or puts a new face in front |
| ReflexiveNetwork.RunKeeps | Mods/NFD/daemon/fw/forwarder.cpp:143-311 | in every run of any topology, with messages lost, repeated and reordered, every translation a node makes agrees with the node the name came from, and none is forgotten |
| ReflexiveNetwork.InterestGoesOnward | Mods/NFD/daemon/fw/forwarder.cpp:313-437 | in every run an Interest of a consumer becomes one message at the chosen next hop and no other |
| ReflexiveNetwork.HopRightIff | Mods/NFD/daemon/fw/forwarder.cpp:220-311 | a hop leads to a node that knows the token, or to an application that gets back the token it sent, if and only if the newest face had sent the token of the first Interest of the name |
| ReflexiveNetwork.WalkRightIff | Mods/NFD/daemon/fw/forwarder.cpp:220-311 | over any growing trace every hop is right if and only if that holds at every node on the way; then the walk is never lost, and an application it reaches asked for the name with that token |
| ReflexiveNetwork.ReflexiveInterestRightIff | README.md:29-42 | the same over all runs of any topology |
| ReflexiveNetwork.HopFollowsFirst | Mods/NFD/daemon/fw/forwarder.cpp:402-424 | where the first face is the newest waiting: on to the node the name came from, with that node's token, or to the application |
| ReflexiveNetwork.WalkReachesSource | Mods/NFD/daemon/fw/forwarder.cpp:220-311 | where the first face is the newest waiting at every node, the walk ends at the very application whose Interest made the name known |
| ReflexiveNetwork.WalkArrives | Mods/NFD/daemon/fw/forwarder.cpp:220-311 | the walk arrives at an application whenever at every node the newest face is the first one, or had sent the first token and is an application or a node that knew the name earlier |
| ReflexiveNetwork.ReflexiveInterestReachesConsumer | README.md:29-42 | the promise of the demo, over all runs and any number of hops and consumers: on such a way the reflexive Interest reaches a consumer that sent I1, with the token it sent |
| ReflexiveNetwork.DataTokenInRunIff | Mods/NFD/daemon/fw/strategy.cpp:237-258 | in every run, at every node, for every downstream: the exact condition for Data to carry back what it sent |
| ReflexiveNetwork.NextNodeResolvesIff | Mods/NFD/daemon/fw/best-route-strategy.cpp:66-89 | the next node takes the reflexive Interest for the same name if and only if the newest face had sent the token of the first Interest of that name |
| ReflexiveData.RunPassages | Mods/NFD/daemon/fw/forwarder.cpp:402-424 | in every run each reflexive Interest a node sent on had come from the node before, earlier, or from an application that sent it |
| ReflexiveData.ReplyRetracesIff | Mods/NFD/daemon/fw/forwarder.cpp:471-646 | so each has come by a route from such an application, and whatever happens in between, Data that answers it goes back over the whole route if and only if at every node on it the face it came in at still waits and is not the one it went out at; then it reaches that application |
| ReflexiveData.PassageIsRecorded | Mods/NFD/daemon/fw/forwarder.cpp:274-283 | when it sends a reflexive Interest on, a node does wait: the in-record of the face it came in at is there |
| ReflexiveData.DataReachesSource | Mods/NFD/daemon/fw/strategy.cpp:260-282 | Data for the first Interest goes from node to node to the application whose Interest made the name known, as long as the first face still waits at each, be it the newest or not |
| ReflexiveData.DataReachesConsumer | README.md:29-42 | the same over all runs: the final Data reaches a consumer that sent I1 |
| Circling.WalkCircles | Mods/NFD/daemon/fw/best-route-strategy.cpp:66-89 | a run after which every newest face had sent the first token and still the reflexive Interest goes back and forth between two nodes for any number of hops |
| Demo.DemoNames | Experiments/consumer-producer_RI/producer.cpp:59-61 | the demo's I1 is a consumer's reflexive Interest, and its RI1 one of the producer |
| Demo.DemoReachesConsumer | README.md:29-42 | the demo's exchange on two forwarders meets every premise of the walk, and RI1 reaches the consumer with token 2345 |
| Producer.Producer.OnInterest | Experiments/consumer-producer_RI/producer.cpp:99-117 | only the first Interest is answered, with a reflexive Interest carrying its token |
| Producer.Producer.Reflect | Experiments/consumer-producer_RI/producer.cpp:47-71 | nothing without a token; otherwise one reflexive Interest with the token read and set again |
| Producer.Producer.DataCallback | Experiments/consumer-producer_RI/producer.cpp:139-148 | the first Data triggers the second reflexive Interest, the second the final Data, later ones nothing |
| Producer.ActsFollowExchange | Experiments/consumer-producer_RI/producer.cpp:16-148 | in every run of the producer on a Face that others use too (registration commands, other filters, any packets), what the producer does is a beginning of I1, RI1, RD1, RI2, RD2, D1: the final Data is sent at most once, and only after both reflexive exchanges in order |
| Producer.DeliveryAdvances | Experiments/consumer-producer_RI/producer.cpp:99-148 | in every run each callback that is the producer's takes the exchange on: I1 is answered with RI1, its Data with RI2, its Data with D1, each posted to the Face; anything else changes nothing |
| Producer.SentTokenIff | Mods/ndn-cxx/impl/face-impl.hpp:98-109 | in every run each reflexive Interest that leaves through the producer's Face carries the token with which I1 reached the producer's filter, if and only if that has four octets |
| Producer.OneFirst | Experiments/consumer-producer_RI/producer.cpp:99-117 | in every run there is one I1 only |
| ReflexiveExchange.RunsProject | Experiments/consumer-producer_RI/producer.cpp:16-33 | every run of producer, Face and network together is a run of the network and a run of the producer on its Face |
| ReflexiveExchange.RunCallbacks | Mods/ndn-cxx/impl/face-impl.hpp:209-215 | in every such run an Interest that a filter of the producer's Face sees was sent to it by the network with that token, or expressed on that Face |
| ReflexiveExchange.ProducerUsesNodeToken | Experiments/consumer-producer_RI/producer.cpp:47-97 | in every such run RI1 and RI2 leave the producer's Face with the token that the forwarder at its end gave to the name of I1 |
| ReflexiveExchange.ReflexiveInterestsGoBack | README.md:29-42 | so in every such run RI1 and RI2 alike are right at every hop if and only if the tokens agree on the way, and reach a consumer that sent I1 where the way leads home |
| Provenance.AskedAreSent | Mods/ndn-cxx/impl/face-impl.hpp:86-110 | in every run of the whole, an Interest that entered the network at the producer's end was sent by its Face, under that name and with a token that reads so |
| Provenance.DataProvenance | Mods/NFD/daemon/fw/forwarder.cpp:556-645 | in every such run all Data in the network was sent by the producer's Face or by an application elsewhere |
| Provenance.ReportedData | Mods/ndn-cxx/impl/face-impl.hpp:132-155 | in every such run Data that the Face reports came out of the network at its end or was put on the Face itself |
| Provenance.RepliesComeFromElsewhere | Experiments/consumer-producer_RI/producer.cpp:99-148 | so a reply the producer gets was put on its own Face, sent by it before, or sent by an application elsewhere |
| StatusDataset.StatusDatasetContext.Append | Mods/ndn-cxx/mgmt/status-dataset-context.cpp:61-81 | refused exactly once finalized; otherwise all bytes are kept in order across full segments and buffer |
| StatusDataset.StatusDatasetContext.End | Mods/ndn-cxx/mgmt/status-dataset-context.cpp:83-95 | the segments concatenate to all bytes, are numbered from zero, all but the last are full, only the last is final, and it is empty only if nothing was appended |
| StatusDataset.StatusDatasetContext.Reject | Mods/ndn-cxx/mgmt/status-dataset-context.cpp:97-106 | possible only before anything else, so a rejected dataset has no segments |
| StatusDataset.SegmentationUnique | Mods/ndn-cxx/mgmt/status-dataset-context.cpp:61-95 | those conditions leave one segmentation only |
| ContentRange.RangeIsCovered | Mods/NFD/daemon/table/cs.cpp:82-91 | the searched range is exactly the packets that hold the query's octets and those whose next component is squeezed in before its successor; for a full name those with a digest up to the next, and under the last digest of all what goes on below it |
| ContentRange.CoveredShortest | Mods/NFD/daemon/table/cs.cpp:82-91 | for valid names in shortest form nothing is squeezed in: the range is the packets under the prefix, or the packet of the full name, and under the last digest of all what goes on with a digest |
| ContentRange.RangeForwardIff | Mods/NFD/daemon/table/cs.cpp:82-91 | the range runs forward in every table if and only if the octets of the query's last component come before those of its successor, or are the last digest of all |
| ContentRange.HasSuccessorIff | Mods/ndn-cxx/name-component.cpp:498-509 | a component of whatever type and length has a successor if and only if what the code makes is a valid component |
| ContentRange.FoundIsLinearScanIff | Mods/NFD/daemon/table/cs.cpp:108-127 | the range search finds what a linear search of the whole store would if and only if the range covers that packet |
| ContentRange.SatisfyingCoveredIff | Mods/NFD/daemon/table/cs.cpp:108-127 | a packet that satisfies the Interest is covered if and only if it holds the Interest's own octets or a form of the last component before its successor; a full name covers just that packet, or under the last digest of all what goes on below it |
| ContentRange.FoundShortestIff | Mods/NFD/daemon/table/cs.cpp:108-127 | for valid names in shortest form: if and only if the Interest is not for a full name whose leftmost match is merely named under it |
| ContentStore.ContentStore.constructor | Mods/NFD/daemon/table/cs.cpp:42-46 | an empty store that admits and serves |
| ContentStore.KnownAtPlace | Mods/NFD/daemon/table/cs.cpp:65-66 | a packet is in the table if and only if the packet at its place is equivalent, and then the octets of their full names are the same |
| ContentStore.ContentStore.Insert | Mods/NFD/daemon/table/cs.cpp:48-80 | nothing when admission is off, the limit is zero or caching is forbidden; a known packet becomes fresh again and most recently used; any other is filed in order and the least recently used goes if the limit is exceeded |
| ContentStore.ContentStore.EvictEntries | Mods/NFD/daemon/table/cs-policy-lru.cpp:63-73 | takes the front of the queue until the limit is met, and the queue is never empty before |
| ContentStore.ContentStore.SetLimit | Mods/NFD/daemon/table/cs-policy.cpp:66-72 | a smaller limit evicts down to it |
| ContentStore.ContentStore.Find | Mods/NFD/daemon/table/cs.cpp:108-127 | the first satisfying packet in the range, which becomes most recently used; it throws exactly when the name has no successor |
| ContentStore.ContentStore.Erase | Mods/NFD/daemon/table/cs.cpp:93-106 | erases from the front of the range up to the given number: only packets the query covers, and all of them if the number is not reached |
| Counterexamples.LongTypeNumber | Mods/ndn-cxx/encoding/tlv.hpp:349-366 | a three-octet type number: accepted, re-encoded differently, and compared wrongly |
| Counterexamples.LongTypeStored | Mods/ndn-cxx/ims/in-memory-storage.cpp:261-308 | /a stored with a type number of three octets lies behind /b and /c, and an Interest for /a does not find it |
| Counterexamples.InvalidDigestSqueezedIn | Mods/NFD/daemon/table/cs.cpp:82-91 | a stored name with a parameters digest of 33 octets lies in the range of the last one of 32, which is no prefix of it |
| Counterexamples.HugeComponent | Mods/ndn-cxx/name-component.cpp:485-496 | lengths 2^31 apart compare the wrong way round |
| Counterexamples.StaleFullName | Mods/ndn-cxx/ims/in-memory-storage.cpp:216-248 | a stale packet named in full is returned for MustBeFresh |
| Counterexamples.EraseStopsAtFullName | Mods/ndn-cxx/ims/in-memory-storage.cpp:320-343 | erasing by a stored full name leaves a packet named under it |
| Counterexamples.NameEndsInDigest | Mods/NFD/daemon/table/cs.cpp:108-127 | a packet whose own name ends in a digest is not found under that name |
| Counterexamples.EmptyFragment | Mods/ndn-cxx/lp/packet.cpp:86-95 | a packet with nothing but an empty fragment cannot be encoded |
| Counterexamples.ReflexiveInside | Mods/ndn-cxx/interest-filter.cpp:57-74 | a filter matches a name with a reflexive component inside its prefix |
| Counterexamples.NewestEntryIsFound | Mods/NFD/daemon/table/name-tree-entry.cpp:96-109 | of three pending Interests of one name the first is finalized: the last is found then, not the second |
| Counterexamples.FiveOctetToken | Experiments/consumer-producer_RI/assist.hpp:7-27 | the fifth octet of a token is lost |

## Left out

- Transports, real timers, logging and signals: tasks run in the order they were posted, and packets and timeouts are events.
- SHA-256, signing, KeyChain, certificates and validators: the hash is a parameter, signatures are opaque elements.
- URI parsing and printing of names, and the matching of regular expressions, which is a parameter of `ReflexiveNames.DoesMatch`; filters in `FaceRuns` have none.
- Naming conventions other than the default: reflexive components are decoded in marker and typed form.
- The forwarder's FIB, other strategies than best-route, dead nonce list, hop limit, scope control and face life cycle: their outcomes are the `Choice` of an event, or the packet does not reach the model.
- Out-records of the PIT, retransmission suppression, ad hoc faces, and the insertion of Data into the Content Store by the forwarder, whose hits are a `Choice`.
- ReflexiveNetwork.HopFollowsFirst: only for nodes where the first face is the newest waiting; `HopRightIff` is for all.
- ReflexiveNetwork.WalkReachesSource: only for ways on which the first face is the newest waiting; `WalkArrives` and `WalkRightIff` say what holds on others.
- ReflexiveNetwork.WalkArrives: only where a newest face that is not the first one is an application or a node that knew the name earlier; without that the walk may never arrive (`Circling.WalkCircles`).
- ReflexiveNetwork.ReflexiveInterestReachesConsumer: says nothing about arrival where a newest face sent the first token but is a node that learned the name later, since such a way can lead in circles (`Circling.WalkCircles`); `ReflexiveInterestRightIff` says that it is still on track.
- Forwarder.ReflectsToFront: a name of more than 32 components or ending in an implicit digest has no entry at its own name tree node, so its reflexive Interests are dropped; `Front` is then empty.
- TokenTables, Forwarder: names are values, so one name in two encodings is one name; the source's token maps order names by their octets and would keep two translations for it.
- The storage for persistent packets, which never evicts.
- Lengths of 2^64 octets and more, and overflow of identifier and segment counters.
- `Interest::refreshNonce`, extraction of signed ranges, and the accessors of single fields: easy members.
- FaceRuns: the answers to prefix registration commands beyond the filter they set, and callbacks that run the event loop from within a callback.
- PendingInterests: records are values in the table rather than objects; nothing else refers to them.
- Producer: that its own callbacks are delivered, and the certificate its second filter serves, are events of the Face.
- The Content Store policy other than LRU, and the flag for unsolicited Data, which only that policy uses.
- Stored and queried names whose components lack wires, as some built by hand do: the stores are modelled on names with wires; `WireNames.NameCompareWithoutWires` says how others compare.
- Names of 2^31 components and more, whose lengths do not fit an `int` in the stores' comparisons (`WireNames.NameCompareByKey`).
- ContentStore.ContentStore.Find: only for queries whose range runs forward in the table, since the standard library defines nothing for others; `ContentRange.RangeForwardIff` says which queries always do.
- ContentStore.ContentStore.Erase: the same.
- PacketIndex.FindIsLinearScanIff: for packets that satisfy the Interest and hold its name in the same octets; `FoundInEveryStoreIff` says that no weaker condition on a single packet is enough in every store.
- Storage.EraseIsExactIff: for packets that hold the prefix in the same octets; `ErasedFromEveryStoreIff` says that this is needed.
- FaceOutcomes.RunAccounts: Interests that lack a callback may leave the table with nothing to show for it, so it is for those with all three.
- The dispatcher, control commands, RIB and face management, and the consumer program.
- ReflexiveExchange: Data from the producer enters the network without a token, as `replyData` makes it; Nacks between network and Face are events of the Face.
- Fields of Data other than name, digest and freshness period, and the values inside link-layer header fields.

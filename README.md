# Rendezvous hashing in Dafny

This is a model of the core of `go-rendezvous-hash`, a Go library for rendezvous (highest-random-weight) hashing, with proofs about that model.

- A `RendezvousNodes` set holds nodes keyed by ID.
- `CalcCandidates(item)` scores every node for the item and returns all nodes, best first. The score is the node's `HashCode`, which by default is the first 8 bytes of a SHA-256 digest of a type-tagged encoding of the item and the node ID. Ties are broken by the greater ID.
- `Insert` replaces any node with the same ID.
- `Remove` swap-removes a node.

The model has seven modules:

| file | module | models |
|---|---|---|
| `go_types.dfy` | `GoTypes` | Go's fixed-width integers, strings as byte sequences, and the `int64`/`uint64` reinterpretation |
| `ordering.dfy` | `Ordering` | `compareOrdered` (types.go), and Go's `<` on integers, on floats (including NaN) and on strings |
| `hasher.dfy` | `Hasher` | the tagged encoding as a pure `Encode`, and the writers as methods that append to a running hash state (`HashState`) |
| `encoding.dfy` | `Encoding` | properties of the encoding: its layout, width normalisation, a decoder with a round-trip proof, and injectivity |
| `nodes.dfy` | `Nodes` | `IdNode`, `KeyValueNode`, `Capacity`/`NewCapacity` and `WeightedNode` (node.go) |
| `ranking.dfy` | `RankingSpec` | the ranking order, a reference ranking, its uniqueness, and how removal and insertion change it |
| `rendezvous.dfy` | `Rendezvous` | the `RendezvousNodes` class, its in-place candidate sort, and `NewDefaultNodes` |

Main results:

- **Ranking.** `CalcCandidates` returns a sorted permutation of the stored nodes. With distinct IDs, which every operation preserves, it is exactly the reference ranking `Ranking`, so it does not depend on storage or insertion order.
- **Removal.** Removing a node deletes exactly that node from every item's ranking and leaves the order of the others unchanged (`RankingAfterRemove`). In particular, the top choice survives the removal of any other node.
- **Insertion.** Inserting a node is the old ranking with that ID filtered out and the new node inserted at its place (`RankingAfterInsertState`).
- **Encoding.** The encoding decodes back to the value in its canonical form: integers are widened to `int64` or `uint64`, and a `float32`'s 32 bits are zero-extended and written under the `float64` tag. Two non-Hashable values encode alike exactly when their canonical forms are equal. Equal integers of different widths therefore hash alike, but equal floats of different widths do not: `float32(1.0)` encodes like the `float64` with bits `0x3f800000`, not like `float64(1.0)` (`Float32SharesFloat64Tag`). `Stringer` and fallback values are compared by their text only, so two different values with the same text encode alike. A string never encodes like a `[]byte`, and an `int` never like a `uint`.
- **Hash.** `Hash` is the big-endian `uint64` of the first 8 digest bytes of `encode(item) ++ encode(nodeID)`.

## Model

| member | source | states |
|---|---|---|
| GoTypes.Int64Bits | hasher.go:62-71 | `uint64(int64(x))` is `x` for non-negative `x` and `x + 2^64` for negative `x` (two's complement) |
| GoTypes.SignedOfBits | hasher.go:62-71 | the reinterpretation back to `int64` is a right inverse of `Int64Bits` |
| GoTypes.SignedOfBitsInverse | hasher.go:62-71 | it is also a left inverse: reinterpreting a signed value's bits gives the value back |
| Ordering.CompareOrdered | types.go:11-19 | the result is in {-1, 0, 1}; -1 iff `a < b`; 1 iff not `a < b` and `b < a`; 0 iff neither |
| Ordering.IntCompareTotal | types.go:11-19 | on integers it is antisymmetric and 0 exactly on equal values |
| Ordering.FloatCompareTotal | types.go:11-19 | on non-NaN floats it is antisymmetric and 0 exactly on equal values |
| Ordering.FloatCompareNaN | types.go:11-19 | NaN compares as 0 against every value, on either side |
| Ordering.IntLess | types.go:11-19 | Go's `<` on integers, the comparison `compareOrdered` uses for integer IDs |
| Ordering.FloatLess | types.go:11-19 | Go's `<` on floats: false whenever either side is NaN, infinities below and above every finite value |
| Ordering.BytesLess | types.go:11-19 | Go's `<` on strings: bytewise lexicographic, a proper prefix before its extensions |
| Ordering.CompareBytes | types.go:11-19 | on strings the result is in {-1, 0, 1} |
| Ordering.BytesLessIrreflexive | types.go:11-19 | Go's `<` on strings is irreflexive |
| Ordering.BytesLessAsymmetric | types.go:11-19 | Go's `<` on strings is asymmetric |
| Ordering.BytesLessTransitive | types.go:11-19 | Go's `<` on strings is transitive |
| Ordering.BytesLessTrichotomy | types.go:11-19 | two different strings are ordered one way or the other |
| Ordering.CompareBytesTotal | types.go:11-19 | on strings it is antisymmetric and 0 exactly when the strings are equal |
| Ordering.CompareBytesTransitive | types.go:11-19 | "compares greater" is transitive on strings |
| Ordering.CompareBytesNonPositiveTransitive | types.go:11-19 | "compares at most equal" is transitive on strings |
| Hasher.LittleEndian64 | hasher.go:111-112 | `PutUint64` fills exactly 8 bytes |
| Hasher.FromLittleEndian | hasher.go:111-112 | reading n bytes little-endian gives a value below 256^n |
| Hasher.FromBigEndian | hasher.go:28 | reading n bytes big-endian gives a value below 256^n |
| Hasher.LittleEndianBytesRoundTrip | hasher.go:111-112 | bytes holding the base-256 digits of v read back little-endian as v |
| Hasher.LittleEndian64RoundTrip | hasher.go:111-112 | the 8 bytes `PutUint64` writes for v read back as v |
| Hasher.Uint64OfDigest | hasher.go:27-28 | the score is the big-endian value of the digest's first 8 bytes and fits in `uint64` |
| Hasher.Uint64Bytes | hasher.go:107-114 | the bytes `writeUint64` writes: 9 bytes with a nonzero tag, 8 without |
| Hasher.PayloadBytes | hasher.go:95-105 | the bytes `writeString` and `writeBytes` write: 9 + len bytes, starting with the tag |
| Hasher.NumberWord | hasher.go:62-87 | the tag and 64-bit word each integer and float kind is written as: signed kinds as `int64` bits, unsigned kinds as `uint64`, `float32` bits zero-extended under the `float64` tag |
| Hasher.Encode | hasher.go:43-92 | the bytes `writeHash` writes for a value; never empty, and the first byte is one of the nine tags |
| Hasher.Stream | hasher.go:23-26 | the hash input: the item's encoding, then the node ID's encoding as a string, whose length is the item's encoding plus 9 plus the ID's length |
| Hasher.DefaultNodeHasher | hasher.go:20-29 | `DefaultNodeHasher` as a `NodeHasher` value: it scores (ID, item) by `DefaultHash` |
| Hasher.HashState.Sum | hasher.go:27 | `h.Sum(nil)`: the digest of everything written so far |
| Hasher.DefaultHash | hasher.go:23-29 | the default score is the big-endian value of the first 8 digest bytes of the item's encoding followed by the node ID's |
| Hasher.HashState.constructor | hasher.go:24 | a new hash state has had nothing written to it |
| Hasher.HashState.Write | hasher.go:45 | writing appends the bytes to the hash input |
| Hasher.WriteUint64 | hasher.go:107-114 | appends the tag byte when it is nonzero, then the 8 little-endian bytes of v |
| Hasher.WriteString | hasher.go:95-99 | appends the tag, the 8-byte little-endian length, then the string's bytes |
| Hasher.WriteBytes | hasher.go:101-105 | appends the tag, the 8-byte little-endian length, then the bytes |
| Hasher.WriteHash | hasher.go:43-92 | appends exactly `Encode(v)`: a Hashable value's tag and own writes, or the type switch's layout |
| Hasher.WriteNumber | hasher.go:62-87 | for every integer and float kind, appends that kind's tag and its 64-bit word |
| Hasher.Hash | hasher.go:23-29 | the result is the big-endian `uint64` of the first 8 bytes of SHA-256 over `encode(item) ++ encode(nodeID)` |
| Encoding.Uint64Layout | hasher.go:107-114 | with a nonzero tag, the output is 9 bytes and starts with the tag; with tag 0 it is 8 bytes; either way the last 8 bytes read back as v |
| Encoding.PayloadLayout | hasher.go:95-105 | string and byte payloads take 9+len bytes: the tag, then a length that reads back as len, then the payload itself |
| Encoding.BoolLayout | hasher.go:55-61 | a bool is exactly `[tagBool, 1]` or `[tagBool, 0]` |
| Encoding.HashableLayout | hasher.go:44-48 | a Hashable value is `tagHashable` followed by its own writes |
| Encoding.TagsDistinct | hasher.go:31-41 | the nine tags are pairwise distinct, are 1..9, and none is 0 |
| Encoding.Canonical | hasher.go:62-87 | the value in the width writeHash actually encodes; it is never a Hashable unless the input was |
| Encoding.Float32SharesFloat64Tag | hasher.go:84-87 | a `float32` encodes like a `float64` if and only if the `float64`'s bits equal the `float32`'s bits zero-extended |
| Encoding.EncodeCanonical | hasher.go:62-87 | every value encodes exactly like its 64-bit canonical form |
| Encoding.SignedWidthsAgree | hasher.go:62-71 | `int`, `int8`, `int16` and `int32` encode like `int64` of the same value |
| Encoding.UnsignedWidthsAgree | hasher.go:72-83 | `uint`, `uint8`, `uint16`, `uint32` and `uintptr` encode like `uint64` of the same value |
| Encoding.DecodePayload | hasher.go:95-105 | reading a length-prefixed payload consumes input |
| Encoding.Decode | hasher.go:43-92 | a successful decode consumes input and never yields a Hashable |
| Encoding.DecodeUint64 | hasher.go:107-114 | a tagged 64-bit word decodes back to its tag and word, leaving the rest |
| Encoding.DecodePayloadBytes | hasher.go:95-105 | a tagged payload decodes back to the payload, leaving the rest |
| Encoding.DecodeEncode | hasher.go:43-114 | decoding the encoding of any non-Hashable value, with anything after it, yields the canonical value and the untouched rest |
| Encoding.DecodeEncodeText | hasher.go:50-54 | the same round trip for strings, byte slices, Stringer text and fallback text |
| Encoding.DecodeEncodeNumber | hasher.go:62-87 | the same round trip for every integer and float kind |
| Encoding.EncodeInjective | hasher.go:43-92 | two non-Hashable values encode alike if and only if their canonical forms are equal |
| Encoding.KindsNeverCollide | hasher.go:50-83 | a string never encodes like the same bytes as `[]byte` or as a Stringer, and an `int` never like a `uint` |
| Encoding.StreamInjective | hasher.go:23-29 | for non-Hashable items, two hash inputs are equal if and only if both the canonical items and the node IDs are equal |
| Encoding.HashableStreamAmbiguous | hasher.go:44-48 | a Hashable's writes are not length-prefixed, so a different (node ID, item) pair can produce the same hash input |
| Nodes.NewIdNode | node.go:34-36 | an IdNode wrapping the ID |
| Nodes.IdNodeID | node.go:38-40 | an IdNode's ID is the value it wraps |
| Nodes.IdNodeHashCode | node.go:42-44 | an IdNode's score is the hasher's score of its ID for the item |
| Nodes.IdNodeContract | node.go:34-44 | `NewIdNode(x).NodeID()` is x, and its `HashCode` is `hasher.Hash(x, item)` |
| Nodes.NewKeyValueNode | node.go:46-48 | a KeyValueNode holding the key and the value |
| Nodes.KeyValueNodeID | node.go:50-52 | a KeyValueNode's ID is its key |
| Nodes.KeyValueNodeHashCode | node.go:54-56 | a KeyValueNode's score is the hasher's score of its key for the item |
| Nodes.KeyValueNodeContract | node.go:46-56 | the ID is the key; `HashCode` does not depend on the value and equals an IdNode's score on the key |
| Nodes.NewCapacity | node.go:58-63 | succeeds iff v is finite and > 0 (so not NaN and not infinite); on success it holds v, on failure it is the zero Capacity |
| Nodes.CapacityValue | node.go:65-67 | `Value()` returns the stored capacity |
| Nodes.NewCapacityValue | node.go:58-67 | `Value()` of an accepted capacity is the value given, and it is finite and positive |
| Nodes.NewCapacityExamples | node.go:58-63 | 0, negative values, NaN and both infinities are refused, while a small positive value is accepted |
| Nodes.NewWeightedNode | node.go:69-71 | a WeightedNode holding the node and the capacity |
| Nodes.WeightedNodeID | node.go:73-75 | a WeightedNode's ID is the wrapped node's ID |
| Nodes.WeightedNodeContract | node.go:69-75 | `NewWeightedNode` stores the node and the capacity unchanged, and the weighted node's ID is the wrapped node's ID |
| RankingSpec.Before | rendezvous.go:34-39 | the sort's less function: a higher score first, and on equal scores the greater ID first |
| RankingSpec.BeforeAsymmetric | rendezvous.go:34-39 | the sort's less function is asymmetric |
| RankingSpec.BeforeTotal | rendezvous.go:34-39 | for nodes with different IDs, one of the two sorts first |
| RankingSpec.NotAfterTransitive | rendezvous.go:34-39 | "does not sort after" is transitive, including ties broken by ID |
| RankingSpec.Ranking | rendezvous.go:34-39 | the reference ranking has one entry per node |
| RankingSpec.RankingSortedPermutation | rendezvous.go:34-39 | the reference ranking is sorted by score descending, then ID descending, and is a permutation of the nodes |
| RankingSpec.DistinctPermutation | rendezvous.go:48-52 | reordering nodes with distinct IDs keeps the IDs distinct |
| RankingSpec.SortedPermutationUnique | rendezvous.go:34-39 | with distinct IDs, two sorted permutations of the same nodes are equal, so the unstable sort's outcome is determined |
| RankingSpec.RankingUnique | rendezvous.go:34-39 | any sorted permutation of nodes with distinct IDs is the reference ranking |
| RankingSpec.RankingOrderIndependent | rendezvous.go:34-39 | two node sets holding the same nodes in different orders rank every item identically |
| RankingSpec.SwapRemove | rendezvous.go:57-60 | the slice shrinks by one, the last node moves into slot k, and every other slot keeps its node |
| RankingSpec.WithoutCount | rendezvous.go:54-66 | filtering out an ID drops every node with that ID and keeps every other node as often as it occurred |
| RankingSpec.SwapRemoveWithout | rendezvous.go:54-66 | swap-removing slot k leaves the same nodes as filtering out that node's ID, and keeps IDs distinct |
| RankingSpec.RankingAfterRemove | rendezvous.go:54-66 | after removal, the ranking is the old ranking with that node deleted and all other nodes in the same order |
| RankingSpec.WinnerSurvivesRemoval | rendezvous.go:54-66 | removing any node other than an item's top choice leaves that top choice in first place |
| RankingSpec.RankingAfterInsert | rendezvous.go:48-52 | ranking the nodes with n's ID filtered out and n appended gives the old ranking, filtered, with n inserted at its place |
| RankingSpec.IndexOfId | rendezvous.go:55-63 | the index of the first node with the ID, or -1 exactly when no node has it |
| RankingSpec.InsertState | rendezvous.go:48-52 | the state after Insert holds the old nodes minus n's ID, plus n, and its IDs stay distinct |
| RankingSpec.RankingAfterInsertState | rendezvous.go:48-52 | after Insert, the ranking is the old ranking with n's ID filtered out and n inserted at its place |
| Rendezvous.SortByRank | rendezvous.go:34-39 | the in-place sort leaves the array sorted by score descending, then ID descending, and a permutation of what it held |
| Rendezvous.ProjectRanked | rendezvous.go:41-45 | the nodes taken from the sorted scored slice are a sorted permutation of the stored nodes |
| Rendezvous.ProjectPermutation | rendezvous.go:41-45 | taking the nodes out of a reordered scored slice gives a reordering of the nodes |
| Rendezvous.RendezvousNodes.constructor | rendezvous.go:12-17 | a new set is empty, satisfies the distinct-ID invariant, and keeps the given hasher |
| Rendezvous.NewDefaultNodes | rendezvous.go:19-21 | a new set of IdNodes scored by the default SHA-256 hasher |
| Rendezvous.RendezvousNodes.CalcCandidates | rendezvous.go:23-46 | returns every stored node exactly once, sorted by score descending and then ID descending; with distinct IDs this is the reference ranking; the set is not changed |
| Rendezvous.RendezvousNodes.Insert | rendezvous.go:48-52 | takes out the first node with the new node's ID and returns it, or returns None; appends the node; the length grows by one exactly when nothing was replaced; afterwards the ID is present, and distinct IDs stay distinct |
| Rendezvous.RendezvousNodes.Remove | rendezvous.go:54-66 | on a hit, returns the first node with the ID and swap-removes it; on a miss, returns None and leaves the set unchanged; distinct IDs stay distinct |
| Rendezvous.RendezvousNodes.Contains | rendezvous.go:68-75 | true exactly when some stored node has the ID |
| Rendezvous.RendezvousNodes.IsEmpty | rendezvous.go:77-79 | true exactly when no node is stored |
| Rendezvous.RendezvousNodes.Len | rendezvous.go:81-83 | the number of stored nodes |
| Rendezvous.RendezvousNodes.Nodes | rendezvous.go:85-89 | a freshly allocated copy holding the stored nodes in order |

## Left out

- `WeightedNode.HashCode` (node.go:77-82) is not modelled. It computes `ln(hash / maxUint64) / capacity` in float64, and IEEE arithmetic and `math.Log` are out of scope. The class is generic in the node type, but its scores are integers (the unweighted `uint64` score).
- SHA-256 is a parameter `sha` from bytes to a 32-byte digest, and nothing is assumed about it.
- `fmt.Stringer` output and the `fmt.Sprintf("%T:%v")` fallback (hasher.go:88-91) are taken as the text they produce, because library formatting is not modelled.
- `math.Float32bits` and `math.Float64bits` (hasher.go:84-87) are taken as the bit patterns they produce. IEEE values themselves are not modelled, so the encoding of a float is stated on its bits.
- A `Hashable` item is represented by the bytes its own `Hash` method writes. Its `Hash` method receives the whole `hash.Hash` (hasher.go:46); the model assumes it only writes to it, and does not call `Reset`, `Sum` or `Size`.
- Go's `int`, `uint` and `uintptr` are taken to be 64 bits wide.
- The ID type parameter of `RendezvousNodes` and `NodeHasher` is fixed to `string`. `compareOrdered` itself is modelled for integers, floats and strings. This hides one behaviour of float IDs: a NaN ID never equals itself at rendezvous.go:56 and rendezvous.go:70, so `Insert` of a NaN-ID node always appends, `Remove` and `Contains` never find it, and IDs stop being distinct. The claims that every operation keeps IDs distinct, and that `CalcCandidates` is then the reference ranking, hold for the string (and integer) IDs of this model only.
- `Remove` and `Insert` return `Option<N>` in place of Go's `(N, bool)`. `None` stands for `(zero value, false)`.
- `sort.Slice` is modelled by an insertion sort. With distinct IDs every correct sort gives the same result (`RankingUnique`), and every operation keeps IDs distinct. With duplicate IDs, Go leaves the order among equal (score, ID) pairs unspecified. For that case `CalcCandidates` only promises a sorted permutation.
- Rendezvous.RendezvousNodes.CalcCandidates: the capacity hint passed to `make` is not modelled, because it does not affect the result.
- Slices are modelled as sequences, so the sharing of backing arrays is not modelled. `Remove` writes into the slice's backing array in place. No slice the set hands out shares that array: `Nodes` copies, and `CalcCandidates` builds new slices.
- There is no concurrency in the source, and none is modelled.
- The tests' concrete expected rankings (rendezvous_test.go:15-48) depend on real SHA-256 outputs. Only their relative claim is modelled: a removal deletes the node from the ranking in place (`RankingAfterRemove`).
- The statistical weight-proportionality test is probabilistic and float-based, so it is not modelled.

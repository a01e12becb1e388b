# RecordCollection in Dafny

A model of the in-memory record store `RecordCollection` (C++), with proofs of
what it guarantees. The store keeps `QBRecord`s (`id` u32 primary key, `value`
u64, `name`, `description`) in a dense sequence `m_records` and maintains a
primary-key index `m_id_index` from id to current position. Records are added
with duplicate-id rejection, deleted in O(1) by swapping the victim with the
last record, re-pointing the moved record's index entry, popping the last
element and erasing the deleted id's entry, and
searched either by a fixed column (`Id` through the index; `Value`, `Name`,
`Description` by linear scan) or by an arbitrary predicate.

Files:

- `wrappers.dfy` (module `Wrappers`): `Option` and `Result`.
- `qb_record.dfy` (module `QBRecords`): the 32- and 64-bit unsigned ranges and the `QBRecord` datatype.
- `parsing.dfy` (module `Parsing`): `std::stoull`, and `std::stoul` followed by
  `static_cast<uint32_t>`, as decimal parsers returning `Result`. The two
  exceptions become the errors `InvalidArgument` and `OutOfRange`. The Id
  parser keeps its number modulo 2^32, as the cast does. `unsigned long` is
  taken to be 64 bits wide (LP64).
- `collection_spec.dfy` (module `CollectionSpec`): the store as a value
  `Store(records, index)`, and its invariant `Store.Valid()`. Every indexed
  id points at an in-range position holding a record with that id. Every
  stored id is indexed. No two records share an id. The module also gives
  each operation's effect as a function (`Added`, `Deleted`, `Search`,
  `Positions`, `Filter`) and proves the guarantees as lemmas.
- `record_collection.dfy` (module `RecordCollections`): the class
  `RecordCollection`. Its fields `records: seq<QBRecord>` and
  `index: map<u32, nat>` are updated in place by `Add` and `DeleteById`.
  `DeleteById` performs the C++ class's steps: swap, re-point, pop, erase.
  Each method is proved equal to the value-level function and to keep
  `Valid()`. `FindByColumn` and `FindIndices` are the C++ counting
  loops, proved against `Search` and `Positions`. `Find`, `GetRecord`,
  `TryGet` and `Size` are read-only functions. `find` and `findIndices` are
  `const` in the C++ class: here they have no `modifies` clause, so Dafny's
  framing guarantees they change nothing.
- `scenarios.dfy` (module `CollectionScenarios`): the seven unit tests of
  `main.cpp`. Each replays its test's `add` calls from an empty collection
  and states the outcomes the test checks: over the value-level functions,
  and for `tryGet` through the class. One further lemma shows the swap of
  a three-record delete.

## Model

| member | source | states |
|---|---|---|
| `QBRecords.QBRecord` | cpp/IvanM/src/QBRecord.h:8-17 | a record: a 32-bit id, a 64-bit value, a name and a description |
| `CollectionSpec.Column` | cpp/IvanM/src/RecordCollection.h:14-20 | the closed set of searchable columns: Id, Value, Name, Description |
| `Parsing.ParseValue` | cpp/IvanM/src/RecordCollection.cpp:36 | `stoull`: succeeds exactly on a non-empty digit string whose number is below 2^64, and yields that number; out of range only for a digit string |
| `Parsing.ParseId` | cpp/IvanM/src/RecordCollection.cpp:25 | `static_cast<uint32_t>(stoul(...))`: accepts exactly the texts the 64-bit parser accepts, fails with the same error otherwise, and yields the number modulo 2^32 |
| `Parsing.ParseIdOfDecimal` | cpp/IvanM/src/RecordCollection.cpp:25 | the Id parser accepts the decimal text of any n < 2^64 and yields n mod 2^32 |
| `Parsing.ParseValueOfDecimal` | cpp/IvanM/src/RecordCollection.cpp:36 | the Value parser accepts the decimal text of every 64-bit number and yields that number |
| `Parsing.NonDigitRejected` | cpp/IvanM/src/RecordCollection.cpp:25-36 | text containing a non-digit is an invalid-argument error for both parsers |
| `Parsing.TooLargeRejected` | cpp/IvanM/src/RecordCollection.cpp:25-36 | a number of 2^64 or more is an out-of-range error for both parsers |
| `CollectionSpec.Store.Valid` | cpp/IvanM/src/RecordCollection.h:92-93 | the index maps exactly the stored ids, each to its current in-range position, and no two records share an id; so the id of the record at i is indexed at i |
| `CollectionSpec.PositionOfStored` | cpp/IvanM/src/RecordCollection.h:92-93 | in a valid store, the id of the record at position i is indexed at i |
| `CollectionSpec.IndexedIffStored` | cpp/IvanM/src/RecordCollection.h:92-93 | in a valid store, an id is an index key iff some record carries it (no stale entries) |
| `CollectionSpec.IndexSizeMatches` | cpp/IvanM/src/RecordCollection.h:92-93 | a valid store's index has exactly as many entries as there are records |
| `CollectionSpec.Added` | cpp/IvanM/src/RecordCollection.cpp:6-14 | the value-level add: succeeds iff the id is not indexed, and the existing records stay a prefix of the new sequence |
| `CollectionSpec.AddedValid` | cpp/IvanM/src/RecordCollection.cpp:6-14 | adding keeps the index invariant |
| `CollectionSpec.AddedOutcome` | cpp/IvanM/src/RecordCollection.cpp:6-14 | add returns true iff no record had the id; then the record is appended last, indexed at size-1, the size grows by one and old entries stay; otherwise nothing changes |
| `CollectionSpec.Deleted` | cpp/IvanM/src/RecordCollection.cpp:67-83 | the value-level delete, stated declaratively (the last record moves to the deleted position p, the id's entry goes, the moved record is indexed at p); succeeds iff the id is indexed, and then the count drops by one. `DeleteById` follows the C++ steps instead and is proved equal to it |
| `CollectionSpec.DeletedValid` | cpp/IvanM/src/RecordCollection.cpp:67-83 | swap-delete keeps the index invariant, also when the deleted record is the last one |
| `CollectionSpec.DeletedOutcome` | cpp/IvanM/src/RecordCollection.cpp:67-83 | deleteById returns true iff a record had the id; then the size drops by one and the id is unindexed; otherwise nothing changes |
| `CollectionSpec.DeletedMovesOnlyLast` | cpp/IvanM/src/RecordCollection.cpp:73-80 | after deleting the record at p, the former last record sits at p (if p was not last) and every other position keeps its record |
| `CollectionSpec.DeletedThenNotFound` | cpp/IvanM/src/RecordCollection.cpp:67-83 | after deleting an id, an Id search for it returns no position |
| `CollectionSpec.AddedThenFound` | cpp/IvanM/src/RecordCollection.cpp:6-32 | after adding a fresh id, an Id search for it returns exactly the new last position |
| `CollectionSpec.Filter` | cpp/IvanM/src/RecordCollection.h:43-52 | `std::copy_if`: keeps at most as many records as there are, each one stored and satisfying the predicate |
| `CollectionSpec.Positions` | cpp/IvanM/src/RecordCollection.h:58-71 | the positions returned are strictly increasing, in range, and include i exactly when the record at i satisfies the predicate |
| `CollectionSpec.FilterIsAtPositions` | cpp/IvanM/src/RecordCollection.h:43-71 | find(pred) equals the records at the positions findIndices(pred) returns, in the same order |
| `CollectionSpec.Search` | cpp/IvanM/src/RecordCollection.cpp:16-65 | the value-level findByColumn: only an Id or Value search can fail, and it fails exactly when its text does not parse |
| `CollectionSpec.SearchPositionsValid` | cpp/IvanM/src/RecordCollection.cpp:16-65 | every successful column search of a valid store returns increasing in-range positions, and an Id search returns at most one |
| `CollectionSpec.IdSearchOutcome` | cpp/IvanM/src/RecordCollection.cpp:22-32 | an Id search fails iff its text does not parse; otherwise it returns the id's indexed position when a record carries the id, and nothing otherwise |
| `CollectionSpec.ScanSearchExact` | cpp/IvanM/src/RecordCollection.cpp:34-61 | Value, Name and Description searches return exactly the positions whose field equals the (parsed) text, in increasing order, and fail only on an unparsable Value |
| `CollectionSpec.ValueSearchOutcome` | cpp/IvanM/src/RecordCollection.cpp:34-43 | a Value search fails iff its text does not parse, and then with the parser's error, never with an empty result |
| `CollectionSpec.MalformedNumberFails` | cpp/IvanM/src/RecordCollection.cpp:22-37 | searching Id or Value for "abc" is an invalid-argument error, not an empty result |
| `CollectionSpec.IdSearchFindsStored` | cpp/IvanM/src/RecordCollection.cpp:22-32 | in a valid store, an Id search for the decimal id of the record at position i returns exactly [i] |
| `CollectionSpec.IdSearchTruncates` | cpp/IvanM/src/RecordCollection.cpp:25 | an Id search for n < 2^64 behaves exactly like one for n mod 2^32 |
| `RecordCollections.RecordCollection.constructor` | cpp/IvanM/src/RecordCollection.h:91-93 | a new collection is valid and empty |
| `RecordCollections.RecordCollection.Valid` | cpp/IvanM/src/RecordCollection.h:91-93 | the fields `records` and `index` satisfy the store invariant, so the index has exactly one entry per record |
| `RecordCollections.RecordCollection.Add` | cpp/IvanM/src/RecordCollection.cpp:6-14 | keeps Valid; new state and result are those of Added; returns true iff no stored record had the id |
| `RecordCollections.RecordCollection.DeleteById` | cpp/IvanM/src/RecordCollection.cpp:67-83 | the swap, re-point, pop and erase steps keep Valid and produce exactly Deleted's state; returns true iff a stored record had the id |
| `RecordCollections.RecordCollection.FindByColumn` | cpp/IvanM/src/RecordCollection.cpp:16-65 | the switch with its index lookup and three scanning loops returns exactly Search of the current state; a Name or Description search returns what FindIndices returns for the predicate "that field equals the text" |
| `RecordCollections.RecordCollection.FindIndices` | cpp/IvanM/src/RecordCollection.h:58-71 | the counting loop returns strictly increasing in-range positions, exactly those whose record satisfies the predicate |
| `RecordCollections.RecordCollection.Find` | cpp/IvanM/src/RecordCollection.h:43-52 | the copy_if result equals the records at the positions of findIndices, in storage order |
| `RecordCollections.RecordCollection.GetRecord` | cpp/IvanM/src/RecordCollection.cpp:86-89 | for an in-range position, returns the stored record at that position |
| `RecordCollections.RecordCollection.TryGet` | cpp/IvanM/src/RecordCollection.cpp:98-104 | absent iff the position is not below size(); otherwise the same record getRecord returns |
| `RecordCollections.RecordCollection.Size` | cpp/IvanM/src/RecordCollection.cpp:115-117 | the record count, which in a valid collection equals the number of indexed ids |
| `CollectionScenarios.ThreeRecordsAre` | cpp/IvanM/src/main.cpp:33-35 | adding ids 1, 2, 3 to an empty collection stores them at positions 0, 1, 2 and keeps the invariant |
| `CollectionScenarios.DuplicateIdRefused` | cpp/IvanM/src/main.cpp:14-22 | a second record with id 1 is refused and the size stays 1 |
| `CollectionScenarios.AddAndFind` | cpp/IvanM/src/main.cpp:30-47 | Id "2" finds [1], Name "Alice" finds [0], an unknown Description finds nothing |
| `CollectionScenarios.TwoRecordsAre` | cpp/IvanM/src/main.cpp:57-58 | adding ids 1 and 2 to an empty collection stores them at positions 0 and 1 and keeps the invariant |
| `CollectionScenarios.DeleteThenNotFound` | cpp/IvanM/src/main.cpp:55-69 | from Alice, Bob: deleting id 1 succeeds and leaves only Bob at position 0, id 1 is no longer found, and deleting id 42 fails |
| `CollectionScenarios.DeleteSwapsLastIntoPlace` | cpp/IvanM/src/RecordCollection.cpp:73-80 | from Alice, Bob, Charlie: deleting id 1 moves Charlie (the last record) to position 0 and leaves Bob at position 1 |
| `CollectionScenarios.TryGetScenario` | cpp/IvanM/src/main.cpp:77-89 | through the class, after adding ids 1 and 2: tryGet(0) holds id 1 and tryGet(10) is absent |
| `CollectionScenarios.FindIndicesByValue` | cpp/IvanM/src/main.cpp:94-102 | after adding records with values 100, 200, 100, the positions of value 100 are [0, 2] |
| `CollectionScenarios.FindByIdAtLeastTwo` | cpp/IvanM/src/main.cpp:110-118 | after adding Alice, Bob, Charlie, filtering for id >= 2 keeps Bob then Charlie |
| `CollectionScenarios.FindByColumnEdgeCases` | cpp/IvanM/src/main.cpp:126-144 | with two records of value 100, Value "100" finds [0, 1], Name "Nonexistent" finds nothing, and Id "abc" is an invalid-argument error |

## Left out

- RecordCollections.RecordCollection.GetRecord: the `std::out_of_range` exception of `m_records.at` is a precondition, not an error result. An out-of-range position is a caller error here, and `TryGet` is the checked read.
- Parsing.ParseValue: `std::stoull` also accepts leading whitespace, a sign (a negated value wraps) and trailing non-digits ("12abc" gives 12). This parser accepts only a non-empty string of decimal digits. The failure versus empty-result distinction and the 64-bit range are kept.
- Parsing.ParseId: `std::stoul` has the same lexical rules as `std::stoull`, which this parser likewise narrows to a non-empty digit string. The 64-bit range (`unsigned long` taken as 64 bits) and the truncation to 32 bits are kept.
- Parsing.NonDigitRejected: it rejects every string containing a non-digit. In C++, strings such as " 12", "+12", "-1" and "12abc" are accepted, so this is stronger than the C++ behaviour on those inputs.
- The non-const overloads of `getRecord` and `tryGet` return mutable references. A caller could use them to overwrite a record's `id` and break the index. Reads are modelled as returned values, so this aliasing is not captured.
- `std::unordered_map` hashing and `std::vector` growth are modelled by Dafny's `map` and `seq`. Iterator validity and amortised costs are not modelled.
- The default constructor of `QBRecord` leaves its fields uninitialised. It is not modelled, because every record the collection stores is built with explicit fields.
- `find` and `findIndices` take any C++ callable. Here the predicate is a total Dafny function `QBRecord -> bool`, so it cannot have side effects or throw.
- The performance harness, timing and console output of `main.cpp` are not modelled. Its seven unit tests appear as members of `CollectionScenarios`.

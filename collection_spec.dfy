/**
 * The record collection as a value: the dense record sequence, the
 * primary-key index from id to position, the invariant tying them together,
 * and the effect of each operation on that value. The class in module
 * RecordCollections is proved to implement these functions.
 */
module CollectionSpec {
  import opened Wrappers
  import opened QBRecords
  import opened Parsing

  /** The columns a record can be searched by. */
  datatype Column = Id | Value | Name | Description

  /** Primary-key index: id to the record's current position. */
  type Index = map<u32, nat>

  predicate DistinctIds(records: seq<QBRecord>) {
    forall i, j :: 0 <= i < j < |records| ==> records[i].id != records[j].id
  }

  datatype Store = Store(records: seq<QBRecord>, index: Index) {

    /**
     * Every indexed id points at a position holding a record with that id
     * (no stale or out-of-range entry), every stored id is indexed, and no
     * two records share an id.
     */
    ghost predicate Valid()
      ensures Valid() ==> forall i :: 0 <= i < |records| ==> records[i].id in index && index[records[i].id] == i
    {
      && (forall id :: id in index ==> index[id] < |records| && records[index[id]].id == id)
      && (forall i :: 0 <= i < |records| ==> records[i].id in index)
      && DistinctIds(records)
    }
  }

  const Empty: Store := Store([], map[])

  predicate StrictlyIncreasing(ps: seq<nat>) {
    forall a, b :: 0 <= a < b < |ps| ==> ps[a] < ps[b]
  }

  /** True iff some stored record carries `id`. */
  ghost predicate Holds(records: seq<QBRecord>, id: u32) {
    exists i :: 0 <= i < |records| && records[i].id == id
  }

  /** In a valid store, the index entry of the record at position `i` is `i`. */
  lemma PositionOfStored(s: Store, i: nat)
    requires s.Valid() && i < |s.records|
    ensures s.records[i].id in s.index && s.index[s.records[i].id] == i
  {
  }

  /** In a valid store, an id is indexed exactly when some record carries it. */
  lemma IndexedIffStored(s: Store, id: u32)
    requires s.Valid()
    ensures id in s.index <==> Holds(s.records, id)
  {
    if Holds(s.records, id) {
      var i :| 0 <= i < |s.records| && s.records[i].id == id;
      PositionOfStored(s, i);
    }
  }

  // ---------------------------------------------------------------- add

  /** `add`: reject a duplicate id, otherwise append and index the new last position. */
  function Added(s: Store, r: QBRecord): (res: (Store, bool))
    ensures res.1 <==> r.id !in s.index
    ensures s.records <= res.0.records
  {
    if r.id in s.index then (s, false)
    else (Store(s.records + [r], s.index[r.id := |s.records|]), true)
  }

  /** Adding keeps the store valid. */
  lemma AddedValid(s: Store, r: QBRecord)
    requires s.Valid()
    ensures Added(s, r).0.Valid()
  {
  }

  /**
   * `add` returns true iff no stored record carries the id; then the record
   * is the new last element, its id is indexed at that position and the count
   * grows by one; otherwise nothing changes.
   */
  lemma AddedOutcome(s: Store, r: QBRecord)
    requires s.Valid()
    ensures Added(s, r).1 <==> !Holds(s.records, r.id)
    ensures !Added(s, r).1 ==> Added(s, r).0 == s
    ensures Added(s, r).1 ==>
              var t := Added(s, r).0;
              && t.records == s.records + [r]
              && |t.records| == |s.records| + 1
              && r.id in t.index && t.index[r.id] == |t.records| - 1
              && forall id :: id in s.index ==> id in t.index && t.index[id] == s.index[id]
  {
    IndexedIffStored(s, r.id);
  }

  // ------------------------------------------------------------- delete

  /**
   * `deleteById`: an unindexed id changes nothing; otherwise the record at the
   * id's position p is replaced by the former last record (unless p is the last
   * position), the sequence shrinks by one, the moved record's index entry
   * becomes p, and the id's entry is removed.
   */
  function Deleted(s: Store, id: u32): (res: (Store, bool))
    requires s.Valid()
    ensures res.1 <==> id in s.index
    ensures |res.0.records| == if res.1 then |s.records| - 1 else |s.records|
  {
    if id !in s.index then (s, false)
    else
      var p, last := s.index[id], |s.records| - 1;
      if p == last then (Store(s.records[..last], s.index - {id}), true)
      else (Store(s.records[..last][p := s.records[last]],
                  (s.index - {id})[s.records[last].id := p]), true)
  }

  /** Deletion keeps the store valid, including when the deleted record is the last one. */
  lemma DeletedValid(s: Store, id: u32)
    requires s.Valid()
    ensures Deleted(s, id).0.Valid()
  {
    if id in s.index {
      var p, last := s.index[id], |s.records| - 1;
      var t := Deleted(s, id).0;
      forall i, j | 0 <= i < j < |t.records| ensures t.records[i].id != t.records[j].id {
        if i == p {
          assert t.records[i] == s.records[last];
        } else if j == p {
          assert t.records[j] == s.records[last];
        }
      }
      forall k | k in t.index ensures t.index[k] < |t.records| && t.records[t.index[k]].id == k {
        if p != last && k == s.records[last].id {
        } else {
          assert k in s.index && k != id;
          PositionOfStored(s, last);
        }
      }
      forall i | 0 <= i < |t.records| ensures t.records[i].id in t.index {
        if i != p {
          PositionOfStored(s, i);
        }
      }
    }
  }

  /**
   * `deleteById` returns true iff a record with that id was stored; when it
   * does, the count drops by one and the id is no longer indexed; when it
   * does not, the store is unchanged.
   */
  lemma DeletedOutcome(s: Store, id: u32)
    requires s.Valid()
    ensures Deleted(s, id).1 <==> Holds(s.records, id)
    ensures Deleted(s, id).1 ==>
              |Deleted(s, id).0.records| == |s.records| - 1 && id !in Deleted(s, id).0.index
    ensures !Deleted(s, id).1 ==> Deleted(s, id).0 == s
  {
    IndexedIffStored(s, id);
  }

  /**
   * Swap-delete moves only the former last record: it lands at the deleted
   * record's position p (when p was not last) and every other surviving
   * position keeps its record.
   */
  lemma DeletedMovesOnlyLast(s: Store, id: u32)
    requires s.Valid() && id in s.index
    ensures var t, p := Deleted(s, id).0, s.index[id];
            && (p < |t.records| ==> t.records[p] == s.records[|s.records| - 1])
            && (forall i :: 0 <= i < |t.records| && i != p ==> t.records[i] == s.records[i])
  {
  }

  // ------------------------------------------------------------- search

  /** The positions, in storage order, of the records satisfying `p`. */
  function Positions(records: seq<QBRecord>, p: QBRecord -> bool): (ps: seq<nat>)
    ensures StrictlyIncreasing(ps)
    ensures forall k :: 0 <= k < |ps| ==> ps[k] < |records|
    ensures forall i :: 0 <= i < |records| ==> (p(records[i]) <==> i in ps)
  {
    if records == [] then []
    else
      var n := |records| - 1;
      Positions(records[..n], p) + (if p(records[n]) then [n] else [])
  }

  /** Extending the scanned prefix by one record extends the positions by at most that one. */
  lemma PositionsSnoc(records: seq<QBRecord>, i: nat, p: QBRecord -> bool)
    requires i < |records|
    ensures Positions(records[..i + 1], p) == Positions(records[..i], p) + (if p(records[i]) then [i] else [])
  {
    assert records[..i + 1][..i] == records[..i];
  }

  /** `std::copy_if` over the records: those satisfying `p`, in storage order. */
  function Filter(records: seq<QBRecord>, p: QBRecord -> bool): (kept: seq<QBRecord>)
    ensures |kept| <= |records|
    ensures forall k :: 0 <= k < |kept| ==> p(kept[k]) && kept[k] in records
  {
    if records == [] then []
    else
      var n := |records| - 1;
      Filter(records[..n], p) + (if p(records[n]) then [records[n]] else [])
  }

  /** The records at the given positions, in the given order. */
  function At(records: seq<QBRecord>, ps: seq<nat>): (rs: seq<QBRecord>)
    requires forall k :: 0 <= k < |ps| ==> ps[k] < |records|
    ensures |rs| == |ps| && forall k :: 0 <= k < |ps| ==> rs[k] == records[ps[k]]
  {
    seq(|ps|, k requires 0 <= k < |ps| => records[ps[k]])
  }

  /** `find(p)` yields exactly the records at the positions `findIndices(p)` yields. */
  lemma {:induction false} FilterIsAtPositions(records: seq<QBRecord>, p: QBRecord -> bool)
    ensures Filter(records, p) == At(records, Positions(records, p))
  {
    if records != [] {
      var n := |records| - 1;
      FilterIsAtPositions(records[..n], p);
      var ps := Positions(records[..n], p);
      assert At(records[..n], ps) == At(records, ps);
      if p(records[n]) {
        assert At(records, ps + [n]) == At(records, ps) + [records[n]];
      } else {
        assert ps + [] == ps;
      }
    }
  }

  function ValueIs(v: u64): QBRecord -> bool {
    (r: QBRecord) => r.value == v
  }

  function NameIs(v: string): QBRecord -> bool {
    (r: QBRecord) => r.name == v
  }

  function DescriptionIs(v: string): QBRecord -> bool {
    (r: QBRecord) => r.description == v
  }

  /**
   * `findByColumn`: Id parses the text and consults the index; Value parses
   * the text and scans; Name and Description scan comparing the text. A parse
   * failure is an error, not an empty result.
   */
  function Search(s: Store, column: Column, value: string): (r: Result<seq<nat>, ParseError>)
    ensures r.Failure? ==> column == Id || column == Value
    ensures column == Id ==> (r.Failure? <==> ParseId(value).Failure?)
    ensures column == Value ==> (r.Failure? <==> ParseValue(value).Failure?)
  {
    match column
    case Id =>
      var id :- ParseId(value);
      Success(if id in s.index then [s.index[id]] else [])
    case Value =>
      var v :- ParseValue(value);
      Success(Positions(s.records, ValueIs(v)))
    case Name => Success(Positions(s.records, NameIs(value)))
    case Description => Success(Positions(s.records, DescriptionIs(value)))
  }

  /**
   * Every position a search of a valid store returns is a valid position,
   * listed in increasing order; an Id search returns at most one.
   */
  lemma SearchPositionsValid(s: Store, column: Column, value: string)
    requires s.Valid() && Search(s, column, value).Success?
    ensures var ps := Search(s, column, value).value;
            && StrictlyIncreasing(ps)
            && (forall k :: 0 <= k < |ps| ==> ps[k] < |s.records|)
            && (column == Id ==> |ps| <= 1)
  {
  }

  /**
   * An Id search is an error exactly when the text does not parse; otherwise
   * it returns the indexed position of the parsed id, or nothing.
   */
  lemma IdSearchOutcome(s: Store, value: string)
    requires s.Valid()
    ensures Search(s, Id, value).Failure? <==> ParseId(value).Failure?
    ensures ParseId(value).Success? ==>
              var id := ParseId(value).value;
              Search(s, Id, value) == Success(if Holds(s.records, id) then [s.index[id]] else [])
  {
    if ParseId(value).Success? {
      IndexedIffStored(s, ParseId(value).value);
    }
  }

  /**
   * A Value, Name or Description search returns exactly the positions whose
   * field equals the (parsed) text, in increasing order; only a Value search
   * can fail, and only when its text does not parse.
   */
  lemma ScanSearchExact(s: Store, column: Column, value: string)
    requires column != Id
    requires column == Value ==> ParseValue(value).Success?
    ensures Search(s, column, value).Success?
    ensures var ps := Search(s, column, value).value;
            && StrictlyIncreasing(ps)
            && (forall k :: 0 <= k < |ps| ==> ps[k] < |s.records|)
            && forall i :: 0 <= i < |s.records| ==>
                 (i in ps <==> match column
                               case Value => s.records[i].value == ParseValue(value).value
                               case Name => s.records[i].name == value
                               case Description => s.records[i].description == value)
  {
  }

  /**
   * A Value search is an error exactly when its text does not parse, with the
   * parser's error; it never turns unparsable text into an empty result.
   */
  lemma ValueSearchOutcome(s: Store, value: string)
    ensures Search(s, Value, value).Failure? <==> ParseValue(value).Failure?
    ensures ParseValue(value).Failure? ==> Search(s, Value, value) == Failure(ParseValue(value).error)
  {
  }

  /** Malformed numeric text makes the Id and Value searches fail rather than match nothing. */
  lemma MalformedNumberFails(s: Store)
    ensures Search(s, Id, "abc") == Failure(InvalidArgument)
    ensures Search(s, Value, "abc") == Failure(InvalidArgument)
  {
    NonDigitRejected("abc", 0);
  }

  /** Index consistency: the record at any position is found by its id, and only there. */
  lemma IdSearchFindsStored(s: Store, i: nat)
    requires s.Valid() && i < |s.records|
    ensures Search(s, Id, Decimal(s.records[i].id)) == Success([i])
  {
    ParseIdOfDecimal(s.records[i].id);
    PositionOfStored(s, i);
  }

  /** The Id search reduces its number modulo 2^32, so 2^32 + k finds the record with id k. */
  lemma IdSearchTruncates(s: Store, n: nat)
    requires n < U64_LIMIT
    ensures Search(s, Id, Decimal(n)) == Search(s, Id, Decimal(n % U32_LIMIT))
  {
    var k := n % U32_LIMIT;
    assert k < U32_LIMIT;
    assert k % U32_LIMIT == k;
    ParseIdOfDecimal(n);
    ParseIdOfDecimal(k);
  }

  /** After a successful add, the Id search for the new id returns the new last position. */
  lemma AddedThenFound(s: Store, r: QBRecord)
    requires s.Valid() && !Holds(s.records, r.id)
    ensures Search(Added(s, r).0, Id, Decimal(r.id)) == Success([|s.records|])
  {
    ParseIdOfDecimal(r.id);
  }

  /** After a successful delete, the Id search for the deleted id returns nothing. */
  lemma DeletedThenNotFound(s: Store, id: u32)
    requires s.Valid()
    ensures Search(Deleted(s, id).0, Id, Decimal(id)) == Success([])
  {
    ParseIdOfDecimal(id);
  }

  // -------------------------------------------------------------- size

  /** The set of ids stored in `records`. */
  function Ids(records: seq<QBRecord>): set<u32>
  {
    if records == [] then {} else Ids(records[..|records| - 1]) + {records[|records| - 1].id}
  }

  lemma {:induction false} IdsHolds(records: seq<QBRecord>, id: u32)
    ensures id in Ids(records) <==> Holds(records, id)
  {
    if records != [] {
      var n := |records| - 1;
      IdsHolds(records[..n], id);
      if Holds(records, id) && id != records[n].id {
        var i :| 0 <= i < |records| && records[i].id == id;
        assert records[..n][i].id == id;
      }
    }
  }

  lemma {:induction false} DistinctIdsCount(records: seq<QBRecord>)
    requires DistinctIds(records)
    ensures |Ids(records)| == |records|
  {
    if records != [] {
      var n := |records| - 1;
      DistinctIdsCount(records[..n]);
      IdsHolds(records[..n], records[n].id);
    }
  }

  /** In a valid store the index has exactly one entry per record. */
  lemma IndexSizeMatches(s: Store)
    ensures s.Valid() ==> |s.index| == |s.records|
  {
    if !s.Valid() {
      return;
    }
    forall id ensures id in s.index.Keys <==> id in Ids(s.records) {
      IdsHolds(s.records, id);
      IndexedIffStored(s, id);
    }
    assert s.index.Keys == Ids(s.records);
    DistinctIdsCount(s.records);
  }
}

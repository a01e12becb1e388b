/**
 * The record collection as the C++ class keeps it: a class whose two fields,
 * the record sequence and the primary-key index, are updated in place.
 * Each operation is proved against the value-level specification in module
 * CollectionSpec, whose lemmas state what the operations guarantee.
 */
module RecordCollections {
  import opened Wrappers
  import opened QBRecords
  import opened Parsing
  import opened CollectionSpec

  class RecordCollection {
    var records: seq<QBRecord>
    var index: Index

    /** The collection's state as a value. */
    function Model(): Store
      reads this
    {
      Store(records, index)
    }

    /** The index invariant of the stored state; the index then has one entry per record. */
    ghost predicate Valid()
      reads this
      ensures Valid() ==> |index| == |records|
    {
      IndexSizeMatches(Model());
      Model().Valid()
    }

    /** A new collection is empty: no records, no ids indexed. */
    constructor ()
      ensures Valid() && records == [] && index == map[]
    {
      records := [];
      index := map[];
    }

    /** `add`: true iff no record with this id was stored, in which case it is appended. */
    method Add(record: QBRecord) returns (added: bool)
      requires Valid()
      modifies this
      ensures Valid()
      ensures (Model(), added) == Added(old(Model()), record)
      ensures added <==> !Holds(old(records), record.id)
    {
      AddedValid(Model(), record);
      AddedOutcome(Model(), record);
      if record.id in index {
        return false;
      }
      records := records + [record];
      index := index[record.id := |records| - 1];
      return true;
    }

    /**
     * `deleteById`: swap the record with the last one, re-point the moved
     * record's index entry, pop the last element and erase the id's entry.
     */
    method DeleteById(id: u32) returns (deleted: bool)
      requires Valid()
      modifies this
      ensures Valid()
      ensures (Model(), deleted) == Deleted(old(Model()), id)
      ensures deleted <==> Holds(old(records), id)
    {
      ghost var before := Model();
      DeletedValid(before, id);
      DeletedOutcome(before, id);
      if id !in index {
        return false;
      }
      var p := index[id];
      var last := |records| - 1;
      var moved := records[last];
      records := records[p := moved][last := records[p]];
      index := index[records[p].id := p];
      records := records[..last];
      index := index - {id};
      if p == last {
        assert records == before.records[..last];
        assert index == before.index - {id};
      } else {
        assert moved.id != id;
        assert records == before.records[..last][p := moved];
        assert index == (before.index - {id})[moved.id := p];
      }
      return true;
    }

    /** `findByColumn`: the positions of the records whose chosen column matches `value`. */
    method FindByColumn(column: Column, value: string) returns (result: Result<seq<nat>, ParseError>)
      ensures result == Search(Model(), column, value)
      ensures column == Name ==> result == Success(Positions(records, NameIs(value)))
      ensures column == Description ==> result == Success(Positions(records, DescriptionIs(value)))
    {
      match column
      case Id =>
        var id :- ParseId(value);
        if id in index {
          return Success([index[id]]);
        }
        return Success([]);
      case Value =>
        var v :- ParseValue(value);
        var found: seq<nat> := [];
        for i := 0 to |records|
          invariant found == Positions(records[..i], ValueIs(v))
        {
          PositionsSnoc(records, i, ValueIs(v));
          if records[i].value == v {
            found := found + [i];
          }
        }
        assert records[..|records|] == records;
        return Success(found);
      case Name =>
        var found: seq<nat> := [];
        for i := 0 to |records|
          invariant found == Positions(records[..i], NameIs(value))
        {
          PositionsSnoc(records, i, NameIs(value));
          if records[i].name == value {
            found := found + [i];
          }
        }
        assert records[..|records|] == records;
        return Success(found);
      case Description =>
        var found: seq<nat> := [];
        for i := 0 to |records|
          invariant found == Positions(records[..i], DescriptionIs(value))
        {
          PositionsSnoc(records, i, DescriptionIs(value));
          if records[i].description == value {
            found := found + [i];
          }
        }
        assert records[..|records|] == records;
        return Success(found);
    }

    /** `findIndices`: every position whose record satisfies `pred`, in increasing order. */
    method FindIndices(pred: QBRecord -> bool) returns (result: seq<nat>)
      ensures StrictlyIncreasing(result)
      ensures forall k :: 0 <= k < |result| ==> result[k] < |records|
      ensures forall i :: 0 <= i < |records| ==> (i in result <==> pred(records[i]))
      ensures result == Positions(records, pred)
    {
      result := [];
      for i := 0 to |records|
        invariant result == Positions(records[..i], pred)
      {
        PositionsSnoc(records, i, pred);
        if pred(records[i]) {
          result := result + [i];
        }
      }
      assert records[..|records|] == records;
    }

    /** `find`: copies of the records satisfying `pred`, which are those at `findIndices(pred)`. */
    function Find(pred: QBRecord -> bool): (found: seq<QBRecord>)
      reads this
      ensures found == At(records, Positions(records, pred))
    {
      FilterIsAtPositions(records, pred);
      Filter(records, pred)
    }

    /** `getRecord`: the record at a position the caller guarantees is in range. */
    function GetRecord(position: nat): (r: QBRecord)
      reads this
      requires position < |records|
      ensures r in records && r == records[position]
    {
      records[position]
    }

    /** `tryGet`: absent iff the position is out of range, otherwise what `getRecord` gives. */
    function TryGet(position: nat): (r: Option<QBRecord>)
      reads this
      ensures r.Some? <==> position < Size()
      ensures r.Some? ==> r.value == GetRecord(position)
    {
      if position >= |records| then None else Some(records[position])
    }

    /** `size`: the number of records, which in a valid collection is the number of indexed ids. */
    function Size(): (n: nat)
      reads this
      ensures n == |Model().records|
      ensures Valid() ==> n == |index|
    {
      IndexSizeMatches(Model());
      |records|
    }
  }
}

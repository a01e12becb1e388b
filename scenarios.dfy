/**
 * The collection's unit-test scenarios, stated over the value-level
 * specification (and, for `tryGet`, over the class): each test's `add`
 * calls are replayed from an empty collection and the outcomes the test
 * checks are stated. One more lemma shows the swap of a three-record delete.
 */
module CollectionScenarios {
  import opened Wrappers
  import opened QBRecords
  import opened Parsing
  import opened CollectionSpec
  import opened RecordCollections

  const Alice := QBRecord(1, 100, "Alice", "First")
  const Bob := QBRecord(2, 200, "Bob", "Second")
  const Charlie := QBRecord(3, 300, "Charlie", "Third")

  /** Alice and Bob added in that order to an empty collection. */
  function TwoRecords(): Store
  {
    Added(Added(Empty, Alice).0, Bob).0
  }

  /** Alice, Bob and Charlie added in that order to an empty collection. */
  function ThreeRecords(): Store
  {
    Added(TwoRecords(), Charlie).0
  }

  lemma TwoRecordsAre()
    ensures TwoRecords() == Store([Alice, Bob], map[1 := 0, 2 := 1])
    ensures TwoRecords().Valid()
  {
    var s1 := Added(Empty, Alice).0;
    assert s1 == Store([Alice], map[1 := 0]);
    AddedValid(Empty, Alice);
    AddedValid(s1, Bob);
  }

  lemma ThreeRecordsAre()
    ensures ThreeRecords() == Store([Alice, Bob, Charlie], map[1 := 0, 2 := 1, 3 := 2])
    ensures ThreeRecords().Valid()
  {
    TwoRecordsAre();
    AddedValid(TwoRecords(), Charlie);
  }

  /** A second record with id 1 is refused and the count stays one. */
  lemma DuplicateIdRefused()
    ensures Added(Empty, Alice).1
    ensures !Added(Added(Empty, Alice).0, QBRecord(1, 200, "Bob", "Duplicate")).1
    ensures |Added(Added(Empty, Alice).0, QBRecord(1, 200, "Bob", "Duplicate")).0.records| == 1
  {
  }

  /** Id 2 sits at position 1, "Alice" at position 0, and an unknown description matches nothing. */
  lemma AddAndFind()
    ensures Search(ThreeRecords(), Id, "2") == Success([1])
    ensures Search(ThreeRecords(), Name, "Alice") == Success([0])
    ensures Search(ThreeRecords(), Description, "Nonexistent") == Success([])
  {
    ThreeRecordsAre();
    assert Decimal(2) == "2";
    ParseIdOfDecimal(2);
    OnlyAliceNamedAlice();
    NoDescriptionNonexistent();
  }

  lemma OnlyAliceNamedAlice()
    ensures Positions([Alice, Bob, Charlie], NameIs("Alice")) == [0]
  {
    var alice := NameIs("Alice");
    assert [Alice][..0] == [] && [Alice, Bob][..1] == [Alice] && [Alice, Bob, Charlie][..2] == [Alice, Bob];
    assert Positions([Alice], alice) == [0];
    assert Positions([Alice, Bob], alice) == [0];
  }

  lemma NoDescriptionNonexistent()
    ensures Positions([Alice, Bob, Charlie], DescriptionIs("Nonexistent")) == []
  {
    var none := DescriptionIs("Nonexistent");
    assert [Alice][..0] == [] && [Alice, Bob][..1] == [Alice] && [Alice, Bob, Charlie][..2] == [Alice, Bob];
    assert Positions([Alice], none) == [];
    assert Positions([Alice, Bob], none) == [];
  }

  /**
   * Deleting id 1 from Alice, Bob succeeds and leaves only Bob, at position 0;
   * id 1 is no longer found; deleting the never-added id 42 reports failure.
   */
  lemma DeleteThenNotFound()
    ensures TwoRecords().Valid()
    ensures Deleted(TwoRecords(), 1) == (Store([Bob], map[2 := 0]), true)
    ensures Search(Deleted(TwoRecords(), 1).0, Id, "1") == Success([])
    ensures !Deleted(Deleted(TwoRecords(), 1).0, 42).1
  {
    TwoRecordsAre();
    DeletedValid(TwoRecords(), 1);
    assert [Alice, Bob][..1][0 := Bob] == [Bob];
    assert (map[1 := 0, 2 := 1] - {1})[2 := 0] == map[2 := 0];
    assert Decimal(1) == "1";
    ParseIdOfDecimal(1);
  }

  /**
   * Deleting id 1 from Alice, Bob, Charlie moves Charlie (the last record)
   * to position 0 and leaves Bob at position 1.
   */
  lemma DeleteSwapsLastIntoPlace()
    ensures ThreeRecords().Valid()
    ensures Deleted(ThreeRecords(), 1) == (Store([Charlie, Bob], map[2 := 1, 3 := 0]), true)
  {
    ThreeRecordsAre();
    assert [Alice, Bob, Charlie][..2][0 := Charlie] == [Charlie, Bob];
    assert (map[1 := 0, 2 := 1, 3 := 2] - {1})[3 := 0] == map[2 := 1, 3 := 0];
  }

  /** Through the class: position 0 holds id 1, and position 10 of two records is absent. */
  method TryGetScenario() returns (first: Option<QBRecord>, missing: Option<QBRecord>)
    ensures first.Some? && first.value.id == 1
    ensures missing == None
  {
    var db := new RecordCollection();
    var added := db.Add(Alice);
    added := db.Add(Bob);
    first := db.TryGet(0);
    missing := db.TryGet(10);
  }

  const Charlie100 := QBRecord(3, 100, "Charlie", "Third")

  /** Values 100, 200, 100 added in order: the positions with value 100 are 0 and 2. */
  lemma FindIndicesByValue()
    ensures Positions(Added(TwoRecords(), Charlie100).0.records, ValueIs(100)) == [0, 2]
  {
    TwoRecordsAre();
    assert Added(TwoRecords(), Charlie100).0.records == [Alice, Bob, Charlie100];
    HundredsAtZeroAndTwo();
  }

  lemma HundredsAtZeroAndTwo()
    ensures Positions([Alice, Bob, Charlie100], ValueIs(100)) == [0, 2]
  {
    var hundred := ValueIs(100);
    assert [Alice][..0] == [] && [Alice, Bob][..1] == [Alice] && [Alice, Bob, Charlie100][..2] == [Alice, Bob];
    assert Positions([Alice], hundred) == [0];
    assert Positions([Alice, Bob], hundred) == [0];
  }

  /** Keeping the records with id at least 2 yields Bob then Charlie. */
  lemma FindByIdAtLeastTwo()
    ensures Filter(ThreeRecords().records, (r: QBRecord) => r.id >= 2) == [Bob, Charlie]
  {
    ThreeRecordsAre();
    BobAndCharlieFromTwo();
  }

  lemma BobAndCharlieFromTwo()
    ensures Filter([Alice, Bob, Charlie], (r: QBRecord) => r.id >= 2) == [Bob, Charlie]
  {
    var atLeastTwo := (r: QBRecord) => r.id >= 2;
    assert [Alice][..0] == [] && [Alice, Bob][..1] == [Alice] && [Alice, Bob, Charlie][..2] == [Alice, Bob];
    assert Filter([Alice], atLeastTwo) == [];
    assert Filter([Alice, Bob], atLeastTwo) == [Bob];
  }

  const Bob100 := QBRecord(2, 100, "Bob", "Second")

  /**
   * Two records with value 100: a Value search for "100" finds both, in
   * storage order; an unknown name finds nothing; Id "abc" is an error.
   */
  lemma FindByColumnEdgeCases()
    ensures var s := Added(Added(Empty, Alice).0, Bob100).0;
            && Search(s, Value, "100") == Success([0, 1])
            && Search(s, Name, "Nonexistent") == Success([])
            && Search(s, Id, "abc") == Failure(InvalidArgument)
  {
    var s := Added(Added(Empty, Alice).0, Bob100).0;
    assert s.records == [Alice, Bob100];
    assert Decimal(100) == "100";
    ParseValueOfDecimal(100);
    BothValuedHundred();
    NoneNamedNonexistent();
    NonDigitRejected("abc", 0);
  }

  lemma BothValuedHundred()
    ensures Positions([Alice, Bob100], ValueIs(100)) == [0, 1]
  {
    var rs, hundred := [Alice, Bob100], ValueIs(100);
    assert hundred(Alice) && hundred(Bob100);
    assert rs[..0] == [] && rs[..2] == rs;
    PositionsSnoc(rs, 0, hundred);
    PositionsSnoc(rs, 1, hundred);
  }

  lemma NoneNamedNonexistent()
    ensures Positions([Alice, Bob100], NameIs("Nonexistent")) == []
  {
    var nobody := NameIs("Nonexistent");
    assert [Alice][..0] == [] && [Alice, Bob100][..1] == [Alice];
    assert Positions([Alice], nobody) == [];
  }
}

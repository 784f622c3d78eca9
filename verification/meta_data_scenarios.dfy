/**
 * The package's own test scenarios, stated as methods that start from a fresh
 * `meta_data` table and go through the accessor's methods: each scenario's
 * postcondition is the test's assertion.
 */
module MetaDataScenarios {

  import opened Options
  import opened PhpValues
  import opened MetaStore
  import opened HasMetaData
  import opened MetaDataProperties

  /** setMeta('test_key', 'value') stores one row with the key, the text and the owner. */
  method SetMetaStoresRow(owner: Owner) returns (stored: seq<Row>)
    ensures stored == RowsFor(stored, owner, "test_key")
    ensures |stored| == 1 && stored[0].key == "test_key" && stored[0].value == Some("value") && stored[0].entity == owner
  {
    var table := new MetaDataTable();
    table.SetMeta(owner, "test_key", Str("value"));
    stored := table.rows;
  }

  /** getMeta('test_key') after setMeta('test_key', 'value') is 'value'. */
  method GetMetaReadsString(owner: Owner) returns (got: Fetched)
    ensures got == One(Str("value"))
  {
    var table := new MetaDataTable();
    table.SetMeta(owner, "test_key", Str("value"));
    got := GetMeta(table.rows, owner, Key("test_key"), None, true);
    SetThenGet([], owner, "test_key", Str("value"), 1);
    PlainTextIsNotDecoded("value");
  }

  /** getAllMeta() after setting two string values is both, keyed by key, in order. */
  method GetAllMetaReadsStrings(owner: Owner) returns (got: Fetched)
    ensures got == Many([Entry("test_key", Str("value")), Entry("test_key2", Str("value2"))])
  {
    var e0, e1 := Entry("test_key", Str("value")), Entry("test_key2", Str("value2"));
    var table := new MetaDataTable();
    table.SetMeta(owner, e0.key, e0.val);
    assert table.nextId == 2;
    table.SetMeta(owner, e1.key, e1.val);
    got := GetAllMeta(table.rows, owner, None);
    PlainTextIsNotDecoded("value");
    PlainTextIsNotDecoded("value2");
    StringReadBack("value");
    StringReadBack("value2");
    TwoSetsReadBack(owner, e0, e1);
  }

  /** An array (such as `['value' => 'value']`) stored with setMeta comes back from getMeta unchanged. */
  method GetMetaReadsArray(owner: Owner, v: Value) returns (got: Fetched)
    requires v.Arr? && WellFormed(v) && ObjectFree(v)
    ensures got == One(v)
  {
    var table := new MetaDataTable();
    table.SetMeta(owner, "test_key", v);
    got := GetMeta(table.rows, owner, Key("test_key"), None, true);
    SetThenGet([], owner, "test_key", v, 1);
    ArrayReadBack(v);
  }

  /**
   * getAllMeta() after storing two arrays (as `['value' => 'value']` and
   * `['value2' => 'value2']`) gives both arrays back, keyed by key.
   */
  method GetAllMetaReadsArrays(owner: Owner, key0: string, v0: Value, key1: string, v1: Value) returns (got: Fetched)
    requires key0 != key1
    requires v0.Arr? && WellFormed(v0) && ObjectFree(v0)
    requires v1.Arr? && WellFormed(v1) && ObjectFree(v1)
    ensures got == Many([Entry(key0, v0), Entry(key1, v1)])
  {
    var e0, e1 := Entry(key0, v0), Entry(key1, v1);
    var table := new MetaDataTable();
    table.SetMeta(owner, key0, v0);
    assert table.nextId == 2;
    table.SetMeta(owner, key1, v1);
    got := GetAllMeta(table.rows, owner, None);
    ArrayReadBack(v0);
    ArrayReadBack(v1);
    TwoSetsReadBack(owner, e0, e1);
  }

  /** After setMeta then deleteMeta, the owner has no row with the key and getMeta reads null. */
  method DeleteMetaRemovesRow(owner: Owner) returns (left: seq<Row>, got: Fetched)
    ensures left == [] && got == One(Null)
  {
    var table := new MetaDataTable();
    table.SetMeta(owner, "test_key", Str("value"));
    table.DeleteMeta(owner, "test_key");
    left := RowsFor(table.rows, owner, "test_key");
    got := GetMeta(table.rows, owner, Key("test_key"), None, true);
    PurgeRowsFor(Upsert([], owner, "test_key", Stored(Str("value")), 1), owner, "test_key", owner, "test_key");
    DeleteThenGet(Upsert([], owner, "test_key", Stored(Str("value")), 1), owner, "test_key");
  }

  /** Setting a key twice keeps one row, and getMeta reads the second value. */
  method OverwriteKeepsOneRow(owner: Owner) returns (count: nat, got: Fetched)
    ensures count == 1 && got == One(Str("second"))
  {
    var table := new MetaDataTable();
    table.SetMeta(owner, "test_key", Str("first"));
    table.SetMeta(owner, "test_key", Str("second"));
    count := |table.rows|;
    got := GetMeta(table.rows, owner, Key("test_key"), None, true);
    var once := Upsert([], owner, "test_key", Stored(Str("first")), 1);
    SetThenGet(once, owner, "test_key", Str("second"), 2);
    PlainTextIsNotDecoded("second");
  }

  /** Two setMeta calls with distinct keys on a fresh table, then getAllMeta, read both values back. */
  lemma TwoSetsThenGetAll(owner: Owner, e0: Entry, e1: Entry)
    requires e0.key != e1.key && WellFormed(e0.val) && WellFormed(e1.val)
    ensures var rows := Upsert(Upsert([], owner, e0.key, Stored(e0.val), 1), owner, e1.key, Stored(e1.val), 2);
      GetAllMeta(rows, owner, None) == Many(ReadBackAll([e0, e1]))
  {
    var es := [e0, e1];
    assert es[..1] == [e0] && [e0][..0] == [];
    assert SetAll([], owner, es, 1) == Upsert(SetAll([], owner, [e0], 1), owner, e1.key, Stored(e1.val), 2);
    assert SetAll([], owner, [e0], 1) == Upsert([], owner, e0.key, Stored(e0.val), 1);
    SetAllThenGetAll([], owner, es, 1);
  }

  /** Two values that read back as themselves, set under distinct keys, come back from getAllMeta. */
  lemma TwoSetsReadBack(owner: Owner, e0: Entry, e1: Entry)
    requires e0.key != e1.key && WellFormed(e0.val) && WellFormed(e1.val)
    requires ReadBack(e0.val) == e0.val && ReadBack(e1.val) == e1.val
    ensures var rows := Upsert(Upsert([], owner, e0.key, Stored(e0.val), 1), owner, e1.key, Stored(e1.val), 2);
      GetAllMeta(rows, owner, None) == Many([e0, e1])
  {
    TwoSetsThenGetAll(owner, e0, e1);
    assert ReadBackAll([e0, e1]) == [e0, e1];
  }

}

/**
 * What the accessor promises across calls: a value written by setMeta is read back
 * by getMeta and getAllMeta, deleteMeta makes a key read as null, each owner sees
 * only its own rows, and a falsy key selects no key at all.
 */
module MetaDataProperties {

  import opened Options
  import opened PhpValues
  import Json
  import opened MetaStore
  import opened HasMetaData

  // ------------------------------------------------------------ values through the column

  /**
   * Writing a value with setMeta's encoding and reading it with getMeta's decoding
   * gives back ReadBack of the value.
   */
  lemma ReadStored(v: Value)
    requires WellFormed(v)
    ensures Read(Stored(v)) == ReadBack(v)
  {
    if v.Arr? || v.Obj? {
      Json.DecodeEncode(v);
    }
  }

  /** A string reads back as itself exactly when it is not the JSON text of an array. */
  lemma StringReadBack(s: string)
    ensures ReadBack(Str(s)) == Str(s) <==> !JsonArrayText(s)
  {
  }

  /** An array (without objects inside) reads back as itself; null reads back as null. */
  lemma {:induction false} ArrayReadBack(v: Value)
    requires (v.Arr? && ObjectFree(v)) || v.Null?
    ensures ReadBack(v) == v
  {
    AssocObjectFree(v);
  }

  /** An object reads back as the array of its properties, never as an object. */
  lemma ObjectReadBack(v: Value)
    requires v.Obj?
    ensures ReadBack(v).Arr? && ReadBack(v) == Assoc(v)
  {
  }

  /** Text that does not open with a bracket (after blanks) is not decoded. */
  lemma PlainTextIsNotDecoded(s: string)
    requires |s| > 0 && !Json.IsWs(s[0]) && s[0] != '{' && s[0] != '['
    ensures !JsonArrayText(s)
  {
    assert Json.SkipWs(s) == s;
  }

  // ------------------------------------------------------------ the query

  /** With a truthy key and no callback, getMeta's query is `where('key', $key)`. */
  lemma {:induction false} QueryByKey(rows: seq<Row>, owner: Owner, key: string)
    requires TruthyString(key)
    ensures Query(rows, owner, Key(key), None) == RowsFor(rows, owner, key)
  {
    if rows != [] {
      QueryByKey(rows[1..], owner, key);
    }
  }

  /** With no key and no callback, getMeta's query is the owner's whole relation. */
  lemma {:induction false} QueryAll(rows: seq<Row>, owner: Owner)
    ensures Query(rows, owner, NoKey, None) == Meta(rows, owner)
  {
    if rows != [] {
      QueryAll(rows[1..], owner);
    }
  }

  /** The query depends only on the owner's own rows. */
  lemma {:induction false} QueryOwnRows(rows: seq<Row>, owner: Owner, key: KeyArg, refine: Refinement)
    ensures Query(rows, owner, key, refine) == Query(Meta(rows, owner), owner, key, refine)
  {
    if rows != [] {
      QueryOwnRows(rows[1..], owner, key, refine);
      if rows[0].entity == owner {
        var m := Meta(rows, owner);
        assert m[0] == rows[0] && m[1..] == Meta(rows[1..], owner);
      } else {
        assert Meta(rows, owner) == Meta(rows[1..], owner);
        assert Query(rows, owner, key, refine) == Query(rows[1..], owner, key, refine);
      }
    }
  }

  /** A falsy key (`""`, `"0"`, `false`) puts no key condition on the query. */
  lemma {:induction false} FalsyKeyQuery(rows: seq<Row>, owner: Owner, key: KeyArg, refine: Refinement)
    requires !Truthy(key)
    ensures Query(rows, owner, key, refine) == Query(rows, owner, NoKey, refine)
  {
    if rows != [] {
      FalsyKeyQuery(rows[1..], owner, key, refine);
    }
  }

  // ------------------------------------------------------------ getMeta

  /** getMeta with a truthy key: the decoded value of the owner's first row with that key, or null. */
  lemma GetMetaByKey(rows: seq<Row>, owner: Owner, key: string)
    requires TruthyString(key)
    ensures GetMeta(rows, owner, Key(key), None, true) ==
      One(if RowsFor(rows, owner, key) == [] then Null else Read(RowsFor(rows, owner, key)[0].value))
  {
    QueryByKey(rows, owner, key);
  }

  /** A falsy key behaves as no key at all, whatever else is asked. */
  lemma FalsyKeyAddsNoFilter(rows: seq<Row>, owner: Owner, key: KeyArg, refine: Refinement, singleRecord: bool)
    requires !Truthy(key)
    ensures GetMeta(rows, owner, key, refine, singleRecord) == GetMeta(rows, owner, NoKey, refine, singleRecord)
  {
    FalsyKeyQuery(rows, owner, key, refine);
  }

  /** So a single read with a falsy key gives the owner's first row, whatever its key. */
  lemma FalsyKeyReadsFirstRow(rows: seq<Row>, owner: Owner, key: KeyArg)
    requires !Truthy(key)
    ensures GetMeta(rows, owner, key, None, true) ==
      One(if Meta(rows, owner) == [] then Null else Read(Meta(rows, owner)[0].value))
  {
    FalsyKeyQuery(rows, owner, key, None);
    QueryAll(rows, owner);
  }

  /** The rows of `q` the callback lets through, in order; all of them when there is none. */
  function Passing(q: seq<Row>, refine: Refinement): (r: seq<Row>)
    ensures |r| <= |q|
  {
    if q == [] then []
    else (if refine.None? || refine.value(q[0]) then [q[0]] else []) + Passing(q[1..], refine)
  }

  /** The callback filters the rows the key selects, keeping their table order. */
  lemma {:induction false} QueryRefined(rows: seq<Row>, owner: Owner, key: KeyArg, refine: Refinement)
    ensures Query(rows, owner, key, refine) == Passing(Query(rows, owner, key, None), refine)
  {
    if rows != [] {
      QueryRefined(rows[1..], owner, key, refine);
      var q := Query(rows, owner, key, None);
      if Selected(rows[0], owner, key, None) {
        assert q[0] == rows[0] && q[1..] == Query(rows[1..], owner, key, None);
        assert Passing(q, refine) ==
          (if refine.None? || refine.value(rows[0]) then [rows[0]] else []) + Passing(q[1..], refine);
      } else {
        assert q == Query(rows[1..], owner, key, None);
        assert !Selected(rows[0], owner, key, refine);
      }
    }
  }

  /**
   * getMeta with a truthy key, any callback and either result kind, on a table with
   * one row per owner and key: the key's row when the callback passes it, else nothing.
   */
  lemma GetMetaByKeyRefined(rows: seq<Row>, owner: Owner, key: string, refine: Refinement, singleRecord: bool)
    requires SingleValued(rows)
    requires TruthyString(key)
    ensures var q := RowsFor(rows, owner, key);
      var hit := q != [] && (refine.None? || refine.value(q[0]));
      GetMeta(rows, owner, Key(key), refine, singleRecord) ==
        if singleRecord then One(if hit then Read(q[0].value) else Null)
        else Many(if hit then [Entry(key, Read(q[0].value))] else [])
  {
    var q := RowsFor(rows, owner, key);
    QueryByKeySingle(rows, owner, key, refine);
    if q != [] && (refine.None? || refine.value(q[0])) {
      var x := q[0];
      assert x in q && q == [x];
      PluckOne(x);
      assert DecodeValues([Entry(key, Attribute(x.value))]) == [Entry(key, Read(x.value))];
    } else {
      assert Pluck([]) == [] && DecodeValues([]) == [];
    }
  }

  /** With one row per owner and key, a truthy key's query is its row if the callback passes it. */
  lemma QueryByKeySingle(rows: seq<Row>, owner: Owner, key: string, refine: Refinement)
    requires SingleValued(rows)
    requires TruthyString(key)
    ensures |RowsFor(rows, owner, key)| <= 1
    ensures var q := RowsFor(rows, owner, key);
      Query(rows, owner, Key(key), refine) == if q != [] && (refine.None? || refine.value(q[0])) then q else []
  {
    QueryRefined(rows, owner, Key(key), refine);
    QueryByKey(rows, owner, key);
    SingleValuedRowsFor(rows, owner, key);
    PassingAtMostOne(RowsFor(rows, owner, key), refine);
  }

  /** The callback keeps a query of at most one row whole, or empties it. */
  lemma PassingAtMostOne(q: seq<Row>, refine: Refinement)
    requires |q| <= 1
    ensures Passing(q, refine) == if q != [] && (refine.None? || refine.value(q[0])) then q else []
  {
    if q != [] {
      assert q[1..] == [];
    }
  }

  /** Plucking a single row gives its key with its value. */
  lemma PluckOne(x: Row)
    ensures Pluck([x]) == [Entry(x.key, Attribute(x.value))]
  {
    assert [x][..0] == [];
  }

  /** A single read with a falsy key and a callback gives the owner's first row the callback passes. */
  lemma FalsyKeyRefined(rows: seq<Row>, owner: Owner, key: KeyArg, refine: Refinement)
    requires !Truthy(key)
    ensures var q := Passing(Meta(rows, owner), refine);
      GetMeta(rows, owner, key, refine, true) == One(if q == [] then Null else Read(q[0].value))
  {
    FalsyKeyQuery(rows, owner, key, refine);
    QueryRefined(rows, owner, NoKey, refine);
    QueryAll(rows, owner);
  }

  /** getMeta('0') on an owner whose first row is 'colour' => 'red' answers 'red'. */
  lemma ZeroKeyReadsAnotherKey(owner: Owner)
    ensures var rows := [Row(1, "colour", Some("red"), owner), Row(2, "0", Some("zero"), owner)];
      GetMeta(rows, owner, Key("0"), None, true) == One(Str("red"))
  {
    var rows := [Row(1, "colour", Some("red"), owner), Row(2, "0", Some("zero"), owner)];
    FalsyKeyReadsFirstRow(rows, owner, Key("0"));
    assert Meta(rows, owner)[0] == rows[0];
    PlainTextIsNotDecoded("red");
  }

  // ------------------------------------------------------------ setMeta then getMeta

  /** getMeta after setMeta on the same owner and (truthy) key reads the value back. */
  lemma SetThenGet(rows: seq<Row>, owner: Owner, key: string, v: Value, freshId: nat)
    requires TruthyString(key) && WellFormed(v)
    ensures GetMeta(Upsert(rows, owner, key, Stored(v), freshId), owner, Key(key), None, true) == One(ReadBack(v))
  {
    UpsertRowsFor(rows, owner, key, Stored(v), freshId, owner, key);
    GetMetaByKey(Upsert(rows, owner, key, Stored(v), freshId), owner, key);
    ReadStored(v);
  }

  /** setMeta leaves what getMeta reads for every other owner or key unchanged. */
  lemma SetThenGetOther(rows: seq<Row>, owner: Owner, key: string, text: Option<string>, freshId: nat,
                        owner': Owner, key': string)
    requires TruthyString(key') && (owner' != owner || key' != key)
    ensures GetMeta(Upsert(rows, owner, key, text, freshId), owner', Key(key'), None, true) ==
      GetMeta(rows, owner', Key(key'), None, true)
  {
    UpsertRowsFor(rows, owner, key, text, freshId, owner', key');
    GetMetaByKey(Upsert(rows, owner, key, text, freshId), owner', key');
    GetMetaByKey(rows, owner', key');
  }

  /** setMeta on one owner changes nothing any other owner's getMeta can see. */
  lemma SetKeepsOtherOwners(rows: seq<Row>, owner: Owner, key: string, text: Option<string>, freshId: nat,
                            other: Owner, key': KeyArg, refine: Refinement, singleRecord: bool)
    requires other != owner
    ensures GetMeta(Upsert(rows, owner, key, text, freshId), other, key', refine, singleRecord) ==
      GetMeta(rows, other, key', refine, singleRecord)
  {
    UpsertOtherOwner(rows, owner, key, text, freshId, other);
    QueryOwnRows(rows, other, key', refine);
    QueryOwnRows(Upsert(rows, owner, key, text, freshId), other, key', refine);
  }

  // ------------------------------------------------------------ deleteMeta then getMeta

  /** After deleteMeta, getMeta for that owner and key reads null. */
  lemma DeleteThenGet(rows: seq<Row>, owner: Owner, key: string)
    requires TruthyString(key)
    ensures GetMeta(Purge(rows, owner, key), owner, Key(key), None, true) == One(Null)
  {
    PurgeRowsFor(rows, owner, key, owner, key);
    GetMetaByKey(Purge(rows, owner, key), owner, key);
  }

  /** deleteMeta leaves what getMeta reads for every other owner or key unchanged. */
  lemma DeleteThenGetOther(rows: seq<Row>, owner: Owner, key: string, owner': Owner, key': string)
    requires TruthyString(key') && (owner' != owner || key' != key)
    ensures GetMeta(Purge(rows, owner, key), owner', Key(key'), None, true) == GetMeta(rows, owner', Key(key'), None, true)
  {
    PurgeRowsFor(rows, owner, key, owner', key');
    GetMetaByKey(Purge(rows, owner, key), owner', key');
    GetMetaByKey(rows, owner', key');
  }

  /** deleteMeta on one owner changes nothing any other owner's getMeta can see. */
  lemma DeleteKeepsOtherOwners(rows: seq<Row>, owner: Owner, key: string,
                               other: Owner, key': KeyArg, refine: Refinement, singleRecord: bool)
    requires other != owner
    ensures GetMeta(Purge(rows, owner, key), other, key', refine, singleRecord) ==
      GetMeta(rows, other, key', refine, singleRecord)
  {
    PurgeOtherOwner(rows, owner, key, other);
    QueryOwnRows(rows, other, key', refine);
    QueryOwnRows(Purge(rows, owner, key), other, key', refine);
  }

  // ------------------------------------------------------------ getAllMeta

  /** In a table with one row per owner and key, `where('key', $key)` finds at most one row. */
  lemma {:induction false} SingleValuedRowsFor(rows: seq<Row>, owner: Owner, key: string)
    requires SingleValued(rows)
    ensures |RowsFor(rows, owner, key)| <= 1
  {
    if rows != [] {
      assert SingleValued(rows[1..]);
      SingleValuedRowsFor(rows[1..], owner, key);
      if RowFor(rows[0], owner, key) {
        forall j | 0 <= j < |rows[1..]| ensures !RowFor(rows[1..][j], owner, key) {
          assert rows[1..][j] == rows[j + 1];
        }
        FirstIndexForFindsRowsFor(rows[1..], owner, key);
      }
    }
  }

  /** Decoding the values of a collection decodes the value found under every key. */
  lemma {:induction false} LookupDecodeValues(es: seq<Entry>, k: string)
    ensures Lookup(DecodeValues(es), k) ==
      match Lookup(es, k)
      case None => None
      case Some(v) => Some(DecodeIfJson(v))
  {
    if es != [] {
      LookupDecodeValues(es[1..], k);
      assert DecodeValues(es)[1..] == DecodeValues(es[1..]);
    }
  }

  /** In a table with one row per owner and key, the owner's last row with a key is its only one. */
  lemma LastOwnRow(rows: seq<Row>, owner: Owner, key: string)
    requires SingleValued(rows)
    ensures LastWithKey(Meta(rows, owner), key) ==
      if RowsFor(rows, owner, key) == [] then None else Some(RowsFor(rows, owner, key)[0])
  {
    SingleValuedRowsFor(rows, owner, key);
    FirstIndexForFindsRowsFor(rows, owner, key);
    var q := Meta(rows, owner);
    MetaMembers(rows, owner);
    match LastWithKey(q, key)
    case Some(x) =>
      assert x in RowsFor(rows, owner, key);
    case None =>
      forall j | 0 <= j < |rows| ensures !RowFor(rows[j], owner, key) {
        if rows[j].entity == owner {
          assert rows[j] in q;
        }
      }
  }

  /**
   * getAllMeta has an entry for exactly the keys the owner has rows for, and it is
   * the decoded value of that row.
   */
  lemma GetAllMetaLookup(rows: seq<Row>, owner: Owner, key: string)
    requires SingleValued(rows)
    ensures Lookup(GetAllMeta(rows, owner, None).items, key) ==
      if RowsFor(rows, owner, key) == [] then None else Some(Read(RowsFor(rows, owner, key)[0].value))
    ensures DistinctKeys(GetAllMeta(rows, owner, None).items)
  {
    var q := Meta(rows, owner);
    QueryAll(rows, owner);
    PluckLookup(q, key);
    LookupDecodeValues(Pluck(q), key);
    LastOwnRow(rows, owner, key);
    DistinctDecodeValues(Pluck(q));
  }

  lemma {:induction false} DistinctDecodeValues(es: seq<Entry>)
    requires DistinctKeys(es)
    ensures Keys(DecodeValues(es)) == Keys(es) && DistinctKeys(DecodeValues(es))
  {
    if es != [] {
      DistinctDecodeValues(es[1..]);
      assert DecodeValues(es)[1..] == DecodeValues(es[1..]);
    }
  }

  /** getAllMeta()[$key] is getMeta($key) for every truthy key the owner has. */
  lemma GetAllAgreesWithGetMeta(rows: seq<Row>, owner: Owner, key: string)
    requires SingleValued(rows) && TruthyString(key) && RowsFor(rows, owner, key) != []
    ensures Lookup(GetAllMeta(rows, owner, None).items, key) == Some(GetMeta(rows, owner, Key(key), None, true).value)
  {
    GetAllMetaLookup(rows, owner, key);
    GetMetaByKey(rows, owner, key);
  }

  /** After setMeta, getAllMeta holds the value read back under its key and every other entry as before. */
  lemma SetThenGetAll(rows: seq<Row>, owner: Owner, key: string, v: Value, freshId: nat, key': string)
    requires SingleValued(rows) && WellFormed(v)
    ensures var after := GetAllMeta(Upsert(rows, owner, key, Stored(v), freshId), owner, None).items;
      Lookup(after, key') ==
        if key' == key then Some(ReadBack(v)) else Lookup(GetAllMeta(rows, owner, None).items, key')
  {
    var rows' := Upsert(rows, owner, key, Stored(v), freshId);
    UpsertSingleValued(rows, owner, key, Stored(v), freshId);
    UpsertRowsFor(rows, owner, key, Stored(v), freshId, owner, key');
    GetAllMetaLookup(rows', owner, key');
    GetAllMetaLookup(rows, owner, key');
    ReadStored(v);
  }

  /** After deleteMeta, getAllMeta has no entry for the key and every other entry as before. */
  lemma DeleteThenGetAll(rows: seq<Row>, owner: Owner, key: string, key': string)
    requires SingleValued(rows)
    ensures var after := GetAllMeta(Purge(rows, owner, key), owner, None).items;
      Lookup(after, key') == if key' == key then None else Lookup(GetAllMeta(rows, owner, None).items, key')
  {
    PurgeInvariants(rows, owner, key, 0);
    PurgeRowsFor(rows, owner, key, owner, key');
    GetAllMetaLookup(Purge(rows, owner, key), owner, key');
    GetAllMetaLookup(rows, owner, key');
  }

  // ------------------------------------------------------------ several setMeta calls, then getAllMeta

  /** setMeta for each entry of `es` in turn, on one owner, new rows taking ids from `freshId` on. */
  function SetAll(rows: seq<Row>, owner: Owner, es: seq<Entry>, freshId: nat): seq<Row>
    decreases |es|
  {
    if es == [] then rows
    else
      var n := |es| - 1;
      Upsert(SetAll(rows, owner, es[..n], freshId), owner, es[n].key, Stored(es[n].val), freshId + n)
  }

  /** Each entry's value as it reads back. */
  function ReadBackAll(es: seq<Entry>): (r: seq<Entry>)
    ensures |r| == |es|
    ensures forall i :: 0 <= i < |es| ==> r[i] == Entry(es[i].key, ReadBack(es[i].val))
  {
    if es == [] then [] else [Entry(es[0].key, ReadBack(es[0].val))] + ReadBackAll(es[1..])
  }

  /** The rows SetAll gives an owner without meta data: one per entry, in order, with consecutive ids. */
  function NewRows(owner: Owner, es: seq<Entry>, freshId: nat): (r: seq<Row>)
    ensures |r| == |es|
    ensures forall i :: 0 <= i < |es| ==> r[i] == Row(freshId + i, es[i].key, Stored(es[i].val), owner)
    decreases |es|
  {
    if es == [] then []
    else
      var n := |es| - 1;
      NewRows(owner, es[..n], freshId) + [Row(freshId + n, es[n].key, Stored(es[n].val), owner)]
  }

  /** Setting distinct keys on an owner without meta data gives it exactly NewRows. */
  lemma {:induction false} MetaSetAll(rows: seq<Row>, owner: Owner, es: seq<Entry>, freshId: nat)
    requires Meta(rows, owner) == []
    requires forall i, j :: 0 <= i < j < |es| ==> es[i].key != es[j].key
    ensures Meta(SetAll(rows, owner, es, freshId), owner) == NewRows(owner, es, freshId)
    decreases |es|
  {
    if es != [] {
      var n := |es| - 1;
      var init := es[..n];
      var before := SetAll(rows, owner, init, freshId);
      MetaSetAll(rows, owner, init, freshId);
      MetaSetLast(before, owner, es, freshId);
    }
  }

  /** The last setMeta of a run of distinct keys appends the last entry's row. */
  lemma MetaSetLast(before: seq<Row>, owner: Owner, es: seq<Entry>, freshId: nat)
    requires es != []
    requires forall i, j :: 0 <= i < j < |es| ==> es[i].key != es[j].key
    requires Meta(before, owner) == NewRows(owner, es[..|es| - 1], freshId)
    ensures Meta(Upsert(before, owner, es[|es| - 1].key, Stored(es[|es| - 1].val), freshId + |es| - 1), owner)
      == NewRows(owner, es, freshId)
  {
    var n := |es| - 1;
    NewRowsLackLastKey(owner, es, freshId);
    NewKeyAppends(before, owner, es[n].key, Stored(es[n].val), freshId + n);
    assert NewRows(owner, es, freshId) == NewRows(owner, es[..n], freshId) + [Row(freshId + n, es[n].key, Stored(es[n].val), owner)];
  }

  /** When all keys differ, the rows set for all but the last entry lack the last entry's key. */
  lemma NewRowsLackLastKey(owner: Owner, es: seq<Entry>, freshId: nat)
    requires es != []
    requires forall i, j :: 0 <= i < j < |es| ==> es[i].key != es[j].key
    ensures forall x :: x in NewRows(owner, es[..|es| - 1], freshId) ==> x.key != es[|es| - 1].key
  {
    var n := |es| - 1;
    var m0 := NewRows(owner, es[..n], freshId);
    forall x | x in m0 ensures x.key != es[n].key {
      var i :| 0 <= i < |m0| && m0[i] == x;
      assert es[..n][i] == es[i];
    }
  }

  /**
   * On an owner without meta data, setMeta for distinct keys in turn and then
   * getAllMeta gives every key with its value read back, in the order set.
   */
  lemma SetAllThenGetAll(rows: seq<Row>, owner: Owner, es: seq<Entry>, freshId: nat)
    requires Meta(rows, owner) == []
    requires forall i, j :: 0 <= i < j < |es| ==> es[i].key != es[j].key
    requires forall i :: 0 <= i < |es| ==> WellFormed(es[i].val)
    ensures GetAllMeta(SetAll(rows, owner, es, freshId), owner, None) == Many(ReadBackAll(es))
  {
    var m := NewRows(owner, es, freshId);
    QueryAll(SetAll(rows, owner, es, freshId), owner);
    MetaSetAll(rows, owner, es, freshId);
    PluckDistinct(m);
    forall i | 0 <= i < |es| ensures Read(Stored(es[i].val)) == ReadBack(es[i].val) {
      ReadStored(es[i].val);
    }
    assert DecodeValues(Pluck(m)) == ReadBackAll(es);
  }

}

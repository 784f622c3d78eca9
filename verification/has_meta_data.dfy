/**
 * The accessor every owning model gains: setMeta, getMeta, getAllMeta, deleteMeta
 * and the encode/decode heuristic between PHP values and the text column.
 */
module HasMetaData {

  import opened Options
  import opened PhpValues
  import Json
  import opened MetaStore

  /** The `$key` argument of getMeta: PHP `false` (or `null`), or a string. */
  datatype KeyArg = NoKey | Key(name: string)

  /** `when($key, ...)` applies its filter only to a truthy key. */
  predicate Truthy(key: KeyArg): (b: bool)
    ensures b ==> key.Key? && |key.name| >= 1
    ensures key.Key? && |key.name| >= 2 ==> b
  {
    key.Key? && TruthyString(key.name)
  }

  /**
   * The optional `$queryCallback`, seen as the further restriction it puts on the
   * rows selected.
   */
  type Refinement = Option<Row -> bool>

  /** What getMeta returns: one decoded value, or the collection of key => decoded value. */
  datatype Fetched = One(value: Value) | Many(items: seq<Entry>)

  // ------------------------------------------------------------ encode / decode

  /** A text that `json_decode($text, true)` reads, without error, as an array. */
  predicate JsonArrayText(s: string)
  {
    Json.Decode(s).Some? && Json.Decode(s).value.Arr?
  }

  /**
   * decodeIfJson: a string whose JSON reading is an array becomes that array;
   * anything else (null, malformed JSON, a JSON scalar) is returned as it is.
   */
  function DecodeIfJson(v: Value): (r: Value)
    ensures v.Str? && JsonArrayText(v.s) ==> r.Arr? && Json.Decode(v.s) == Some(r)
    ensures !(v.Str? && JsonArrayText(v.s)) ==> r == v
    ensures ObjectFree(v) ==> ObjectFree(r)
  {
    if v.Str? && JsonArrayText(v.s) then Json.Decode(v.s).value else v
  }

  /**
   * encodeIfEncodable: arrays and objects become their JSON text, anything else is
   * returned as it is; what comes out always fits the text column.
   */
  function EncodeIfEncodable(v: Value): (r: Value)
    ensures r.Null? || r.Str?
    ensures !v.Arr? && !v.Obj? ==> r == v
  {
    if v.Arr? || v.Obj? then Str(Json.Encode(v)) else v
  }

  /** The column text setMeta stores for a value. */
  function Stored(v: Value): Option<string>
  {
    Column(EncodeIfEncodable(v))
  }

  /** The value getMeta returns for a row's column text. */
  function Read(text: Option<string>): Value
  {
    DecodeIfJson(Attribute(text))
  }

  /**
   * What reading back a value written by setMeta gives: arrays and objects come back
   * as (associative) arrays, null as null, a string as itself, unless the string is
   * itself the JSON text of an array.
   */
  function ReadBack(v: Value): Value
  {
    if v.Str? && JsonArrayText(v.s) then Json.Decode(v.s).value else Assoc(v)
  }

  // ------------------------------------------------------------ getMeta

  /**
   * A row getMeta's query selects: the owner's (`meta()`), with the key when the key
   * is truthy (`when($key, ...)`), and passing the callback when there is one
   * (`when($queryCallback, ...)`).
   */
  predicate Selected(r: Row, owner: Owner, key: KeyArg, refine: Refinement)
  {
    && r.entity == owner
    && (Truthy(key) ==> r.key == key.name)
    && (refine.Some? ==> refine.value(r))
  }

  /** getMeta's query: the selected rows, in table order. */
  function Query(rows: seq<Row>, owner: Owner, key: KeyArg, refine: Refinement): (q: seq<Row>)
    ensures forall r :: r in q <==> r in rows && Selected(r, owner, key, refine)
  {
    if rows == [] then []
    else (if Selected(rows[0], owner, key, refine) then [rows[0]] else []) + Query(rows[1..], owner, key, refine)
  }

  /** `->map(fn($value) => $this->decodeIfJson($value))` over a plucked collection. */
  function DecodeValues(es: seq<Entry>): (r: seq<Entry>)
    ensures |r| == |es|
    ensures forall i :: 0 <= i < |es| ==> r[i] == Entry(es[i].key, DecodeIfJson(es[i].val))
  {
    if es == [] then [] else [Entry(es[0].key, DecodeIfJson(es[0].val))] + DecodeValues(es[1..])
  }

  /**
   * getMeta: with `singleRecord`, the decoded value of the first selected row (null
   * when there is none); otherwise the selected rows' decoded values keyed by key.
   */
  function GetMeta(rows: seq<Row>, owner: Owner, key: KeyArg, refine: Refinement, singleRecord: bool): (r: Fetched)
    ensures r.One? <==> singleRecord
  {
    var q := Query(rows, owner, key, refine);
    if singleRecord then One(if q == [] then Null else Read(q[0].value))
    else Many(DecodeValues(Pluck(q)))
  }

  /** getAllMeta: getMeta with key `false` and a collection as the result. */
  function GetAllMeta(rows: seq<Row>, owner: Owner, refine: Refinement): (r: Fetched)
    ensures r.Many?
  {
    GetMeta(rows, owner, NoKey, refine, false)
  }

  // ------------------------------------------------------------ the table

  /**
   * The shared `meta_data` table as the accessor changes it: its rows in insertion
   * order and the id its next row receives.
   */
  class MetaDataTable {

    var rows: seq<Row>
    var nextId: nat

    /** Ids are distinct and below nextId; each owner has at most one row per key. */
    ghost predicate Valid()
      reads this
    {
      DistinctIds(rows) && IdsBelow(rows, nextId) && SingleValued(rows)
    }

    constructor ()
      ensures Valid() && rows == [] && nextId == 1
    {
      rows := [];
      nextId := 1;
    }

    /**
     * setMeta: store the encoded value under this owner and key, updating the
     * existing row or appending a new one.
     */
    method SetMeta(owner: Owner, key: string, value: Value)
      requires Valid()
      modifies this
      ensures Valid()
      ensures rows == Upsert(old(rows), owner, key, Stored(value), old(nextId))
      ensures nextId == if RowsFor(old(rows), owner, key) == [] then old(nextId) + 1 else old(nextId)
      ensures RowsFor(old(rows), owner, key) != [] ==> |rows| == |old(rows)|
      ensures forall other :: other != owner ==> Meta(rows, other) == Meta(old(rows), other)
    {
      var text := Column(EncodeIfEncodable(value));
      UpsertAt(rows, owner, key, text, nextId);
      UpsertIds(rows, owner, key, text, nextId);
      UpsertSingleValued(rows, owner, key, text, nextId);
      UpsertLength(rows, owner, key, text, nextId);
      forall other | other != owner
        ensures Meta(Upsert(rows, owner, key, text, nextId), other) == Meta(rows, other)
      {
        UpsertOtherOwner(rows, owner, key, text, nextId, other);
      }
      FirstIndexForFindsRowsFor(rows, owner, key);
      match FirstIndexFor(rows, owner, key)
      case Some(i) =>
        rows := rows[i := rows[i].(value := text)];
      case None =>
        rows := rows + [Row(nextId, key, text, owner)];
        nextId := nextId + 1;
    }

    /** deleteMeta: remove every row of this owner with this key. */
    method DeleteMeta(owner: Owner, key: string)
      requires Valid()
      modifies this
      ensures Valid()
      ensures rows == Purge(old(rows), owner, key) && nextId == old(nextId)
      ensures RowsFor(rows, owner, key) == []
      ensures RowsFor(old(rows), owner, key) == [] ==> rows == old(rows)
      ensures forall other :: other != owner ==> Meta(rows, other) == Meta(old(rows), other)
    {
      PurgeInvariants(rows, owner, key, nextId);
      PurgeRowsFor(rows, owner, key, owner, key);
      if RowsFor(rows, owner, key) == [] {
        PurgeAbsent(rows, owner, key);
      }
      forall other | other != owner ensures Meta(Purge(rows, owner, key), other) == Meta(rows, other) {
        PurgeOtherOwner(rows, owner, key, other);
      }
      rows := Purge(rows, owner, key);
    }
  }

}

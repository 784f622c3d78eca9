/**
 * The shared `meta_data` table and the framework operations the accessor calls on
 * it, as their effect on the table's rows in insertion order: the polymorphic
 * relation `meta()`, `where('key', $key)`, `first()`, `updateOrCreate`, `delete()`
 * on a query, and `pluck('value', 'key')`.
 */
module MetaStore {

  import opened Options
  import opened PhpValues

  /** The owning model, as the `entity_type` / `entity_id` columns of `morphs('entity')` name it. */
  datatype Owner = Owner(entityType: string, entityId: nat)

  /**
   * One row of `meta_data`: surrogate id, key, nullable text value and owner.
   * The `created_at` / `updated_at` columns are not modelled.
   */
  datatype Row = Row(id: nat, key: string, value: Option<string>, entity: Owner)

  /** The value attribute of a row as PHP reads it: `null` or a string. */
  function Attribute(text: Option<string>): (r: Value)
    ensures r.Null? || r.Str?
  {
    match text
    case None => Null
    case Some(s) => Str(s)
  }

  /** The text column's content for a scalar value (`null` stays NULL). */
  function Column(v: Value): (text: Option<string>)
    requires v.Null? || v.Str?
    ensures Attribute(text) == v
  {
    if v.Null? then None else Some(v.s)
  }

  // ------------------------------------------------------------ the owner's relation

  /** `$this->meta()`: the owner's rows, in table order. */
  function Meta(rows: seq<Row>, owner: Owner): (r: seq<Row>)
    ensures |r| <= |rows|
    ensures forall i :: 0 <= i < |r| ==> r[i].entity == owner
  {
    if rows == [] then []
    else (if rows[0].entity == owner then [rows[0]] else []) + Meta(rows[1..], owner)
  }

  /** The owner's relation holds exactly the table's rows that name the owner. */
  lemma {:induction false} MetaMembers(rows: seq<Row>, owner: Owner)
    ensures forall r :: r in Meta(rows, owner) <==> r in rows && r.entity == owner
  {
    if rows != [] {
      MetaMembers(rows[1..], owner);
      assert forall r :: r in rows <==> r == rows[0] || r in rows[1..];
    }
  }

  /** A row `$this->meta()->where('key', $key)` selects. */
  predicate RowFor(r: Row, owner: Owner, key: string)
  {
    r.entity == owner && r.key == key
  }

  /** `$this->meta()->where('key', $key)`: the owner's rows with this key, in table order. */
  function RowsFor(rows: seq<Row>, owner: Owner, key: string): (q: seq<Row>)
    ensures forall r :: r in q <==> r in rows && RowFor(r, owner, key)
    ensures |q| <= |rows|
  {
    if rows == [] then []
    else (if RowFor(rows[0], owner, key) then [rows[0]] else []) + RowsFor(rows[1..], owner, key)
  }

  /** The position of the row `where('key', $key)->first()` finds, if any. */
  function FirstIndexFor(rows: seq<Row>, owner: Owner, key: string): (r: Option<nat>)
    ensures r.Some? ==> r.value < |rows| && RowFor(rows[r.value], owner, key)
    ensures r.Some? ==> forall j :: 0 <= j < r.value ==> !RowFor(rows[j], owner, key)
    ensures r.None? <==> forall j :: 0 <= j < |rows| ==> !RowFor(rows[j], owner, key)
  {
    if rows == [] then None
    else if RowFor(rows[0], owner, key) then Some(0)
    else
      match FirstIndexFor(rows[1..], owner, key)
      case None => None
      case Some(i) => Some(i + 1)
  }

  // ------------------------------------------------------------ writing

  /**
   * `$this->meta()->updateOrCreate(['key' => $key], ['value' => $text])`: the first
   * row of this owner with this key takes the new value; when there is none, a row
   * with a fresh id is appended.
   */
  function Upsert(rows: seq<Row>, owner: Owner, key: string, text: Option<string>, freshId: nat): (r: seq<Row>)
    ensures |rows| <= |r| <= |rows| + 1
    ensures |r| == |rows| + 1 ==> r[|rows|] == Row(freshId, key, text, owner)
  {
    if rows == [] then [Row(freshId, key, text, owner)]
    else if RowFor(rows[0], owner, key) then [rows[0].(value := text)] + rows[1..]
    else [rows[0]] + Upsert(rows[1..], owner, key, text, freshId)
  }

  /** `$this->meta()->where('key', $key)->delete()`: every row of this owner with this key goes. */
  function Purge(rows: seq<Row>, owner: Owner, key: string): (r: seq<Row>)
    ensures forall x :: x in r <==> x in rows && !RowFor(x, owner, key)
    ensures |r| <= |rows|
  {
    if rows == [] then []
    else (if RowFor(rows[0], owner, key) then [] else [rows[0]]) + Purge(rows[1..], owner, key)
  }

  // ------------------------------------------------------------ reading many

  /** The last row of `q` with this key: the one whose value `pluck` keeps. */
  function LastWithKey(q: seq<Row>, key: string): (r: Option<Row>)
    ensures r.Some? ==> r.value in q && r.value.key == key
    ensures r.None? <==> forall x :: x in q ==> x.key != key
    ensures r.Some? ==> exists i :: 0 <= i < |q| && q[i] == r.value && forall j :: i < j < |q| ==> q[j].key != key
  {
    if q == [] then None
    else if q[|q| - 1].key == key then Some(q[|q| - 1])
    else LastWithKey(q[..|q| - 1], key)
  }

  /**
   * `$query->get()->pluck('value', 'key')`: the rows' values keyed by their keys;
   * a key met again overwrites the value and keeps its first position.
   */
  function Pluck(q: seq<Row>): (r: seq<Entry>)
    ensures |r| <= |q|
    ensures DistinctKeys(r)
  {
    if q == [] then []
    else
      var init := Pluck(q[..|q| - 1]);
      AssignKeys(init, q[|q| - 1].key, Attribute(q[|q| - 1].value));
      Assign(init, q[|q| - 1].key, Attribute(q[|q| - 1].value))
  }

  // ------------------------------------------------------------ table invariants

  /** No two rows share a surrogate id. */
  predicate DistinctIds(rows: seq<Row>)
  {
    forall i, j :: 0 <= i < j < |rows| ==> rows[i].id != rows[j].id
  }

  /** Every id is below the next id the table will hand out. */
  predicate IdsBelow(rows: seq<Row>, next: nat)
  {
    forall r :: r in rows ==> r.id < next
  }

  /** At most one row per owner and key: what writing only through setMeta keeps. */
  predicate SingleValued(rows: seq<Row>)
  {
    forall i, j :: 0 <= i < j < |rows| ==> !RowFor(rows[j], rows[i].entity, rows[i].key)
  }

  // ------------------------------------------------------------ lemmas: updateOrCreate

  /** updateOrCreate, positionally: the first match is updated in place, or a row is appended. */
  lemma {:induction false} UpsertAt(rows: seq<Row>, owner: Owner, key: string, text: Option<string>, freshId: nat)
    ensures FirstIndexFor(rows, owner, key).None? ==>
      Upsert(rows, owner, key, text, freshId) == rows + [Row(freshId, key, text, owner)]
    ensures FirstIndexFor(rows, owner, key).Some? ==>
      var i := FirstIndexFor(rows, owner, key).value;
      Upsert(rows, owner, key, text, freshId) == rows[i := rows[i].(value := text)]
  {
    if rows != [] && !RowFor(rows[0], owner, key) {
      UpsertAt(rows[1..], owner, key, text, freshId);
      assert rows == [rows[0]] + rows[1..];
    }
  }

  /** `first()` finds a row exactly when `where('key', $key)` selects one, and it is the first selected. */
  lemma {:induction false} FirstIndexForFindsRowsFor(rows: seq<Row>, owner: Owner, key: string)
    ensures FirstIndexFor(rows, owner, key).None? <==> RowsFor(rows, owner, key) == []
    ensures FirstIndexFor(rows, owner, key).Some? ==>
      RowsFor(rows, owner, key)[0] == rows[FirstIndexFor(rows, owner, key).value]
  {
    if rows != [] && !RowFor(rows[0], owner, key) {
      FirstIndexForFindsRowsFor(rows[1..], owner, key);
    }
  }

  /**
   * What updateOrCreate does to the rows of one owner and key: for its own owner and
   * key the first row takes the new value (or a new row is the only one), every
   * other owner and key keeps exactly its rows.
   */
  lemma {:induction false} UpsertRowsFor(rows: seq<Row>, owner: Owner, key: string, text: Option<string>, freshId: nat,
                                         owner': Owner, key': string)
    ensures RowsFor(Upsert(rows, owner, key, text, freshId), owner', key') ==
      if owner' != owner || key' != key then RowsFor(rows, owner', key')
      else if RowsFor(rows, owner, key) == [] then [Row(freshId, key, text, owner)]
      else [RowsFor(rows, owner, key)[0].(value := text)] + RowsFor(rows, owner, key)[1..]
  {
    if rows == [] {
    } else if RowFor(rows[0], owner, key) {
      var r := Upsert(rows, owner, key, text, freshId);
      assert r[0] == rows[0].(value := text) && r[1..] == rows[1..];
    } else {
      UpsertRowsFor(rows[1..], owner, key, text, freshId, owner', key');
      var r := Upsert(rows, owner, key, text, freshId);
      assert r[0] == rows[0] && r[1..] == Upsert(rows[1..], owner, key, text, freshId);
    }
  }

  /** updateOrCreate touches nothing but the rows of its own owner and key. */
  lemma {:induction false} UpsertFrame(rows: seq<Row>, owner: Owner, key: string, text: Option<string>, freshId: nat)
    ensures Purge(Upsert(rows, owner, key, text, freshId), owner, key) == Purge(rows, owner, key)
  {
    if rows == [] {
    } else if RowFor(rows[0], owner, key) {
      var r := Upsert(rows, owner, key, text, freshId);
      assert r[0] == rows[0].(value := text) && r[1..] == rows[1..];
    } else {
      UpsertFrame(rows[1..], owner, key, text, freshId);
      var r := Upsert(rows, owner, key, text, freshId);
      assert r[0] == rows[0] && r[1..] == Upsert(rows[1..], owner, key, text, freshId);
    }
  }

  /** updateOrCreate for one owner leaves every other owner's relation as it was. */
  lemma {:induction false} UpsertOtherOwner(rows: seq<Row>, owner: Owner, key: string, text: Option<string>, freshId: nat,
                                            other: Owner)
    requires other != owner
    ensures Meta(Upsert(rows, owner, key, text, freshId), other) == Meta(rows, other)
  {
    if rows == [] {
    } else if RowFor(rows[0], owner, key) {
      var r := Upsert(rows, owner, key, text, freshId);
      assert r[0] == rows[0].(value := text) && r[1..] == rows[1..];
    } else {
      UpsertOtherOwner(rows[1..], owner, key, text, freshId, other);
      var r := Upsert(rows, owner, key, text, freshId);
      assert r[0] == rows[0] && r[1..] == Upsert(rows[1..], owner, key, text, freshId);
    }
  }

  /** updateOrCreate adds a row exactly when the owner has no row with that key. */
  lemma {:induction false} UpsertLength(rows: seq<Row>, owner: Owner, key: string, text: Option<string>, freshId: nat)
    ensures |Upsert(rows, owner, key, text, freshId)| == |rows| + (if RowsFor(rows, owner, key) == [] then 1 else 0)
  {
    if rows != [] && !RowFor(rows[0], owner, key) {
      UpsertLength(rows[1..], owner, key, text, freshId);
    }
  }

  // ------------------------------------------------------------ lemmas: delete

  /**
   * What delete does to the rows of one owner and key: none are left for its own
   * owner and key, every other owner and key keeps exactly its rows.
   */
  lemma {:induction false} PurgeRowsFor(rows: seq<Row>, owner: Owner, key: string, owner': Owner, key': string)
    ensures RowsFor(Purge(rows, owner, key), owner', key') ==
      if owner' == owner && key' == key then [] else RowsFor(rows, owner', key')
  {
    if rows != [] {
      PurgeRowsFor(rows[1..], owner, key, owner', key');
      var r := Purge(rows, owner, key);
      if RowFor(rows[0], owner, key) {
        assert r == Purge(rows[1..], owner, key);
      } else {
        assert r[0] == rows[0] && r[1..] == Purge(rows[1..], owner, key);
      }
    }
  }

  /** Deleting a key the owner does not have changes nothing. */
  lemma {:induction false} PurgeAbsent(rows: seq<Row>, owner: Owner, key: string)
    requires RowsFor(rows, owner, key) == []
    ensures Purge(rows, owner, key) == rows
  {
    if rows != [] {
      assert !RowFor(rows[0], owner, key) by {
        assert rows[0] in rows;
      }
      assert RowsFor(rows[1..], owner, key) == [];
      PurgeAbsent(rows[1..], owner, key);
    }
  }

  /** Deleting for one owner leaves every other owner's relation as it was. */
  lemma {:induction false} PurgeOtherOwner(rows: seq<Row>, owner: Owner, key: string, other: Owner)
    requires other != owner
    ensures Meta(Purge(rows, owner, key), other) == Meta(rows, other)
  {
    if rows != [] {
      PurgeOtherOwner(rows[1..], owner, key, other);
      var r := Purge(rows, owner, key);
      if RowFor(rows[0], owner, key) {
        assert r == Purge(rows[1..], owner, key);
      } else {
        assert r[0] == rows[0] && r[1..] == Purge(rows[1..], owner, key);
      }
    }
  }

  /** Deleting twice is deleting once. */
  lemma PurgeIdempotent(rows: seq<Row>, owner: Owner, key: string)
    ensures Purge(Purge(rows, owner, key), owner, key) == Purge(rows, owner, key)
  {
    PurgeRowsFor(rows, owner, key, owner, key);
    PurgeAbsent(Purge(rows, owner, key), owner, key);
  }

  // ------------------------------------------------------------ lemmas: the table invariants

  /** updateOrCreate with a fresh id keeps ids distinct and below the next id. */
  lemma UpsertIds(rows: seq<Row>, owner: Owner, key: string, text: Option<string>, next: nat)
    requires DistinctIds(rows) && IdsBelow(rows, next)
    ensures var r := Upsert(rows, owner, key, text, next);
      DistinctIds(r) && IdsBelow(r, if RowsFor(rows, owner, key) == [] then next + 1 else next)
  {
    UpsertAt(rows, owner, key, text, next);
    FirstIndexForFindsRowsFor(rows, owner, key);
    var r := Upsert(rows, owner, key, text, next);
    match FirstIndexFor(rows, owner, key)
    case None =>
      forall x | x in r ensures x.id < next + 1 {
        if x !in rows {
          assert x == r[|rows|];
        }
      }
    case Some(i) =>
      forall x | x in r ensures x.id < next {
        var j :| 0 <= j < |r| && r[j] == x;
        assert rows[j] in rows;
      }
  }

  /** updateOrCreate keeps at most one row per owner and key. */
  lemma UpsertSingleValued(rows: seq<Row>, owner: Owner, key: string, text: Option<string>, freshId: nat)
    requires SingleValued(rows)
    ensures SingleValued(Upsert(rows, owner, key, text, freshId))
  {
    UpsertAt(rows, owner, key, text, freshId);
  }

  /** Deleting keeps ids distinct and below the next id, and keeps one row per owner and key. */
  lemma PurgeInvariants(rows: seq<Row>, owner: Owner, key: string, next: nat)
    ensures var r := Purge(rows, owner, key);
      (DistinctIds(rows) ==> DistinctIds(r))
      && (IdsBelow(rows, next) ==> IdsBelow(r, next))
      && (SingleValued(rows) ==> SingleValued(r))
  {
    if DistinctIds(rows) {
      PurgeDistinctIds(rows, owner, key);
    }
    if SingleValued(rows) {
      PurgeSingleValued(rows, owner, key);
    }
  }

  lemma {:induction false} PurgeDistinctIds(rows: seq<Row>, owner: Owner, key: string)
    requires DistinctIds(rows)
    ensures DistinctIds(Purge(rows, owner, key))
  {
    if rows != [] {
      TailDistinctIds(rows);
      PurgeDistinctIds(rows[1..], owner, key);
      if !RowFor(rows[0], owner, key) {
        ConsDistinctIds(rows[0], Purge(rows[1..], owner, key));
      }
    }
  }

  lemma {:induction false} PurgeSingleValued(rows: seq<Row>, owner: Owner, key: string)
    requires SingleValued(rows)
    ensures SingleValued(Purge(rows, owner, key))
  {
    if rows != [] {
      TailSingleValued(rows);
      PurgeSingleValued(rows[1..], owner, key);
      if !RowFor(rows[0], owner, key) {
        ConsSingleValued(rows[0], Purge(rows[1..], owner, key));
      }
    }
  }

  /** The rows after the first keep distinct ids, none of them the first row's. */
  lemma TailDistinctIds(rows: seq<Row>)
    requires rows != [] && DistinctIds(rows)
    ensures DistinctIds(rows[1..]) && forall x :: x in rows[1..] ==> x.id != rows[0].id
  {
    forall x | x in rows[1..] ensures x.id != rows[0].id {
      var k :| 0 <= k < |rows[1..]| && rows[1..][k] == x;
      assert rows[k + 1] == x;
    }
  }

  /** A row whose id no later row has, before rows with distinct ids. */
  lemma ConsDistinctIds(a: Row, t: seq<Row>)
    requires DistinctIds(t) && forall x :: x in t ==> x.id != a.id
    ensures DistinctIds([a] + t)
  {
    var r := [a] + t;
    forall i, j | 0 <= i < j < |r| ensures r[i].id != r[j].id {
      assert r[j] == t[j - 1] && t[j - 1] in t;
      if i > 0 {
        assert r[i] == t[i - 1];
      }
    }
  }

  /** The rows after the first keep one row per owner and key, none for the first row's. */
  lemma TailSingleValued(rows: seq<Row>)
    requires rows != [] && SingleValued(rows)
    ensures SingleValued(rows[1..]) && forall x :: x in rows[1..] ==> !RowFor(x, rows[0].entity, rows[0].key)
  {
    forall x | x in rows[1..] ensures !RowFor(x, rows[0].entity, rows[0].key) {
      var k :| 0 <= k < |rows[1..]| && rows[1..][k] == x;
      assert rows[k + 1] == x;
    }
  }

  /** A row whose owner and key no later row has, before rows with one row per owner and key. */
  lemma ConsSingleValued(a: Row, t: seq<Row>)
    requires SingleValued(t) && forall x :: x in t ==> !RowFor(x, a.entity, a.key)
    ensures SingleValued([a] + t)
  {
    var r := [a] + t;
    forall i, j | 0 <= i < j < |r| ensures !RowFor(r[j], r[i].entity, r[i].key) {
      assert r[j] == t[j - 1] && t[j - 1] in t;
      if i > 0 {
        assert r[i] == t[i - 1];
      }
    }
  }

  // ------------------------------------------------------------ lemmas: pluck

  /**
   * `pluck('value', 'key')[$k]` is the value of the last row with key `$k`, and is
   * absent exactly when no row has that key; the keys it yields are distinct.
   */
  lemma {:induction false} PluckLookup(q: seq<Row>, key: string)
    ensures Lookup(Pluck(q), key) ==
      match LastWithKey(q, key)
      case None => None
      case Some(r) => Some(Attribute(r.value))
    ensures DistinctKeys(Pluck(q))
  {
    if q != [] {
      var init, last := q[..|q| - 1], q[|q| - 1];
      PluckLookup(init, key);
      AssignKeys(Pluck(init), last.key, Attribute(last.value));
    }
  }

  /** Plucking one more row whose key is new appends one entry. */
  lemma PluckAppendNew(q: seq<Row>, r: Row)
    requires forall x :: x in q ==> x.key != r.key
    ensures Pluck(q + [r]) == Pluck(q) + [Entry(r.key, Attribute(r.value))]
  {
    assert (q + [r])[..|q|] == q;
    PluckLookup(q, r.key);
  }

  // ------------------------------------------------------------ lemmas: appending

  /** Appending a row extends the owner's relation by that row when it is the owner's. */
  lemma {:induction false} MetaAppend(rows: seq<Row>, x: Row, owner: Owner)
    ensures Meta(rows + [x], owner) == Meta(rows, owner) + Meta([x], owner)
  {
    if rows != [] {
      MetaAppend(rows[1..], x, owner);
      assert (rows + [x])[1..] == rows[1..] + [x];
    }
  }

  /** setMeta with a key the owner does not have appends one row to the owner's relation. */
  lemma NewKeyAppends(rows: seq<Row>, owner: Owner, key: string, text: Option<string>, freshId: nat)
    requires forall x :: x in Meta(rows, owner) ==> x.key != key
    ensures Meta(Upsert(rows, owner, key, text, freshId), owner) == Meta(rows, owner) + [Row(freshId, key, text, owner)]
  {
    MetaMembers(rows, owner);
    forall j | 0 <= j < |rows| ensures !RowFor(rows[j], owner, key) {
      if rows[j].entity == owner {
        assert rows[j] in Meta(rows, owner);
      }
    }
    UpsertAt(rows, owner, key, text, freshId);
    MetaAppend(rows, Row(freshId, key, text, owner), owner);
  }

  /** Plucking rows with distinct keys keeps every row's value, in order. */
  lemma {:induction false} PluckDistinct(q: seq<Row>)
    requires forall i, j :: 0 <= i < j < |q| ==> q[i].key != q[j].key
    ensures |Pluck(q)| == |q|
    ensures forall i :: 0 <= i < |q| ==> Pluck(q)[i] == Entry(q[i].key, Attribute(q[i].value))
  {
    if q != [] {
      var n := |q| - 1;
      var init, last := q[..n], q[n];
      SplitLast(q);
      forall i, j | 0 <= i < j < |init| ensures init[i].key != init[j].key {
        assert init[i] == q[i] && init[j] == q[j];
      }
      PluckDistinct(init);
      PluckDistinctStep(init, last);
    }
  }

  /** A non-empty sequence is its front followed by its last element. */
  lemma SplitLast<T>(q: seq<T>)
    requires q != []
    ensures q[..|q| - 1] + [q[|q| - 1]] == q
  {
  }

  /** One step of PluckDistinct: a row whose key is new adds its own entry. */
  lemma PluckDistinctStep(init: seq<Row>, last: Row)
    requires forall i :: 0 <= i < |init| ==> init[i].key != last.key
    requires |Pluck(init)| == |init|
    requires forall i :: 0 <= i < |init| ==> Pluck(init)[i] == Entry(init[i].key, Attribute(init[i].value))
    ensures |Pluck(init + [last])| == |init| + 1
    ensures forall i :: 0 <= i < |init| + 1 ==>
      Pluck(init + [last])[i] == Entry((init + [last])[i].key, Attribute((init + [last])[i].value))
  {
    PluckAppendNew(init, last);
    EntriesSnoc(Pluck(init), init, last);
  }

  /** Entries that mirror rows one by one still do after one more of each. */
  lemma EntriesSnoc(p: seq<Entry>, init: seq<Row>, x: Row)
    requires |p| == |init|
    requires forall i :: 0 <= i < |init| ==> p[i] == Entry(init[i].key, Attribute(init[i].value))
    ensures forall i :: 0 <= i < |init| + 1 ==>
      (p + [Entry(x.key, Attribute(x.value))])[i] == Entry((init + [x])[i].key, Attribute((init + [x])[i].value))
  {
  }

}

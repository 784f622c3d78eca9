/**
 * The PHP values a metadata entry can hold, and the few PHP array operations the
 * accessor relies on: lookup by key, assignment `$a[$k] = $v`, truthiness and
 * `array_is_list`.
 */
module PhpValues {

  import opened Options

  /**
   * A PHP value as the metadata store sees it. A PHP array is an ordered list of
   * key/value entries; an integer key `n` is written as its decimal text (PHP
   * itself turns the string key "7" into the integer 7). An object is a plain
   * object whose public properties are its entries.
   */
  datatype Value =
    | Null
    | Str(s: string)
    | Arr(entries: seq<Entry>)
    | Obj(props: seq<Entry>)

  datatype Entry = Entry(key: string, val: Value)

  /** The keys of an array, in no particular order. */
  function Keys(es: seq<Entry>): set<string>
  {
    if es == [] then {} else {es[0].key} + Keys(es[1..])
  }

  /** No key occurs twice: true of every PHP array and of every object's properties. */
  predicate DistinctKeys(es: seq<Entry>)
  {
    es == [] || (es[0].key !in Keys(es[1..]) && DistinctKeys(es[1..]))
  }

  /** A value PHP can actually hold: every array and object, at any depth, has distinct keys. */
  predicate WellFormed(v: Value)
    decreases v
  {
    match v
    case Null => true
    case Str(_) => true
    case Arr(es) => DistinctKeys(es) && forall i :: 0 <= i < |es| ==> WellFormed(es[i].val)
    case Obj(ps) => DistinctKeys(ps) && forall i :: 0 <= i < |ps| ==> WellFormed(ps[i].val)
  }

  /** `$a[$k] ?? absent`: the value stored under `k`, the first one if keys repeat. */
  function Lookup(es: seq<Entry>, k: string): (r: Option<Value>)
    ensures r.None? <==> k !in Keys(es)
    ensures r.Some? ==> Entry(k, r.value) in es
  {
    if es == [] then None
    else if es[0].key == k then Some(es[0].val)
    else Lookup(es[1..], k)
  }

  /**
   * `$a[$k] = $v`: an existing key keeps its position and takes the new value,
   * a new key is appended at the end.
   */
  function Assign(es: seq<Entry>, k: string, v: Value): (r: seq<Entry>)
    ensures Lookup(r, k) == Some(v)
    ensures forall k' :: k' != k ==> Lookup(r, k') == Lookup(es, k')
    ensures k !in Keys(es) ==> r == es + [Entry(k, v)]
    ensures k in Keys(es) ==> |r| == |es|
    ensures forall i :: 0 <= i < |r| ==> r[i] == Entry(k, v) || r[i] in es
  {
    if es == [] then [Entry(k, v)]
    else if es[0].key == k then [Entry(k, v)] + es[1..]
    else [es[0]] + Assign(es[1..], k, v)
  }

  /** The position of the first entry with the key, or the length when there is none. */
  function KeyIndex(es: seq<Entry>, k: string): (n: nat)
    ensures n <= |es|
    ensures n < |es| ==> es[n].key == k
    ensures forall j :: 0 <= j < n ==> es[j].key != k
  {
    if es == [] then 0 else if es[0].key == k then 0 else KeyIndex(es[1..], k) + 1
  }

  /**
   * Assignment in place: the first entry with the key takes the new value at its
   * position, and every other entry stays where it was.
   */
  lemma {:induction false} AssignPositions(es: seq<Entry>, k: string, v: Value)
    ensures forall i :: 0 <= i < |es| ==>
      Assign(es, k, v)[i] == (if i == KeyIndex(es, k) then Entry(k, v) else es[i])
  {
    if es != [] && es[0].key != k {
      AssignPositions(es[1..], k, v);
      var r, tail := Assign(es, k, v), Assign(es[1..], k, v);
      assert r == [es[0]] + tail;
      forall i | 0 < i < |es|
        ensures r[i] == (if i == KeyIndex(es, k) then Entry(k, v) else es[i])
      {
        assert r[i] == tail[i - 1] && es[i] == es[1..][i - 1];
      }
    }
  }

  /** Assignment adds exactly its key, and keeps a PHP array's keys distinct. */
  lemma {:induction false} AssignKeys(es: seq<Entry>, k: string, v: Value)
    ensures Keys(Assign(es, k, v)) == Keys(es) + {k}
    ensures DistinctKeys(es) ==> DistinctKeys(Assign(es, k, v))
  {
    if es != [] && es[0].key != k {
      AssignKeys(es[1..], k, v);
      assert Assign(es, k, v)[1..] == Assign(es[1..], k, v);
    }
  }

  /** PHP truthiness of a string: only "" and "0" are falsy. */
  predicate TruthyString(s: string): (b: bool)
    ensures |s| >= 2 ==> b
    ensures |s| == 1 ==> (b <==> s[0] != '0')
  {
    s != "" && s != "0"
  }

  /** The decimal text of a natural number, as PHP prints an integer array key. */
  function IntKey(n: nat): (r: string)
    ensures |r| > 0
    decreases n
  {
    if n < 10 then [Digit(n)] else IntKey(n / 10) + [Digit(n % 10)]
  }

  function Digit(d: nat): char
    requires d < 10
  {
    ('0' as int + d) as char
  }

  /** `array_is_list`, offset by `from`: the keys are from, from + 1, ... in this order. */
  predicate IsListFrom(es: seq<Entry>, from: nat)
  {
    forall i :: 0 <= i < |es| ==> es[i].key == IntKey(from + i)
  }

  /** `array_is_list`: the keys are 0, 1, ..., |es| - 1 in this order. */
  predicate IsList(es: seq<Entry>)
  {
    IsListFrom(es, 0)
  }

  /**
   * The value `json_decode(..., true)` gives back: objects become arrays with the
   * same entries, at every depth.
   */
  function Assoc(v: Value): (r: Value)
    ensures v.Arr? || v.Obj? <==> r.Arr?
    decreases v, 1
  {
    match v
    case Null => Null
    case Str(s) => Str(s)
    case Arr(es) => Arr(AssocEntries(es))
    case Obj(ps) => Arr(AssocEntries(ps))
  }

  function AssocEntries(es: seq<Entry>): (r: seq<Entry>)
    ensures |r| == |es|
    ensures forall i :: 0 <= i < |es| ==> r[i].key == es[i].key && r[i].val == Assoc(es[i].val)
    decreases es, 0
  {
    if es == [] then [] else [Entry(es[0].key, Assoc(es[0].val))] + AssocEntries(es[1..])
  }

  /** A value with no object anywhere in it is its own associative form. */
  predicate ObjectFree(v: Value)
    decreases v
  {
    match v
    case Null => true
    case Str(_) => true
    case Arr(es) => forall i :: 0 <= i < |es| ==> ObjectFree(es[i].val)
    case Obj(_) => false
  }

  /** A value without objects is left as it is by the associative view. */
  lemma {:induction false} AssocObjectFree(v: Value)
    requires ObjectFree(v)
    ensures Assoc(v) == v
    decreases v, 1
  {
    match v
    case Arr(es) => AssocEntriesObjectFree(es);
    case Null =>
    case Str(_) =>
  }

  lemma {:induction false} AssocEntriesObjectFree(es: seq<Entry>)
    requires forall i :: 0 <= i < |es| ==> ObjectFree(es[i].val)
    ensures AssocEntries(es) == es
    decreases es, 0
  {
    forall i | 0 <= i < |es| ensures AssocEntries(es)[i] == es[i] {
      AssocObjectFree(es[i].val);
    }
  }

}

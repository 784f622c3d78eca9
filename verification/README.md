# HasMetaData, modelled in Dafny

`HasMetaData` is a PHP trait for Eloquent models. Any model that uses it gets a
key/value store kept in one shared `meta_data` table, whose rows hold:

- a surrogate id;
- a string key;
- a nullable text value;
- the owning model's polymorphic pair (`entity_type`, `entity_id`).

The trait offers these operations:

- `setMeta($key, $value)` upserts one row of the owner.
- `getMeta($key, $queryCallback, $singleRecord)` reads either the first matching row or a key => value collection.
- `getAllMeta($queryCallback)` is `getMeta` with key `false`.
- `deleteMeta($key)` removes the owner's rows with that key.

Values pass through the text column by a heuristic:

- `encodeIfEncodable` writes arrays and objects as JSON and leaves every other value as it is.
- `decodeIfJson` turns a string back into an array only when the string's JSON reading is an array.

The project models this as follows:

- **PHP values** (`PhpValues`): null, strings, arrays as ordered lists of key => value entries with distinct keys, and objects with public properties. `Assign` is `$a[$k] = $v`: a key already present keeps its position. `Assoc` is the associative view that `json_decode(..., true)` gives, where objects become arrays.
- **JSON** (`Json`): a concrete writer in `json_encode`'s layout and a reader in `json_decode`'s, over the JSON subset these values need. `Json.DecodeEncode` proves that reading what was written gives back the value's associative view.
- **The table** (`MetaStore`): the rows in insertion order. The framework calls the trait makes are stated as functions on that sequence:
  - `meta()` becomes `Meta`;
  - `where('key', …)` becomes `RowsFor`;
  - `first()` inside `updateOrCreate` becomes `FirstIndexFor`, and getMeta's own `first()` becomes the head of `Query`'s result in `GetMeta`;
  - `updateOrCreate` becomes `Upsert`;
  - `delete()` becomes `Purge`;
  - `pluck('value', 'key')` becomes `Pluck`.
- **The trait** (`HasMetaData`):
  - `getMeta`, `getAllMeta`, `decodeIfJson` and `encodeIfEncodable` are functions.
  - The table is the class `MetaDataTable`, whose methods `SetMeta` and `DeleteMeta` update its row sequence in place.
  - `Valid` is the table invariant: ids are distinct, and each owner has at most one row per key. Every write through `SetMeta` keeps it.
- **Properties** (`MetaDataProperties`): round trips between setMeta and getMeta/getAllMeta, deletion, isolation between owners, and the meaning of a falsy key.
- **Scenarios** (`MetaDataScenarios`): the package's test cases, stated as methods on a fresh table.

`getMeta` applies its key filter through `when($key, …)`, so a key PHP treats as false adds no filter at all. This covers `false`, `""` and `"0"`. The model keeps that behaviour as written:

- `FalsyKeyReadsFirstRow` shows that a falsy key reads the owner's first row, whatever that row's key.
- `ZeroKeyReadsAnotherKey` shows `getMeta('0')` answering the value stored under another key.

## Model

| member | source | states |
|---|---|---|
| PhpValues.Lookup | src/HasMetaData.php:53 | Reading `$array[$k]` finds a value exactly when `$k` is one of the array's keys, and the value found is stored under `$k`. |
| PhpValues.Assign | src/HasMetaData.php:53 | `$array[$k] = $v` makes `$k` read `$v` and leaves every other key's value unchanged. A new key is appended at the end, and an existing key leaves the length unchanged. Every entry is the new one or an old one. |
| PhpValues.KeyIndex | src/HasMetaData.php:53 | Finds the position of an array's first entry with a key. No earlier entry has the key, and the result is the length exactly when none has it. |
| PhpValues.AssignPositions | src/HasMetaData.php:53 | `$array[$k] = $v` changes the first entry with `$k` in place and leaves every other entry at its position. |
| PhpValues.AssignKeys | src/HasMetaData.php:53 | Assigning adds exactly `$k` to the key set and keeps the keys distinct. |
| PhpValues.Assoc | src/HasMetaData.php:88-89 | The associative view is an array exactly when the value is an array or an object. |
| PhpValues.AssocObjectFree | src/HasMetaData.php:88-89 | A value containing no objects is its own associative view. |
| Json.Encode | src/HasMetaData.php:104 | `json_encode` text always starts as a JSON null, string, list or object does. |
| Json.Decode | src/HasMetaData.php:88 | What `json_decode(…, true)` yields contains no objects. When it yields an array, the text (after blanks) opens with `{` or `[`. |
| Json.DecodeEncode | src/HasMetaData.php:86-108 | `json_decode(json_encode($v), true)` yields `$v`'s associative view, for every value with distinct keys. |
| MetaStore.Attribute | database/migrations/2024_02_24_060933_create_meta_data_table.php:17 | The nullable text column reads back as PHP null or a string. |
| MetaStore.Column | database/migrations/2024_02_24_060933_create_meta_data_table.php:17 | Storing null or a string in the column and reading it back gives the same value. |
| MetaStore.MetaMembers | src/HasMetaData.php:19-22 | `meta()` holds exactly the table's rows whose `entity` pair is the owner. |
| MetaStore.Meta | src/HasMetaData.php:19-22 | `meta()` holds only rows naming the owner, and never more rows than the table. |
| MetaStore.Upsert | src/HasMetaData.php:34 | `updateOrCreate` adds at most one row. When it adds one, that row is the last, with the fresh id, the key and the text. Where the old rows end up is stated by MetaStore.UpsertAt. |
| MetaStore.Pluck | src/HasMetaData.php:53 | `pluck('value', 'key')` has distinct keys and at most one entry per row. |
| MetaStore.RowsFor | src/HasMetaData.php:76 | `meta()->where('key', $key)` holds exactly the rows of this owner with this key. |
| MetaStore.FirstIndexFor | src/HasMetaData.php:34 | Finds the position of the first row of this owner with this key. None is returned exactly when no such row exists. |
| MetaStore.Purge | src/HasMetaData.php:76 | `delete()` leaves exactly the rows that are not this owner's rows with this key. |
| MetaStore.LastWithKey | src/HasMetaData.php:53 | Finds the last row with a key, which is the one `pluck` keeps: it is a row of the query with the key, and no later row has the key. It is absent exactly when no row has that key. |
| MetaStore.UpsertAt | src/HasMetaData.php:34 | `updateOrCreate` either updates the first matching row in place or appends a row with a fresh id. |
| MetaStore.FirstIndexForFindsRowsFor | src/HasMetaData.php:34 | `first()` finds a row exactly when the key query selects one, and that row is the first one selected. |
| MetaStore.UpsertRowsFor | src/HasMetaData.php:34 | After `updateOrCreate`, its own owner and key hold the new value, in the first row or in a single new row. Every other owner and key keeps its rows. |
| MetaStore.UpsertFrame | src/HasMetaData.php:34 | `updateOrCreate` changes no row outside its own owner and key. |
| MetaStore.UpsertOtherOwner | src/HasMetaData.php:19-35 | setMeta on one owner leaves every other owner's relation equal. |
| MetaStore.UpsertLength | src/HasMetaData.php:34 | A row is added exactly when the owner has no row with the key. Overwriting adds none. |
| MetaStore.PurgeRowsFor | src/HasMetaData.php:76 | After delete, no row of that owner with that key is left. Every other owner and key keeps its rows. |
| MetaStore.PurgeAbsent | src/HasMetaData.php:76 | Deleting a key the owner does not have leaves the table unchanged. |
| MetaStore.PurgeOtherOwner | src/HasMetaData.php:74-77 | deleteMeta on one owner leaves every other owner's relation equal. |
| MetaStore.PurgeIdempotent | src/HasMetaData.php:76 | Deleting twice is the same as deleting once. |
| MetaStore.UpsertIds | src/HasMetaData.php:34 | Upsert keeps ids distinct and below the next id. |
| MetaStore.UpsertSingleValued | src/HasMetaData.php:34 | Upsert keeps at most one row per owner and key. |
| MetaStore.PurgeInvariants | src/HasMetaData.php:76 | Delete keeps ids distinct and below the next id, and keeps one row per owner and key. |
| MetaStore.PurgeDistinctIds | src/HasMetaData.php:76 | Delete keeps ids distinct. |
| MetaStore.PurgeSingleValued | src/HasMetaData.php:76 | Delete keeps at most one row per owner and key. |
| MetaStore.PluckLookup | src/HasMetaData.php:53 | `pluck('value', 'key')[$k]` is the value of the last row with key `$k`, and is absent when there is none. The plucked keys are distinct. |
| MetaStore.PluckAppendNew | src/HasMetaData.php:53 | Plucking one more row whose key is new appends exactly one entry. |
| HasMetaData.DecodeIfJson | src/HasMetaData.php:86-93 | A string whose JSON reading is an array becomes that array. Every other input (null, malformed JSON, JSON scalars) is returned unchanged. Values without objects stay without objects. |
| HasMetaData.EncodeIfEncodable | src/HasMetaData.php:101-108 | The result always fits the text column (null or a string). Values that are neither arrays nor objects are returned unchanged. |
| HasMetaData.Truthy | src/HasMetaData.php:48 | `when($key, …)` filters only for a non-empty string key. Every key of two or more characters filters, `"00"` included. |
| PhpValues.TruthyString | src/HasMetaData.php:48 | Every string of two or more characters is truthy in PHP, and a one-character string is falsy exactly when it is `"0"`. |
| HasMetaData.Query | src/HasMetaData.php:48-49 | getMeta's query selects exactly the owner's rows that carry the key when the key is truthy and that pass the callback when one is given. |
| HasMetaData.DecodeValues | src/HasMetaData.php:53 | `map(decodeIfJson)` keeps every key and its position and decodes each value. |
| HasMetaData.GetMeta | src/HasMetaData.php:46-54 | The result is a single value exactly when `$singleRecord` is set. Its content is stated by the lemmas below. |
| HasMetaData.GetAllMeta | src/HasMetaData.php:63-66 | getAllMeta always returns a collection. |
| HasMetaData.MetaDataTable.constructor | database/migrations/2024_02_24_060933_create_meta_data_table.php:14-19 | A new table is empty and satisfies the table invariant. |
| HasMetaData.MetaDataTable.SetMeta | src/HasMetaData.php:32-35 | The new rows are `updateOrCreate` of the encoded value. The table invariant (one row per owner and key) holds afterwards. A fresh id is spent only when a row is added, and an existing key adds no row. Other owners' rows are untouched. |
| HasMetaData.MetaDataTable.DeleteMeta | src/HasMetaData.php:74-77 | The new rows are the old ones without this owner's rows with this key, and none of those are left. Deleting an absent key changes nothing. Other owners' rows are untouched. The invariant holds afterwards. |
| MetaDataProperties.ReadStored | src/HasMetaData.php:86-108 | Decoding what setMeta stored for a value gives ReadBack of the value. |
| MetaDataProperties.StringReadBack | src/HasMetaData.php:86-108 | A string reads back unchanged exactly when it is not the JSON text of an array. |
| MetaDataProperties.ArrayReadBack | src/HasMetaData.php:86-108 | An array (without objects) reads back equal to itself, and null reads back as null. |
| MetaDataProperties.ObjectReadBack | src/HasMetaData.php:86-108 | An object reads back as the array of its properties. |
| MetaDataProperties.PlainTextIsNotDecoded | src/HasMetaData.php:88 | Text that does not open with `{` or `[` is never decoded. |
| MetaDataProperties.QueryByKey | src/HasMetaData.php:48 | With a truthy key and no callback, getMeta's query is `where('key', $key)`. |
| MetaDataProperties.QueryAll | src/HasMetaData.php:63-66 | With no key and no callback, getMeta's query is the owner's whole relation. |
| MetaDataProperties.QueryOwnRows | src/HasMetaData.php:48-49 | getMeta's query depends only on the owner's own rows. |
| MetaDataProperties.FalsyKeyQuery | src/HasMetaData.php:48 | A falsy key puts no key condition on the query. |
| MetaDataProperties.GetMetaByKey | src/HasMetaData.php:48-52 | getMeta with a truthy key, with no callback, as a single value, returns the decoded value of the owner's first row with that key, or null when there is none. |
| MetaDataProperties.QueryRefined | src/HasMetaData.php:48-49 | The callback filters the rows the key selects and keeps their table order. |
| MetaDataProperties.GetMetaByKeyRefined | src/HasMetaData.php:46-54 | With one row per owner and key, getMeta with a truthy key and any restricting callback gives that key's row when the callback passes it, and nothing otherwise. As a single value that is the decoded value or null. As a collection it is one entry for the key or none. |
| MetaDataProperties.QueryByKeySingle | src/HasMetaData.php:48-49 | With one row per owner and key, the query for a truthy key and a callback is that key's row when the callback passes it, and empty otherwise. |
| MetaDataProperties.FalsyKeyRefined | src/HasMetaData.php:46-52 | A single read with a falsy key and a callback gives the decoded value of the owner's first row the callback passes, or null. |
| MetaDataProperties.FalsyKeyAddsNoFilter | src/HasMetaData.php:48 | Any falsy key (`false`, `""`, `"0"`) gives the same result as key `false`. |
| MetaDataProperties.FalsyKeyReadsFirstRow | src/HasMetaData.php:48-52 | A single read with a falsy key returns the owner's first row, whatever that row's key. |
| MetaDataProperties.ZeroKeyReadsAnotherKey | src/HasMetaData.php:48-52 | `getMeta('0')` returns the value stored under another key ('colour'). |
| MetaDataProperties.SetThenGet | src/HasMetaData.php:32-54 | getMeta of a truthy key, with no callback, as a single value, after setMeta of that key returns ReadBack of the value, whatever rows existed before. |
| MetaDataProperties.SetThenGetOther | src/HasMetaData.php:32-54 | setMeta leaves getMeta, with no callback, as a single value, unchanged for every other owner or key. |
| MetaDataProperties.SetKeepsOtherOwners | src/HasMetaData.php:19-54 | setMeta on one owner changes nothing that any other owner's getMeta can see. This holds with any key, any restricting callback, single or collection. |
| MetaDataProperties.DeleteThenGet | src/HasMetaData.php:46-77 | getMeta, with no callback, as a single value, after deleteMeta of the same truthy key returns null. |
| MetaDataProperties.DeleteThenGetOther | src/HasMetaData.php:46-77 | deleteMeta leaves getMeta, with no callback, as a single value, unchanged for every other owner or key. |
| MetaDataProperties.DeleteKeepsOtherOwners | src/HasMetaData.php:46-77 | deleteMeta on one owner changes nothing that any other owner's getMeta can see, with any key, any restricting callback, single or collection. |
| MetaDataProperties.SingleValuedRowsFor | src/HasMetaData.php:34 | Under the table invariant, the key query finds at most one row. |
| MetaDataProperties.LookupDecodeValues | src/HasMetaData.php:53 | The decoded collection holds a key exactly when the plucked one does, with the decoded value. |
| MetaDataProperties.LastOwnRow | src/HasMetaData.php:53 | Under the invariant, the row `pluck` keeps for a key is the owner's only row with that key. |
| MetaDataProperties.GetAllMetaLookup | src/HasMetaData.php:53-66 | getAllMeta holds exactly the keys of the owner's rows, each with its row's decoded value. Its keys are distinct. |
| MetaDataProperties.DistinctDecodeValues | src/HasMetaData.php:53 | Decoding keeps the key set and its distinctness. |
| MetaDataProperties.GetAllAgreesWithGetMeta | src/HasMetaData.php:46-66 | With no callback, `getAllMeta()[$k]` equals `getMeta($k)` as a single value for every truthy key the owner has. |
| MetaDataProperties.SetThenGetAll | src/HasMetaData.php:32-66 | After setMeta, getAllMeta holds ReadBack of the value under its key and every other entry as before. |
| MetaDataProperties.DeleteThenGetAll | src/HasMetaData.php:53-77 | After deleteMeta, getAllMeta has no entry for the key and every other entry as before. |
| MetaDataProperties.ReadBackAll | src/HasMetaData.php:53 | Each entry keeps its key and position and reads back its value. |
| MetaStore.MetaAppend | src/HasMetaData.php:21 | Appending a row extends the owner's relation by that row exactly when the row is the owner's. |
| MetaStore.NewKeyAppends | src/HasMetaData.php:34 | setMeta with a key the owner lacks appends one row to the owner's relation. |
| MetaDataProperties.NewRows | src/HasMetaData.php:34 | The rows a run of setMeta calls gives a fresh owner: one per entry, in order, each with the entry's key and encoded value and with consecutive ids. |
| MetaDataProperties.MetaSetAll | src/HasMetaData.php:34 | setMeta for distinct keys, in turn, on an owner without meta data gives the owner exactly NewRows. |
| MetaDataProperties.MetaSetLast | src/HasMetaData.php:34 | When the owner's rows are those of the earlier distinct keys, setMeta of the last key appends exactly its row. |
| MetaDataProperties.NewRowsLackLastKey | src/HasMetaData.php:34 | With distinct keys, the rows set before the last entry do not carry its key, so the last setMeta appends. |
| MetaStore.PluckDistinct | src/HasMetaData.php:53 | Plucking rows with distinct keys keeps every row's key and value, in order. |
| MetaDataProperties.SetAllThenGetAll | src/HasMetaData.php:32-66 | setMeta for distinct keys, then getAllMeta, returns every key with its value read back, in the order set. |
| MetaDataScenarios.SetMetaStoresRow | tests/MetaDataTest.php:37-43 | After `setMeta('test_key', 'value')`, the table holds one row with that key, the text 'value' and the owner. |
| MetaDataScenarios.GetMetaReadsString | tests/MetaDataTest.php:45-51 | `getMeta('test_key')` returns 'value'. |
| MetaDataScenarios.GetAllMetaReadsStrings | tests/MetaDataTest.php:53-61 | `getAllMeta()` returns `['test_key' => 'value', 'test_key2' => 'value2']`. |
| MetaDataScenarios.GetMetaReadsArray | tests/MetaDataTest.php:63-69 | `getMeta('test_key')` after storing an array returns that array. This holds for any array without objects, `['value' => 'value']` included. |
| MetaDataScenarios.GetAllMetaReadsArrays | tests/MetaDataTest.php:71-78 | `getAllMeta()` after storing two arrays under two keys returns both arrays, keyed. |
| MetaDataScenarios.DeleteMetaRemovesRow | tests/MetaDataTest.php:80-87 | After setMeta and deleteMeta, no row of the owner with the key is left, and getMeta returns null. |
| MetaDataScenarios.OverwriteKeepsOneRow | src/HasMetaData.php:34 | Setting a key twice leaves one row, and getMeta returns the second value. |
| MetaDataScenarios.TwoSetsThenGetAll | tests/MetaDataTest.php:53-78 | Two setMeta calls with distinct keys on a fresh table, then getAllMeta, give both keys with their values read back, in order. |
| MetaDataScenarios.TwoSetsReadBack | tests/MetaDataTest.php:53-78 | Two values that read back as themselves, set under distinct keys on a fresh table, come back from getAllMeta keyed and in order. |

## Left out

- **Timestamps, ids and the framework's internals.** The `created_at`/`updated_at` columns and the id column's auto-increment are left out. Ids are handed out from a counter instead. The `MetaData` model's `fillable` list and `morphTo` inverse relation (src/MetaData.php:5-13) are also left out.
- **The query callback.** `$queryCallback` can be any callable on the query builder. It is modelled only as an optional predicate that further restricts the selected rows. A callback that reorders, joins or limits the query is not modelled.
- MetaDataProperties.SetKeepsOtherOwners and MetaDataProperties.DeleteKeepsOtherOwners: they hold only for callbacks that restrict the query. `meta()` adds its owner constraints as plain AND clauses (src/HasMetaData.php:21, 48-49). A widening callback such as `fn($q) => $q->orWhere('key', 'x')` therefore escapes the owner scope and reads other owners' rows. The source behaves this way, and the model cannot express it.
- **Row order.** `first()` and `get()` are assumed to return rows in insertion order. No ordering is set in the source, so the database decides.
- **Key comparison and column limits.** Keys are compared by exact string equality (`MetaStore.RowFor`). In the source, `where('key', $key)` (src/HasMetaData.php:34, 48, 76) compares under the database's collation. MySQL's default collation ignores case and trailing spaces, so there `setMeta('Foo', …)` overwrites a `'foo'` row. MetaStore.UpsertRowsFor and MetaDataProperties.SetThenGetOther therefore hold only under a binary collation. The 255-character limit of the `key` column and the size limit of the `value` text column are also not modelled (database/migrations/2024_02_24_060933_create_meta_data_table.php:16-17).
- **Key arguments.** The `$key` of `getMeta` is either `false`/`null` or a string. Integer keys, and PHP's conversion of numeric-string array keys to integers, are not modelled.
- **Scalars other than null and strings.** Integers, floats and booleans are left out, and so is their coercion by the text column. That coercion depends on the database driver.
- **The JSON codec covers a subset.** Nulls, strings, arrays and objects (public properties only) are covered. The following are not modelled:
  - JSON numbers, `true` and `false` (text holding them is treated as undecodable and returned as the string);
  - `\u` escaping of non-ASCII characters, which the model writes raw;
  - surrogate pairs;
  - the nesting-depth limit;
  - `json_encode` failures;
  - `JsonSerializable` objects.
- **`decodeIfJson`'s `$associative = false` path** returns objects. No public operation uses it.
- **Framework registration and database setup.** The service provider (src/MetaDataServiceProvider.php) and the migration's schema DDL are left out. The migration is modelled only as the shape of a row and an empty table.
- **Unsaved owners and database errors.** An owner is modelled with a natural-number id, so an owner that has not been saved yet has no representation. In the source, setMeta on such an owner inserts a NULL `entity_id`, which the NOT NULL columns of `morphs('entity')` reject (database/migrations/2024_02_24_060933_create_meta_data_table.php:18). More generally, every exception the database raises is passed on to the caller of setMeta, getMeta, getAllMeta or deleteMeta. The model's operations always succeed and have no such error path.
- **Concurrency.** Two concurrent `updateOrCreate` calls can race and create duplicate rows. The model is sequential.
- HasMetaData.GetMeta: its own contract states only which kind of result it returns. Its content is stated by lemmas. GetMetaByKeyRefined covers a truthy key with any restricting callback and either result kind, on a table with one row per owner and key. FalsyKeyRefined and FalsyKeyReadsFirstRow cover single reads with a falsy key. GetAllMetaLookup covers the collection with a falsy key and no callback. A collection read with a falsy key and a callback is stated only through QueryRefined.
- HasMetaData.GetAllMeta: its own contract states only that it returns a collection. Its content without a callback is stated by GetAllMetaLookup and SetAllThenGetAll. With a callback it is stated only through QueryRefined.
- MetaDataScenarios.GetAllMetaReadsArrays and MetaDataScenarios.GetMetaReadsArray: they are stated for any arrays without objects rather than the test's literal arrays, which they include.

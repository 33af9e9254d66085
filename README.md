# Metable: a verified model of the metadata trait

The `Metable` trait (codeforms/Metable, `Metable.php`) gives any Eloquent model
a key/value metadata store. The rows live in a `meta` table and are reached
through a polymorphic `morphMany` relation. Seen from one owning model, that
relation is an ordered list of `(key, value)` records. Every read of the trait
is a query over that list, and every write replaces it with a new one.

This project models exactly that:

- `wrappers.dfy`: module `Wrappers`, the `Option` type. PHP's `null` is `None`.
- `meta_records.dfy`: module `MetaRecords`.
  - `Record<V>(key, value)` is one meta row. `V` is the opaque JSON value.
  - The read operations `allMeta`, `hasMeta`, `getMeta`, `rawMeta` and
    `countMeta` are functions of the record list.
  - Each write is specified as a function from the old list to the new one:
    `WithoutKey`/`Deleted` for `deleteMeta`, `Updated` for `updateMeta`,
    `Saved` for `saveMeta` and `SavedAll` for bulk `setMeta`.
  - The lemmas state what the trait promises about these functions.
- `metable.dfy`: module `Metable`, class `Owner<V>`. It holds the owner's
  `records: seq<Record<V>>`. Its methods `CreateMeta`, `UpdateMeta`,
  `DeleteMeta`, `SaveMeta`, `SetMeta` and `SetMetaMany` change that field in
  place. Each one is proved to produce the list its specification function
  gives. `SetMetaMany` is the `foreach` over the pairs, with a loop invariant.

Two details of the PHP code are kept exactly.

- **Truthiness of the key.** `countMeta` and `deleteMeta` test `if($key)`, so
  `null`, `""`, `"0"` and an empty array all mean "every record". Through
  `hasMeta`, this reaches `getMeta` and `saveMeta`. `saveMeta` tests
  `isset($value)`, so only `null` deletes.
- **First match only.** `rawMeta` and `updateMeta` act on the first record with
  the key. "First" is taken to be the earliest inserted. The query has no
  `orderBy`, so this is an assumption about the database's row order.

The doc comment of `setMeta` (Metable.php:71-76) says it updates an existing
record and creates one otherwise. The code does that for every key except a
falsy one that no record has, on an owner with other records, and the model
follows the code:

- `SaveFalsyKeyIgnored`: writing a non-null value under `""` or `"0"` to an
  owner that has other records but none with that key changes nothing. This
  is because `hasMeta` counts every record and sends the write to
  `updateMeta`, which finds no row to update.
- `SaveNullDeletes`: `setMeta("0", null)` deletes every record of the owner.
- `GetMeta`: on such an owner, `getMeta("0")` reads `->value` from `null`.
  This is a PHP notice, which Laravel turns into an exception. The model
  returns `NullPropertyRead` for it.

For the same reason, the round trip `getMeta(k) == v` after `setMeta(k, v)`
(`SaveRoundTrip`) holds only when one of these is true: `k` is truthy, the
owner is empty, or a `k` record already exists.

`countMeta()` equals the size of `allMeta()` only when no key is repeated
(`AllMetaSize`). `pluck` keeps the value of the last record with each key, while
`getMeta` returns the value of the first.

## Model

| member | source | states |
|---|---|---|
| MetaRecords.AllMeta | Metable.php:17-20 | the keys of `allMeta` are exactly the keys of the owner's records, and each key maps to the value of the LAST record with that key |
| MetaRecords.LastIndex | Metable.php:19 | the position of the record with key `k` that no later record shares, or none when no record has `k`; this is the record whose value `pluck` keeps |
| MetaRecords.AllMetaAgreesWithGetMeta | Metable.php:17-20 | when no key repeats, `allMeta()[k]` is what `getMeta(k)` returns, and a key missing from `allMeta()` has no stored value |
| MetaRecords.AllMetaSize | Metable.php:17-20 | `allMeta()` never has more entries than `countMeta()`, and it has exactly as many if and only if no key repeats |
| MetaRecords.HasMeta | Metable.php:36-39 | `hasMeta` is true exactly when `countMeta` is non-zero. For a truthy key or key array, that means some record has one of the keys; for a falsy key, it means the owner has any record at all |
| MetaRecords.GetMeta | Metable.php:49-52 | returns a value exactly when a record has the key, and then it is the value of the first such record, as given by `rawMeta`. Otherwise it returns null, except for a falsy key on a non-empty owner, where the code reads a property of null |
| MetaRecords.RawMeta | Metable.php:62-68 | returns null exactly when no record has the key; otherwise it returns a record with that key that no earlier record shares, i.e. the first one |
| MetaRecords.FirstIndex | Metable.php:64 | `where('key', k)->first()`: the position of a record with key `k` that no earlier record shares, or none when no record has `k` |
| MetaRecords.CountMeta | Metable.php:122-128 | never more than the number of records; a falsy key (null, `""`, `"0"`, `[]`) counts every record |
| MetaRecords.CountIn | Metable.php:125 | the `whereIn` count is at most the number of records, and it is positive exactly when some record's key is in the list |
| MetaRecords.CountInOneKey | Metable.php:125 | `whereIn('key', [k])->count()` is the number of occurrences of `k` among the record keys |
| MetaRecords.CountKeyIsMultiplicity | Metable.php:122-128 | `countMeta(k)` for a truthy `k` is the number of records with key `k` |
| MetaRecords.CountInExtend | Metable.php:125 | adding a key to the `whereIn` list adds exactly that key's records, and a key already listed adds nothing |
| MetaRecords.CountKeysIsSum | Metable.php:122-128 | `countMeta([k1, ..., kn])` with distinct keys is the sum of the keys' occurrence counts |
| MetaRecords.CountUniqueKey | Metable.php:125 | when no two records share a key, a key that is present is counted exactly once |
| MetaRecords.WithoutKeyConcat | Metable.php:141-142 | deleting a key from a concatenation deletes it from each part and concatenates the results, so the kept records stay in their original order |
| MetaRecords.WithoutKey | Metable.php:141-142 | after `where('key', k)->delete()`, no record has key `k`. Exactly the `k` records are gone, and every record with another key is still there; with `WithoutKeyConcat` the kept records stay in their original order |
| MetaRecords.Deleted | Metable.php:139-145 | `deleteMeta`: every record left was there before and none has the key. A truthy key removes exactly its `countMeta` records (the order-keeping filter `WithoutKey`, see `WithoutKeyConcat`); no key or a falsy key leaves `countMeta()` at 0. `DeleteCounts` restates this through `hasMeta` and `countMeta` |
| MetaRecords.WithoutAbsentKey | Metable.php:141-142 | deleting a key that no record carries leaves the records unchanged |
| MetaRecords.Updated | Metable.php:204-214 | `updateMeta`: the number of records and every key stay the same, only the first record with the key can change, and when the key is present `getMeta` then returns the new value; with no such record nothing changes |
| MetaRecords.Saved | Metable.php:183-189 | `saveMeta`: at most one record is added. With a non-null value the key is present afterwards if and only if it was present before, or it is truthy, or the owner was empty (so a falsy key absent from a non-empty owner is lost); with null the key is gone. `SaveAbsentAppends`, `SavePresentUpdatesFirst`, `SaveNullDeletes` and `SaveFalsyKeyIgnored` give the exact new records case by case |
| MetaRecords.SavedAll | Metable.php:85-87 | bulk `setMeta`: at most one record per pair is added; the key of the last pair is gone when its value is null and present when the value is non-null and the key truthy. `SavedAllConcat` and `SavedAllKeepsUnique` characterise the fold |
| MetaRecords.DeleteKeepsOtherKeys | Metable.php:141-142 | deleting key `k` keeps the records of every other key, in their order |
| MetaRecords.DeleteKeepsOtherRawMeta | Metable.php:141-142 | deleting key `k` does not change what `rawMeta` returns for any other key |
| MetaRecords.DeleteCounts | Metable.php:139-145 | after `deleteMeta(k)` with a truthy `k`, the total count drops by `countMeta(k)` and `hasMeta(k)` is false; with no key or a falsy key, `countMeta()` is 0 |
| MetaRecords.WithoutKeyKeepsUnique | Metable.php:141-142 | deleting a key cannot make two records share a key |
| MetaRecords.SaveAbsentAppends | Metable.php:183-186 | with a non-null value, when no record has the key and the key is truthy or the owner is empty, `saveMeta` appends exactly `(k, v)` and leaves every existing record as it was |
| MetaRecords.SaveFalsyKeyIgnored | Metable.php:183-186 | with a non-null value and a key `""` or `"0"` that no record has, on an owner with records, `saveMeta` changes nothing and `getMeta` then reads a property of null |
| MetaRecords.SavePresentUpdatesFirst | Metable.php:204-214 | with a non-null value, when a record has the key, `saveMeta` replaces the value of the first such record only. The number of records is unchanged and every other record is untouched |
| MetaRecords.SaveRoundTrip | Metable.php:183-189 | after `setMeta(k, v)` with non-null `v`, `hasMeta(k)` holds and `getMeta(k)` returns `v`, whenever `k` is truthy, the owner is empty or `k` is already present |
| MetaRecords.SaveNullDeletes | Metable.php:185-188 | `setMeta(k, null)` leaves no `k` record and `hasMeta(k)` false. A truthy `k` removes only the `k` records; a falsy `k` removes every record |
| MetaRecords.SavedKeepsUnique | Metable.php:183-189 | `saveMeta` never gives a second record to a key, so keys that were distinct stay distinct |
| MetaRecords.SavedIdempotent | Metable.php:183-189 | writing the same pair twice leaves the same records as writing it once |
| MetaRecords.SetTwiceLeavesOneRecord | Metable.php:83-90 | on an owner whose keys are distinct, `setMeta(k, v)` twice leaves exactly one `k` record whenever `k` is truthy, the owner is empty or `k` is already present; for a truthy `k`, `countMeta(k)` is then 1 |
| MetaRecords.SavedAllConcat | Metable.php:85-87 | bulk `setMeta` on the pairs of `ps` followed by `qs` equals bulk `setMeta(ps)` followed by bulk `setMeta(qs)` |
| MetaRecords.SavedAllKeepsUnique | Metable.php:85-87 | bulk `setMeta` keeps distinct keys distinct |
| Metable.Owner.constructor | Metable.php:221-224 | the owner's metadata view starts as the rows its `meta()` relation holds |
| Metable.Owner.CreateMeta | Metable.php:158-164 | `create` appends `(key, value)` after the existing records. `getMeta(key)` then returns `value` if the key was new, and is otherwise unchanged |
| Metable.Owner.UpdateMeta | Metable.php:204-214 | the result is true exactly when a record has the key. Then only the first such record's value changes and `getMeta(key)` returns the new value; otherwise nothing changes. The record count never changes |
| Metable.Owner.DeleteMeta | Metable.php:139-145 | a truthy key removes exactly that key's records, keeping the rest in order (`Deleted`, `WithoutKeyConcat`). No key or a falsy key removes every record, so `countMeta()` is 0 |
| Metable.Owner.SaveMeta | Metable.php:183-189 | the new records are what `saveMeta` specifies: update the first record if `hasMeta(key)` holds, append otherwise, and delete on null |
| Metable.Owner.SetMeta | Metable.php:83-90 | single-key `setMeta` is `saveMeta`. With a non-null value it completes the round trip (`hasMeta` holds and `getMeta` returns the value written) whenever the key is truthy, the owner was empty or the key was already present; with null it leaves `hasMeta` false and `getMeta` null; it keeps distinct keys distinct |
| Metable.Owner.SetMetaMany | Metable.php:85-87 | array `setMeta` leaves exactly the records of `saveMeta` applied to each pair in order, and keeps distinct keys distinct |

## Left out

- `whereMeta` (Metable.php:99-111) is not modelled. It is a JSON-containment query that the database runs, and it reads an undefined `$jsonKey`, so its result is not determined by the code.
- The `meta()` relation, `morphMany` and the `(type, id)` owner wiring are not modelled. One `Owner` stands for one owning model's rows, and other owners' rows are never visible to it.
- Keys are compared as exact strings. The database compares `where('key', ...)` and `whereIn('key', ...)` under the column's collation (Laravel's default MySQL collation, `utf8mb4_unicode_ci`, ignores case and trailing spaces), which is not modelled, while `pluck` builds exact PHP array keys. Under such a collation `setMeta("Author", w)` updates an existing `author` record, where the model appends a new one.
- `Meta.php` is left out except for its fillable fields (`key`, `value`). The table name, the `json` cast on `value`, `timestamps = false` and `morphTo` are configuration with no logic.
- Values are opaque (`V`). JSON encoding and decoding is not modelled.
- Database failures, concurrent writers and transactions are not modelled. Each write is atomic in the model.
- Metable.Owner.SaveMeta: does not return what PHP returns (the `save()` boolean, the created model, the `delete()` count). Only the change of records is stated. `UpdateMeta` alone returns its boolean.
- Metable.Owner.SetMeta: does not return `saveMeta`'s result, for the same reason.
- Metable.Owner.DeleteMeta: does not model an array key. `where('key', $array)` binds the array in a way the code does not define.
- MetaRecords.AllMeta: does not model the order of the returned collection (keys in order of first appearance). It returns a map.
- MetaRecords.GetMeta: does not model a null or array key. `rawMeta` is modelled the same way.
- Metable.Owner.SetMetaMany: does not model PHP's conversion of integer-like array keys such as `"1"` to integers. Keys are taken as the strings written.
- "First record" is assumed to mean the earliest inserted. The query has no `orderBy`, so the real row order is whatever the database returns.
- `addMeta`, `metaByKeys`, key slugging and the cascade delete on owner deletion are not part of `Metable.php` at this revision.

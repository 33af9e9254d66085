/**
  The Metable trait's write side: the owning model's meta records, changed in
  place. Each method states the new record list as a function of the old one
  (module MetaRecords), plus what a caller can rely on afterwards.
*/
module Metable {
  import opened Wrappers
  import opened MetaRecords

  /** The metadata of one owning model: its meta records, earliest first. */
  class Owner<V> {
    var records: seq<Record<V>>

    /** An owner whose meta rows are `existing`. */
    constructor (existing: seq<Record<V>>)
      ensures records == existing
    {
      records := existing;
    }

    /** createMeta: a new row (key, value) is added after the existing ones. */
    method CreateMeta(key: string, value: V)
      modifies this
      ensures records == old(records) + [Record(key, value)]
      ensures GetMeta(records, key) == if HasKey(old(records), key) then GetMeta(old(records), key)
                                       else Found(value)
    {
      records := records + [Record(key, value)];
      if !HasKey(old(records), key) {
        assert records[|old(records)|].key == key;
        assert FirstIndex(records, key) == Some(|old(records)|);
      } else {
        var i := FirstIndex(old(records), key).value;
        assert records[i] == old(records)[i];
        assert FirstIndex(records, key) == Some(i);
      }
    }

    /**
      updateMeta: the earliest row with `key` gets `value`; `saved` is false,
      and nothing changes, when there is no such row.
    */
    method UpdateMeta(key: string, value: V) returns (saved: bool)
      modifies this
      ensures saved <==> HasKey(old(records), key)
      ensures records == Updated(old(records), key, value)
      ensures |records| == |old(records)|
      ensures saved ==> GetMeta(records, key) == Found(value)
    {
      match FirstIndex(records, key)
      case None =>
        saved := false;
      case Some(i) =>
        records := records[i := records[i].(value := value)];
        saved := true;
        SameKeysSameFirst(old(records), records, key);
    }

    /** deleteMeta: a truthy key removes that key's rows, null, "" or "0" removes every row. */
    method DeleteMeta(key: Option<string>)
      modifies this
      ensures records == Deleted(old(records), key)
      ensures key.Some? ==> !HasKey(records, key.value)
      ensures !(key.Some? && TruthyString(key.value)) ==> CountMeta(records, NoKey) == 0
    {
      if key.Some? && TruthyString(key.value) {
        records := WithoutKey(records, key.value);
      } else {
        records := [];
      }
    }

    /**
      saveMeta: a non-null value is written through updateMeta when hasMeta(key)
      holds and through createMeta otherwise; a null value goes to deleteMeta.
    */
    method SaveMeta(key: string, value: Option<V>)
      modifies this
      ensures records == Saved(old(records), key, value)
    {
      match value
      case Some(v) =>
        if HasMeta(records, Key(key)) {
          var _ := UpdateMeta(key, v);
        } else {
          CreateMeta(key, v);
        }
      case None =>
        DeleteMeta(Some(key));
    }

    /** setMeta with a single key: saveMeta(key, value), with the round trip it completes. */
    method SetMeta(key: string, value: Option<V>)
      modifies this
      ensures records == Saved(old(records), key, value)
      ensures value.Some? && (TruthyString(key) || old(records) == [] || HasKey(old(records), key)) ==>
                HasMeta(records, Key(key)) && GetMeta(records, key) == Found(value.value)
      ensures value.None? ==> !HasMeta(records, Key(key)) && GetMeta(records, key) == Null
      ensures UniqueKeys(old(records)) ==> UniqueKeys(records)
    {
      ghost var before := records;
      SaveMeta(key, value);
      if value.Some? && (TruthyString(key) || before == [] || HasKey(before, key)) {
        SaveRoundTrip(before, key, value.value);
      }
      SaveNullDeletes(before, key);
      if UniqueKeys(before) {
        SavedKeepsUnique(before, key, value);
      }
    }

    /** setMeta with an array: saveMeta on each (key, value) pair in turn. */
    method SetMetaMany(pairs: seq<(string, Option<V>)>)
      modifies this
      ensures records == SavedAll(old(records), pairs)
      ensures UniqueKeys(old(records)) ==> UniqueKeys(records)
    {
      var i := 0;
      while i < |pairs|
        invariant 0 <= i <= |pairs|
        invariant records == SavedAll(old(records), pairs[..i])
      {
        assert pairs[..i + 1][..i] == pairs[..i];
        SaveMeta(pairs[i].0, pairs[i].1);
        i := i + 1;
      }
      assert pairs[..i] == pairs;
      if UniqueKeys(old(records)) {
        SavedAllKeepsUnique(old(records), pairs);
      }
    }
  }
}

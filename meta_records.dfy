/**
  The meta records of one owner, as an ordered list (oldest first), and every
  query the Metable trait runs against them. The write operations are
  specified here as functions from the old list to the new one; the class in
  module Metable performs them in place.
*/
module MetaRecords {
  import opened Wrappers

  /** One row of the meta table seen from its owner: the fillable fields. */
  datatype Record<V> = Record(key: string, value: V)

  /** The `$key` argument of countMeta and hasMeta: null, one key, or an array of keys. */
  datatype KeyArg = NoKey | Key(name: string) | Keys(names: seq<string>)

  /**
    What getMeta hands back: a stored value, null, or the result of reading
    `->value` off a null record (a PHP notice; Laravel turns it into an exception).
  */
  datatype MetaValue<V> = Found(value: V) | Null | NullPropertyRead

  /** PHP truthiness of a string: only "" and "0" are false. */
  predicate TruthyString(s: string) {
    s != "" && s != "0"
  }

  /** PHP truthiness of the key argument: null is false, an array is true when non-empty. */
  predicate Truthy(key: KeyArg) {
    match key
    case NoKey => false
    case Key(name) => TruthyString(name)
    case Keys(names) => names != []
  }

  /** The list given to `whereIn('key', ...)`: a single key is wrapped in an array. */
  function WhereInKeys(key: KeyArg): seq<string> {
    match key
    case NoKey => []
    case Key(name) => [name]
    case Keys(names) => names
  }

  /** Some record carries key `k`. */
  ghost predicate HasKey<V>(rs: seq<Record<V>>, k: string) {
    exists i :: 0 <= i < |rs| && rs[i].key == k
  }

  /** No two records share a key (what saveMeta maintains on its own). */
  ghost predicate UniqueKeys<V>(rs: seq<Record<V>>) {
    forall i, j :: 0 <= i < j < |rs| ==> rs[i].key != rs[j].key
  }

  /** The keys of the records, in order. */
  function KeyList<V>(rs: seq<Record<V>>): (ks: seq<string>)
    ensures |ks| == |rs| && forall i :: 0 <= i < |rs| ==> ks[i] == rs[i].key
  {
    if rs == [] then [] else [rs[0].key] + KeyList(rs[1..])
  }

  // ---------------------------------------------------------------------
  // Reads
  // ---------------------------------------------------------------------

  /** `whereIn('key', keys)->count()`: the records whose key is among `keys`. */
  function CountIn<V>(rs: seq<Record<V>>, keys: seq<string>): (n: nat)
    ensures n <= |rs|
    ensures n > 0 <==> exists i :: 0 <= i < |rs| && rs[i].key in keys
  {
    if rs == [] then 0
    else
      var rest := CountIn(rs[1..], keys);
      assert forall i :: 1 <= i < |rs| ==> rs[i] == rs[1..][i - 1];
      (if rs[0].key in keys then 1 else 0) + rest
  }

  /** countMeta: a truthy key filters by key(s); null, "", "0" or [] counts every record. */
  function CountMeta<V>(rs: seq<Record<V>>, key: KeyArg): (n: nat)
    ensures n <= |rs|
    ensures !Truthy(key) ==> n == |rs|
  {
    if Truthy(key) then CountIn(rs, WhereInKeys(key)) else |rs|
  }

  /** hasMeta: true exactly when countMeta is non-zero. */
  function HasMeta<V>(rs: seq<Record<V>>, key: KeyArg): (b: bool)
    ensures b <==> CountMeta(rs, key) > 0
    ensures b <==> if Truthy(key) then exists i :: 0 <= i < |rs| && rs[i].key in WhereInKeys(key)
                                  else rs != []
  {
    CountMeta(rs, key) > 0
  }

  /** Position of the earliest record with key `k`. */
  function FirstIndex<V>(rs: seq<Record<V>>, k: string): (r: Option<nat>)
    ensures r.None? <==> !HasKey(rs, k)
    ensures r.Some? ==> r.value < |rs| && rs[r.value].key == k
                        && forall j :: 0 <= j < r.value ==> rs[j].key != k
  {
    if rs == [] then None
    else if rs[0].key == k then Some(0)
    else
      match FirstIndex(rs[1..], k)
      case None =>
        assert forall i :: 1 <= i < |rs| ==> rs[i] == rs[1..][i - 1];
        None
      case Some(i) => Some(i + 1)
  }

  /** rawMeta: `where('key', k)->first()`, the earliest record with key `k`, or null. */
  function RawMeta<V>(rs: seq<Record<V>>, k: string): (r: Option<Record<V>>)
    ensures r.None? <==> !HasKey(rs, k)
    ensures r.Some? ==> r.value.key == k
                        && exists i :: 0 <= i < |rs| && rs[i] == r.value
                                       && forall j :: 0 <= j < i ==> rs[j].key != k
  {
    match FirstIndex(rs, k)
    case None => None
    case Some(i) => Some(rs[i])
  }

  /**
    getMeta: `hasMeta(k) ? rawMeta(k)->value : null`. For a falsy `k` hasMeta
    counts every record, so on a non-empty list without a `k` record the code
    reads `->value` off null.
  */
  function GetMeta<V>(rs: seq<Record<V>>, k: string): (r: MetaValue<V>)
    ensures r.Found? <==> HasKey(rs, k)
    ensures RawMeta(rs, k).Some? ==> r == Found(RawMeta(rs, k).value.value)
    ensures RawMeta(rs, k).None? ==>
              r == if TruthyString(k) || rs == [] then Null else NullPropertyRead
  {
    if HasMeta(rs, Key(k)) then
      match RawMeta(rs, k)
      case Some(record) => Found(record.value)
      case None => NullPropertyRead
    else Null
  }

  /** Position of the latest record with key `k`. */
  function LastIndex<V>(rs: seq<Record<V>>, k: string): (r: Option<nat>)
    ensures r.None? <==> !HasKey(rs, k)
    ensures r.Some? ==> r.value < |rs| && rs[r.value].key == k
                        && forall j :: r.value < j < |rs| ==> rs[j].key != k
  {
    if rs == [] then None
    else if rs[|rs| - 1].key == k then Some(|rs| - 1)
    else
      var init := rs[..|rs| - 1];
      assert forall i :: 0 <= i < |init| ==> init[i] == rs[i];
      LastIndex(init, k)
  }

  /**
    allMeta: `pluck('value', 'key')`, a key-to-value mapping built in record
    order, so a later record overwrites an earlier one with the same key.
  */
  function AllMeta<V>(rs: seq<Record<V>>): (m: map<string, V>)
    ensures forall k :: k in m <==> HasKey(rs, k)
    ensures forall k :: k in m ==> LastIndex(rs, k).Some? && m[k] == rs[LastIndex(rs, k).value].value
  {
    if rs == [] then map[]
    else
      var init := rs[..|rs| - 1];
      var last := rs[|rs| - 1];
      assert forall i :: 0 <= i < |init| ==> init[i] == rs[i];
      AllMeta(init)[last.key := last.value]
  }

  // ---------------------------------------------------------------------
  // Writes, as functions of the old record list
  // ---------------------------------------------------------------------

  /** `where('key', k)->delete()`: every record with key `k` goes, the rest keep their order. */
  function WithoutKey<V>(rs: seq<Record<V>>, k: string): (r: seq<Record<V>>)
    ensures !HasKey(r, k)
    ensures |r| + CountIn(rs, [k]) == |rs|
    ensures forall i :: 0 <= i < |r| ==> r[i] in rs && r[i].key != k
    ensures forall i :: 0 <= i < |rs| && rs[i].key != k ==> rs[i] in r
  {
    if rs == [] then []
    else if rs[0].key == k then WithoutKey(rs[1..], k)
    else [rs[0]] + WithoutKey(rs[1..], k)
  }

  /** deleteMeta: a truthy key deletes that key's records, anything else deletes them all. */
  function Deleted<V>(rs: seq<Record<V>>, key: Option<string>): (r: seq<Record<V>>)
    ensures forall i :: 0 <= i < |r| ==> r[i] in rs
    ensures key.Some? ==> !HasKey(r, key.value)
    ensures key.Some? && TruthyString(key.value) ==> |r| + CountIn(rs, [key.value]) == |rs|
    ensures !(key.Some? && TruthyString(key.value)) ==> CountMeta(r, NoKey) == 0
  {
    if key.Some? && TruthyString(key.value) then WithoutKey(rs, key.value) else []
  }

  /** updateMeta: set the value of the earliest record with key `k`; no such record, no change. */
  function Updated<V>(rs: seq<Record<V>>, k: string, v: V): (r: seq<Record<V>>)
    ensures |r| == |rs|
    ensures forall i :: 0 <= i < |rs| ==> r[i].key == rs[i].key
    ensures forall i :: 0 <= i < |rs| && FirstIndex(rs, k) != Some(i) ==> r[i] == rs[i]
    ensures HasKey(rs, k) ==> GetMeta(r, k) == Found(v)
  {
    match FirstIndex(rs, k)
    case None => rs
    case Some(i) =>
      var r := rs[i := rs[i].(value := v)];
      SameKeysSameFirst(rs, r, k);
      r
  }

  /**
    saveMeta: a non-null value updates when hasMeta(k) holds and is appended
    otherwise; a null value deletes through deleteMeta(k).
  */
  function Saved<V>(rs: seq<Record<V>>, k: string, v: Option<V>): (r: seq<Record<V>>)
    ensures |r| <= |rs| + 1
    ensures v.Some? ==> (HasKey(r, k) <==> HasKey(rs, k) || TruthyString(k) || rs == [])
    ensures v.None? ==> !HasKey(r, k)
  {
    match v
    case Some(x) =>
      if HasMeta(rs, Key(k)) then Updated(rs, k, x)
      else
        var r := rs + [Record(k, x)];
        assert r[|rs|].key == k;
        r
    case None => Deleted(rs, Some(k))
  }

  /** Bulk setMeta: saveMeta on each (key, value) pair, in order. */
  function SavedAll<V>(rs: seq<Record<V>>, pairs: seq<(string, Option<V>)>): (r: seq<Record<V>>)
    ensures |r| <= |rs| + |pairs|
    ensures pairs != [] && pairs[|pairs| - 1].1.None? ==> !HasKey(r, pairs[|pairs| - 1].0)
    ensures pairs != [] && pairs[|pairs| - 1].1.Some? && TruthyString(pairs[|pairs| - 1].0) ==>
              HasKey(r, pairs[|pairs| - 1].0)
  {
    if pairs == [] then rs
    else
      var last := pairs[|pairs| - 1];
      Saved(SavedAll(rs, pairs[..|pairs| - 1]), last.0, last.1)
  }

  /** The records with key `k`, in order. */
  function OnlyKey<V>(rs: seq<Record<V>>, k: string): (r: seq<Record<V>>)
    ensures forall i :: 0 <= i < |r| ==> r[i].key == k
  {
    if rs == [] then []
    else if rs[0].key == k then [rs[0]] + OnlyKey(rs[1..], k)
    else OnlyKey(rs[1..], k)
  }

  // ---------------------------------------------------------------------
  // Properties of the reads
  // ---------------------------------------------------------------------

  /** The records counted for one key are the occurrences of that key. */
  lemma {:induction false} CountInOneKey<V>(rs: seq<Record<V>>, k: string)
    ensures CountIn(rs, [k]) == multiset(KeyList(rs))[k]
  {
    if rs != [] {
      CountInOneKey(rs[1..], k);
      assert KeyList(rs) == [rs[0].key] + KeyList(rs[1..]);
    }
  }

  /** countMeta with one truthy key is the number of records carrying that key. */
  lemma CountKeyIsMultiplicity<V>(rs: seq<Record<V>>, k: string)
    requires TruthyString(k)
    ensures CountMeta(rs, Key(k)) == multiset(KeyList(rs))[k]
  {
    CountInOneKey(rs, k);
  }

  /** Adding a key to the whereIn list adds its records, unless it is already listed. */
  lemma {:induction false} CountInExtend<V>(rs: seq<Record<V>>, ks: seq<string>, k: string)
    ensures k !in ks ==> CountIn(rs, ks + [k]) == CountIn(rs, ks) + CountIn(rs, [k])
    ensures k in ks ==> CountIn(rs, ks + [k]) == CountIn(rs, ks)
  {
    if rs != [] {
      CountInExtend(rs[1..], ks, k);
    }
  }

  /** The occurrences of the listed keys, added up key by key. */
  ghost function Occurrences<V>(rs: seq<Record<V>>, ks: seq<string>): nat {
    if ks == [] then 0
    else Occurrences(rs, ks[..|ks| - 1]) + multiset(KeyList(rs))[ks[|ks| - 1]]
  }

  /** countMeta with an array of distinct keys is the sum of their occurrences. */
  lemma {:induction false} CountKeysIsSum<V>(rs: seq<Record<V>>, ks: seq<string>)
    requires forall i, j :: 0 <= i < j < |ks| ==> ks[i] != ks[j]
    ensures CountIn(rs, ks) == Occurrences(rs, ks)
    ensures ks != [] ==> CountMeta(rs, Keys(ks)) == Occurrences(rs, ks)
  {
    if ks != [] {
      var init, k := ks[..|ks| - 1], ks[|ks| - 1];
      assert ks == init + [k];
      assert k !in init by {
        forall i | 0 <= i < |init| ensures init[i] != k {
          assert init[i] == ks[i];
        }
      }
      CountKeysIsSum(rs, init);
      CountInExtend(rs, init, k);
      CountInOneKey(rs, k);
      calc {
        CountIn(rs, ks);
        CountIn(rs, init) + CountIn(rs, [k]);
        Occurrences(rs, init) + multiset(KeyList(rs))[k];
      }
    }
  }

  /** When no two records share a key, a present key is counted once. */
  lemma {:induction false} CountUniqueKey<V>(rs: seq<Record<V>>, k: string)
    requires UniqueKeys(rs) && HasKey(rs, k)
    ensures CountIn(rs, [k]) == 1
  {
    if rs[0].key == k {
      assert !HasKey(rs[1..], k) by {
        forall i | 0 <= i < |rs[1..]| ensures rs[1..][i].key != k {
          assert rs[1..][i] == rs[i + 1];
        }
      }
    } else {
      var i :| 0 <= i < |rs| && rs[i].key == k;
      assert rs[1..][i - 1] == rs[i];
      CountUniqueKey(rs[1..], k);
    }
  }

  /**
    getMeta agrees with allMeta when no key is repeated; with repeated keys
    getMeta sees the earliest record and allMeta the latest.
  */
  lemma AllMetaAgreesWithGetMeta<V>(rs: seq<Record<V>>, k: string)
    requires UniqueKeys(rs)
    ensures k in AllMeta(rs) ==> GetMeta(rs, k) == Found(AllMeta(rs)[k])
    ensures k !in AllMeta(rs) ==> !GetMeta(rs, k).Found?
  {
    var m := AllMeta(rs);
    if k in m {
      var i := LastIndex(rs, k).value;
      var j := FirstIndex(rs, k).value;
      assert i == j;
    }
  }

  /** Keys stay distinct after appending a record exactly when its key is new. */
  lemma UniqueSnoc<V>(rs: seq<Record<V>>, last: Record<V>)
    ensures UniqueKeys(rs + [last]) <==> UniqueKeys(rs) && !HasKey(rs, last.key)
  {
    var r := rs + [last];
    assert forall i :: 0 <= i < |rs| ==> r[i] == rs[i];
    assert r[|rs|] == last;
    if UniqueKeys(r) {
      forall i | 0 <= i < |rs| ensures rs[i].key != last.key {
        assert r[i].key != r[|rs|].key;
      }
    }
  }

  /** One more entry grows a map by one exactly when its key is new. */
  lemma MapUpdateSize<K, W>(m: map<K, W>, k: K, w: W)
    ensures k in m ==> |m[k := w]| == |m|
    ensures k !in m ==> |m[k := w]| == |m| + 1
  {
    if k in m {
      assert m[k := w].Keys == m.Keys;
    } else {
      assert m[k := w].Keys == m.Keys + {k};
    }
  }

  /** countMeta() equals the size of allMeta() exactly when no key is repeated. */
  lemma {:induction false} AllMetaSize<V>(rs: seq<Record<V>>)
    ensures |AllMeta(rs)| <= CountMeta(rs, NoKey)
    ensures |AllMeta(rs)| == CountMeta(rs, NoKey) <==> UniqueKeys(rs)
  {
    if rs != [] {
      var init := rs[..|rs| - 1];
      var last := rs[|rs| - 1];
      assert rs == init + [last];
      AllMetaSize(init);
      UniqueSnoc(init, last);
      var m := AllMeta(init);
      assert AllMeta(rs) == m[last.key := last.value];
      assert last.key in m <==> HasKey(init, last.key);
      MapUpdateSize(m, last.key, last.value);
    }
  }

  // ---------------------------------------------------------------------
  // Properties of the writes
  // ---------------------------------------------------------------------

  /** Writes that keep every key in place leave every "first record" lookup unchanged. */
  lemma SameKeysSameFirst<V>(rs: seq<Record<V>>, rs': seq<Record<V>>, k: string)
    requires |rs| == |rs'| && forall i :: 0 <= i < |rs| ==> rs[i].key == rs'[i].key
    ensures FirstIndex(rs, k) == FirstIndex(rs', k)
  {
    var a, b := FirstIndex(rs, k), FirstIndex(rs', k);
    if a.Some? { assert rs'[a.value].key == k; }
    if b.Some? { assert rs[b.value].key == k; }
  }

  /** Deleting a key no record carries changes nothing. */
  lemma {:induction false} WithoutAbsentKey<V>(rs: seq<Record<V>>, k: string)
    requires !HasKey(rs, k)
    ensures WithoutKey(rs, k) == rs
  {
    if rs != [] {
      assert rs[0].key != k;
      assert !HasKey(rs[1..], k) by {
        forall i | 0 <= i < |rs[1..]| ensures rs[1..][i].key != k {
          assert rs[1..][i] == rs[i + 1];
        }
      }
      WithoutAbsentKey(rs[1..], k);
    }
  }

  /** rawMeta skips a leading record with another key. */
  lemma RawMetaTail<V>(rs: seq<Record<V>>, k: string)
    requires rs != [] && rs[0].key != k
    ensures RawMeta(rs, k) == RawMeta(rs[1..], k)
  {
    match FirstIndex(rs[1..], k)
    case None =>
    case Some(i) => assert rs[1..][i] == rs[i + 1];
  }

  /** deleteMeta(k) keeps the records of every other key, in their order. */
  lemma {:induction false} DeleteKeepsOtherKeys<V>(rs: seq<Record<V>>, k: string, other: string)
    requires other != k
    ensures OnlyKey(WithoutKey(rs, k), other) == OnlyKey(rs, other)
  {
    if rs != [] {
      DeleteKeepsOtherKeys(rs[1..], k, other);
      var w := WithoutKey(rs[1..], k);
      if rs[0].key != k {
        assert WithoutKey(rs, k) == [rs[0]] + w;
        assert ([rs[0]] + w)[1..] == w;
      }
    }
  }

  /** deleteMeta(k) keeps what rawMeta returns for every other key. */
  lemma {:induction false} DeleteKeepsOtherRawMeta<V>(rs: seq<Record<V>>, k: string, other: string)
    requires other != k
    ensures RawMeta(WithoutKey(rs, k), other) == RawMeta(rs, other)
  {
    if rs != [] && rs[0].key != other {
      DeleteKeepsOtherRawMeta(rs[1..], k, other);
      RawMetaTail(rs, other);
      var w := WithoutKey(rs[1..], k);
      if rs[0].key != k {
        assert WithoutKey(rs, k) == [rs[0]] + w;
        assert ([rs[0]] + w)[1..] == w;
        RawMetaTail([rs[0]] + w, other);
      }
    } else if rs != [] {
      var w := WithoutKey(rs[1..], k);
      assert WithoutKey(rs, k) == [rs[0]] + w;
      assert FirstIndex([rs[0]] + w, other) == Some(0);
    }
  }

  /** countMeta after deleteMeta: a truthy key loses exactly its records, anything else empties the owner. */
  lemma DeleteCounts<V>(rs: seq<Record<V>>, key: Option<string>)
    ensures key.Some? && TruthyString(key.value) ==>
              CountMeta(Deleted(rs, key), NoKey) == |rs| - CountMeta(rs, Key(key.value))
              && !HasMeta(Deleted(rs, key), Key(key.value))
    ensures !(key.Some? && TruthyString(key.value)) ==> CountMeta(Deleted(rs, key), NoKey) == 0
  {
  }

  /** setMeta(k, v) on an owner without a `k` record appends (k, v) and leaves the others alone. */
  lemma SaveAbsentAppends<V>(rs: seq<Record<V>>, k: string, v: V)
    requires !HasKey(rs, k)
    requires TruthyString(k) || rs == []
    ensures Saved(rs, k, Some(v)) == rs + [Record(k, v)]
  {
  }

  /**
    A falsy key ("" or "0") that no record carries, written to an owner that
    has other records, is lost: hasMeta counts all records, so the update path
    runs and finds no record to change.
  */
  lemma SaveFalsyKeyIgnored<V>(rs: seq<Record<V>>, k: string, v: V)
    requires !TruthyString(k) && rs != [] && !HasKey(rs, k)
    ensures Saved(rs, k, Some(v)) == rs
    ensures GetMeta(Saved(rs, k, Some(v)), k) == NullPropertyRead
  {
  }

  /** setMeta(k, v) on an owner with a `k` record rewrites the value of the earliest one only. */
  lemma SavePresentUpdatesFirst<V>(rs: seq<Record<V>>, k: string, v: V, i: nat)
    requires FirstIndex(rs, k) == Some(i)
    ensures |Saved(rs, k, Some(v))| == |rs|
    ensures Saved(rs, k, Some(v))[i] == Record(k, v)
    ensures forall j :: 0 <= j < |rs| && j != i ==> Saved(rs, k, Some(v))[j] == rs[j]
  {
  }

  /** Round trip: after setMeta(k, v), hasMeta(k) holds and getMeta(k) returns v. */
  lemma SaveRoundTrip<V>(rs: seq<Record<V>>, k: string, v: V)
    requires TruthyString(k) || rs == [] || HasKey(rs, k)
    ensures HasMeta(Saved(rs, k, Some(v)), Key(k))
    ensures GetMeta(Saved(rs, k, Some(v)), k) == Found(v)
  {
    var r := Saved(rs, k, Some(v));
    if HasMeta(rs, Key(k)) {
      SameKeysSameFirst(rs, r, k);
    } else {
      assert r == rs + [Record(k, v)];
      assert r[|rs|].key == k;
      assert FirstIndex(r, k) == Some(|rs|);
    }
  }

  /**
    setMeta(k, null) leaves no `k` record: a truthy key removes just those
    records, a falsy one removes all.
  */
  lemma SaveNullDeletes<V>(rs: seq<Record<V>>, k: string)
    ensures !HasKey(Saved(rs, k, None), k) && !HasMeta(Saved(rs, k, None), Key(k))
    ensures TruthyString(k) ==> Saved(rs, k, None) == WithoutKey(rs, k)
    ensures !TruthyString(k) ==> Saved(rs, k, None) == []
  {
  }

  /** Keys stay distinct after prepending a record exactly when its key is new. */
  lemma UniqueCons<V>(first: Record<V>, rs: seq<Record<V>>)
    ensures UniqueKeys([first] + rs) <==> UniqueKeys(rs) && !HasKey(rs, first.key)
  {
    var r := [first] + rs;
    assert forall i :: 0 <= i < |rs| ==> r[i + 1] == rs[i];
    if UniqueKeys(r) {
      forall i | 0 <= i < |rs| ensures rs[i].key != first.key {
        assert r[0].key != r[i + 1].key;
      }
      forall i, j | 0 <= i < j < |rs| ensures rs[i].key != rs[j].key {
        assert r[i + 1].key != r[j + 1].key;
      }
    }
  }

  /** Concatenation is associative (kept apart from the record lemmas, whose context makes it costly). */
  lemma ConcatAssoc<T>(p: seq<T>, q: seq<T>, r: seq<T>)
    ensures p + (q + r) == (p + q) + r
  {
  }

  /** Deleting key `k` drops a leading record with key `k` and keeps one with another key. */
  lemma WithoutKeyCons<V>(x: Record<V>, rs: seq<Record<V>>, k: string)
    ensures WithoutKey([x] + rs, k) == if x.key == k then WithoutKey(rs, k) else [x] + WithoutKey(rs, k)
  {
    assert ([x] + rs)[0] == x && ([x] + rs)[1..] == rs;
  }

  /** Deleting a key filters each part of a list separately: the kept records stay in their order. */
  lemma {:induction false} WithoutKeyConcat<V>(a: seq<Record<V>>, b: seq<Record<V>>, k: string)
    ensures WithoutKey(a + b, k) == WithoutKey(a, k) + WithoutKey(b, k)
  {
    if a == [] {
      assert a + b == b;
    } else {
      var x, tail := a[0], a[1..];
      assert a == [x] + tail;
      assert a + b == [x] + (tail + b);
      WithoutKeyConcat(tail, b, k);
      WithoutKeyCons(x, tail + b, k);
      WithoutKeyCons(x, tail, k);
      var p, q := WithoutKey(tail, k), WithoutKey(b, k);
      if x.key != k {
        ConcatAssoc([x], p, q);
      }
    }
  }

  /** deleteMeta keeps keys distinct. */
  lemma {:induction false} WithoutKeyKeepsUnique<V>(rs: seq<Record<V>>, k: string)
    requires UniqueKeys(rs)
    ensures UniqueKeys(WithoutKey(rs, k))
  {
    if rs != [] {
      var tail := rs[1..];
      assert rs == [rs[0]] + tail;
      UniqueCons(rs[0], tail);
      WithoutKeyKeepsUnique(tail, k);
      var w := WithoutKey(tail, k);
      if rs[0].key != k {
        assert !HasKey(w, rs[0].key) by {
          forall i | 0 <= i < |w| ensures w[i].key != rs[0].key {
            assert w[i] in tail;
          }
        }
        UniqueCons(rs[0], w);
      }
    }
  }

  /** saveMeta never creates a second record for a key: distinct keys stay distinct. */
  lemma SavedKeepsUnique<V>(rs: seq<Record<V>>, k: string, v: Option<V>)
    requires UniqueKeys(rs)
    ensures UniqueKeys(Saved(rs, k, v))
  {
    match v
    case None =>
      if TruthyString(k) { WithoutKeyKeepsUnique(rs, k); }
    case Some(x) =>
      if HasMeta(rs, Key(k)) {
        SameKeysSameFirst(rs, Saved(rs, k, v), k);
      }
  }

  /** saveMeta is idempotent: writing the same pair twice equals writing it once. */
  lemma SavedIdempotent<V>(rs: seq<Record<V>>, k: string, v: Option<V>)
    ensures Saved(Saved(rs, k, v), k, v) == Saved(rs, k, v)
  {
    var r := Saved(rs, k, v);
    match v
    case None =>
      if TruthyString(k) { WithoutAbsentKey(r, k); }
    case Some(x) =>
      if HasMeta(rs, Key(k)) {
        SameKeysSameFirst(rs, r, k);
        assert HasMeta(r, Key(k));
      } else {
        assert r == rs + [Record(k, x)];
        assert r[|rs|].key == k;
        assert FirstIndex(r, k) == Some(|rs|);
      }
  }

  /**
    setMeta(k, v) twice on an owner whose keys are distinct leaves exactly one
    `k` record, whenever the write is not lost to a falsy key.
  */
  lemma SetTwiceLeavesOneRecord<V>(rs: seq<Record<V>>, k: string, v: V)
    requires UniqueKeys(rs) && (TruthyString(k) || rs == [] || HasKey(rs, k))
    ensures CountIn(Saved(Saved(rs, k, Some(v)), k, Some(v)), [k]) == 1
    ensures TruthyString(k) ==> CountMeta(Saved(Saved(rs, k, Some(v)), k, Some(v)), Key(k)) == 1
  {
    SavedIdempotent(rs, k, Some(v));
    SavedKeepsUnique(rs, k, Some(v));
    SaveRoundTrip(rs, k, v);
    CountUniqueKey(Saved(rs, k, Some(v)), k);
  }

  /** Bulk setMeta over a concatenation is the second batch applied after the first. */
  lemma {:induction false} SavedAllConcat<V>(rs: seq<Record<V>>, ps: seq<(string, Option<V>)>, qs: seq<(string, Option<V>)>)
    ensures SavedAll(rs, ps + qs) == SavedAll(SavedAll(rs, ps), qs)
  {
    if qs == [] {
      assert ps + qs == ps;
    } else {
      SavedAllConcat(rs, ps, qs[..|qs| - 1]);
      assert (ps + qs)[..|ps + qs| - 1] == ps + qs[..|qs| - 1];
    }
  }

  /** Bulk setMeta keeps keys distinct. */
  lemma {:induction false} SavedAllKeepsUnique<V>(rs: seq<Record<V>>, pairs: seq<(string, Option<V>)>)
    requires UniqueKeys(rs)
    ensures UniqueKeys(SavedAll(rs, pairs))
  {
    if pairs != [] {
      var last := pairs[|pairs| - 1];
      SavedAllKeepsUnique(rs, pairs[..|pairs| - 1]);
      SavedKeepsUnique(SavedAll(rs, pairs[..|pairs| - 1]), last.0, last.1);
    }
  }
}

/**
 The abstract value of an object: an insertion-ordered association list with distinct keys.
 `V` is whatever a field's value is at the level of abstraction at hand.
 */
module OrderedFields {

  datatype Field<K, V> = Field(key: K, typeId: nat, value: V)

  ghost predicate Distinct<K, V>(fields: seq<Field<K, V>>) {
    forall i, j :: 0 <= i < j < |fields| ==> fields[i].key != fields[j].key
  }

  ghost predicate Absent<K, V>(fields: seq<Field<K, V>>, key: K) {
    forall i :: 0 <= i < |fields| ==> fields[i].key != key
  }

  /** Position of the first field with this key; |fields| when there is none. */
  function IndexOf<K(==), V>(fields: seq<Field<K, V>>, key: K): (i: nat)
    ensures i <= |fields|
    ensures i < |fields| ==> fields[i].key == key
    ensures forall j :: 0 <= j < i ==> fields[j].key != key
  {
    if fields == [] || fields[0].key == key then 0 else 1 + IndexOf(fields[1..], key)
  }

  predicate Has<K(==), V>(fields: seq<Field<K, V>>, key: K) {
    IndexOf(fields, key) < |fields|
  }

  /** Overwrite the value of a present key where it stands; append an absent one. */
  function Put<K(==), V>(fields: seq<Field<K, V>>, key: K, typeId: nat, value: V): seq<Field<K, V>> {
    var i := IndexOf(fields, key);
    if i < |fields| then fields[i := Field(key, typeId, value)]
    else fields + [Field(key, typeId, value)]
  }

  /** Drop the field with this key, keeping the order of the others. */
  function Without<K(==), V>(fields: seq<Field<K, V>>, key: K): seq<Field<K, V>> {
    var i := IndexOf(fields, key);
    if i < |fields| then fields[..i] + fields[i + 1..] else fields
  }

  /** The finite map an association list stands for. */
  ghost function ToMap<K(!new), V>(fields: seq<Field<K, V>>): map<K, (nat, V)> {
    map k: K | k in KeySet(fields) :: (fields[IndexOf(fields, k)].typeId, fields[IndexOf(fields, k)].value)
  }

  ghost function KeySet<K(!new), V>(fields: seq<Field<K, V>>): (keys: set<K>)
    ensures forall k :: k in keys <==> Has(fields, k)
  {
    var keys := set i | 0 <= i < |fields| :: fields[i].key;
    assert forall k :: Has(fields, k) ==> fields[IndexOf(fields, k)].key in keys;
    keys
  }

  lemma IndexIs<K, V>(fields: seq<Field<K, V>>, i: nat)
    requires Distinct(fields) && i < |fields|
    ensures IndexOf(fields, fields[i].key) == i
  {
    assert IndexOf(fields, fields[i].key) <= i;
  }

  lemma AbsentIsNotHas<K, V>(fields: seq<Field<K, V>>, key: K)
    ensures Absent(fields, key) <==> !Has(fields, key)
  {
  }

  lemma PutKeepsDistinct<K, V>(fields: seq<Field<K, V>>, key: K, typeId: nat, value: V)
    requires Distinct(fields)
    ensures Distinct(Put(fields, key, typeId, value))
  {
  }

  lemma IndexAfterPut<K, V>(fields: seq<Field<K, V>>, key: K, typeId: nat, value: V, k: K)
    requires Distinct(fields)
    ensures var after := Put(fields, key, typeId, value);
            IndexOf(after, k) == if k == key || Has(fields, k) then IndexOf(fields, k) else |after|
  {
    var after := Put(fields, key, typeId, value);
    PutKeepsDistinct(fields, key, typeId, value);
    if k == key || Has(fields, k) {
      assert after[IndexOf(fields, k)].key == k;
      IndexIs(after, IndexOf(fields, k));
    } else {
      assert forall i :: 0 <= i < |fields| ==> fields[i].key != k;
      assert Absent(after, k);
    }
  }

  lemma PutIsMapUpdate<K(!new), V>(fields: seq<Field<K, V>>, key: K, typeId: nat, value: V)
    requires Distinct(fields)
    ensures Distinct(Put(fields, key, typeId, value))
    ensures ToMap(Put(fields, key, typeId, value)) == ToMap(fields)[key := (typeId, value)]
  {
    PutKeepsDistinct(fields, key, typeId, value);
    var left, right := ToMap(Put(fields, key, typeId, value)), ToMap(fields)[key := (typeId, value)];
    forall k: K
      ensures k in left <==> k in right
      ensures k in left ==> left[k] == right[k]
    {
      IndexAfterPut(fields, key, typeId, value, k);
    }
  }

  lemma WithoutKeepsDistinct<K, V>(fields: seq<Field<K, V>>, key: K)
    requires Distinct(fields)
    ensures Distinct(Without(fields, key)) && Absent(Without(fields, key), key)
    ensures |Without(fields, key)| == |fields| - (if Has(fields, key) then 1 else 0)
  {
    var after, at := Without(fields, key), IndexOf(fields, key);
    forall i | 0 <= i < |after|
      ensures after[i] == fields[if i < at then i else i + 1] && after[i].key != key
    {
    }
  }

  lemma LookupAfterWithout<K, V>(fields: seq<Field<K, V>>, key: K, k: K)
    requires Distinct(fields) && k != key
    ensures var after := Without(fields, key);
            && (Has(after, k) <==> Has(fields, k))
            && (Has(after, k) ==> after[IndexOf(after, k)] == fields[IndexOf(fields, k)])
  {
    var after, at := Without(fields, key), IndexOf(fields, key);
    WithoutKeepsDistinct(fields, key);
    if Has(fields, k) {
      var i := IndexOf(fields, k);
      var j := if i < at then i else i - 1;
      assert after[j] == fields[i];
      IndexIs(after, j);
    } else {
      AbsentIsNotHas(fields, k);
      assert forall i :: 0 <= i < |after| ==> after[i] == fields[if at <= i < |fields| - 1 then i + 1 else i];
      AbsentIsNotHas(after, k);
    }
  }

  lemma WithoutIsMapRemoval<K(!new), V>(fields: seq<Field<K, V>>, key: K)
    requires Distinct(fields)
    ensures Distinct(Without(fields, key))
    ensures ToMap(Without(fields, key)) == ToMap(fields) - {key}
  {
    WithoutKeepsDistinct(fields, key);
    AbsentIsNotHas(Without(fields, key), key);
    var left, right := ToMap(Without(fields, key)), ToMap(fields) - {key};
    forall k: K
      ensures k in left <==> k in right
      ensures k in left ==> left[k] == right[k]
    {
      if k != key {
        LookupAfterWithout(fields, key, k);
      }
    }
  }

  /** Re-adding a removed key moves it last. */
  lemma PutAfterWithoutIsLast<K, V>(fields: seq<Field<K, V>>, key: K, typeId: nat, value: V)
    requires Distinct(fields)
    ensures Put(Without(fields, key), key, typeId, value)
         == Without(fields, key) + [Field(key, typeId, value)]
  {
    WithoutKeepsDistinct(fields, key);
    AbsentIsNotHas(Without(fields, key), key);
  }
}

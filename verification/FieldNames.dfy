/**
 Fields are stored under the 64-bit hash of their name. Set, get, query and ensure calls narrow the
 name's length to 16 bits first, remove does not. On names below 64 KiB whose hashes do not collide an
 object keyed by hashes behaves as one keyed by names; beyond that it does not.
 */
module FieldNames {
  import opened Fnv
  import opened OrderedFields

  /** A C string. */
  type Name = name: seq<Byte> | 0 !in name

  /** What is actually stored for fields with these names. */
  function Rekeyed<V>(fields: seq<Field<Name, V>>): (r: seq<Field<Hash64, V>>)
    ensures |r| == |fields|
    ensures forall i :: 0 <= i < |r| ==> r[i] == Field(KeyForAccess(fields[i].key), fields[i].typeId, fields[i].value)
  {
    seq(|fields|, i requires 0 <= i < |fields| => Field(KeyForAccess(fields[i].key), fields[i].typeId, fields[i].value))
  }

  datatype Edit<V> = Store(name: Name, typeId: nat, value: V) | Drop(name: Name)

  function NamedStep<V>(fields: seq<Field<Name, V>>, e: Edit<V>): seq<Field<Name, V>> {
    match e
    case Store(name, typeId, value) => Put(fields, name, typeId, value)
    case Drop(name) => Without(fields, name)
  }

  function HashedStep<V>(fields: seq<Field<Hash64, V>>, e: Edit<V>): seq<Field<Hash64, V>> {
    match e
    case Store(name, typeId, value) => Put(fields, KeyForAccess(name), typeId, value)
    case Drop(name) => Without(fields, KeyForRemove(name))
  }

  function NamedAll<V>(fields: seq<Field<Name, V>>, edits: seq<Edit<V>>): seq<Field<Name, V>>
    decreases |edits|
  {
    if edits == [] then fields else NamedAll(NamedStep(fields, edits[0]), edits[1..])
  }

  function HashedAll<V>(fields: seq<Field<Hash64, V>>, edits: seq<Edit<V>>): seq<Field<Hash64, V>>
    decreases |edits|
  {
    if edits == [] then fields else HashedAll(HashedStep(fields, edits[0]), edits[1..])
  }

  // ---- When keys stand for names -----------------------------------------------------------

  /** The search finds the name's own field exactly when the first field of that key bears the name. */
  lemma SearchByHash<V>(fields: seq<Field<Name, V>>, name: Name)
    ensures var i := IndexOf(Rekeyed(fields), KeyForAccess(name));
            i == IndexOf(fields, name) <==> (i < |fields| ==> fields[i].key == name)
  {
    hide KeyForAccess;
    var i, j := IndexOf(Rekeyed(fields), KeyForAccess(name)), IndexOf(fields, name);
    assert j < |fields| ==> Rekeyed(fields)[j].key == KeyForAccess(name);
    assert i < |fields| ==> i <= j;
  }

  /** Short enough for their lengths to survive, and without collisions. */
  ghost predicate Manageable(names: set<Name>) {
    && (forall a :: a in names ==> |a| < 65536)
    && (forall a, b :: a in names && b in names && Hash(a) == Hash(b) ==> a == b)
  }

  ghost predicate Within<V>(fields: seq<Field<Name, V>>, names: set<Name>) {
    forall i :: 0 <= i < |fields| ==> fields[i].key in names
  }

  lemma ShortNamesHaveOneKey(name: Name)
    requires |name| < 65536
    ensures KeyForAccess(name) == KeyForRemove(name) == Hash(name)
  {
    assert name[..|name| % NAME_LENGTH_MODULUS] == name;
  }

  lemma SearchAmongManageable<V>(fields: seq<Field<Name, V>>, name: Name, names: set<Name>)
    requires Manageable(names) && Within(fields, names) && name in names
    ensures KeyForAccess(name) == KeyForRemove(name)
    ensures IndexOf(Rekeyed(fields), KeyForAccess(name)) == IndexOf(fields, name)
  {
    hide KeyForAccess, KeyForRemove, Hash;
    SearchByHash(fields, name);
    ShortNamesHaveOneKey(name);
    var i := IndexOf(Rekeyed(fields), KeyForAccess(name));
    if i < |fields| {
      ShortNamesHaveOneKey(fields[i].key);
      assert Rekeyed(fields)[i].key == KeyForAccess(fields[i].key);
    }
  }

  lemma StoreLifts<V>(fields: seq<Field<Name, V>>, name: Name, typeId: nat, value: V, names: set<Name>)
    requires Manageable(names) && Within(fields, names) && name in names
    ensures Rekeyed(Put(fields, name, typeId, value)) == Put(Rekeyed(fields), KeyForAccess(name), typeId, value)
    ensures Within(Put(fields, name, typeId, value), names)
  {
    SearchAmongManageable(fields, name, names);
    hide KeyForAccess, KeyForRemove, Manageable, IndexOf;
    var after, rekeyed := Put(fields, name, typeId, value), Put(Rekeyed(fields), KeyForAccess(name), typeId, value);
    forall j | 0 <= j < |after| ensures Rekeyed(after)[j] == rekeyed[j] {
    }
    assert |Rekeyed(after)| == |rekeyed|;
  }

  lemma RekeyedWithout<V>(fields: seq<Field<Name, V>>, name: Name, key: Hash64)
    requires IndexOf(Rekeyed(fields), key) == IndexOf(fields, name)
    ensures Rekeyed(Without(fields, name)) == Without(Rekeyed(fields), key)
  {
    hide IndexOf;
  }

  lemma DropLifts<V>(fields: seq<Field<Name, V>>, name: Name, names: set<Name>)
    requires Manageable(names) && Within(fields, names) && name in names
    ensures Rekeyed(Without(fields, name)) == Without(Rekeyed(fields), KeyForRemove(name))
    ensures Within(Without(fields, name), names)
  {
    hide *;
    SearchAmongManageable(fields, name, names);
    RekeyedWithout(fields, name, KeyForRemove(name));
    WithoutIsWithin(fields, name, names);
  }

  lemma WithoutIsWithin<V>(fields: seq<Field<Name, V>>, name: Name, names: set<Name>)
    requires Within(fields, names)
    ensures Within(Without(fields, name), names)
  {
  }

  lemma EditLifts<V>(fields: seq<Field<Name, V>>, e: Edit<V>, names: set<Name>)
    requires Manageable(names) && Within(fields, names) && e.name in names
    ensures Rekeyed(NamedStep(fields, e)) == HashedStep(Rekeyed(fields), e)
    ensures Within(NamedStep(fields, e), names)
  {
    hide KeyForAccess, KeyForRemove, Manageable, Put, Without, Rekeyed, Within;
    match e
    case Store(name, typeId, value) => StoreLifts(fields, name, typeId, value, names);
    case Drop(name) => DropLifts(fields, name, names);
  }

  /** Any run of edits over manageable names: by hash or by name, the same object. */
  lemma {:induction false} RunLifts<V>(fields: seq<Field<Name, V>>, edits: seq<Edit<V>>, names: set<Name>)
    requires Manageable(names) && Within(fields, names)
    requires forall k :: 0 <= k < |edits| ==> edits[k].name in names
    ensures Rekeyed(NamedAll(fields, edits)) == HashedAll(Rekeyed(fields), edits)
    decreases |edits|
  {
    hide NamedStep, HashedStep, Manageable;
    if edits != [] {
      assert edits[0].name in names;
      EditLifts(fields, edits[0], names);
      RunLifts(NamedStep(fields, edits[0]), edits[1..], names);
    }
  }

  // ---- When they do not --------------------------------------------------------------------

  function SetThenRemoved<V>(fields: seq<Field<Hash64, V>>, name: Name, typeId: nat, value: V): seq<Field<Hash64, V>> {
    HashedStep(HashedStep(fields, Store(name, typeId, value)), Drop(name))
  }

  /** Remove undoes set exactly for names below 64 KiB, and for longer ones whose narrowed form collides. */
  lemma RemoveFindsWhatSetStored<V>(fields: seq<Field<Hash64, V>>, name: Name, typeId: nat, value: V)
    requires Distinct(fields)
    ensures Has(SetThenRemoved(fields, name, typeId, value), KeyForAccess(name))
       <==> |name| >= 65536 && Hash(name[..|name| % 65536]) != Hash(name)
  {
    hide Hash;
    var stored := Put(fields, KeyForAccess(name), typeId, value);
    PutKeepsDistinct(fields, KeyForAccess(name), typeId, value);
    IndexAfterPut(fields, KeyForAccess(name), typeId, value, KeyForAccess(name));
    WithoutKeepsDistinct(stored, KeyForRemove(name));
    AbsentIsNotHas(Without(stored, KeyForRemove(name)), KeyForRemove(name));
    if KeyForAccess(name) != KeyForRemove(name) {
      LookupAfterWithout(stored, KeyForRemove(name), KeyForAccess(name));
    }
    if |name| < 65536 {
      ShortNamesHaveOneKey(name);
    }
  }

  /** Removing the letter a followed by 65535 letters b leaves the field that was just set. */
  lemma LongNameStays<V>(fields: seq<Field<Hash64, V>>, typeId: nat, value: V)
    requires Distinct(fields)
    ensures Has(SetThenRemoved(fields, LongName(), typeId, value), KeyForAccess(LongName()))
  {
    hide Hash, LongName;
    LongNameHasTwoKeys();
    RemoveFindsWhatSetStored(fields, LongName(), typeId, value);
  }

  /** Of two names of 64 KiB that differ in one byte, which share a field, at least one stays. */
  lemma OneOfTwoLongNamesStays<V>(fields: seq<Field<Hash64, V>>, name: Name, i: nat, b: Byte, typeId: nat, value: V)
    requires Distinct(fields) && |name| == 65536 && i < |name| && b != 0 && b != name[i]
    ensures var other: Name := name[i := b];
            && KeyForAccess(name) == KeyForAccess(other)
            && (Has(SetThenRemoved(fields, name, typeId, value), KeyForAccess(name))
                || Has(SetThenRemoved(fields, other, typeId, value), KeyForAccess(other)))
  {
    hide Hash, SetThenRemoved;
    var other: Name := name[i := b];
    LongNamesCannotBeRemoved(name, i, b);
    RemoveFindsWhatSetStored(fields, name, typeId, value);
    RemoveFindsWhatSetStored(fields, other, typeId, value);
  }

  /** Two names, one field: the second set overwrites what the first one stored. */
  lemma LongNamesShareAField<V>(typeId: nat, one: V, two: V)
    ensures var edits := [Store(LongName(), typeId, one), Store([], typeId, two)];
            |NamedAll([], edits)| == 2 && HashedAll([], edits) == [Field(KeyForAccess([]), typeId, two)]
  {
    hide Hash;
    LongNameHasTwoKeys();
    var edits := [Store(LongName(), typeId, one), Store([], typeId, two)];
    var named := NamedStep([], edits[0]);
    assert |named| == 1 && named[0].key == LongName();
    assert edits[1..] == [edits[1]] && edits[1..][1..] == [];
    assert |NamedStep(named, edits[1])| == 2;
    var hashed := HashedStep<V>([], edits[0]);
    assert hashed == [Field(KeyForAccess([]), typeId, one)];
    assert HashedStep(hashed, edits[1]) == [Field(KeyForAccess([]), typeId, two)];
    assert NamedAll([], edits) == NamedAll(named, edits[1..]) == NamedStep(named, edits[1]);
    assert HashedAll([], edits) == HashedAll(hashed, edits[1..]) == HashedStep(hashed, edits[1]);
  }
}

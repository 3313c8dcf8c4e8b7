/**
 The value of an object: a tree whose branches are ordered fields. Calls reach down a path of names;
 a missing object on the way is created, a field of another type on the way aborts the process.
 */
module Trees {
  import opened EntryBuffers
  import opened ObjectMemory
  import opened OrderedFields
  import opened Wrappers

  datatype Tree = Number(typeId: nat, word: int) | Chars(bytes: seq<nat>) | Branch(fields: seq<Field<nat, Tree>>)

  function TypeOfTree(t: Tree): nat {
    match t
    case Number(typeId, _) => typeId
    case Chars(_) => TYPE_STRING
    case Branch(_) => TYPE_OBJECT
  }

  function TreeOf(v: Value): Tree {
    if v.Str? then Chars(v.bytes) else Number(TypeOf(v), Payload(v))
  }

  /** Keys are distinct and type tags are right, all the way down. */
  ghost predicate WellFormed(t: Tree) {
    match t
    case Number(typeId, _) => typeId != TYPE_STRING && typeId != TYPE_OBJECT
    case Chars(_) => true
    case Branch(fields) =>
      && Distinct(fields)
      && forall i :: 0 <= i < |fields| ==> fields[i].typeId == TypeOfTree(fields[i].value) && WellFormed(fields[i].value)
  }

  /** What stands at a path. */
  function At(t: Tree, path: seq<nat>): Option<Tree> {
    if path == [] then Some(t)
    else if t.Branch? && Has(t.fields, path[0]) then At(t.fields[IndexOf(t.fields, path[0])].value, path[1..])
    else None
  }

  // ---- Edits -------------------------------------------------------------------------------

  /** What is done to the object at the end of a path: assign a field, drop one, or only get there. */
  datatype Edit = Assign(key: nat, value: Value) | Drop(key: nat) | Reach

  /** What a set does to the fields of an object. */
  function SetHere(fields: seq<Field<nat, Tree>>, hash: nat, v: Value): Outcome<seq<Field<nat, Tree>>> {
    var i := IndexOf(fields, hash);
    if i < |fields| && fields[i].typeId != TypeOf(v) then Aborted
    else Ok(Put(fields, hash, TypeOf(v), TreeOf(v)))
  }

  function EditHere(fields: seq<Field<nat, Tree>>, e: Edit): Outcome<seq<Field<nat, Tree>>> {
    match e
    case Assign(key, v) => SetHere(fields, key, v)
    case Drop(key) => Ok(Without(fields, key))
    case Reach => Ok(fields)
  }

  /** The object a name stands for on the way down: a missing one counts as empty. */
  function Below(fields: seq<Field<nat, Tree>>, key: nat): Tree {
    if Has(fields, key) then fields[IndexOf(fields, key)].value else Branch([])
  }

  /** What an ensure call does to the fields of an object. */
  function EnsureHere(fields: seq<Field<nat, Tree>>, hash: nat): Outcome<seq<Field<nat, Tree>>> {
    var i := IndexOf(fields, hash);
    if i == |fields| then Ok(fields + [Field(hash, TYPE_OBJECT, Branch([]))])
    else if fields[i].typeId != TYPE_OBJECT then Aborted
    else Ok(fields)
  }

  function Edited(t: Tree, path: seq<nat>, e: Edit): Outcome<Tree>
    decreases |path|
  {
    if !t.Branch? then Aborted
    else if path == [] then
      match EditHere(t.fields, e)
      case Aborted => Aborted
      case Ok(fields) => Ok(Branch(fields))
    else
      match Edited(Below(t.fields, path[0]), path[1..], e)
      case Aborted => Aborted
      case Ok(child) => Ok(Branch(Put(t.fields, path[0], TYPE_OBJECT, child)))
  }

  /** The path an edit is about. */
  function Target(path: seq<nat>, e: Edit): seq<nat> {
    if e.Reach? then path else path + [e.key]
  }

  ghost predicate Prefix(p: seq<nat>, q: seq<nat>) {
    |p| <= |q| && p == q[..|p|]
  }

  // ---- Laws --------------------------------------------------------------------------------

  lemma {:induction false} EditKeepsWellFormed(t: Tree, path: seq<nat>, e: Edit)
    requires WellFormed(t) && Edited(t, path, e).Ok?
    ensures WellFormed(Edited(t, path, e).value)
    ensures Edited(t, path, e).value.Branch?
    decreases |path|
  {
    if path == [] {
      HereKeepsWellFormed(t, e);
    } else {
      var below := Below(t.fields, path[0]);
      EditKeepsWellFormed(below, path[1..], e);
      PutKeepsDistinct(t.fields, path[0], TYPE_OBJECT, Edited(below, path[1..], e).value);
    }
  }

  lemma HereKeepsWellFormed(t: Tree, e: Edit)
    requires WellFormed(t) && t.Branch? && EditHere(t.fields, e).Ok?
    ensures WellFormed(Branch(EditHere(t.fields, e).value))
  {
    match e
    case Assign(key, v) => PutKeepsDistinct(t.fields, key, TypeOf(v), TreeOf(v));
    case Drop(key) => WithoutKeepsDistinct(t.fields, key);
    case Reach =>
  }

  lemma PutLookup<K, V>(fields: seq<Field<K, V>>, key: K, typeId: nat, value: V, k: K)
    requires Distinct(fields)
    ensures var after := Put(fields, key, typeId, value);
            && (Has(after, k) <==> k == key || Has(fields, k))
            && (k == key ==> after[IndexOf(after, k)] == Field(key, typeId, value))
            && (k != key && Has(fields, k) ==> after[IndexOf(after, k)] == fields[IndexOf(fields, k)])
  {
    IndexAfterPut(fields, key, typeId, value, k);
  }

  /** A path reads back what was set on it: the type's number and the value. */
  lemma {:induction false} SetReadsBack(t: Tree, path: seq<nat>, key: nat, v: Value)
    requires WellFormed(t) && Edited(t, path, Assign(key, v)).Ok?
    ensures At(Edited(t, path, Assign(key, v)).value, path + [key]) == Some(TreeOf(v))
    ensures At(Edited(t, path, Assign(key, v)).value, path + [key])
         == Some(match v
                 case Bool(flag) => Number(1, if flag == 0 then 0 else 1)
                 case Int32(n) => Number(2, n)
                 case Int64(n) => Number(4, n)
                 case Float64(bits) => Number(5, bits)
                 case Str(bytes) => Chars(bytes))
    decreases |path|
  {
    var e, t' := Assign(key, v), Edited(t, path, Assign(key, v)).value;
    if path == [] {
      PutLookup(t.fields, key, TypeOf(v), TreeOf(v), key);
      assert [key][1..] == [];
    } else {
      var below := Below(t.fields, path[0]);
      SetReadsBack(below, path[1..], key, v);
      PutLookup(t.fields, path[0], TYPE_OBJECT, Edited(below, path[1..], e).value, path[0]);
      assert (path + [key])[1..] == path[1..] + [key];
    }
  }

  lemma {:induction false} DroppedIsGone(t: Tree, path: seq<nat>, key: nat)
    requires WellFormed(t) && Edited(t, path, Drop(key)).Ok?
    ensures At(Edited(t, path, Drop(key)).value, path + [key]) == None
    decreases |path|
  {
    if path == [] {
      WithoutKeepsDistinct(t.fields, key);
      AbsentIsNotHas(Without(t.fields, key), key);
    } else {
      var below := Below(t.fields, path[0]);
      DroppedIsGone(below, path[1..], key);
      PutLookup(t.fields, path[0], TYPE_OBJECT, Edited(below, path[1..], Drop(key)).value, path[0]);
      assert (path + [key])[1..] == path[1..] + [key];
    }
  }

  /** Paths that part ways with the edited one read the same. */
  lemma {:induction false} OtherPathsAreUnchanged(t: Tree, path: seq<nat>, e: Edit, q: seq<nat>)
    requires WellFormed(t) && Edited(t, path, e).Ok?
    requires !Prefix(Target(path, e), q) && !Prefix(q, Target(path, e))
    ensures At(Edited(t, path, e).value, q) == At(t, q)
    decreases |path|
  {
    var goal := Target(path, e);
    if path == [] {
      assert q[0] != e.key by {
        assert q[..1] == [q[0]];
      }
      match e
      case Assign(key, v) => PutLookup(t.fields, key, TypeOf(v), TreeOf(v), q[0]);
      case Drop(key) => LookupAfterWithout(t.fields, key, q[0]);
    } else {
      var below := Below(t.fields, path[0]);
      PutLookup(t.fields, path[0], TYPE_OBJECT, Edited(below, path[1..], e).value, q[0]);
      if q[0] == path[0] {
        assert goal[1..] == Target(path[1..], e);
        PrefixOfTails(goal, q);
        PrefixOfTails(q, goal);
        OtherPathsAreUnchanged(below, path[1..], e, q[1..]);
        assert At(Branch([]), q[1..]) == None;
      }
    }
  }

  lemma PrefixOfTails(p: seq<nat>, q: seq<nat>)
    requires p != [] && q != [] && p[0] == q[0]
    ensures Prefix(p[1..], q[1..]) ==> Prefix(p, q)
  {
    if Prefix(p[1..], q[1..]) {
      assert p == [p[0]] + p[1..];
      assert q[..|p|] == [q[0]] + q[1..][..|p| - 1];
    }
  }

  /** Every object on the way down exists afterwards. */
  lemma {:induction false} ObjectsOnTheWayExist(t: Tree, path: seq<nat>, e: Edit, k: nat)
    requires WellFormed(t) && Edited(t, path, e).Ok? && k <= |path|
    ensures At(Edited(t, path, e).value, path[..k]).Some? && At(Edited(t, path, e).value, path[..k]).value.Branch?
    decreases |path|
  {
    EditKeepsWellFormed(t, path, e);
    if k > 0 {
      var below := Below(t.fields, path[0]);
      ObjectsOnTheWayExist(below, path[1..], e, k - 1);
      PutLookup(t.fields, path[0], TYPE_OBJECT, Edited(below, path[1..], e).value, path[0]);
      assert path[..k][1..] == path[1..][..k - 1];
    }
  }

  /** A field on the way that is not an object, or the assigned field when it has another type. */
  ghost predicate Blocked(t: Tree, path: seq<nat>, e: Edit) {
    || (exists k: nat :: k <= |path| && NotAnObject(At(t, path[..k])))
    || (e.Assign? && var there := At(t, path + [e.key]); there.Some? && TypeOfTree(there.value) != TypeOf(e.value))
  }

  predicate NotAnObject(there: Option<Tree>) {
    there.Some? && !there.value.Branch?
  }

  /** The process dies exactly when a field has the wrong type for the path or the assignment. */
  lemma {:induction false} AbortsExactlyWhenBlocked(t: Tree, path: seq<nat>, e: Edit)
    requires WellFormed(t)
    ensures Edited(t, path, e).Aborted? <==> Blocked(t, path, e)
    decreases |path|
  {
    assert path[..0] == [];
    if !t.Branch? {
      assert NotAnObject(At(t, path[..0]));
    } else if path == [] {
      assert forall k: nat :: k <= |path| ==> path[..k] == [];
      if e.Assign? {
        assert path + [e.key] == [e.key] && [e.key][1..] == [];
        if Has(t.fields, e.key) {
          var there := t.fields[IndexOf(t.fields, e.key)].value;
          assert At(t, path + [e.key]) == At(there, []) == Some(there);
        }
      }
    } else {
      var below := Below(t.fields, path[0]);
      AbortsExactlyWhenBlocked(below, path[1..], e);
      BlockedBelow(t, path, e);
    }
  }

  lemma BlockedBelow(t: Tree, path: seq<nat>, e: Edit)
    requires t.Branch? && path != []
    ensures Blocked(t, path, e) <==> Blocked(Below(t.fields, path[0]), path[1..], e)
  {
    var below := Below(t.fields, path[0]);
    forall k: nat | k < |path|
      ensures NotAnObject(At(t, path[..k + 1])) <==> NotAnObject(At(below, path[1..][..k]))
    {
      assert path[..k + 1][1..] == path[1..][..k];
    }
    assert !NotAnObject(At(t, path[..0]));
    if e.Assign? {
      assert (path + [e.key])[1..] == path[1..] + [e.key];
    }
    if k: nat :| k <= |path| && NotAnObject(At(t, path[..k])) {
      assert NotAnObject(At(below, path[1..][..k - 1]));
    }
    if k: nat :| k <= |path[1..]| && NotAnObject(At(below, path[1..][..k])) {
      assert NotAnObject(At(t, path[..k + 1]));
    }
  }

  /** Creating the missing object first makes no difference to the edit. */
  lemma EnsureFirst(t: Tree, fields: seq<Field<nat, Tree>>, path: seq<nat>, e: Edit)
    requires t.Branch? && path != [] && EnsureHere(t.fields, path[0]) == Ok(fields)
    ensures Has(fields, path[0])
    ensures var i := IndexOf(fields, path[0]);
            Edited(t, path, e) == match Edited(fields[i].value, path[1..], e)
                                  case Aborted => Aborted
                                  case Ok(c) => Ok(Branch(fields[i := Field(path[0], TYPE_OBJECT, c)]))
  {
    if !Has(t.fields, path[0]) {
      var last := |t.fields|;
      AbsentIsNotHas(t.fields, path[0]);
      assert fields[last].key == path[0] && forall i :: 0 <= i < last ==> fields[i] == t.fields[i];
      assert IndexOf(fields, path[0]) == last;
      assert forall f :: fields[last := f] == t.fields + [f];
    }
  }
}

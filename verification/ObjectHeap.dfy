/**
 The object calls, carried out in place: entry buffers are arrays that are filled, grown and replaced,
 value blocks and slots are words that are overwritten. Every call is proved to do to memory what
 ObjectMemory says.
 */
module ObjectHeap {
  import opened EntryBuffers
  import opened ObjectMemory

  /** One malloc: a header with the count, and room for `entries.Length` entries. */
  class EntryBuffer {
    var count: nat
    const entries: array<Entry>

    constructor (capacity: nat)
      ensures fresh(entries) && entries.Length == capacity && count == 0
    {
      count := 0;
      entries := new Entry[capacity];
    }

    ghost function View(): Buffer
      reads this, entries
    {
      Buffer(count, entries[..])
    }

    /** Clear everything, then copy the committed entries of another buffer. */
    method FillFrom(other: EntryBuffer?, n: nat)
      requires n <= entries.Length && n == if other == null then 0 else other.count
      requires other != null ==> other != this && other.entries != entries && n <= other.entries.Length
      modifies this, entries
      ensures View() == Buffer(n, (if other == null then [] else other.View().Committed()) + ZeroEntries(entries.Length - n))
    {
      forall i | 0 <= i < entries.Length {
        entries[i] := ZERO_ENTRY;
      }
      count := n;
      if other != null && n > 0 {
        forall i | 0 <= i < n {
          entries[i] := other.entries[i];
        }
      }
    }

    /** Copy the committed entries of another buffer, leaving out entry i. */
    method FillWithout(other: EntryBuffer, i: nat)
      requires i < other.count <= other.entries.Length && entries.Length == other.count - 1
      requires other != this && other.entries != entries
      modifies this, entries
      ensures View() == Filtered(other.View(), i)
    {
      count := entries.Length;
      forall j | 0 <= j < i {
        entries[j] := other.entries[j];
      }
      forall j | i <= j < entries.Length {
        entries[j] := other.entries[j + 1];
      }
    }

    /** The first three parts of the entry at position `count`. */
    method FillHead(hash: nat, typeId: nat, size: nat)
      requires count < entries.Length
      modifies entries
      ensures View() == WithNext(old(View()), old(entries[count]).(hash := hash, typeId := typeId, size := size))
    {
      entries[count] := entries[count].(hash := hash);
      entries[count] := entries[count].(typeId := typeId);
      entries[count] := entries[count].(size := size);
    }

    /** The last part of that entry, and the release store that commits it. */
    method FillValueAndCommit(val: nat)
      requires count < entries.Length
      modifies this, entries
      ensures View() == WithNext(old(View()), old(entries[count]).(val := val)).(count := old(count) + 1)
    {
      entries[count] := entries[count].(val := val);
      count := count + 1;
    }
  }

  // ---- Filling an entry in two parts, on data ------------------------------------------------

  function HeadFilled(b: Buffer, hash: nat, typeId: nat): Buffer
    requires b.count < b.Capacity()
  {
    WithNext(b, b.entries[b.count].(hash := hash, typeId := typeId, size := BlockBytes(typeId)))
  }

  function ValueFilled(b: Buffer, val: nat): Buffer
    requires b.count < b.Capacity()
  {
    WithNext(b, b.entries[b.count].(val := val)).(count := b.count + 1)
  }

  lemma FilledInParts(b: Buffer, hash: nat, typeId: nat, val: nat)
    requires b.count < b.Capacity()
    ensures var b1 := HeadFilled(b, hash, typeId);
            && b1.count == b.count && b1.Capacity() == b.Capacity()
            && ValueFilled(b1, val) == WithNext(b, Entry(hash, typeId, BlockBytes(typeId), val)).(count := b.count + 1)
  {
    assert ValueFilled(HeadFilled(b, hash, typeId), val).entries[b.count] == Entry(hash, typeId, BlockBytes(typeId), val);
  }

  /** A new value block, and for a string its text. */
  function WithValue(m: Memory, typeId: nat, word: int, bytes: seq<nat>): Memory {
    var m1 := m.(words := m.words[m.next := word], next := m.next + 1);
    if typeId == TYPE_STRING then StringSet(m1, m.next, bytes) else m1
  }

  lemma AppendInParts(m: Memory, slot: nat, hash: nat, typeId: nat, word: int, bytes: seq<nat>)
    requires SlotOk(m, slot)
    ensures var m1, m' := MakeRoom(m, slot), Append(m, slot, hash, typeId, word);
            var b := BufferOf(m1, slot);
            var e := Entry(hash, typeId, BlockBytes(typeId), m1.next);
            WithValue(m1.(bufs := m1.bufs[WordAt(m1, slot) := WithNext(b, e).(count := b.count + 1)]), typeId, word, bytes)
            == if typeId == TYPE_STRING then StringSet(m', m1.next, bytes) else m'
  {
  }

  lemma BuffersStay(m: Memory, a: nat, b: Buffer, b1: Buffer, typeId: nat, word: int, bytes: seq<nat>)
    ensures var m1 := WithValue(m.(bufs := m.bufs[a := b]), typeId, word, bytes);
            m1.bufs[a] == b && m1.(bufs := m1.bufs[a := b1]) == WithValue(m.(bufs := m.bufs[a := b1]), typeId, word, bytes)
  {
    assert m.bufs[a := b][a := b1] == m.bufs[a := b1];
  }

  class Heap {
    var bufs: map<nat, EntryBuffer>
    var words: map<nat, int>
    var texts: map<nat, seq<nat>>
    var next: nat
    ghost var memory: Memory  // what all of this amounts to

    ghost var Repr: set<object>

    ghost predicate Valid()
      reads this, Repr
      ensures Valid() ==> this in Repr
    {
      && this in Repr
      && next != NULL
      && memory.words == words && memory.texts == texts && memory.next == next
      && memory.bufs.Keys == bufs.Keys
      && (forall a :: a in bufs ==>
            a < next && bufs[a] in Repr && bufs[a].entries in Repr && memory.bufs[a] == bufs[a].View())
      && (forall a, b :: a in bufs && b in bufs && a != b ==> bufs[a] != bufs[b] && bufs[a].entries != bufs[b].entries)
    }

    /** The address in a slot. */
    function Target(slot: nat): nat
      reads this
    {
      if slot in words && words[slot] > 0 then words[slot] else NULL
    }

    constructor ()
      ensures Valid() && fresh(Repr) && memory == Memory(map[], map[], map[], 1)
    {
      bufs, words, texts, next := map[], map[], map[], 1;
      memory := Memory(map[], map[], map[], 1);
      Repr := {this};
    }

    /** The entries buffer a slot points to. */
    method Load(slot: nat) returns (buf: EntryBuffer?)
      requires Valid() && SlotOk(memory, slot)
      ensures buf == null ==> Target(slot) == NULL && BufferOf(memory, slot) == EMPTY
      ensures buf != null ==> Target(slot) in bufs && buf == bufs[Target(slot)] && BufferOf(memory, slot) == buf.View()
    {
      var a := words[slot];
      if a == NULL {
        buf := null;
      } else {
        buf := bufs[a];
      }
    }

    /** Scan the committed entries for a hash; the count means not found. */
    method FindEntry(slot: nat, hash: nat) returns (i: nat)
      requires Valid() && SlotOk(memory, slot)
      ensures i == Find(BufferOf(memory, slot), hash)
    {
      var buf := Load(slot);
      if buf == null {
        return 0;
      }
      i := 0;
      while i < buf.count && buf.entries[i].hash != hash
        invariant i <= buf.count
        invariant Find(buf.View(), hash) == FindFrom(buf.View(), hash, i)
      {
        i := i + 1;
      }
    }

    /** The committed entry of a hash, if there is one. */
    method Lookup(slot: nat, hash: nat) returns (found: bool, e: Entry)
      requires Valid() && SlotOk(memory, slot)
      ensures var b, i := BufferOf(memory, slot), Find(BufferOf(memory, slot), hash);
              (found <==> i < b.count) && (found ==> e == b.entries[i])
    {
      var i := FindEntry(slot, hash);
      var buf := Load(slot);
      found, e := false, ZERO_ENTRY;
      if buf != null && i < buf.count {
        found, e := true, buf.entries[i];
      }
    }

    /** Reads through a buffer pointer. */
    method CountIn(a: nat) returns (n: nat)
      requires Valid() && a in bufs
      ensures n == memory.bufs[a].count
    {
      n := bufs[a].count;
    }

    method EntryIn(a: nat, i: nat) returns (e: Entry)
      requires Valid() && a in bufs && i < memory.bufs[a].Capacity()
      ensures e == memory.bufs[a].entries[i]
    {
      e := bufs[a].entries[i];
    }

    /** malloc of an entry buffer: the next unused address, contents unspecified. */
    method NewBuffer(capacity: nat) returns (a: nat, buf: EntryBuffer)
      requires Valid()
      modifies this`next, this`memory
      ensures Valid() && a == old(next) && memory == old(memory).(next := a + 1)
      ensures fresh(buf) && fresh(buf.entries) && buf.entries.Length == capacity && buf.count == 0
    {
      a, next := next, next + 1;
      memory := memory.(next := next);
      buf := new EntryBuffer(capacity);
    }

    /** The release store of the slot's pointer: a finished private buffer becomes current. */
    method Publish(slot: nat, a: nat, buf: EntryBuffer)
      requires Valid() && a < next && a !in bufs
      requires buf !in Repr && buf.entries !in Repr
      modifies this`bufs, this`words, this`memory, this`Repr
      ensures Valid()
      ensures memory == old(memory).(bufs := old(memory).bufs[a := buf.View()], words := old(memory).words[slot := a])
      ensures bufs == old(bufs)[a := buf] && Repr == old(Repr) + {buf, buf.entries}
    {
      Repr := Repr + {buf, buf.entries};
      bufs := bufs[a := buf];
      words := words[slot := a];
      memory := memory.(bufs := memory.bufs[a := buf.View()], words := words);
    }

    /** free(): only something allocated, and of its own kind, can be freed. */
    method FreeWord(a: nat)
      requires Valid() && a in words
      modifies this`words, this`memory
      ensures Valid() && memory == old(memory).(words := old(memory).words - {a})
    {
      words := words - {a};
      memory := memory.(words := words);
    }

    method FreeText(a: nat)
      requires Valid() && a in texts
      modifies this`texts, this`memory
      ensures Valid() && memory == old(memory).(texts := old(memory).texts - {a})
    {
      texts := texts - {a};
      memory := memory.(texts := texts);
    }

    method FreeBuffer(a: nat)
      requires Valid() && a in bufs
      modifies this`bufs, this`memory
      ensures Valid() && memory == old(memory).(bufs := old(memory).bufs - {a})
    {
      bufs := bufs - {a};
      memory := memory.(bufs := memory.bufs - {a});
    }

    method ClearSlot(slot: nat)
      requires Valid()
      modifies this`words, this`memory
      ensures Valid() && memory == old(memory).(words := old(memory).words[slot := NULL])
    {
      words := words[slot := NULL];
      memory := memory.(words := words);
    }

    /** A larger private buffer with the committed entries copied over. */
    method BuildGrown(current: EntryBuffer?) returns (a: nat, grown: EntryBuffer)
      requires Valid()
      requires current != null ==> current.count <= current.entries.Length
      modifies this`next, this`memory
      ensures Valid() && a == old(next) && memory == old(memory).(next := a + 1)
      ensures fresh(grown) && fresh(grown.entries)
      ensures grown.View() == Grown(if current == null then EMPTY else current.View())
    {
      var count := if current == null then 0 else current.count;
      var cap := if current == null then 0 else current.entries.Length;
      var newCap := if cap == 0 then 4 else cap * 2;
      a, grown := NewBuffer(newCap);
      grown.FillFrom(current, count);
    }

    /** Replace a missing or full buffer by a larger one. */
    method Grow(slot: nat, current: EntryBuffer?) returns (grown: EntryBuffer)
      requires Valid() && (current != null ==> current.count <= current.entries.Length)
      modifies this
      ensures Valid() && fresh(Repr - old(Repr))
      ensures memory == Install(old(memory), slot, Grown(if current == null then EMPTY else old(current.View())))
      ensures Target(slot) in bufs && grown == bufs[Target(slot)]
    {
      var a;
      a, grown := BuildGrown(current);
      Publish(slot, a, grown);
    }

    /** Room for one more entry in the slot's buffer, growing it first if need be. */
    method AddEntry(slot: nat) returns (buf: EntryBuffer)
      requires Valid() && SlotOk(memory, slot)
      modifies this
      ensures Valid() && fresh(Repr - old(Repr))
      ensures memory == MakeRoom(old(memory), slot)
      ensures Target(slot) in bufs && buf == bufs[Target(slot)] && Target(slot) == WordAt(memory, slot)
      ensures buf.count < buf.entries.Length && buf.View() == BufferOf(memory, slot)
    {
      var current := Load(slot);
      if current == null || current.count >= current.entries.Length {
        buf := Grow(slot, current);
      } else {
        buf := current;
      }
    }

    /** Strings: a new buffer, or null for the empty string; the old buffer is kept. */
    method SetString(slot: nat, bytes: seq<nat>)
      requires Valid()
      modifies this`words, this`texts, this`next, this`memory
      ensures Valid() && memory == StringSet(old(memory), slot, bytes)
    {
      if bytes == [] {
        words := words[slot := NULL];
      } else {
        var a := next;
        next := next + 1;
        texts := texts[a := bytes];
        words := words[slot := a];
      }
      memory := memory.(words := words, texts := texts, next := next);
    }

    /** A fresh zeroed value block. */
    method NewValue(word: int) returns (val: nat)
      requires Valid()
      modifies this`words, this`next, this`memory
      ensures Valid() && val == old(next)
      ensures memory == old(memory).(words := old(memory).words[val := word], next := val + 1)
    {
      val, next := next, next + 1;
      words := words[val := word];
      memory := memory.(words := words, next := next);
    }

    method FillHead(ghost a: nat, buf: EntryBuffer, hash: nat, typeId: nat)
      requires Valid() && a in bufs && buf == bufs[a] && buf.count < buf.entries.Length
      modifies this`memory, buf.entries
      ensures Valid() && buf.View() == HeadFilled(old(buf.View()), hash, typeId)
      ensures memory == old(memory).(bufs := old(memory).bufs[a := buf.View()])
    {
      buf.FillHead(hash, typeId, BlockBytes(typeId));
      memory := memory.(bufs := memory.bufs[a := buf.View()]);
    }

    method FillValue(typeId: nat, word: int, bytes: seq<nat>) returns (val: nat)
      requires Valid()
      modifies this`words, this`texts, this`next, this`memory
      ensures Valid() && val == old(next) && memory == WithValue(old(memory), typeId, word, bytes)
    {
      val := NewValue(word);
      if typeId == TYPE_STRING {
        SetString(val, bytes);
      }
    }

    method FillValueAndCommit(ghost a: nat, buf: EntryBuffer, val: nat)
      requires Valid() && a in bufs && buf == bufs[a] && buf.count < buf.entries.Length
      modifies this`memory, buf, buf.entries
      ensures Valid()
      ensures memory == old(memory).(bufs := old(memory).bufs[a := ValueFilled(old(buf.View()), val)])
    {
      buf.FillValueAndCommit(val);
      memory := memory.(bufs := memory.bufs[a := buf.View()]);
    }

    /** The free entry part by part; it is committed last, when value block and text are finished. */
    method FillNext(ghost a: nat, buf: EntryBuffer, hash: nat, typeId: nat, word: int, bytes: seq<nat>) returns (val: nat)
      requires Valid() && a in bufs && buf == bufs[a] && buf.count < buf.entries.Length
      modifies this`words, this`texts, this`next, this`memory, buf, buf.entries
      ensures Valid() && val == old(next)
      ensures memory == var m, b := old(memory), old(buf.View());
        WithValue(m.(bufs := m.bufs[a := WithNext(b, Entry(hash, typeId, BlockBytes(typeId), val)).(count := b.count + 1)]),
                  typeId, word, bytes)
    {
      hide Valid, HeadFilled, ValueFilled, WithNext, WithValue, BlockBytes;
      ghost var m, b := memory, buf.View();
      FillHead(a, buf, hash, typeId);
      ghost var b1 := buf.View();
      val := FillValue(typeId, word, bytes);
      FilledInParts(b, hash, typeId, val);
      BuffersStay(m, a, b1, ValueFilled(b1, val), typeId, word, bytes);
      FillValueAndCommit(a, buf, val);
    }

    method AppendEntry(slot: nat, hash: nat, typeId: nat, word: int, bytes: seq<nat>) returns (val: nat)
      requires Valid() && SlotOk(memory, slot)
      modifies Repr
      ensures Valid() && fresh(Repr - old(Repr)) && val == MakeRoom(old(memory), slot).next
      ensures memory == var m := Append(old(memory), slot, hash, typeId, word);
                        if typeId == TYPE_STRING then StringSet(m, val, bytes) else m
    {
      hide Valid, WithValue, StringSet, WithNext, BlockBytes;
      var buf := AddEntry(slot);
      AppendInParts(old(memory), slot, hash, typeId, word, bytes);
      val := FillNext(Target(slot), buf, hash, typeId, word, bytes);
    }

    method GetString(slot: nat) returns (bytes: seq<nat>)
      requires Valid()
      ensures bytes == StringGet(memory, slot)
    {
      var a := Target(slot);
      bytes := if a != NULL && a in texts then texts[a] else [];
    }

    /** An existing value block gets a new payload, in place; a string slot a new buffer. */
    method OverwriteValue(val: nat, v: Value)
      requires Valid()
      modifies this`words, this`texts, this`next, this`memory
      ensures Valid() && memory == Overwrite(old(memory), val, v)
    {
      if v.Str? {
        SetString(val, v.bytes);
      } else {
        words := words[val := Payload(v)];
        memory := memory.(words := words);
      }
    }

    method AddField(slot: nat, hash: nat, v: Value)
      requires Valid() && SlotOk(memory, slot)
      modifies Repr
      ensures Valid() && fresh(Repr - old(Repr)) && memory == Add(old(memory), slot, hash, v)
    {
      var _ := AppendEntry(slot, hash, TypeOf(v), Payload(v), if v.Str? then v.bytes else []);
    }

    /** The typed set calls. `aborted` means the field exists with another type and the process dies. */
    method SetField(slot: nat, hash: nat, v: Value) returns (aborted: bool)
      requires Valid() && SlotOk(memory, slot)
      modifies Repr
      ensures aborted <==> Set(old(memory), slot, hash, v).Aborted?
      ensures !aborted ==> Valid() && fresh(Repr - old(Repr)) && memory == Set(old(memory), slot, hash, v).value
    {
      var found, e := Lookup(slot, hash);
      if found && e.typeId != TypeOf(v) {
        return true;
      }
      if found {
        OverwriteValue(e.val, v);
      } else {
        AddField(slot, hash, v);
      }
      aborted := false;
    }

    /** The slot of a nested object, created empty if it is missing. */
    method Ensure(slot: nat, hash: nat) returns (aborted: bool, nested: nat)
      requires Valid() && SlotOk(memory, slot)
      modifies Repr
      ensures aborted <==> EnsureObject(old(memory), slot, hash).Aborted?
      ensures !aborted ==> Valid() && fresh(Repr - old(Repr))
                           && (memory, nested) == EnsureObject(old(memory), slot, hash).value
    {
      var found, e := Lookup(slot, hash);
      if found {
        aborted, nested := e.typeId != TYPE_OBJECT, e.val;
      } else {
        aborted := false;
        nested := AppendEntry(slot, hash, TYPE_OBJECT, NULL, []);
      }
    }

    /** A tight private buffer with the committed entries other than entry i, in order. */
    method BuildFiltered(current: EntryBuffer, i: nat) returns (a: nat, filtered: EntryBuffer)
      requires Valid() && i < current.count <= current.entries.Length
      modifies this`next, this`memory
      ensures Valid() && a == old(next) && memory == old(memory).(next := a + 1)
      ensures fresh(filtered) && fresh(filtered.entries)
      ensures filtered.View() == Filtered(current.View(), i)
    {
      var newCount := current.count - 1;
      a, filtered := NewBuffer(newCount);
      filtered.FillWithout(current, i);
    }

    /** Publish what is left without entry i: null when that is nothing. */
    method Shrink(slot: nat, ghost a: nat, buf: EntryBuffer, i: nat)
      requires Valid() && a in bufs && buf == bufs[a] && i < buf.count <= buf.entries.Length
      modifies this
      ensures Valid() && fresh(Repr - old(Repr))
      ensures memory == if old(buf.count) == 1 then old(memory).(words := old(memory).words[slot := NULL])
                        else Install(old(memory), slot, Filtered(old(buf.View()), i))
    {
      if buf.count == 1 {
        ClearSlot(slot);
      } else {
        var b, filtered := BuildFiltered(buf, i);
        Publish(slot, b, filtered);
      }
    }

    /** Copy-on-write removal; the status says whether the field was there. */
    method RemoveField(slot: nat, hash: nat) returns (found: bool)
      requires Valid() && SlotOk(memory, slot)
      modifies Repr
      ensures Valid() && fresh(Repr - old(Repr))
      ensures memory == Remove(old(memory), slot, hash)
      ensures found <==> old(Find(BufferOf(memory, slot), hash) < BufferOf(memory, slot).count)
    {
      var buf := Load(slot);
      if buf == null || buf.count == 0 {
        return false;
      }
      var i := FindEntry(slot, hash);
      if i == buf.count {
        return false;
      }
      Shrink(slot, Target(slot), buf, i);
      found := true;
    }

    /** The typed get calls: the stored word, or 0 for a missing field or one of another type. */
    method GetScalar(slot: nat, hash: nat, typeId: nat) returns (word: int)
      requires Valid() && SlotOk(memory, slot)
      ensures word == Answer(memory, slot, hash, typeId)
    {
      var found, e := Lookup(slot, hash);
      if !found || e.typeId != typeId {
        return 0;
      }
      word := if e.val in words then words[e.val] else 0;
    }

    method GetText(slot: nat, hash: nat) returns (bytes: seq<nat>)
      requires Valid() && SlotOk(memory, slot)
      ensures bytes == TextAnswer(memory, slot, hash)
    {
      var found, e := Lookup(slot, hash);
      if !found || e.typeId != TYPE_STRING {
        return [];
      }
      bytes := GetString(e.val);
    }

    method GetType(slot: nat, hash: nat) returns (typeId: nat)
      requires Valid() && SlotOk(memory, slot)
      ensures typeId == TypeAnswer(memory, slot, hash)
    {
      var found, e := Lookup(slot, hash);
      typeId := if found then e.typeId else 0;
    }

    method FieldCount(slot: nat) returns (n: nat)
      requires Valid() && SlotOk(memory, slot)
      ensures n == BufferOf(memory, slot).count
    {
      var buf := Load(slot);
      n := if buf == null then 0 else buf.count;
    }
  }
}

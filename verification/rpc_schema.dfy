/**
 Schemas of event_rpcgen.py and the messages of the structs it generates.  Structs refer to
 each other by name, also recursively.
 */
module RpcSchema {
  import opened Wrappers

  newtype Byte = x: int | 0 <= x < 0x100
  type Bytes = seq<Byte>

  /** EntryInt (32 or 64 bits), EntryBytes with the length written in brackets, if any, EntryVarBytes,
      EntryString and EntryStruct. */
  datatype Kind = Int(bits: nat) | Fixed(length: Option<nat>) | VarBytes | Text | Ref(refname: string)

  /** An array is an EntryArray around an entry of the given kind. */
  datatype Entry = Entry(name: string, tag: nat, kind: Kind, optional: bool, isArray: bool)

  type Schema = map<string, seq<Entry>>

  datatype Error = DuplicateTag(first: string) | NotAnArrayType | NoLength | OptionalArray

  predicate CanBeArray(k: Kind) {
    k.Int? || k.Text? || k.Ref?
  }

  /** What the generated code can be made for: an entry is optional, an array or neither, bytes do not come in
      arrays, and fixed bytes have a length, which may be 0. */
  predicate Generable(e: Entry) {
    && !(e.optional && e.isArray)
    && (e.isArray ==> !e.kind.Fixed? && !e.kind.VarBytes?)
    && (e.kind.Fixed? ==> e.kind.length.Some?)
  }

  // Entry.Verify and EntryBytes.Verify (event_rpcgen.py:392-404, 590-596)
  function Verify(e: Entry): (r: Option<Error>)
    ensures r == None <==> Generable(e)
    ensures r == Some(NoLength) <==> e.kind == Fixed(None)
  {
    if e.kind.Fixed? && e.kind.length == None then Some(NoLength)
    else if e.isArray && !CanBeArray(e.kind) then Some(NotAnArrayType)
    else if e.optional && e.isArray then Some(OptionalArray)
    else None
  }

  predicate DistinctTags(es: seq<Entry>) {
    forall i, j | 0 <= i < j < |es| :: es[i].tag != es[j].tag
  }

  class Struct {
    var entries: seq<Entry>
    var tags: map<nat, string>

    /** The tag table says which entry has which tag. */
    ghost predicate Valid()
      reads this
    {
      && DistinctTags(entries)
      && (forall i | 0 <= i < |entries| :: entries[i].tag in tags && tags[entries[i].tag] == entries[i].name)
      && (forall t | t in tags :: exists i :: 0 <= i < |entries| && entries[i].tag == t)
    }

    constructor ()
      ensures Valid() && entries == []
    {
      entries := [];
      tags := map[];
    }

    // Struct.AddEntry (event_rpcgen.py:53-61)
    method AddEntry(entry: Entry) returns (r: Option<Error>)
      requires Valid()
      modifies this
      ensures Valid()
      ensures r == None <==> forall i | 0 <= i < |old(entries)| :: old(entries)[i].tag != entry.tag
      ensures r == None ==> entries == old(entries) + [entry]
      ensures r != None ==> entries == old(entries) && tags == old(tags)
      ensures r != None ==>
                exists i :: 0 <= i < |entries| && entries[i].tag == entry.tag &&
                             r == Some(DuplicateTag(entries[i].name))
    {
      if entry.tag in tags {
        return Some(DuplicateTag(tags[entry.tag]));
      }
      ghost var before := entries;
      entries := entries + [entry];
      tags := tags[entry.tag := entry.name];
      assert entries[|before|] == entry;
      assert forall i | 0 <= i < |before| :: entries[i] == before[i];
      return None;
    }
  }

  // ----- Messages -----

  datatype Value = Num(n: nat) | Raw(bytes: Bytes) | Sub(msg: Msg)

  /** The `_set` flag of an entry and its data: at most one value, or the elements of an array. */
  datatype Slot = Slot(isSet: bool, data: seq<Value>)

  datatype Msg = Msg(slots: seq<Slot>)

  const POW32 := 0x1_0000_0000
  const POW64 := 0x1_0000_0000_0000_0000

  function IntLimit(bits: nat): nat {
    if bits == 32 then POW32 else POW64
  }

  /** Schemas as the generator accepts them: every struct that is referred to is defined, and
      every entry has a tag of its own. */
  predicate WellFormed(s: Schema) {
    forall name | name in s ::
      && DistinctTags(s[name])
      && forall i | 0 <= i < |s[name]| ::
           Verify(s[name][i]) == None && (s[name][i].kind.Ref? ==> s[name][i].kind.refname in s)
  }

  /** `m` is a value of the C struct `name`. */
  predicate Typed(s: Schema, name: string, m: Msg)
    decreases m
  {
    && name in s && |m.slots| == |s[name]|
    && forall i | 0 <= i < |m.slots| :: TypedSlot(s, s[name][i], m.slots[i])
  }

  predicate TypedSlot(s: Schema, e: Entry, slot: Slot)
    decreases slot
  {
    && (!slot.isSet ==> slot.data == [])
    && (!e.isArray && slot.isSet ==> |slot.data| == 1)
    && forall j | 0 <= j < |slot.data| :: TypedValue(s, e.kind, slot.data[j])
  }

  predicate TypedValue(s: Schema, k: Kind, v: Value)
    decreases v
  {
    match k
    case Int(bits) => v.Num? && v.n < IntLimit(bits)
    case Fixed(n) => v.Raw? && n == Some(|v.bytes|)
    case VarBytes => v.Raw?
    case Text => v.Raw?
    case Ref(name) => v.Sub? && Typed(s, name, v.msg)
  }

  // The *_complete function (event_rpcgen.py:283-302, 878-885, 1178-1199)
  predicate Complete(s: Schema, name: string, m: Msg)
    requires Typed(s, name, m)
    decreases m
  {
    forall i | 0 <= i < |m.slots| :: CompleteSlot(s, s[name][i], m.slots[i])
  }

  /** An entry that is neither optional nor an array has to be set, and a struct that is set has
      to be complete itself. */
  predicate CompleteSlot(s: Schema, e: Entry, slot: Slot)
    requires TypedSlot(s, e, slot)
    decreases slot
  {
    && (slot.isSet || e.optional || e.isArray)
    && forall j | 0 <= j < |slot.data| :: CompleteValue(s, e.kind, slot.data[j])
  }

  predicate CompleteValue(s: Schema, k: Kind, v: Value)
    requires TypedValue(s, k, v)
    decreases v
  {
    k.Ref? ==> Complete(s, k.refname, v.msg)
  }

  /** No array, at any depth, is marked as set without having an element. */
  predicate Solid(s: Schema, name: string, m: Msg)
    requires Typed(s, name, m)
    decreases m
  {
    forall i | 0 <= i < |m.slots| :: SolidSlot(s, s[name][i], m.slots[i])
  }

  predicate SolidSlot(s: Schema, e: Entry, slot: Slot)
    requires TypedSlot(s, e, slot)
    decreases slot
  {
    && (slot.isSet ==> slot.data != [])
    && forall j | 0 <= j < |slot.data| :: SolidValue(s, e.kind, slot.data[j])
  }

  predicate SolidValue(s: Schema, k: Kind, v: Value)
    requires TypedValue(s, k, v)
    decreases v
  {
    k.Ref? ==> Solid(s, k.refname, v.msg)
  }

  /** What *_new gives: nothing is set. */
  function New(s: Schema, name: string): (m: Msg)
    requires name in s
    ensures Typed(s, name, m) && Solid(s, name, m)
  {
    Msg(seq(|s[name]|, _ => Slot(false, [])))
  }
}

/**
 The marshalling code that event_rpcgen.py emits for a struct, on top of the evtag_* calls of
 event2/tag.h, which read and write frames of a tag and a payload.
 */
module RpcCode {
  import opened RpcSchema
  import opened Wrappers

  datatype Frame = Frame(tag: nat, payload: Bytes, rest: Bytes)

  /** The evtag_* calls: writing a frame, looking at the next tag, taking the next frame off a
      buffer, and the encoding of 32 or 64-bit integers. */
  datatype Tagging = Tagging(
    put: (nat, Bytes) -> Bytes,
    peek: Bytes -> Option<nat>,
    get: Bytes -> Option<Frame>,
    putInt: (nat, nat) -> Bytes,
    getInt: (nat, Bytes) -> Option<nat>
  )

  ghost predicate FrameBack(c: Tagging, tag: nat, payload: Bytes, rest: Bytes) {
    c.get(c.put(tag, payload) + rest) == Some(Frame(tag, payload, rest))
  }

  ghost predicate FrameSmaller(c: Tagging, buf: Bytes) {
    c.get(buf).Some? ==>
      var f := c.get(buf).value;
      |f.payload| < |buf| && |f.rest| < |buf| && c.peek(buf) == Some(f.tag)
  }

  ghost predicate IntBack(c: Tagging, bits: nat, n: nat) {
    n < IntLimit(bits) ==> c.getInt(bits, c.putInt(bits, n)) == Some(n)
  }

  ghost predicate IntInRange(c: Tagging, bits: nat, buf: Bytes) {
    c.getInt(bits, buf).Some? ==> c.getInt(bits, buf).value < IntLimit(bits)
  }

  /** A frame is read back as it was written, whatever follows it; reading takes bytes away. */
  ghost predicate Lawful(c: Tagging) {
    && (forall tag, payload, rest :: FrameBack(c, tag, payload, rest))
    && (forall buf :: FrameSmaller(c, buf))
    && (forall bits, n :: IntBack(c, bits, n))
    && (forall bits, buf :: IntInRange(c, bits, buf))
  }

  // ----- What the emitted code computes -----

  function Payload(c: Tagging, s: Schema, k: Kind, v: Value): Bytes
    requires TypedValue(s, k, v) && CompleteValue(s, k, v)
    decreases v, 0
  {
    match k
    case Int(bits) => c.putInt(bits, v.n)
    case Ref(name) => Marshal(c, s, name, v.msg)
    case _ => v.bytes
  }

  // CodeMarshal of EntryInt, EntryBytes, EntryVarBytes, EntryString, EntryStruct, and evtag_marshal_NAME
  function MarshalValue(c: Tagging, s: Schema, e: Entry, v: Value): Bytes
    requires TypedValue(s, e.kind, v) && CompleteValue(s, e.kind, v)
    decreases v, 1
  {
    c.put(e.tag, Payload(c, s, e.kind, v))
  }

  /** The data of an entry from element `j` on. */
  function MarshalData(c: Tagging, s: Schema, e: Entry, slot: Slot, j: nat): Bytes
    requires TypedSlot(s, e, slot) && CompleteSlot(s, e, slot) && j <= |slot.data|
    decreases slot, |slot.data| - j
  {
    if j == |slot.data| then [] else MarshalValue(c, s, e, slot.data[j]) + MarshalData(c, s, e, slot, j + 1)
  }

  function MarshalSlots(c: Tagging, s: Schema, name: string, m: Msg, i: nat): Bytes
    requires Typed(s, name, m) && Complete(s, name, m) && i <= |m.slots|
    decreases m, 0, |m.slots| - i
  {
    if i == |m.slots| then []
    else MarshalData(c, s, s[name][i], m.slots[i], 0) + MarshalSlots(c, s, name, m, i + 1)
  }

  // *_marshal (event_rpcgen.py:221-240)
  function Marshal(c: Tagging, s: Schema, name: string, m: Msg): Bytes
    requires Typed(s, name, m) && Complete(s, name, m)
    decreases m, 1
  {
    MarshalSlots(c, s, name, m, 0)
  }

  /** The entry for a tag, by the `case` labels. */
  function FindTag(es: seq<Entry>, tag: nat): (r: Option<nat>)
    ensures r == None ==> forall i | 0 <= i < |es| :: es[i].tag != tag
    ensures r.Some? ==> r.value < |es| && es[r.value].tag == tag
  {
    if es == [] then None
    else if es[|es| - 1].tag == tag then Some(|es| - 1)
    else FindTag(es[..|es| - 1], tag)
  }

  /** One value out of a payload; None where the emitted code returns -1. */
  function ReadValue(c: Tagging, s: Schema, k: Kind, payload: Bytes): (r: Option<Value>)
    requires Lawful(c) && WellFormed(s) && (k.Ref? ==> k.refname in s)
    ensures r.Some? ==> TypedValue(s, k, r.value) && CompleteValue(s, k, r.value) && SolidValue(s, k, r.value)
    decreases |payload|, 2
  {
    match k
    case Int(bits) =>
      assert IntInRange(c, bits, payload);
      if c.getInt(bits, payload) == None then None else Some(Num(c.getInt(bits, payload).value))
    case Fixed(n) => if n == Some(|payload|) then Some(Raw(payload)) else None
    case VarBytes => Some(Raw(payload))
    case Text => Some(Raw(payload))
    case Ref(name) =>
      var sub := Unmarshal(c, s, name, New(s, name), payload);
      if sub == None then None else Some(Sub(sub.value))
  }

  /** The struct after a value for entry `i` has been read. */
  function Store(m: Msg, i: nat, v: Value): Msg
    requires i < |m.slots|
  {
    Msg(m.slots[i := Slot(true, m.slots[i].data + [v])])
  }

  lemma {:induction false} StoreTyped(s: Schema, name: string, m: Msg, i: nat, v: Value)
    requires Typed(s, name, m) && i < |m.slots| && TypedValue(s, s[name][i].kind, v)
    requires s[name][i].isArray || !m.slots[i].isSet
    ensures Typed(s, name, Store(m, i, v))
    ensures Solid(s, name, m) && SolidValue(s, s[name][i].kind, v) ==> Solid(s, name, Store(m, i, v))
  {
    var e, slot, slot' := s[name][i], m.slots[i], Store(m, i, v).slots[i];
    assert TypedSlot(s, e, slot);
    forall j | 0 <= j < |slot'.data|
      ensures TypedValue(s, e.kind, slot'.data[j])
    {
      if j < |slot.data| {
        assert slot'.data[j] == slot.data[j];
      }
    }
    assert TypedSlot(s, e, slot');
    forall k | 0 <= k < |m.slots| && k != i
      ensures TypedSlot(s, s[name][k], Store(m, i, v).slots[k])
    {
      assert TypedSlot(s, s[name][k], m.slots[k]);
    }
    if Solid(s, name, m) && SolidValue(s, e.kind, v) {
      StoreSolid(s, name, m, i, v);
    }
  }

  lemma {:induction false} StoreSolid(s: Schema, name: string, m: Msg, i: nat, v: Value)
    requires Typed(s, name, m) && i < |m.slots| && Typed(s, name, Store(m, i, v))
    requires TypedValue(s, s[name][i].kind, v) && Solid(s, name, m) && SolidValue(s, s[name][i].kind, v)
    ensures Solid(s, name, Store(m, i, v))
  {
    var e, slot, slot' := s[name][i], m.slots[i], Store(m, i, v).slots[i];
    assert SolidSlot(s, e, slot);
    assert TypedSlot(s, e, slot');
    forall j | 0 <= j < |slot'.data|
      ensures SolidValue(s, e.kind, slot'.data[j])
    {
      assert TypedValue(s, e.kind, slot'.data[j]);
      if j < |slot.data| {
        assert slot'.data[j] == slot.data[j];
      }
    }
    assert SolidSlot(s, e, slot');
    forall k | 0 <= k < |m.slots| && k != i
      ensures SolidSlot(s, s[name][k], Store(m, i, v).slots[k])
    {
      assert SolidSlot(s, s[name][k], m.slots[k]);
    }
  }

  // *_unmarshal (event_rpcgen.py:242-281)
  function Unmarshal(c: Tagging, s: Schema, name: string, m: Msg, buf: Bytes): (r: Option<Msg>)
    requires Lawful(c) && WellFormed(s) && Typed(s, name, m)
    ensures r.Some? ==> Typed(s, name, r.value) && Complete(s, name, r.value)
    ensures r.Some? && Solid(s, name, m) ==> Solid(s, name, r.value)
    decreases |buf|, 1
  {
    if buf == [] then
      if Complete(s, name, m) then Some(m) else None
    else
      assert FrameSmaller(c, buf);
      match c.peek(buf)
      case None => None
      case Some(tag) =>
        match FindTag(s[name], tag)
        case None => None
        case Some(i) =>
          if !s[name][i].isArray && m.slots[i].isSet then None
          else if c.get(buf) == None then None
          else
            var v := ReadValue(c, s, s[name][i].kind, c.get(buf).value.payload);
            if v == None then None
            else
              StoreTyped(s, name, m, i, v.value);
              Unmarshal(c, s, name, Store(m, i, v.value), c.get(buf).value.rest)
  }

  // ----- Round trip -----

  /** The struct during unmarshalling: the entries before `i` are done, and of entry `i` the first
      `j` values have been read. */
  function Partly(s: Schema, name: string, m: Msg, i: nat, j: nat): Msg
    requires Typed(s, name, m) && i <= |m.slots| && (i < |m.slots| ==> j <= |m.slots[i].data|)
  {
    Msg(seq(|m.slots|, k requires 0 <= k < |m.slots| =>
      if k < i then m.slots[k]
      else if k == i then Slot(j > 0, m.slots[k].data[..j])
      else Slot(false, [])))
  }

  lemma {:induction false} PartlyTyped(s: Schema, name: string, m: Msg, i: nat, j: nat)
    requires Typed(s, name, m) && i <= |m.slots| && (i < |m.slots| ==> j <= |m.slots[i].data|)
    ensures Typed(s, name, Partly(s, name, m, i, j))
  {
    var p := Partly(s, name, m, i, j);
    forall k | 0 <= k < |m.slots|
      ensures TypedSlot(s, s[name][k], p.slots[k])
    {
      assert TypedSlot(s, s[name][k], m.slots[k]);
    }
  }

  lemma {:induction false} PartlyStored(s: Schema, name: string, m: Msg, i: nat, j: nat)
    requires Typed(s, name, m) && i < |m.slots| && j < |m.slots[i].data|
    ensures Store(Partly(s, name, m, i, j), i, m.slots[i].data[j]) == Partly(s, name, m, i, j + 1)
  {
    var p, q := Store(Partly(s, name, m, i, j), i, m.slots[i].data[j]), Partly(s, name, m, i, j + 1);
    assert p.slots[i].data == q.slots[i].data;
    assert p.slots == q.slots;
  }

  lemma {:induction false} PartlyPassed(s: Schema, name: string, m: Msg, i: nat)
    requires Typed(s, name, m) && Solid(s, name, m) && i < |m.slots|
    ensures Partly(s, name, m, i, |m.slots[i].data|) == Partly(s, name, m, i + 1, 0)
  {
    var p, q := Partly(s, name, m, i, |m.slots[i].data|), Partly(s, name, m, i + 1, 0);
    assert TypedSlot(s, s[name][i], m.slots[i]) && SolidSlot(s, s[name][i], m.slots[i]);
    assert p.slots[i] == m.slots[i];
    assert p.slots == q.slots;
  }

  lemma {:induction false} PartlyEnds(s: Schema, name: string, m: Msg)
    requires Typed(s, name, m)
    ensures Partly(s, name, m, |m.slots|, 0) == m
  {
    assert Partly(s, name, m, |m.slots|, 0).slots == m.slots;
  }

  /** Reading a value back from what was written for it. */
  lemma {:induction false} ReadBack(c: Tagging, s: Schema, e: Entry, v: Value, rest: Bytes)
    requires Lawful(c) && WellFormed(s)
    requires TypedValue(s, e.kind, v) && CompleteValue(s, e.kind, v) && SolidValue(s, e.kind, v)
    ensures e.kind.Ref? ==> e.kind.refname in s
    ensures var f := c.get(MarshalValue(c, s, e, v) + rest);
            && f.Some? && f.value.tag == e.tag && f.value.rest == rest
            && ReadValue(c, s, e.kind, f.value.payload) == Some(v)
    decreases v, 0
  {
    assert FrameBack(c, e.tag, Payload(c, s, e.kind, v), rest);
    match e.kind
    case Int(bits) =>
      assert IntBack(c, bits, v.n);
    case Ref(name) =>
      RoundTrip(c, s, name, v.msg);
    case _ =>
  }

  /** From any point of the message on, unmarshalling what is left completes it. */
  lemma {:induction false} Continue(c: Tagging, s: Schema, name: string, m: Msg, i: nat, j: nat)
    requires Lawful(c) && WellFormed(s) && Typed(s, name, m) && Complete(s, name, m) && Solid(s, name, m)
    requires i < |m.slots| && j <= |m.slots[i].data|
    requires Typed(s, name, Partly(s, name, m, i, j))
    ensures TypedSlot(s, s[name][i], m.slots[i]) && CompleteSlot(s, s[name][i], m.slots[i])
    ensures Unmarshal(c, s, name, Partly(s, name, m, i, j),
                      MarshalData(c, s, s[name][i], m.slots[i], j) + MarshalSlots(c, s, name, m, i + 1)) == Some(m)
    decreases m, 0, |m.slots| - i, |m.slots[i].data| - j
  {
    hide Partly, WellFormed, New;
    var e, slot := s[name][i], m.slots[i];
    assert TypedSlot(s, e, slot) && CompleteSlot(s, e, slot) && SolidSlot(s, e, slot);
    var after := MarshalSlots(c, s, name, m, i + 1);
    if j < |slot.data| {
      var v := slot.data[j];
      assert TypedValue(s, e.kind, v) && CompleteValue(s, e.kind, v) && SolidValue(s, e.kind, v);
      var rest := MarshalData(c, s, e, slot, j + 1) + after;
      var buf := MarshalValue(c, s, e, v) + rest;
      ReadBack(c, s, e, v, rest);
      assert MarshalData(c, s, e, slot, j) + after == buf;
      assert FrameSmaller(c, buf);
      TagFound(s, name, i);
      var p := Partly(s, name, m, i, j);
      PartlyTyped(s, name, m, i, j + 1);
      PartlyStored(s, name, m, i, j);
      Continue(c, s, name, m, i, j + 1);
    } else if i + 1 < |m.slots| {
      PartlyTyped(s, name, m, i + 1, 0);
      PartlyPassed(s, name, m, i);
      assert MarshalData(c, s, e, slot, j) + after == after;
      Continue(c, s, name, m, i + 1, 0);
      assert after == MarshalData(c, s, s[name][i + 1], m.slots[i + 1], 0) + MarshalSlots(c, s, name, m, i + 2);
    } else {
      PartlyPassed(s, name, m, i);
      PartlyEnds(s, name, m);
      assert MarshalData(c, s, e, slot, j) + after == [];
    }
  }

  lemma {:induction false} TagFound(s: Schema, name: string, i: nat)
    requires WellFormed(s) && name in s && i < |s[name]|
    ensures FindTag(s[name], s[name][i].tag) == Some(i)
  {
  }

  lemma {:induction false} RoundTrip(c: Tagging, s: Schema, name: string, m: Msg)
    requires Lawful(c) && WellFormed(s) && Typed(s, name, m) && Complete(s, name, m) && Solid(s, name, m)
    ensures Unmarshal(c, s, name, New(s, name), Marshal(c, s, name, m)) == Some(m)
    decreases m, 1
  {
    if m.slots == [] {
      assert m == New(s, name);
    } else {
      PartlyTyped(s, name, m, 0, 0);
      Continue(c, s, name, m, 0, 0);
      assert New(s, name) == Partly(s, name, m, 0, 0);
    }
  }

  /** Unmarshalling what was marshalled into a fresh struct gives the message back, exactly if no
      array is marked as set while it is empty: such an array leaves no trace in the buffer. */
  lemma {:induction false} RoundTripIff(c: Tagging, s: Schema, name: string, m: Msg)
    requires Lawful(c) && WellFormed(s) && Typed(s, name, m) && Complete(s, name, m)
    ensures Unmarshal(c, s, name, New(s, name), Marshal(c, s, name, m)) == Some(m) <==> Solid(s, name, m)
  {
    if Solid(s, name, m) {
      RoundTrip(c, s, name, m);
    }
  }

  /** One array of integers. */
  const ITEMS := Entry("items", 1, Int(32), false, true)
  const LIST: Schema := map["list" := [ITEMS]]

  /** The array is marked as set and empty. */
  const EMPTIED := Msg([Slot(true, [])])

  lemma {:induction false} EmptyArrayIsLost(c: Tagging)
    requires Lawful(c)
    ensures WellFormed(LIST) && Typed(LIST, "list", EMPTIED) && Complete(LIST, "list", EMPTIED)
    ensures !Solid(LIST, "list", EMPTIED)
    ensures Unmarshal(c, LIST, "list", New(LIST, "list"), Marshal(c, LIST, "list", EMPTIED))
         == Some(Msg([Slot(false, [])]))
  {
    var e, s, m := ITEMS, LIST, EMPTIED;
    assert TypedSlot(s, e, m.slots[0]) && CompleteSlot(s, e, m.slots[0]) && !SolidSlot(s, e, m.slots[0]);
    assert MarshalSlots(c, s, "list", m, 1) == [];
    assert New(s, "list").slots == [Slot(false, [])];
    assert CompleteSlot(s, e, Slot(false, []));
  }

  /** What unmarshalling into a fresh struct accepts, whatever bytes it came from, is complete, and
      marshalling and unmarshalling it once more changes nothing. */
  lemma {:induction false} AcceptedRoundTrips(c: Tagging, s: Schema, name: string, buf: Bytes)
    requires Lawful(c) && WellFormed(s) && name in s && Unmarshal(c, s, name, New(s, name), buf).Some?
    ensures var m := Unmarshal(c, s, name, New(s, name), buf).value;
            Complete(s, name, m) && Unmarshal(c, s, name, New(s, name), Marshal(c, s, name, m)) == Some(m)
  {
    RoundTrip(c, s, name, Unmarshal(c, s, name, New(s, name), buf).value);
  }

  /** Two complete messages without empty arrays that have the same encoding are the same. */
  lemma {:induction false} MarshalInjective(c: Tagging, s: Schema, name: string, m: Msg, m': Msg)
    requires Lawful(c) && WellFormed(s) && Typed(s, name, m) && Complete(s, name, m) && Solid(s, name, m)
    requires Typed(s, name, m') && Complete(s, name, m') && Solid(s, name, m')
    requires Marshal(c, s, name, m) == Marshal(c, s, name, m')
    ensures m == m'
  {
    RoundTrip(c, s, name, m);
    RoundTrip(c, s, name, m');
  }

  // ----- The emitted C, with its loops -----

  // *_complete (event_rpcgen.py:283-302)
  method CompleteMsg(s: Schema, name: string, m: Msg) returns (r: int)
    requires Typed(s, name, m)
    ensures r == if Complete(s, name, m) then 0 else -1
    decreases m
  {
    for i := 0 to |m.slots|
      invariant forall k | 0 <= k < i :: CompleteSlot(s, s[name][k], m.slots[k])
    {
      var e, slot := s[name][i], m.slots[i];
      assert TypedSlot(s, e, slot);
      if !e.optional && !e.isArray && !slot.isSet {
        assert !CompleteSlot(s, e, slot);
        return -1;
      }
      if e.kind.Ref? {
        for j := 0 to |slot.data|
          invariant forall k | 0 <= k < j :: CompleteValue(s, e.kind, slot.data[k])
        {
          assert TypedValue(s, e.kind, slot.data[j]);
          var sub := CompleteMsg(s, e.kind.refname, slot.data[j].msg);
          if sub == -1 {
            assert !CompleteValue(s, e.kind, slot.data[j]);
            return -1;
          }
        }
      }
    }
    return 0;
  }

  lemma {:induction false} MarshalStep(c: Tagging, s: Schema, e: Entry, slot: Slot, j: nat, buf: Bytes)
    requires TypedSlot(s, e, slot) && CompleteSlot(s, e, slot) && j <= |slot.data|
    ensures j == |slot.data| ==> MarshalData(c, s, e, slot, j) == []
    ensures j < |slot.data| ==>
              && TypedValue(s, e.kind, slot.data[j]) && CompleteValue(s, e.kind, slot.data[j])
              && buf + c.put(e.tag, Payload(c, s, e.kind, slot.data[j])) + MarshalData(c, s, e, slot, j + 1)
                 == buf + MarshalData(c, s, e, slot, j)
  {
    if j < |slot.data| {
      var v := slot.data[j];
      assert TypedValue(s, e.kind, v) && CompleteValue(s, e.kind, v);
      assert MarshalData(c, s, e, slot, j)
          == c.put(e.tag, Payload(c, s, e.kind, v)) + MarshalData(c, s, e, slot, j + 1);
    }
  }

  lemma {:induction false} MarshalSlotStep(c: Tagging, s: Schema, name: string, m: Msg, i: nat, buf: Bytes)
    requires Typed(s, name, m) && Complete(s, name, m) && i < |m.slots|
    ensures TypedSlot(s, s[name][i], m.slots[i]) && CompleteSlot(s, s[name][i], m.slots[i])
    ensures buf + MarshalData(c, s, s[name][i], m.slots[i], 0) + MarshalSlots(c, s, name, m, i + 1)
            == buf + MarshalSlots(c, s, name, m, i)
  {
    assert TypedSlot(s, s[name][i], m.slots[i]) && CompleteSlot(s, s[name][i], m.slots[i]);
    assert MarshalSlots(c, s, name, m, i)
        == MarshalData(c, s, s[name][i], m.slots[i], 0) + MarshalSlots(c, s, name, m, i + 1);
  }

  lemma {:induction false} MarshalSlotsEnd(c: Tagging, s: Schema, name: string, m: Msg)
    requires Typed(s, name, m) && Complete(s, name, m)
    ensures MarshalSlots(c, s, name, m, |m.slots|) == []
  {
  }

  // EntryArray.CodeMarshal (event_rpcgen.py:1225-1240); other entries have one value
  method MarshalEntry(c: Tagging, s: Schema, e: Entry, slot: Slot) returns (buf: Bytes)
    requires TypedSlot(s, e, slot) && CompleteSlot(s, e, slot)
    ensures buf == MarshalData(c, s, e, slot, 0)
    decreases slot
  {
    hide MarshalData;
    buf := [];
    for j := 0 to |slot.data|
      invariant buf + MarshalData(c, s, e, slot, j) == MarshalData(c, s, e, slot, 0)
    {
      MarshalStep(c, s, e, slot, j, buf);
      var v := slot.data[j];
      var payload;
      match e.kind {
        case Int(bits) => payload := c.putInt(bits, v.n);
        case Ref(refname) => payload := MarshalMsg(c, s, refname, v.msg);
        case _ => payload := v.bytes;
      }
      buf := buf + c.put(e.tag, payload);
    }
    MarshalStep(c, s, e, slot, |slot.data|, buf);
  }

  // *_marshal and evtag_marshal_* (event_rpcgen.py:221-240, 329-340)
  method MarshalMsg(c: Tagging, s: Schema, name: string, m: Msg) returns (buf: Bytes)
    requires Typed(s, name, m) && Complete(s, name, m)
    ensures buf == Marshal(c, s, name, m)
    decreases m
  {
    hide MarshalSlots;
    buf := [];
    for i := 0 to |m.slots|
      invariant buf + MarshalSlots(c, s, name, m, i) == MarshalSlots(c, s, name, m, 0)
    {
      var e, slot := s[name][i], m.slots[i];
      MarshalSlotStep(c, s, name, m, i, buf);
      if slot.isSet || !(e.optional || e.isArray) {
        var entry := MarshalEntry(c, s, e, slot);
        buf := buf + entry;
      } else {
        MarshalStep(c, s, e, slot, 0, buf);
      }
    }
    MarshalSlotsEnd(c, s, name, m);
  }

  // *_unmarshal and evtag_unmarshal_* (event_rpcgen.py:242-281, 304-327, 1201-1223)
  method UnmarshalMsg(c: Tagging, s: Schema, name: string, m0: Msg, buf0: Bytes) returns (r: int, m: Msg)
    requires Lawful(c) && WellFormed(s) && Typed(s, name, m0)
    ensures Unmarshal(c, s, name, m0, buf0) == if r == 0 then Some(m) else None
    ensures r == 0 || r == -1
    decreases |buf0|
  {
    var buf := buf0;
    m := m0;
    while |buf| > 0
      invariant Typed(s, name, m) && |buf| <= |buf0|
      invariant Unmarshal(c, s, name, m, buf) == Unmarshal(c, s, name, m0, buf0)
      decreases |buf|
    {
      assert FrameSmaller(c, buf);
      var peeked := c.peek(buf);
      if peeked == None {
        return -1, m;
      }
      var found := FindTag(s[name], peeked.value);
      if found == None {
        return -1, m;
      }
      var i := found.value;
      var e := s[name][i];
      if !e.isArray && m.slots[i].isSet {
        return -1, m;
      }
      var frame := c.get(buf);
      if frame == None {
        return -1, m;
      }
      var v;
      if e.kind.Ref? {
        var sub, msg := UnmarshalMsg(c, s, e.kind.refname, New(s, e.kind.refname), frame.value.payload);
        v := if sub == 0 then Some(Sub(msg)) else None;
      } else {
        v := ReadValue(c, s, e.kind, frame.value.payload);
      }
      if v == None {
        return -1, m;
      }
      StoreTyped(s, name, m, i, v.value);
      m := Store(m, i, v.value);
      buf := frame.value.rest;
    }
    r := CompleteMsg(s, name, m);
  }
}

/**
 What comes back of any complete message: the message itself, but for arrays that are marked as set while they are
 empty, at any depth, which come back unset.
 */
module RpcPruned {
  import opened RpcSchema
  import opened RpcCode
  import opened Wrappers

  function PrunedValue(v: Value): Value
    decreases v
  {
    if v.Sub? then Sub(Pruned(v.msg)) else v
  }

  function PrunedSlot(slot: Slot): Slot
    decreases slot
  {
    Slot(slot.data != [], seq(|slot.data|, j requires 0 <= j < |slot.data| => PrunedValue(slot.data[j])))
  }

  function Pruned(m: Msg): Msg
    decreases m
  {
    Msg(seq(|m.slots|, i requires 0 <= i < |m.slots| => PrunedSlot(m.slots[i])))
  }

  lemma {:induction false} PrunedIsMessage(s: Schema, name: string, m: Msg)
    requires Typed(s, name, m) && Complete(s, name, m)
    ensures Typed(s, name, Pruned(m)) && Complete(s, name, Pruned(m)) && Solid(s, name, Pruned(m))
    ensures Solid(s, name, m) <==> Pruned(m) == m
    decreases m
  {
    forall i | 0 <= i < |m.slots|
      ensures var e, slot := s[name][i], PrunedSlot(m.slots[i]);
              TypedSlot(s, e, slot) && CompleteSlot(s, e, slot) && SolidSlot(s, e, slot)
      ensures SolidSlot(s, s[name][i], m.slots[i]) <==> PrunedSlot(m.slots[i]) == m.slots[i]
    {
      PrunedIsSlot(s, s[name][i], m.slots[i]);
    }
  }

  lemma {:induction false} PrunedIsSlot(s: Schema, e: Entry, slot: Slot)
    requires TypedSlot(s, e, slot) && CompleteSlot(s, e, slot)
    ensures var p := PrunedSlot(slot); TypedSlot(s, e, p) && CompleteSlot(s, e, p) && SolidSlot(s, e, p)
    ensures SolidSlot(s, e, slot) <==> PrunedSlot(slot) == slot
    decreases slot
  {
    forall j | 0 <= j < |slot.data|
      ensures var v := PrunedValue(slot.data[j]);
              TypedValue(s, e.kind, v) && CompleteValue(s, e.kind, v) && SolidValue(s, e.kind, v)
      ensures SolidValue(s, e.kind, slot.data[j]) <==> PrunedValue(slot.data[j]) == slot.data[j]
    {
      var v := slot.data[j];
      if e.kind.Ref? {
        PrunedIsMessage(s, e.kind.refname, v.msg);
      }
    }
  }

  /** The empty arrays leave no trace in the encoding. */
  lemma {:induction false} SameEncoding(c: Tagging, s: Schema, name: string, m: Msg)
    requires Typed(s, name, m) && Complete(s, name, m)
    ensures Typed(s, name, Pruned(m)) && Complete(s, name, Pruned(m))
    ensures Marshal(c, s, name, Pruned(m)) == Marshal(c, s, name, m)
    decreases m, 1
  {
    PrunedIsMessage(s, name, m);
    SameSlots(c, s, name, m, 0);
  }

  lemma {:induction false} SameSlots(c: Tagging, s: Schema, name: string, m: Msg, i: nat)
    requires Typed(s, name, m) && Complete(s, name, m) && i <= |m.slots|
    requires Typed(s, name, Pruned(m)) && Complete(s, name, Pruned(m))
    ensures MarshalSlots(c, s, name, Pruned(m), i) == MarshalSlots(c, s, name, m, i)
    decreases m, 0, |m.slots| - i
  {
    if i < |m.slots| {
      PrunedIsSlot(s, s[name][i], m.slots[i]);
      SameData(c, s, s[name][i], m.slots[i], 0);
      SameSlots(c, s, name, m, i + 1);
    }
  }

  lemma {:induction false} SameData(c: Tagging, s: Schema, e: Entry, slot: Slot, j: nat)
    requires TypedSlot(s, e, slot) && CompleteSlot(s, e, slot) && j <= |slot.data|
    requires TypedSlot(s, e, PrunedSlot(slot)) && CompleteSlot(s, e, PrunedSlot(slot))
    ensures MarshalData(c, s, e, PrunedSlot(slot), j) == MarshalData(c, s, e, slot, j)
    decreases slot, |slot.data| - j
  {
    if j < |slot.data| {
      var v := slot.data[j];
      assert TypedValue(s, e.kind, v) && CompleteValue(s, e.kind, v);
      assert PrunedSlot(slot).data[j] == PrunedValue(v);
      if e.kind.Ref? {
        SameEncoding(c, s, e.kind.refname, v.msg);
      } else {
        assert PrunedValue(v) == v;
      }
      assert MarshalValue(c, s, e, PrunedValue(v)) == MarshalValue(c, s, e, v);
      SameData(c, s, e, slot, j + 1);
    }
  }

  /** Every complete message comes back pruned. */
  lemma {:induction false} RoundTripPrunes(c: Tagging, s: Schema, name: string, m: Msg)
    requires Lawful(c) && WellFormed(s) && Typed(s, name, m) && Complete(s, name, m)
    ensures Unmarshal(c, s, name, New(s, name), Marshal(c, s, name, m)) == Some(Pruned(m))
  {
    PrunedIsMessage(s, name, m);
    SameEncoding(c, s, name, m);
    RoundTrip(c, s, name, Pruned(m));
  }

  /** Two complete messages have the same encoding exactly if they differ in empty arrays only. */
  lemma {:induction false} SameEncodingIff(c: Tagging, s: Schema, name: string, m: Msg, m': Msg)
    requires Lawful(c) && WellFormed(s) && Typed(s, name, m) && Complete(s, name, m)
    requires Typed(s, name, m') && Complete(s, name, m')
    ensures Marshal(c, s, name, m) == Marshal(c, s, name, m') <==> Pruned(m) == Pruned(m')
  {
    SameEncoding(c, s, name, m);
    SameEncoding(c, s, name, m');
    RoundTripPrunes(c, s, name, m);
    RoundTripPrunes(c, s, name, m');
  }
}

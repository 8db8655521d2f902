/**
 What the generated code demands, in terms of the schema and of the frames in a buffer: which messages *_complete
 takes for complete, and which buffers *_unmarshal accepts.
 */
module RpcAccept {
  import opened RpcSchema
  import opened RpcCode
  import opened Wrappers

  // ----- Complete messages -----

  /** The message `x`, of struct `inner`, is `m` itself or is found in it at some depth. */
  ghost predicate Inside(s: Schema, name: string, m: Msg, inner: string, x: Msg)
    requires Typed(s, name, m)
    decreases m
  {
    (inner == name && x == m) || exists i :: 0 <= i < |m.slots| && InSlot(s, s[name][i], m.slots[i], inner, x)
  }

  ghost predicate InSlot(s: Schema, e: Entry, slot: Slot, inner: string, x: Msg)
    requires TypedSlot(s, e, slot)
    decreases slot
  {
    exists j :: 0 <= j < |slot.data| && InValue(s, e.kind, slot.data[j], inner, x)
  }

  ghost predicate InValue(s: Schema, k: Kind, v: Value, inner: string, x: Msg)
    requires TypedValue(s, k, v)
    decreases v
  {
    k.Ref? && Inside(s, k.refname, v.msg, inner, x)
  }

  /** Every entry that is neither optional nor an array is set. */
  predicate NoneMissing(s: Schema, name: string, m: Msg) {
    name in s && |m.slots| == |s[name]|
    && forall i | 0 <= i < |m.slots| :: m.slots[i].isSet || s[name][i].optional || s[name][i].isArray
  }

  /** A message is complete exactly if no entry is missing in it and in the messages inside it, at any depth. */
  lemma {:induction false} CompleteIff(s: Schema, name: string, m: Msg)
    requires Typed(s, name, m)
    ensures Complete(s, name, m) <==> forall inner, x | Inside(s, name, m, inner, x) :: NoneMissing(s, inner, x)
    decreases m
  {
    if Complete(s, name, m) {
      forall inner, x | Inside(s, name, m, inner, x)
        ensures NoneMissing(s, inner, x)
      {
        NothingMissingInside(s, name, m, inner, x);
      }
    }
    if forall inner, x | Inside(s, name, m, inner, x) :: NoneMissing(s, inner, x) {
      assert Inside(s, name, m, name, m) && NoneMissing(s, name, m);
      forall i | 0 <= i < |m.slots|
        ensures TypedSlot(s, s[name][i], m.slots[i]) && CompleteSlot(s, s[name][i], m.slots[i])
      {
        SlotComplete(s, name, m, i);
      }
    }
  }

  lemma {:induction false} NothingMissingInside(s: Schema, name: string, m: Msg, inner: string, x: Msg)
    requires Typed(s, name, m) && Complete(s, name, m) && Inside(s, name, m, inner, x)
    ensures NoneMissing(s, inner, x)
    decreases m
  {
    if inner == name && x == m {
      forall i | 0 <= i < |m.slots|
        ensures m.slots[i].isSet || s[name][i].optional || s[name][i].isArray
      {
        assert TypedSlot(s, s[name][i], m.slots[i]) && CompleteSlot(s, s[name][i], m.slots[i]);
      }
    } else {
      var i :| 0 <= i < |m.slots| && InSlot(s, s[name][i], m.slots[i], inner, x);
      var e, slot := s[name][i], m.slots[i];
      assert TypedSlot(s, e, slot) && CompleteSlot(s, e, slot);
      var j :| 0 <= j < |slot.data| && InValue(s, e.kind, slot.data[j], inner, x);
      assert TypedValue(s, e.kind, slot.data[j]) && CompleteValue(s, e.kind, slot.data[j]);
      NothingMissingInside(s, e.kind.refname, slot.data[j].msg, inner, x);
    }
  }

  lemma {:induction false} SlotComplete(s: Schema, name: string, m: Msg, i: nat)
    requires Typed(s, name, m) && i < |m.slots| && NoneMissing(s, name, m)
    requires forall inner, x | Inside(s, name, m, inner, x) :: NoneMissing(s, inner, x)
    ensures TypedSlot(s, s[name][i], m.slots[i]) && CompleteSlot(s, s[name][i], m.slots[i])
    decreases m, 0
  {
    var e, slot := s[name][i], m.slots[i];
    assert TypedSlot(s, e, slot);
    forall j | 0 <= j < |slot.data|
      ensures TypedValue(s, e.kind, slot.data[j]) && CompleteValue(s, e.kind, slot.data[j])
    {
      var v := slot.data[j];
      assert TypedValue(s, e.kind, v);
      if e.kind.Ref? {
        forall inner, x | Inside(s, e.kind.refname, v.msg, inner, x)
          ensures NoneMissing(s, inner, x)
        {
          assert InValue(s, e.kind, v, inner, x);
          assert InSlot(s, e, slot, inner, x);
          assert Inside(s, name, m, inner, x);
        }
        CompleteIff(s, e.kind.refname, v.msg);
      }
    }
  }

  /** Leaving out an entry is allowed exactly if it is optional or an array. */
  lemma {:induction false} UnsetComplete(s: Schema, name: string, m: Msg, i: nat)
    requires Typed(s, name, m) && Complete(s, name, m) && i < |m.slots|
    ensures var u := Msg(m.slots[i := Slot(false, [])]);
            Typed(s, name, u) && (Complete(s, name, u) <==> s[name][i].optional || s[name][i].isArray)
  {
    var u := Msg(m.slots[i := Slot(false, [])]);
    forall k | 0 <= k < |u.slots|
      ensures TypedSlot(s, s[name][k], u.slots[k])
      ensures k != i ==> CompleteSlot(s, s[name][k], u.slots[k])
    {
      assert TypedSlot(s, s[name][k], m.slots[k]) && CompleteSlot(s, s[name][k], m.slots[k]);
    }
    assert Complete(s, name, u) <==> CompleteSlot(s, s[name][i], u.slots[i]);
  }

  /** A struct as *_new makes it is complete exactly if it has no entry that must be set. */
  lemma {:induction false} FreshComplete(s: Schema, name: string)
    requires name in s
    ensures Complete(s, name, New(s, name)) <==> forall e | e in s[name] :: e.optional || e.isArray
  {
    var m := New(s, name);
    forall i | 0 <= i < |s[name]|
      ensures TypedSlot(s, s[name][i], m.slots[i])
      ensures CompleteSlot(s, s[name][i], m.slots[i]) <==> s[name][i].optional || s[name][i].isArray
    {
    }
    if Complete(s, name, m) {
      forall e | e in s[name]
        ensures e.optional || e.isArray
      {
        var i :| 0 <= i < |s[name]| && s[name][i] == e;
        assert CompleteSlot(s, s[name][i], m.slots[i]);
      }
    }
  }

  /** An integer entry holds exactly the unsigned numbers of its width. */
  lemma IntRange(s: Schema, n: nat)
    ensures TypedValue(s, Int(32), Num(n)) <==> n <= 4294967295
    ensures TypedValue(s, Int(64), Num(n)) <==> n <= 18446744073709551615
  {
  }

  // ----- Accepted buffers -----

  datatype Piece = Piece(tag: nat, payload: Bytes)

  /** The buffer as the sequence of its frames, if it is one. */
  function Frames(c: Tagging, buf: Bytes): (fs: Option<seq<Piece>>)
    requires Lawful(c)
    ensures fs.Some? ==> forall f | f in fs.value :: |f.payload| < |buf|
    decreases |buf|
  {
    if buf == [] then Some([])
    else
      assert FrameSmaller(c, buf);
      var f := c.get(buf);
      if f == None then None
      else
        var rest := Frames(c, f.value.rest);
        if rest == None then None else Some([Piece(f.value.tag, f.value.payload)] + rest.value)
  }

  /** The payload can be read as a value of this kind. */
  ghost predicate Readable(c: Tagging, s: Schema, k: Kind, payload: Bytes)
    requires Lawful(c)
    decreases |payload|, 1
  {
    match k
    case Int(bits) => c.getInt(bits, payload).Some?
    case Fixed(n) => n == Some(|payload|)
    case VarBytes => true
    case Text => true
    case Ref(name) => Accepted(c, s, name, payload)
  }

  /** The frame belongs to an entry of the schema. */
  ghost predicate Known(c: Tagging, s: Schema, es: seq<Entry>, f: Piece)
    requires Lawful(c)
    decreases |f.payload|, 2
  {
    exists i :: 0 <= i < |es| && es[i].tag == f.tag && Readable(c, s, es[i].kind, f.payload)
  }

  predicate HasTag(fs: seq<Piece>, tag: nat) {
    exists j :: 0 <= j < |fs| && fs[j].tag == tag
  }

  predicate Twice(fs: seq<Piece>, tag: nat) {
    exists j, k :: 0 <= j < k < |fs| && fs[j].tag == tag && fs[k].tag == tag
  }

  /** What a struct may be filled from: frames whose tags are in the schema and whose payloads can be read, only
      arrays in several frames, and every entry that must be set in one. */
  ghost predicate Accepted(c: Tagging, s: Schema, name: string, buf: Bytes)
    requires Lawful(c)
    decreases |buf|, 0
  {
    && name in s && Frames(c, buf).Some?
    && var es, fs := s[name], Frames(c, buf).value;
       && (forall f | f in fs :: Known(c, s, es, f))
       && (forall e | e in es :: Twice(fs, e.tag) ==> e.isArray)
       && (forall e | e in es :: HasTag(fs, e.tag) || e.optional || e.isArray)
  }

  /** The same for a struct that has some values already. */
  ghost predicate Fills(c: Tagging, s: Schema, name: string, m: Msg, fs: seq<Piece>)
    requires Lawful(c) && name in s && |m.slots| == |s[name]|
  {
    && (forall f | f in fs :: Known(c, s, s[name], f))
    && (forall i | 0 <= i < |m.slots| :: Fits(s[name][i], m.slots[i].isSet, fs))
  }

  predicate Fits(e: Entry, isSet: bool, fs: seq<Piece>) {
    && (Twice(fs, e.tag) || (isSet && HasTag(fs, e.tag)) ==> e.isArray)
    && (isSet || HasTag(fs, e.tag) || e.optional || e.isArray)
  }

  /** All structs inside are complete. */
  ghost predicate Settled(s: Schema, name: string, m: Msg)
    requires Typed(s, name, m)
  {
    forall i | 0 <= i < |m.slots| :: SettledSlot(s, s[name][i], m.slots[i])
  }

  ghost predicate SettledSlot(s: Schema, e: Entry, slot: Slot)
    requires TypedSlot(s, e, slot)
  {
    forall j | 0 <= j < |slot.data| :: CompleteValue(s, e.kind, slot.data[j])
  }

  lemma FirstFrame(f: Piece, rest: seq<Piece>, e: Entry, isSet: bool)
    requires f.tag == e.tag ==> e.isArray || !isSet
    ensures Fits(e, isSet, [f] + rest) <==> Fits(e, isSet || f.tag == e.tag, rest)
  {
    var fs := [f] + rest;
    assert HasTag(fs, e.tag) <==> f.tag == e.tag || HasTag(rest, e.tag) by {
      if f.tag == e.tag {
        assert fs[0].tag == e.tag;
      }
      if j :| 0 <= j < |rest| && rest[j].tag == e.tag {
        assert fs[j + 1].tag == e.tag;
      }
      if j :| 0 <= j < |fs| && fs[j].tag == e.tag {
        assert j > 0 ==> rest[j - 1].tag == e.tag;
      }
    }
    assert Twice(fs, e.tag) <==> (f.tag == e.tag && HasTag(rest, e.tag)) || Twice(rest, e.tag) by {
      if f.tag == e.tag {
        if j :| 0 <= j < |rest| && rest[j].tag == e.tag {
          assert fs[0].tag == e.tag && fs[j + 1].tag == e.tag;
        }
      }
      if j, k :| 0 <= j < k < |rest| && rest[j].tag == e.tag && rest[k].tag == e.tag {
        assert fs[j + 1].tag == e.tag && fs[k + 1].tag == e.tag;
      }
      if j, k :| 0 <= j < k < |fs| && fs[j].tag == e.tag && fs[k].tag == e.tag {
        assert rest[k - 1].tag == e.tag;
        assert j > 0 ==> rest[j - 1].tag == e.tag;
      }
    }
  }

  lemma {:induction false} ReadableIff(c: Tagging, s: Schema, k: Kind, payload: Bytes)
    requires Lawful(c) && WellFormed(s) && (k.Ref? ==> k.refname in s)
    ensures ReadValue(c, s, k, payload).Some? <==> Readable(c, s, k, payload)
    decreases |payload|, 3
  {
    if k.Ref? {
      AcceptedIff(c, s, k.refname, payload);
    }
  }

  /** Only one entry has the tag. */
  lemma KnownIff(c: Tagging, s: Schema, name: string, i: nat, f: Piece)
    requires Lawful(c) && WellFormed(s) && name in s && i < |s[name]| && s[name][i].tag == f.tag
    ensures Known(c, s, s[name], f) <==> Readable(c, s, s[name][i].kind, f.payload)
  {
  }

  lemma {:induction false} SettledStore(s: Schema, name: string, m: Msg, i: nat, v: Value)
    requires Typed(s, name, m) && Settled(s, name, m) && i < |m.slots|
    requires TypedValue(s, s[name][i].kind, v) && CompleteValue(s, s[name][i].kind, v)
    requires Typed(s, name, Store(m, i, v))
    ensures Settled(s, name, Store(m, i, v))
  {
    var m' := Store(m, i, v);
    forall k | 0 <= k < |m.slots|
      ensures SettledSlot(s, s[name][k], m'.slots[k])
    {
      var e, slot, slot' := s[name][k], m.slots[k], m'.slots[k];
      assert SettledSlot(s, e, slot) && TypedSlot(s, e, slot');
      forall j | 0 <= j < |slot'.data|
        ensures CompleteValue(s, e.kind, slot'.data[j])
      {
        assert TypedValue(s, e.kind, slot'.data[j]);
        assert j < |slot.data| ==> slot'.data[j] == slot.data[j];
      }
    }
  }

  /** The first frame goes to entry `i`. */
  lemma {:induction false} FillsStep(c: Tagging, s: Schema, name: string, m: Msg, i: nat, v: Value, f: Piece,
          rest: seq<Piece>)
    requires Lawful(c) && WellFormed(s) && Typed(s, name, m) && i < |m.slots| && s[name][i].tag == f.tag
    requires s[name][i].isArray || !m.slots[i].isSet
    requires Known(c, s, s[name], f)
    ensures Fills(c, s, name, m, [f] + rest) <==> Fills(c, s, name, Store(m, i, v), rest)
  {
    hide Known, Fits;
    var fs, m' := [f] + rest, Store(m, i, v);
    forall k | 0 <= k < |m.slots|
      ensures Fits(s[name][k], m.slots[k].isSet, fs) <==> Fits(s[name][k], m'.slots[k].isSet, rest)
    {
      FirstFrame(f, rest, s[name][k], m.slots[k].isSet);
    }
    assert forall g :: g in fs <==> g == f || g in rest;
  }

  /** The loop of *_unmarshal ends with success exactly if what is left of the buffer fills the struct. */
  lemma {:induction false} FillsIff(c: Tagging, s: Schema, name: string, m: Msg, buf: Bytes)
    requires Lawful(c) && WellFormed(s) && Typed(s, name, m) && Settled(s, name, m)
    ensures Unmarshal(c, s, name, m, buf).Some? <==>
              Frames(c, buf).Some? && Fills(c, s, name, m, Frames(c, buf).value)
    decreases |buf|, 1
  {
    hide Known, Fits, Fills, Settled;
    if buf == [] {
      NothingLeft(c, s, name, m);
      return;
    }
    assert FrameSmaller(c, buf);
    var got := c.get(buf);
    if got == None {
      return;
    }
    var f, left := Piece(got.value.tag, got.value.payload), Frames(c, got.value.rest);
    var found := FindTag(s[name], f.tag);
    if found == None {
      if left.Some? {
        UnknownTag(c, s, name, m, f, left.value);
      }
      return;
    }
    var i := found.value;
    if !s[name][i].isArray && m.slots[i].isSet {
      if left.Some? {
        RepeatedTag(c, s, name, m, i, f, left.value);
      }
      return;
    }
    var v := ReadValue(c, s, s[name][i].kind, f.payload);
    ReadableIff(c, s, s[name][i].kind, f.payload);
    KnownIff(c, s, name, i, f);
    if v == None {
      if left.Some? {
        Unreadable(c, s, name, m, f, left.value);
      }
    } else {
      StoreTyped(s, name, m, i, v.value);
      SettledStore(s, name, m, i, v.value);
      FillsIff(c, s, name, Store(m, i, v.value), got.value.rest);
      if left.Some? {
        FillsStep(c, s, name, m, i, v.value, f, left.value);
      }
    }
  }

  lemma {:induction false} NothingLeft(c: Tagging, s: Schema, name: string, m: Msg)
    requires Lawful(c) && Typed(s, name, m) && Settled(s, name, m)
    ensures Complete(s, name, m) <==> Fills(c, s, name, m, [])
  {
    forall i | 0 <= i < |m.slots|
      ensures TypedSlot(s, s[name][i], m.slots[i])
      ensures CompleteSlot(s, s[name][i], m.slots[i]) <==> Fits(s[name][i], m.slots[i].isSet, [])
    {
      assert TypedSlot(s, s[name][i], m.slots[i]) && SettledSlot(s, s[name][i], m.slots[i]);
    }
  }

  /** *_unmarshal refuses a buffer in which a tag comes that is not in the schema. */
  lemma UnknownTag(c: Tagging, s: Schema, name: string, m: Msg, f: Piece, rest: seq<Piece>)
    requires Lawful(c) && name in s && |m.slots| == |s[name]|
    requires forall i | 0 <= i < |s[name]| :: s[name][i].tag != f.tag
    ensures !Fills(c, s, name, m, [f] + rest)
  {
    assert f in [f] + rest && !Known(c, s, s[name], f);
  }

  lemma Unreadable(c: Tagging, s: Schema, name: string, m: Msg, f: Piece, rest: seq<Piece>)
    requires Lawful(c) && name in s && |m.slots| == |s[name]| && !Known(c, s, s[name], f)
    ensures !Fills(c, s, name, m, [f] + rest)
  {
    assert f in [f] + rest;
  }

  lemma RepeatedTag(c: Tagging, s: Schema, name: string, m: Msg, i: nat, f: Piece, rest: seq<Piece>)
    requires Lawful(c) && name in s && |m.slots| == |s[name]| && i < |m.slots|
    requires s[name][i].tag == f.tag && !s[name][i].isArray && m.slots[i].isSet
    ensures !Fills(c, s, name, m, [f] + rest)
  {
    assert ([f] + rest)[0].tag == s[name][i].tag;
    assert !Fits(s[name][i], m.slots[i].isSet, [f] + rest);
  }

  /** Unmarshalling into a fresh struct succeeds exactly on buffers that are accepted in terms of their frames. */
  lemma {:induction false} AcceptedIff(c: Tagging, s: Schema, name: string, buf: Bytes)
    requires Lawful(c) && WellFormed(s) && name in s
    ensures Unmarshal(c, s, name, New(s, name), buf).Some? <==> Accepted(c, s, name, buf)
    decreases |buf|, 2
  {
    var m := New(s, name);
    assert Settled(s, name, m) by {
      forall i | 0 <= i < |m.slots|
        ensures SettledSlot(s, s[name][i], m.slots[i])
      {
        assert TypedSlot(s, s[name][i], m.slots[i]);
      }
    }
    FillsIff(c, s, name, m, buf);
    if Frames(c, buf).Some? {
      FreshFills(c, s, name, Frames(c, buf).value);
    }
  }

  /** A frame with a tag that is not in the schema, or a second one with a tag that is not of an array, anywhere in
      the buffer, and *_unmarshal fails. */
  lemma Refused(c: Tagging, s: Schema, name: string, buf: Bytes, j: nat)
    requires Lawful(c) && WellFormed(s) && name in s
    requires Frames(c, buf).Some? && j < |Frames(c, buf).value|
    requires var fs := Frames(c, buf).value;
             || (forall e | e in s[name] :: e.tag != fs[j].tag)
             || (exists e | e in s[name] :: e.tag == fs[j].tag && !e.isArray && Twice(fs, e.tag))
    ensures Unmarshal(c, s, name, New(s, name), buf) == None
  {
    AcceptedIff(c, s, name, buf);
    assert Frames(c, buf).value[j] in Frames(c, buf).value;
  }

  lemma {:induction false} FreshFills(c: Tagging, s: Schema, name: string, fs: seq<Piece>)
    requires Lawful(c) && name in s
    ensures Fills(c, s, name, New(s, name), fs) <==>
              && (forall f | f in fs :: Known(c, s, s[name], f))
              && (forall e | e in s[name] :: Twice(fs, e.tag) ==> e.isArray)
              && (forall e | e in s[name] :: HasTag(fs, e.tag) || e.optional || e.isArray)
  {
    hide Known, Twice, HasTag;
    var m, es := New(s, name), s[name];
    if forall i | 0 <= i < |m.slots| :: Fits(es[i], m.slots[i].isSet, fs) {
      forall e | e in es
        ensures Twice(fs, e.tag) ==> e.isArray
        ensures HasTag(fs, e.tag) || e.optional || e.isArray
      {
        var i :| 0 <= i < |es| && es[i] == e;
        assert Fits(es[i], m.slots[i].isSet, fs);
      }
    }
    if forall e | e in es :: (Twice(fs, e.tag) ==> e.isArray) && (HasTag(fs, e.tag) || e.optional || e.isArray) {
      forall i | 0 <= i < |m.slots|
        ensures Fits(es[i], m.slots[i].isSet, fs)
      {
        assert es[i] in es;
      }
    }
  }

  // ----- What an accepted buffer gives, and what is written -----

  /** The values of the frames of an entry, in the order of the buffer. */
  function ValuesOf(c: Tagging, s: Schema, e: Entry, fs: seq<Piece>): seq<Value>
    requires Lawful(c) && WellFormed(s) && (e.kind.Ref? ==> e.kind.refname in s)
  {
    if fs == [] then []
    else
      var v := ReadValue(c, s, e.kind, fs[0].payload);
      (if fs[0].tag == e.tag && v.Some? then [v.value] else []) + ValuesOf(c, s, e, fs[1..])
  }

  /** Every entry is set exactly if it is in the buffer, and has the values of its frames behind those it had. */
  lemma {:induction false} ContentsOf(c: Tagging, s: Schema, name: string, m: Msg, buf: Bytes, i: nat)
    requires Lawful(c) && WellFormed(s) && Typed(s, name, m) && Settled(s, name, m) && i < |m.slots|
    requires Unmarshal(c, s, name, m, buf).Some?
    ensures Frames(c, buf).Some?
    ensures var e, slot, fs := s[name][i], m.slots[i], Frames(c, buf).value;
            Unmarshal(c, s, name, m, buf).value.slots[i]
              == Slot(slot.isSet || HasTag(fs, e.tag), slot.data + ValuesOf(c, s, e, fs))
    decreases |buf|
  {
    hide Fills, Settled;
    FillsIff(c, s, name, m, buf);
    if buf != [] {
      assert FrameSmaller(c, buf);
      var got := c.get(buf).value;
      var k := FindTag(s[name], got.tag).value;
      var v := ReadValue(c, s, s[name][k].kind, got.payload).value;
      StoreTyped(s, name, m, k, v);
      SettledStore(s, name, m, k, v);
      ContentsOf(c, s, name, Store(m, k, v), got.rest, i);
      var f, rest := Piece(got.tag, got.payload), Frames(c, got.rest).value;
      FirstHas(f, rest, s[name][i].tag);
      assert ([f] + rest)[1..] == rest;
      FirstValues(m.slots[i].data, if k == i then [v] else [], ValuesOf(c, s, s[name][i], rest));
    }
  }

  lemma FirstHas(f: Piece, rest: seq<Piece>, tag: nat)
    ensures HasTag([f] + rest, tag) <==> f.tag == tag || HasTag(rest, tag)
  {
    var fs := [f] + rest;
    assert fs[0] == f;
    if j :| 0 <= j < |rest| && rest[j].tag == tag {
      assert fs[j + 1].tag == tag;
    }
    if j :| 0 <= j < |fs| && fs[j].tag == tag {
      assert j > 0 ==> rest[j - 1].tag == tag;
    }
  }

  lemma FirstValues(a: seq<Value>, b: seq<Value>, c: seq<Value>)
    ensures a + (b + c) == a + b + c
    ensures b == [] ==> a + b == a && b + c == c
  {
  }

  function Repeated(tag: nat, n: nat): seq<nat> {
    seq(n, _ => tag)
  }

  /** One tag for each value of the message, entry by entry. */
  function TagsOf(es: seq<Entry>, slots: seq<Slot>, i: nat): seq<nat>
    requires |es| == |slots| && i <= |es|
    decreases |es| - i
  {
    if i == |es| then [] else Repeated(es[i].tag, |slots[i].data|) + TagsOf(es, slots, i + 1)
  }

  function Tags(fs: seq<Piece>): (ts: seq<nat>)
    ensures |ts| == |fs|
  {
    seq(|fs|, j requires 0 <= j < |fs| => fs[j].tag)
  }

  lemma PutFrame(c: Tagging, tag: nat, payload: Bytes, rest: Bytes)
    requires Lawful(c) && Frames(c, rest).Some?
    ensures var fs := Frames(c, c.put(tag, payload) + rest);
            fs.Some? && Tags(fs.value) == [tag] + Tags(Frames(c, rest).value)
  {
    var buf := c.put(tag, payload) + rest;
    assert FrameBack(c, tag, payload, rest) && FrameSmaller(c, buf);
    assert Frames(c, buf) == Some([Piece(tag, payload)] + Frames(c, rest).value);
  }

  lemma RepeatedStep(tag: nat, n: nat, ts: seq<nat>)
    ensures Repeated(tag, 0) + ts == ts
    ensures n > 0 ==> Repeated(tag, n) + ts == [tag] + (Repeated(tag, n - 1) + ts)
  {
    assert n > 0 ==> Repeated(tag, n) == [tag] + Repeated(tag, n - 1);
  }

  lemma {:induction false} DataTags(c: Tagging, s: Schema, e: Entry, slot: Slot, j: nat, rest: Bytes)
    requires Lawful(c) && TypedSlot(s, e, slot) && CompleteSlot(s, e, slot) && j <= |slot.data|
    requires Frames(c, rest).Some?
    ensures var fs := Frames(c, MarshalData(c, s, e, slot, j) + rest);
            fs.Some? && Tags(fs.value) == Repeated(e.tag, |slot.data| - j) + Tags(Frames(c, rest).value)
    decreases |slot.data| - j
  {
    hide Repeated, Tags, Frames, Lawful;
    RepeatedStep(e.tag, |slot.data| - j, Tags(Frames(c, rest).value));
    if j == |slot.data| {
      assert MarshalData(c, s, e, slot, j) + rest == rest;
    } else {
      DataTags(c, s, e, slot, j + 1, rest);
      var v := slot.data[j];
      assert TypedValue(s, e.kind, v) && CompleteValue(s, e.kind, v);
      var payload := Payload(c, s, e.kind, v);
      PutFrame(c, e.tag, payload, MarshalData(c, s, e, slot, j + 1) + rest);
      assert MarshalData(c, s, e, slot, j) + rest
          == c.put(e.tag, payload) + (MarshalData(c, s, e, slot, j + 1) + rest);
    }
  }

  /** The encoding has one frame for each value of the message, in the order of the schema. */
  lemma {:induction false} MarshalInOrder(c: Tagging, s: Schema, name: string, m: Msg, i: nat)
    requires Lawful(c) && Typed(s, name, m) && Complete(s, name, m) && i <= |m.slots|
    ensures var fs := Frames(c, MarshalSlots(c, s, name, m, i));
            fs.Some? && Tags(fs.value) == TagsOf(s[name], m.slots, i)
    decreases |m.slots| - i
  {
    if i < |m.slots| {
      assert TypedSlot(s, s[name][i], m.slots[i]) && CompleteSlot(s, s[name][i], m.slots[i]);
      MarshalInOrder(c, s, name, m, i + 1);
      DataTags(c, s, s[name][i], m.slots[i], 0, MarshalSlots(c, s, name, m, i + 1));
    }
  }
}

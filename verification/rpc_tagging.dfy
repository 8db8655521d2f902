/**
 A tagging scheme that obeys the laws asked of the evtag_* calls: numbers are written in unary,
 a frame is its tag, the length of its payload and the payload.
 */
module RpcTagging {
  import opened RpcSchema
  import opened RpcCode
  import opened Wrappers

  function Unary(n: nat): Bytes {
    if n == 0 then [0] else [1] + Unary(n - 1)
  }

  function UnUnary(b: Bytes): (r: Option<(nat, Bytes)>)
    ensures r.Some? ==> |r.value.1| < |b|
  {
    if b == [] then None
    else if b[0] == 0 then Some((0, b[1..]))
    else
      var r := UnUnary(b[1..]);
      if r == None then None else Some((r.value.0 + 1, r.value.1))
  }

  lemma {:induction false} UnaryBack(n: nat, rest: Bytes)
    ensures UnUnary(Unary(n) + rest) == Some((n, rest))
  {
    if n > 0 {
      UnaryBack(n - 1, rest);
      assert (Unary(n) + rest)[1..] == Unary(n - 1) + rest;
    } else {
      assert (Unary(n) + rest)[1..] == rest;
    }
  }

  function Put(tag: nat, payload: Bytes): Bytes {
    Unary(tag) + Unary(|payload|) + payload
  }

  function Peek(buf: Bytes): Option<nat> {
    var tag := UnUnary(buf);
    if tag == None then None else Some(tag.value.0)
  }

  function Get(buf: Bytes): (r: Option<Frame>)
    ensures r.Some? ==> |r.value.payload| < |buf| && |r.value.rest| < |buf| && Peek(buf) == Some(r.value.tag)
  {
    var tag := UnUnary(buf);
    if tag == None then None
    else
      var length := UnUnary(tag.value.1);
      if length == None || length.value.0 > |length.value.1| then None
      else Some(Frame(tag.value.0, length.value.1[..length.value.0], length.value.1[length.value.0..]))
  }

  function GetInt(bits: nat, buf: Bytes): Option<nat> {
    var n := UnUnary(buf);
    if n.Some? && n.value.1 == [] && n.value.0 < IntLimit(bits) then Some(n.value.0) else None
  }

  function PutInt(bits: nat, n: nat): Bytes {
    Unary(n)
  }

  const UNARY := Tagging(Put, Peek, Get, PutInt, GetInt)

  lemma UnaryLawful()
    ensures Lawful(UNARY)
  {
    forall tag, payload, rest
      ensures FrameBack(UNARY, tag, payload, rest)
    {
      UnaryBack(tag, Unary(|payload|) + payload + rest);
      UnaryBack(|payload|, payload + rest);
      assert Put(tag, payload) + rest == Unary(tag) + (Unary(|payload|) + payload + rest);
      assert Unary(|payload|) + payload + rest == Unary(|payload|) + (payload + rest);
      assert (payload + rest)[..|payload|] == payload && (payload + rest)[|payload|..] == rest;
    }
    forall bits, n
      ensures IntBack(UNARY, bits, n)
    {
      UnaryBack(n, []);
      assert Unary(n) + [] == Unary(n);
    }
  }
}

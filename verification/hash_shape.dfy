/**
 The chains of a hash table: which entries hang in which bucket, in which order, and what
 moving or removing an entry does to that.
 */
module HashShape {

  /** An element with its HT_ENTRY fields.  eqfn compares keys. */
  class Entry {
    const key: int
    var next: Entry?
    var hash: nat

    constructor (key: int)
      ensures this.key == key
    {
      this.key := key;
      next, hash := null, 0;
    }
  }

  /** hash % len.  Spelled as repeated subtraction, which the verifier handles better than the
      remainder of two variables; BucketOfIsMod says that it is the remainder. */
  function BucketOf(hash: nat, len: nat): (b: nat)
    requires len > 0
    ensures b < len
    decreases hash
  {
    if hash < len then hash else BucketOf(hash - len, len)
  }

  lemma {:induction false} BucketOfIsMod(hash: nat, len: nat)
    requires len > 0
    ensures BucketOf(hash, len) == hash % len
    decreases hash
  {
    if hash >= len {
      BucketOfIsMod(hash - len, len);
      ModMinus(hash, len);
    }
  }

  lemma ModMinus(n: nat, len: nat)
    requires 0 < len <= n
    ensures n % len == (n - len) % len
  {
    var q, r := (n - len) / len, (n - len) % len;
    assert n == (q + 1) * len + r;
    UniqueRemainder(n, len, q + 1, r);
  }

  lemma UniqueRemainder(n: nat, len: nat, q: nat, r: nat)
    requires len > 0 && n == q * len + r && r < len
    ensures n % len == r
  {
    var d := n / len - q;
    assert n == len * (n / len) + n % len;
    assert len * d == r - n % len;
    MulFar(len, d);
  }

  lemma MulFar(len: nat, d: int)
    ensures d > 0 ==> len * d >= len
    ensures d < 0 ==> len * d + len <= 0
  {
  }

  type Buckets = seq<seq<Entry>>

  function Head(xs: seq<Entry>): Entry? {
    if xs == [] then null else xs[0]
  }

  /** The entries of bucket `b` and all later ones, in order. */
  function FlatFrom(bs: Buckets, b: nat): seq<Entry>
    requires b <= |bs|
    decreases |bs| - b
  {
    if b == |bs| then [] else bs[b] + FlatFrom(bs, b + 1)
  }

  /** What is left to visit when entry `i` of bucket `b` is next. */
  function Remaining(bs: Buckets, b: nat, i: nat): seq<Entry>
    requires b < |bs| && i <= |bs[b]|
  {
    bs[b][i..] + FlatFrom(bs, b + 1)
  }

  ghost predicate NoDup(xs: seq<Entry>) {
    forall i, j :: 0 <= i < j < |xs| ==> xs[i] != xs[j]
  }

  ghost function Members(xs: seq<Entry>): set<Entry> {
    set e | e in xs
  }

  /** `place` says in which bucket each entry is; every entry is in one bucket, once. */
  ghost predicate Placed(bs: Buckets, place: map<Entry, nat>) {
    && (forall b, e {:trigger e in bs[b]} | 0 <= b < |bs| && e in bs[b] :: e in place && place[e] == b)
    && (forall e | e in place :: place[e] < |bs| && e in bs[place[e]])
    && (forall b | 0 <= b < |bs| :: NoDup(bs[b]))
  }

  /** The entry after position `i`. */
  function After(xs: seq<Entry>, i: nat): Entry?
    requires i < |xs|
  {
    if i + 1 < |xs| then xs[i + 1] else null
  }

  /** The link of entry `i` leads to the entry after it. */
  ghost predicate LinkAt(next: map<Entry, Entry?>, xs: seq<Entry>, i: nat)
    requires i < |xs|
  {
    xs[i] in next && next[xs[i]] == After(xs, i)
  }

  /** The link fields `next` and the bucket heads `tab` hold the chains `bs`. */
  ghost predicate Chained(tab: seq<Entry?>, next: map<Entry, Entry?>, bs: Buckets) {
    && |tab| == |bs|
    && (forall b | 0 <= b < |bs| :: tab[b] == Head(bs[b]))
    && (forall b, i {:trigger LinkAt(next, bs[b], i)} | 0 <= b < |bs| && 0 <= i < |bs[b]| :: LinkAt(next, bs[b], i))
  }

  // ----- What the operations do to the buckets -----

  function WithoutAt(xs: seq<Entry>, i: nat): seq<Entry>
    requires i < |xs|
  {
    xs[..i] + xs[i + 1..]
  }

  /** The entry at position `i` of bucket `b` moves to the front of bucket `c`. */
  function Moved(bs: Buckets, b: nat, i: nat, c: nat): Buckets
    requires b < |bs| && i < |bs[b]| && c < |bs| && b != c
  {
    bs[b := WithoutAt(bs[b], i)][c := [bs[b][i]] + bs[c]]
  }

  function Pushed(bs: Buckets, c: nat, e: Entry): Buckets
    requires c < |bs|
  {
    bs[c := [e] + bs[c]]
  }

  function Removed(bs: Buckets, b: nat, i: nat): Buckets
    requires b < |bs| && i < |bs[b]|
  {
    bs[b := WithoutAt(bs[b], i)]
  }

  lemma WithoutMembers(xs: seq<Entry>, i: nat)
    requires i < |xs| && NoDup(xs)
    ensures NoDup(WithoutAt(xs, i))
    ensures forall e :: e in WithoutAt(xs, i) <==> e in xs && e != xs[i]
  {
    var ys := WithoutAt(xs, i);
    forall e | e in xs && e != xs[i]
      ensures e in ys
    {
      var k :| 0 <= k < |xs| && xs[k] == e;
      assert ys[if k < i then k else k - 1] == e;
    }
  }

  lemma RemovedPlaced(bs: Buckets, place: map<Entry, nat>, b: nat, i: nat)
    requires Placed(bs, place) && b < |bs| && i < |bs[b]|
    ensures bs[b][i] in place && place[bs[b][i]] == b
    ensures Placed(Removed(bs, b, i), place - {bs[b][i]})
  {
    var gone, bs', place' := bs[b][i], Removed(bs, b, i), place - {bs[b][i]};
    assert gone in bs[b];
    WithoutMembers(bs[b], i);
    forall c, e | 0 <= c < |bs'| && e in bs'[c]
      ensures e in place' && place'[e] == c
    {
      assert e in bs[c];
    }
    forall e | e in place'
      ensures place'[e] < |bs'| && e in bs'[place'[e]]
    {
      assert e in bs[place[e]];
    }
  }

  lemma PushedPlaced(bs: Buckets, place: map<Entry, nat>, c: nat, e: Entry)
    requires Placed(bs, place) && c < |bs| && e !in place
    ensures Placed(Pushed(bs, c, e), place[e := c])
  {
    var bs', place' := Pushed(bs, c, e), place[e := c];
    assert e !in bs[c];
    forall d, x | 0 <= d < |bs'| && x in bs'[d]
      ensures x in place' && place'[x] == d
    {
      assert x != e ==> x in bs[d];
      assert d != c ==> bs'[d] == bs[d];
    }
    forall x | x in place'
      ensures place'[x] < |bs'| && x in bs'[place'[x]]
    {
      assert x != e ==> x in bs[place[x]];
      assert x == e ==> bs'[c][0] == x;
      assert x != e && place[x] == c ==> x in [e] + bs[c];
    }
  }

  // ----- Links -----

  /** A `struct type **`: the address of a bucket or of the link field of an entry. */
  datatype Loc = Slot(b: nat) | NextOf(entry: Entry)

  /** The address that holds the pointer to entry `i` of bucket `b`, or to the end of that bucket. */
  function LocAt(bs: Buckets, b: nat, i: nat): Loc
    requires b < |bs| && i <= |bs[b]|
  {
    if i == 0 then Slot(b) else NextOf(bs[b][i - 1])
  }

  function HeadsAfter(tab: seq<Entry?>, p: Loc, v: Entry?): seq<Entry?> {
    if p.Slot? && p.b < |tab| then tab[p.b := v] else tab
  }

  function LinksAfter(next: map<Entry, Entry?>, p: Loc, v: Entry?): map<Entry, Entry?> {
    if p.NextOf? then next[p.entry := v] else next
  }

  /** Storing the successor of an entry where the entry was pointed to takes it out of its chain. */
  lemma UnlinkChained(tab: seq<Entry?>, next: map<Entry, Entry?>, bs: Buckets, place: map<Entry, nat>, b: nat, i: nat)
    requires Placed(bs, place) && Chained(tab, next, bs) && b < |bs| && i < |bs[b]|
    ensures var p, v := LocAt(bs, b, i), After(bs[b], i);
            Chained(HeadsAfter(tab, p, v), LinksAfter(next, p, v), Removed(bs, b, i))
  {
    var p, v := LocAt(bs, b, i), After(bs[b], i);
    var next', bs' := LinksAfter(next, p, v), Removed(bs, b, i);
    var xs, ys := bs[b], bs'[b];
    forall c, j | 0 <= c < |bs'| && 0 <= j < |bs'[c]|
      ensures LinkAt(next', bs'[c], j)
    {
      if c == b {
        var k := if j < i then j else j + 1;
        assert ys[j] == xs[k] && LinkAt(next, bs[b], k);
        assert i > 0 ==> LinkAt(next, bs[b], i - 1);
        assert i > 0 && k != i - 1 ==> xs[k] != xs[i - 1];
      } else {
        assert bs[c][j] in bs[c] && LinkAt(next, bs[c], j);
        assert i > 0 ==> xs[i - 1] in xs;
      }
    }
  }

  /** Linking an entry in at the head of a bucket. */
  lemma PushChained(tab: seq<Entry?>, next: map<Entry, Entry?>, bs: Buckets, place: map<Entry, nat>, c: nat, e: Entry)
    requires Placed(bs, place) && Chained(tab, next, bs) && c < |bs| && e !in place
    ensures Chained(tab[c := e], next[e := tab[c]], Pushed(bs, c, e))
  {
    var bs', next' := Pushed(bs, c, e), next[e := tab[c]];
    forall d, j | 0 <= d < |bs'| && 0 <= j < |bs'[d]|
      ensures LinkAt(next', bs'[d], j)
    {
      if d == c {
        assert j > 0 ==> bs'[d][j] == bs[d][j - 1] && bs[d][j - 1] in bs[d] && LinkAt(next, bs[d], j - 1);
      } else {
        assert bs[d][j] in bs[d] && LinkAt(next, bs[d], j);
      }
    }
  }

  /** Only the links of placed entries matter. */
  lemma KeepChained(tab: seq<Entry?>, next: map<Entry, Entry?>, next': map<Entry, Entry?>, bs: Buckets,
          place: map<Entry, nat>)
    requires Placed(bs, place) && Chained(tab, next, bs)
    requires forall e | e in place && e in next :: e in next' && next'[e] == next[e]
    ensures Chained(tab, next', bs)
  {
    forall b, i | 0 <= b < |bs| && 0 <= i < |bs[b]|
      ensures LinkAt(next', bs[b], i)
    {
      assert bs[b][i] in bs[b] && LinkAt(next, bs[b], i);
    }
  }

  /** Every entry of bucket `b` belongs there according to `dest`. */
  ghost predicate Fits(bs: Buckets, b: nat, dest: map<Entry, nat>)
    requires b < |bs|
  {
    forall e | e in bs[b] :: e in dest && dest[e] == b
  }

  /** The first `i` entries of bucket `b` belong there. */
  ghost predicate FitsUpTo(bs: Buckets, b: nat, i: nat, dest: map<Entry, nat>)
    requires b < |bs| && i <= |bs[b]|
  {
    forall j | 0 <= j < i :: bs[b][j] in dest && dest[bs[b][j]] == b
  }

  /** Whatever other bucket than `b` held only entries that belong there still does. */
  ghost predicate OthersFit(bs: Buckets, bs': Buckets, b: nat, dest: map<Entry, nat>)
    requires |bs'| == |bs|
  {
    forall c | 0 <= c < |bs| && c != b && Fits(bs, c, dest) :: Fits(bs', c, dest)
  }

  /** Moving an entry to the bucket where it belongs. */
  lemma MovedFits(bs0: Buckets, bs: Buckets, b: nat, i: nat, c: nat, dest: map<Entry, nat>)
    requires |bs0| == |bs| && b < |bs| && i < |bs[b]| && c < |bs| && b != c
    requires bs[b][i] in dest && dest[bs[b][i]] == c
    requires FitsUpTo(bs, b, i, dest) && OthersFit(bs0, bs, b, dest)
    ensures FitsUpTo(Moved(bs, b, i, c), b, i, dest) && OthersFit(bs0, Moved(bs, b, i, c), b, dest)
    ensures |Moved(bs, b, i, c)[b]| == |bs[b]| - 1
  {
  }

  lemma AllFit(bs: Buckets, place: map<Entry, nat>, dest: map<Entry, nat>)
    requires Placed(bs, place) && dest.Keys == place.Keys
    requires forall b | 0 <= b < |bs| :: Fits(bs, b, dest)
    ensures place == dest
  {
    forall e | e in place
      ensures place[e] == dest[e]
    {
      assert Fits(bs, place[e], dest) && e in bs[place[e]];
    }
  }

  function NoBuckets(m: nat): (bs: Buckets)
    ensures |bs| == m && forall b | 0 <= b < m :: bs[b] == []
  {
    seq(m, _ => [])
  }

  /** Enlarging the array of bucket heads adds empty buckets. */
  lemma Enlarged(tab: seq<Entry?>, tab': seq<Entry?>, next: map<Entry, Entry?>, bs: Buckets, place: map<Entry, nat>,
          m: nat)
    requires Placed(bs, place) && Chained(tab, next, bs) && |bs| <= m == |tab'|
    requires forall b | 0 <= b < m :: tab'[b] == if b < |tab| then tab[b] else null
    ensures Placed(bs + NoBuckets(m - |bs|), place) && Chained(tab', next, bs + NoBuckets(m - |bs|))
  {
    var bs' := bs + NoBuckets(m - |bs|);
    forall e | e in place
      ensures e in bs'[place[e]]
    {
      assert e in bs[place[e]] && bs'[place[e]] == bs[place[e]];
    }
    forall b, i | 0 <= b < |bs'| && 0 <= i < |bs'[b]|
      ensures LinkAt(next, bs'[b], i)
    {
      assert b < |bs| ==> LinkAt(next, bs[b], i);
    }
  }

  lemma SameSize(m: map<Entry, nat>, m': map<Entry, nat>)
    requires m.Keys == m'.Keys
    ensures |m| == |m'|
  {
    assert |m| == |m.Keys| && |m'| == |m'.Keys|;
  }

  lemma NotInBucket(bs: Buckets, place: map<Entry, nat>, b: nat, key: int)
    requires Placed(bs, place) && b < |bs|
    requires forall j | 0 <= j < |bs[b]| :: bs[b][j].key != key
    ensures forall e | e in place && place[e] == b :: e.key != key
  {
    forall e | e in place && place[e] == b
      ensures e.key != key
    {
      assert e in bs[b];
    }
  }

  // ----- Visiting -----

  lemma {:induction false} SameFlat(bs: Buckets, bs': Buckets, b: nat)
    requires |bs'| == |bs| && b <= |bs| && forall c | b <= c < |bs| :: bs'[c] == bs[c]
    ensures FlatFrom(bs', b) == FlatFrom(bs, b)
    decreases |bs| - b
  {
    if b < |bs| {
      SameFlat(bs, bs', b + 1);
    }
  }

  lemma {:induction false} FlatMembers(bs: Buckets, b: nat, e: Entry)
    requires b <= |bs|
    ensures e in FlatFrom(bs, b) <==> exists c :: b <= c < |bs| && e in bs[c]
    decreases |bs| - b
  {
    if b < |bs| {
      FlatMembers(bs, b + 1, e);
      var rest := FlatFrom(bs, b + 1);
      hide FlatFrom;
      assert e in bs[b] + rest <==> e in bs[b] || e in rest;
    }
  }

  lemma FlatEnd(bs: Buckets)
    ensures FlatFrom(bs, |bs|) == []
  {
  }

  /** The order of visits meets each entry of the table exactly once. */
  lemma {:induction false} FlatOnce(bs: Buckets, place: map<Entry, nat>, b: nat)
    requires Placed(bs, place) && b <= |bs|
    ensures NoDup(FlatFrom(bs, b))
    ensures forall e :: e in FlatFrom(bs, b) <==> e in place && b <= place[e]
    decreases |bs| - b
  {
    forall e: Entry
      ensures e in FlatFrom(bs, b) <==> e in place && b <= place[e]
    {
      FlatMembers(bs, b, e);
    }
    if b < |bs| {
      FlatOnce(bs, place, b + 1);
      var s, k := FlatFrom(bs, b), |bs[b]|;
      forall i, j | 0 <= i < j < |s|
        ensures s[i] != s[j]
      {
        if i < k <= j {
          assert s[i] in bs[b] && s[j] in FlatFrom(bs, b + 1);
        }
      }
    }
  }

  /** One step of a visit that keeps the entry, and one that takes it out. */
  lemma VisitStep(bs: Buckets, b: nat, i: nat)
    requires b < |bs| && i < |bs[b]|
    ensures Remaining(bs, b, i) == [bs[b][i]] + Remaining(bs, b, i + 1)
    ensures Remaining(Removed(bs, b, i), b, i) == Remaining(bs, b, i + 1)
  {
    SameFlat(bs, Removed(bs, b, i), b + 1);
    assert bs[b][i..] == [bs[b][i]] + bs[b][i + 1..];
    assert Removed(bs, b, i)[b][i..] == bs[b][i + 1..];
  }

  lemma RemainingEnds(bs: Buckets, b: nat)
    requires b < |bs|
    ensures Remaining(bs, b, 0) == FlatFrom(bs, b)
    ensures Remaining(bs, b, |bs[b]|) == FlatFrom(bs, b + 1)
  {
    assert bs[b][0..] == bs[b];
    assert bs[b][|bs[b]|..] == [];
  }

  lemma Shift(xs: seq<Entry>, e: Entry, ys: seq<Entry>)
    ensures xs + ([e] + ys) == (xs + [e]) + ys
  {
  }

  lemma Advance(all: seq<Entry>, done: seq<Entry>, rest: seq<Entry>)
    requires rest != [] && all == done + rest
    ensures all == done + [rest[0]] + rest[1..]
  {
    assert rest == [rest[0]] + rest[1..];
  }

  /** Every entry that is still in the table is still to be visited. */
  ghost predicate Covered(place: map<Entry, nat>, rest: seq<Entry>) {
    forall e | e in place :: e in rest
  }

  lemma CoveredStep(place: map<Entry, nat>, rest: seq<Entry>)
    requires Covered(place, rest)
    ensures rest != [] ==> Covered(place - {rest[0]}, rest[1..])
  {
    assert rest != [] ==> rest == [rest[0]] + rest[1..];
  }

  lemma CoveredEnd(place: map<Entry, nat>, rest: seq<Entry>)
    requires Covered(place, rest) && rest == []
    ensures place == map[]
  {
  }

  lemma {:induction false} NoDupSize(xs: seq<Entry>)
    requires NoDup(xs)
    ensures |Members(xs)| == |xs|
  {
    if xs != [] {
      var n := |xs| - 1;
      NoDupSize(xs[..n]);
      assert xs == xs[..n] + [xs[n]];
      assert Members(xs) == Members(xs[..n]) + {xs[n]};
    }
  }

  lemma FlatSize(bs: Buckets, place: map<Entry, nat>)
    requires Placed(bs, place)
    ensures |FlatFrom(bs, 0)| == |place|
  {
    FlatOnce(bs, place, 0);
    NoDupSize(FlatFrom(bs, 0));
    assert Members(FlatFrom(bs, 0)) == place.Keys;
  }

  lemma InBucket(bs: Buckets, place: map<Entry, nat>, b: nat, i: nat)
    requires Placed(bs, place) && b < |bs| && i < |bs[b]|
    ensures bs[b][i] in place && place[bs[b][i]] == b
  {
    assert bs[b][i] in bs[b];
  }
}

/**
 The chained hash table of ht-internal.h, with HT_CACHE_HASH_VALUES.
 */
module HashTable {
  import opened HashShape
  import opened HashPrimes
  import opened Wrappers

  ghost function Links(es: set<Entry>): map<Entry, Entry?>
    reads es`next
  {
    map e | e in es :: e.next
  }

  /** The array of bucket heads and the link fields hold the chains `bs`; `place` names the bucket of each entry. */
  ghost predicate Linked(tab: array<Entry?>, bs: Buckets, place: map<Entry, nat>)
    reads tab, place.Keys`next
  {
    Placed(bs, place) && Chained(tab[..], Links(place.Keys), bs)
  }

  lemma LinkedLength(tab: array<Entry?>, bs: Buckets, place: map<Entry, nat>)
    requires Linked(tab, bs, place)
    ensures |bs| == tab.Length && Placed(bs, place)
  {
  }

  function Load(tab: array<Entry?>, p: Loc): Entry?
    requires p.Slot? ==> p.b < tab.Length
    reads tab, if p.NextOf? then {p.entry} else {}
  {
    if p.Slot? then tab[p.b] else p.entry.next
  }

  // *p = v
  method Store(tab: array<Entry?>, p: Loc, v: Entry?, ghost es: set<Entry>)
    requires if p.Slot? then p.b < tab.Length else p.entry in es
    modifies tab, es`next
    ensures tab[..] == HeadsAfter(old(tab[..]), p, v)
    ensures Links(es) == LinksAfter(old(Links(es)), p, v)
  {
    if p.Slot? {
      tab[p.b] := v;
    } else {
      p.entry.next := v;
    }
  }

  /** What is found at an address in a chain, and behind it. */
  lemma LoadAt(tab: array<Entry?>, bs: Buckets, place: map<Entry, nat>, b: nat, i: nat)
    requires Linked(tab, bs, place) && b < |bs| && i <= |bs[b]|
    ensures var p := LocAt(bs, b, i);
            && (if p.Slot? then p.b < tab.Length else p.entry in place)
            && Load(tab, p) == if i < |bs[b]| then bs[b][i] else null
    ensures i < |bs[b]| ==> bs[b][i] in place && bs[b][i].next == After(bs[b], i)
  {
    if i == 0 {
      assert tab[b] == tab[..][b] == Head(bs[b]);
    } else {
      LinkOf(tab, bs, place, b, i - 1);
    }
    if i < |bs[b]| {
      LinkOf(tab, bs, place, b, i);
    }
  }

  lemma LinkOf(tab: array<Entry?>, bs: Buckets, place: map<Entry, nat>, b: nat, i: nat)
    requires Linked(tab, bs, place) && b < |bs| && i < |bs[b]|
    ensures bs[b][i] in place && bs[b][i].next == After(bs[b], i)
  {
    assert bs[b][i] in bs[b];
    assert LinkAt(Links(place.Keys), bs[b], i);
  }

  // *p = (*p)->next
  method Unlink(tab: array<Entry?>, p: Loc, ghost bs: Buckets, ghost place: map<Entry, nat>, ghost b: nat, ghost i: nat)
    returns (e: Entry)
    requires Linked(tab, bs, place) && b < |bs| && i < |bs[b]| && p == LocAt(bs, b, i)
    modifies tab, place.Keys`next
    ensures e == bs[b][i] && e in place
    ensures Linked(tab, Removed(bs, b, i), place - {e})
  {
    LoadAt(tab, bs, place, b, i);
    RemovedPlaced(bs, place, b, i);
    UnlinkChained(tab[..], Links(place.Keys), bs, place, b, i);
    e := Load(tab, p);
    Store(tab, p, e.next, place.Keys);
    KeepChained(tab[..], Links(place.Keys), Links((place - {e}).Keys), Removed(bs, b, i), place - {e});
  }

  lemma NotItself(bs: Buckets, place: map<Entry, nat>, b: nat, i: nat)
    requires Placed(bs, place) && b < |bs| && i < |bs[b]|
    ensures LocAt(bs, b, i) != NextOf(bs[b][i])
  {
    assert NoDup(bs[b]);
  }

  // next = (*p)->next; then a callback frees or relinks the entry, and *p = next
  method UnlinkCalled(tab: array<Entry?>, p: Loc, link: Entry?, ghost bs: Buckets, ghost place: map<Entry, nat>,
          ghost b: nat, ghost i: nat) returns (e: Entry)
    requires Linked(tab, bs, place) && b < |bs| && i < |bs[b]| && p == LocAt(bs, b, i)
    modifies tab, place.Keys`next
    ensures e == bs[b][i] && e in place && e.next == link
    ensures Linked(tab, Removed(bs, b, i), place - {e})
  {
    hide Placed, Chained;
    LoadAt(tab, bs, place, b, i);
    RemovedPlaced(bs, place, b, i);
    NotItself(bs, place, b, i);
    ghost var links := Links(place.Keys);
    UnlinkChained(tab[..], links, bs, place, b, i);
    e := Load(tab, p);
    var next := e.next;
    e.next := link;
    assert Links(place.Keys) == links[e := link];
    Store(tab, p, next, place.Keys);
    assert e.next == Links(place.Keys)[e] == link;
    KeepChained(tab[..], LinksAfter(links, p, next), Links((place - {e}).Keys), Removed(bs, b, i), place - {e});
  }

  // ----- The callback of HT_FOREACH_FN -----

  /** What the callback does: whether the entry is to be removed, what it leaves in the link of an entry that it
      frees or puts elsewhere, and the new contents of its data argument. */
  datatype Answer<D> = Answer(remove: bool, link: Entry?, data: D)

  /** The data after the callback has seen the entries `es` in turn. */
  function DataAfter<D>(fn: (Entry, D) -> Answer<D>, data: D, es: seq<Entry>): D {
    if es == [] then data else fn(es[|es| - 1], DataAfter(fn, data, es[..|es| - 1])).data
  }

  /** Those that it asks to remove. */
  ghost function Dropped<D>(fn: (Entry, D) -> Answer<D>, data: D, es: seq<Entry>): set<Entry> {
    if es == [] then {}
    else
      var front, e := es[..|es| - 1], es[|es| - 1];
      Dropped(fn, data, front) + if fn(e, DataAfter(fn, data, front)).remove then {e} else {}
  }

  lemma OneMore<D>(fn: (Entry, D) -> Answer<D>, data: D, es: seq<Entry>, e: Entry)
    ensures var a := fn(e, DataAfter(fn, data, es));
            && DataAfter(fn, data, es + [e]) == a.data
            && Dropped(fn, data, es + [e]) == Dropped(fn, data, es) + if a.remove then {e} else {}
  {
    assert (es + [e])[..|es|] == es;
  }

  // e->next = tab[c]; tab[c] = e
  method Push(tab: array<Entry?>, c: nat, e: Entry, ghost bs: Buckets, ghost place: map<Entry, nat>)
    requires Linked(tab, bs, place) && c < tab.Length && e !in place
    modifies tab, e`next, place.Keys`next
    ensures Linked(tab, Pushed(bs, c, e), place[e := c])
  {
    ghost var es := place[e := c].Keys;
    KeepChained(tab[..], Links(place.Keys), Links(es), bs, place);
    PushedPlaced(bs, place, c, e);
    PushChained(tab[..], Links(es), bs, place, c, e);
    Store(tab, NextOf(e), tab[c], es);
    Store(tab, Slot(c), e, es);
  }

  /** Each entry is in the bucket that its hash selects. */
  ghost predicate ByHash(place: map<Entry, nat>, m: nat)
    reads place.Keys`hash
  {
    m > 0 && forall e | e in place :: place[e] == BucketOf(e.hash, m)
  }

  /** The chain `xs` is still linked from position `i` on, and these entries have not been moved. */
  ghost predicate ChainFrom(next: map<Entry, Entry?>, xs: seq<Entry>, i: nat, moved: map<Entry, nat>) {
    && (forall j {:trigger LinkAt(next, xs, j)} | i <= j < |xs| :: LinkAt(next, xs, j))
    && (forall j | i <= j < |xs| :: xs[j] !in moved)
  }

  /** Moving one entry of a chain leaves the later ones as they are. */
  lemma StillChained(next: map<Entry, Entry?>, xs: seq<Entry>, i: nat, moved: map<Entry, nat>,
                     next': map<Entry, Entry?>, moved': map<Entry, nat>)
    requires i < |xs| && NoDup(xs) && ChainFrom(next, xs, i, moved)
    requires forall e :: e in moved' <==> e in moved || e == xs[i]
    requires forall e | e in next && e !in moved' :: e in next' && next'[e] == next[e]
    ensures ChainFrom(next', xs, i + 1, moved')
  {
    forall j | i < j < |xs|
      ensures LinkAt(next', xs, j)
    {
      assert LinkAt(next, xs, j);
    }
  }

  // HT_GROW, one entry goes to the new table (ht-internal.h:336-340)
  method RehashEntry(elm: Entry, new_: array<Entry?>, ghost bs: Buckets, ghost place: map<Entry, nat>)
    returns (ghost bs': Buckets, ghost place': map<Entry, nat>)
    requires Linked(new_, bs, place) && ByHash(place, new_.Length) && elm !in place
    modifies new_, elm`next, place.Keys`next
    ensures Linked(new_, bs', place') && ByHash(place', new_.Length)
    ensures forall e :: e in place' <==> e in place || e == elm
  {
    var b2 := BucketOf(elm.hash, new_.Length);
    Push(new_, b2, elm, bs, place);
    bs', place' := Pushed(bs, b2, elm), place[elm := b2];
  }

  // HT_GROW, emptying one bucket of the old table into the new one (ht-internal.h:334-341)
  method RehashBucket(head: Entry?, new_: array<Entry?>, ghost all: set<Entry>, ghost xs: seq<Entry>,
          ghost bs: Buckets, ghost place: map<Entry, nat>)
    returns (ghost bs': Buckets, ghost place': map<Entry, nat>)
    requires head == Head(xs) && NoDup(xs) && ChainFrom(Links(all), xs, 0, place) && place.Keys <= all
    requires Linked(new_, bs, place) && ByHash(place, new_.Length)
    modifies new_, all`next
    ensures Linked(new_, bs', place') && ByHash(place', new_.Length)
    ensures forall e :: e in place' <==> e in place || e in xs
    ensures forall e | e in all && e !in place' :: e.next == old(e.next)
  {
    hide Linked, ByHash;
    bs', place' := bs, place;
    var elm := head;
    ghost var i := 0;
    while elm != null
      invariant 0 <= i <= |xs| && elm == (if i < |xs| then xs[i] else null)
      invariant Linked(new_, bs', place') && ByHash(place', new_.Length)
      invariant place.Keys <= place'.Keys <= all
      invariant forall e | e in place' && e !in place :: e in xs
      invariant forall j | 0 <= j < i :: xs[j] in place'
      invariant ChainFrom(Links(all), xs, i, place')
      invariant forall e | e in all && e !in place' :: e.next == old(e.next)
      decreases |xs| - i
    {
      ghost var links, moved := Links(all), place';
      assert LinkAt(links, xs, i);
      var next := elm.next;
      bs', place' := RehashEntry(elm, new_, bs', place');
      StillChained(links, xs, i, moved, Links(all), place');
      elm := next;
      i := i + 1;
    }
  }

  /** Buckets `b` and later are still linked, and none of their entries has been moved. */
  ghost predicate Waiting(bs: Buckets, b: nat, next: map<Entry, Entry?>, moved: map<Entry, nat>) {
    && (forall c, e {:trigger e in bs[c]} | b <= c < |bs| && e in bs[c] :: e in next && e !in moved)
    && (forall c, j {:trigger LinkAt(next, bs[c], j)} | b <= c < |bs| && 0 <= j < |bs[c]| :: LinkAt(next, bs[c], j))
  }

  /** Moving bucket `b` leaves the later buckets waiting. */
  lemma StillWaiting(bs: Buckets, place: map<Entry, nat>, b: nat, next: map<Entry, Entry?>, moved: map<Entry, nat>,
                     next': map<Entry, Entry?>, moved': map<Entry, nat>)
    requires Placed(bs, place) && b < |bs| && Waiting(bs, b, next, moved)
    requires forall e :: e in moved' <==> e in moved || e in bs[b]
    requires forall e | e in next && e !in moved' :: e in next' && next'[e] == next[e]
    ensures Waiting(bs, b + 1, next', moved')
  {
    forall c, e | b < c < |bs| && e in bs[c]
      ensures e in next' && e !in moved'
    {
      assert e !in bs[b];
    }
    forall c, j | b < c < |bs| && 0 <= j < |bs[c]|
      ensures LinkAt(next', bs[c], j)
    {
      assert LinkAt(next, bs[c], j) && bs[c][j] in bs[c];
    }
  }

  /** The next bucket to empty. */
  lemma NextChain(bs: Buckets, place: map<Entry, nat>, b: nat, next: map<Entry, Entry?>, moved: map<Entry, nat>)
    requires Placed(bs, place) && b < |bs| && Waiting(bs, b, next, moved)
    ensures ChainFrom(next, bs[b], 0, moved) && NoDup(bs[b])
    ensures forall e | e in bs[b] :: e in place && place[e] == b
  {
    forall j | 0 <= j < |bs[b]|
      ensures LinkAt(next, bs[b], j) && bs[b][j] !in moved
    {
      assert bs[b][j] in bs[b];
    }
  }

  lemma EmptyTable(tab: array<Entry?>)
    requires forall b | 0 <= b < tab.Length :: tab[b] == null
    ensures Linked(tab, NoBuckets(tab.Length), map[])
  {
  }

  // HT_GROW when the new table could be allocated (ht-internal.h:328-345)
  method Rehash(old_: array?<Entry?>, new_: array<Entry?>, ghost bs: Buckets, ghost place: map<Entry, nat>)
    returns (ghost bs': Buckets, ghost place': map<Entry, nat>)
    requires new_.Length > 0 && (forall b | 0 <= b < new_.Length :: new_[b] == null)
    requires if old_ == null then bs == [] && place == map[] else old_ != new_ && Linked(old_, bs, place)
    modifies new_, place.Keys`next
    ensures Linked(new_, bs', place') && ByHash(place', new_.Length) && place'.Keys == place.Keys
  {
    bs', place' := NoBuckets(new_.Length), map[];
    EmptyTable(new_);
    var b, length := 0, if old_ == null then 0 else old_.Length;
    ghost var heads := if old_ == null then [] else old_[..];
    while b < length
      invariant 0 <= b <= length == |bs|
      invariant length > 0 ==> old_ != null && old_[..] == heads
      invariant Linked(new_, bs', place') && ByHash(place', new_.Length)
      invariant Waiting(bs, b, Links(place.Keys), place')
      invariant forall e :: e in place' <==> e in place && place[e] < b
      invariant heads == old(if old_ == null then [] else old_[..])
    {
      ghost var next, moved := Links(place.Keys), place';
      NextChain(bs, place, b, next, moved);
      assert old_[b] == heads[b];
      bs', place' := RehashBucket(old_[b], new_, place.Keys, bs[b], bs', place');
      StillWaiting(bs, place, b, next, moved, Links(place.Keys), place');
      b := b + 1;
    }
  }

  /** `dest` is the bucket that each entry's hash selects in a table of length `m`. */
  ghost predicate Dest(dest: map<Entry, nat>, m: nat)
    reads dest.Keys`hash
  {
    m > 0 && forall e | e in dest :: dest[e] == BucketOf(e.hash, m)
  }

  // HT_GROW, scanning one bucket of the enlarged table in place (ht-internal.h:353-363): entries that
  // belong elsewhere go to the front of their bucket, the others stay
  method ScanBucket(tab: array<Entry?>, b: nat, ghost bs: Buckets, ghost place: map<Entry, nat>,
          ghost dest: map<Entry, nat>)
    returns (ghost bs': Buckets, ghost place': map<Entry, nat>)
    requires Linked(tab, bs, place) && b < tab.Length && dest.Keys == place.Keys && Dest(dest, tab.Length)
    modifies tab, place.Keys`next
    ensures Linked(tab, bs', place') && place'.Keys == place.Keys && |bs'| == |bs|
    ensures Fits(bs', b, dest) && OthersFit(bs, bs', b, dest)
  {
    hide Linked;
    bs', place' := bs, place;
    ghost var i := 0;
    LinkedLength(tab, bs, place);
    LoadAt(tab, bs', place', b, i);
    var p := Slot(b);
    var e := Load(tab, p);
    while e != null
      invariant Linked(tab, bs', place')
      invariant |bs'| == |bs| && place'.Keys == place.Keys
      invariant i <= |bs'[b]| && p == LocAt(bs', b, i) && e == (if i < |bs'[b]| then bs'[b][i] else null)
      invariant FitsUpTo(bs', b, i, dest) && OthersFit(bs, bs', b, dest)
      decreases |bs'[b]| - i
    {
      LoadAt(tab, bs', place', b, i);
      var b2 := BucketOf(e.hash, tab.Length);
      if b2 == b {
        p := NextOf(e);
        i := i + 1;
      } else {
        MovedFits(bs, bs', b, i, b2, dest);
        bs', place' := MoveTo(tab, p, b2, bs', place', b, i);
      }
      LoadAt(tab, bs', place', b, i);
      e := Load(tab, p);
    }
  }

  // *pE = e->next; e->next = new_table[b2]; new_table[b2] = e (ht-internal.h:359-361)
  method MoveTo(tab: array<Entry?>, p: Loc, b2: nat, ghost bs: Buckets, ghost place: map<Entry, nat>, ghost b: nat,
          ghost i: nat)
    returns (ghost bs': Buckets, ghost place': map<Entry, nat>)
    requires Linked(tab, bs, place) && b < |bs| && i < |bs[b]| && p == LocAt(bs, b, i) && b2 < tab.Length && b2 != b
    modifies tab, place.Keys`next
    ensures Linked(tab, bs', place') && bs' == Moved(bs, b, i, b2) && place'.Keys == place.Keys
  {
    var e := Unlink(tab, p, bs, place, b, i);
    bs', place' := Removed(bs, b, i), place - {e};
    Push(tab, b2, e, bs', place');
    bs', place' := Pushed(bs', b2, e), place'[e := b2];
  }

  // The reallocation before the scan (ht-internal.h:348-351)
  method Enlarge(old_: array?<Entry?>, newLen: nat, ghost bs: Buckets, ghost place: map<Entry, nat>)
    returns (tab: array<Entry?>)
    requires if old_ == null then bs == [] && place == map[] else Linked(old_, bs, place)
    requires newLen > 0 && |bs| <= newLen
    ensures fresh(tab) && tab.Length == newLen
    ensures Linked(tab, bs + NoBuckets(newLen - |bs|), place)
  {
    var length := if old_ == null then 0 else old_.Length;
    tab := new Entry?[newLen](_ => null);
    forall i | 0 <= i < length {
      tab[i] := old_[i];
    }
    Enlarged(if old_ == null then [] else old_[..], tab[..], Links(place.Keys), bs, place, newLen);
  }

  // HT_GROW when only the old table could be enlarged (ht-internal.h:347-365).  reallocfn hands back
  // the old bucket heads in a larger array, memset clears the rest.
  method RehashInPlace(old_: array?<Entry?>, newLen: nat, ghost bs: Buckets, ghost place: map<Entry, nat>)
    returns (tab: array<Entry?>, ghost bs': Buckets, ghost place': map<Entry, nat>)
    requires if old_ == null then bs == [] && place == map[] else Linked(old_, bs, place)
    requires newLen > 0 && |bs| <= newLen
    modifies place.Keys`next
    ensures fresh(tab) && tab.Length == newLen
    ensures Linked(tab, bs', place') && ByHash(place', newLen) && place'.Keys == place.Keys
  {
    hide Linked;
    var length := if old_ == null then 0 else old_.Length;
    if old_ != null {
      LinkedLength(old_, bs, place);
    }
    tab := Enlarge(old_, newLen, bs, place);
    bs', place' := bs + NoBuckets(newLen - |bs|), place;
    ghost var dest := map e | e in place :: BucketOf(e.hash, newLen);
    var b := 0;
    while b < length
      invariant 0 <= b <= length == |bs| && |bs'| == newLen == tab.Length
      invariant Linked(tab, bs', place')
      invariant place'.Keys == place.Keys
      invariant forall c | 0 <= c < newLen && (c < b || c >= length) :: Fits(bs', c, dest)
    {
      ghost var was := bs';
      bs', place' := ScanBucket(tab, b, bs', place', dest);
      assert forall c | 0 <= c < newLen && (c < b || c >= length) :: Fits(was, c, dest) && Fits(bs', c, dest);
      b := b + 1;
    }
    LinkedLength(tab, bs', place');
    AllFit(bs', place', dest);
  }

  /** Every entry carries the hash of its key, and no two entries have the same key. */
  ghost predicate Keyed(hashfn: int -> nat, es: set<Entry>)
    reads es`hash
  {
    && (forall e | e in es :: e.hash == hashfn(e.key))
    && (forall e, e' | e in es && e' in es && e.key == e'.key :: e == e')
  }

  lemma KeyedInsert(hashfn: int -> nat, place: map<Entry, nat>, elm: Entry, b: nat)
    requires Keyed(hashfn, place.Keys) && elm.hash == hashfn(elm.key)
    requires forall e | e in place :: e.key != elm.key
    ensures Keyed(hashfn, place[elm := b].Keys) && |place[elm := b]| == |place| + 1
  {
    assert place[elm := b].Keys == place.Keys + {elm};
  }

  lemma KeyedRemove(hashfn: int -> nat, place: map<Entry, nat>, elm: Entry)
    requires Keyed(hashfn, place.Keys) && elm in place
    ensures Keyed(hashfn, (place - {elm}).Keys) && |place - {elm}| == |place| - 1
    ensures (place - {elm}).Keys == place.Keys - {elm}
  {
    assert place == (place - {elm})[elm := place[elm]];
  }

  class HashTable {
    const hashfn: int -> nat
    const load: nat -> nat
    const primes: seq<nat>
    var table: array?<Entry?>
    var length: nat
    var entries: nat
    var limit: nat
    var primeIdx: int
    ghost var chains: Buckets
    ghost var place: map<Entry, nat>

    /** Nothing allocated yet, as HT_INIT leaves it. */
    ghost predicate Blank()
      reads this
    {
      table == null && length == 0 && entries == 0 && limit == 0 && primeIdx == -1 && chains == [] && place == map[]
    }

    /** A table of a length from PRIMES whose chains hold every entry in the bucket of its hash. */
    ghost predicate Allocated()
      reads this, table, place.Keys
    {
      && table != null && table.Length == length && |primes| == N_PRIMES
      && 0 <= primeIdx < N_PRIMES && length == primes[primeIdx] && limit == load(length)
      && Linked(table, chains, place) && ByHash(place, length) && entries == |place|
    }

    ghost predicate Valid()
      reads this, table, place.Keys
    {
      && GoodLengths(primes) && Monotone(load)
      && (if table == null then Blank() else Allocated())
      && Keyed(hashfn, place.Keys)
    }

    /** Unless growing has failed, an allocated table has room for its entries. */
    ghost predicate Roomy()
      reads this
    {
      table != null ==> 0 < limit && entries <= limit
    }

    lemma Parts()
      requires Valid() && table != null
      ensures table.Length == length == |chains| && length > 0 && Linked(table, chains, place) && ByHash(place, length)
      ensures Placed(chains, place)
    {
    }

    // HT_INIT (ht-internal.h:129-136)
    constructor (hashfn: int -> nat, load: nat -> nat)
      requires Monotone(load)
      ensures Valid() && Blank() && Roomy() && this.hashfn == hashfn && this.load == load && primes == PRIMES
    {
      PrimesIncreasing();
      this.primes := PRIMES;
      this.hashfn, this.load := hashfn, load;
      table, length, entries, limit, primeIdx := null, 0, 0, 0, -1;
      chains, place := [], map[];
    }

    /** The current length is the first one behind `idx` that has a limit above `size`. */
    ghost predicate FirstRoomy(idx: int, size: nat)
      reads this`primeIdx
    {
      && |primes| == N_PRIMES && -1 <= idx < primeIdx < N_PRIMES && load(primes[primeIdx]) > size
      && forall i | idx < i < primeIdx :: load(primes[i]) <= size
    }

    // HT_GROW (ht-internal.h:312-371).  The flags say whether mallocfn and reallocfn succeed.
    method Grow(size: nat, mallocOk: bool, reallocOk: bool) returns (r: int)
      requires Valid()
      requires primeIdx < N_PRIMES - 1 && limit <= size ==> load(primes[N_PRIMES - 1]) > size
      modifies this, place.Keys`next
      ensures Valid() && place.Keys == old(place.Keys) && entries == old(entries)
      ensures r == 0 || r == -1
      ensures r == -1 <==> old(primeIdx) < N_PRIMES - 1 && old(limit) <= size && !mallocOk && !reallocOk
      ensures r == -1 || old(primeIdx) == N_PRIMES - 1 || old(limit) > size ==>
                table == old(table) && length == old(length) && limit == old(limit) && primeIdx == old(primeIdx)
                && chains == old(chains)
      ensures r == 0 && old(primeIdx) < N_PRIMES - 1 && old(limit) <= size ==>
                && fresh(table) && FirstRoomy(old(primeIdx), size)
                && length == primes[primeIdx] && limit == load(length)
    {
      if primeIdx == N_PRIMES - 1 {
        return 0;
      }
      if limit > size {
        return 0;
      }
      var idx, newLen, newLimit := FindLength(size);
      var newTable;
      ghost var bs, pl;
      newTable, bs, pl := Resize(newLen, mallocOk, reallocOk);
      if newTable == null {
        return -1;
      }
      Adopt(newTable, idx, newLen, newLimit, bs, pl);
      return 0;
    }

    /** The ghost record follows the links. */
    ghost method Reshape(bs: Buckets, pl: map<Entry, nat>)
      requires GoodLengths(primes) && Monotone(load) && 0 <= primeIdx < N_PRIMES && length == primes[primeIdx]
          && limit == load(length)
      requires table != null && table.Length == length && entries == |pl|
      requires Linked(table, bs, pl) && ByHash(pl, length) && Keyed(hashfn, pl.Keys)
      modifies this`chains, this`place
      ensures Valid() && chains == bs && place == pl
    {
      hide Linked, ByHash, Keyed, Monotone;
      chains, place := bs, pl;
    }

    // HT_GROW, the table is replaced (ht-internal.h:345, 365-369)
    method Adopt(newTable: array<Entry?>, idx: int, newLen: nat, newLimit: nat, ghost bs: Buckets,
            ghost pl: map<Entry, nat>)
      requires GoodLengths(primes) && Monotone(load) && Keyed(hashfn, place.Keys) && entries == |place|
      requires 0 <= idx < N_PRIMES && newLen == primes[idx] && newLimit == load(newLen) && newTable.Length == newLen
      requires Linked(newTable, bs, pl) && ByHash(pl, newLen) && pl.Keys == place.Keys
      modifies this
      ensures Valid() && place.Keys == old(place.Keys) && entries == old(entries)
      ensures table == newTable && limit == newLimit && length == newLen && primeIdx == idx
    {
      hide Linked, ByHash, Keyed;
      SameSize(place, pl);
      table := newTable;
      length, primeIdx, limit := newLen, idx, newLimit;
      Reshape(bs, pl);
    }

    // The two branches of HT_GROW; null when nothing could be allocated
    method Resize(newLen: nat, mallocOk: bool, reallocOk: bool)
      returns (newTable: array?<Entry?>, ghost bs: Buckets, ghost pl: map<Entry, nat>)
      requires Valid() && 0 < newLen && length <= newLen
      modifies place.Keys`next
      ensures newTable == null <==> !mallocOk && !reallocOk
      ensures newTable == null ==> Valid()
      ensures Keyed(hashfn, place.Keys)
      ensures newTable != null ==> fresh(newTable) && newTable.Length == newLen
      ensures newTable != null ==> Linked(newTable, bs, pl) && ByHash(pl, newLen) && pl.Keys == place.Keys
    {
      hide Linked, Keyed;
      if table != null {
        LinkedLength(table, chains, place);
      }
      bs, pl := chains, place;
      if mallocOk {
        var tab := new Entry?[newLen](_ => null);
        bs, pl := Rehash(table, tab, chains, place);
        newTable := tab;
      } else if reallocOk {
        newTable, bs, pl := RehashInPlace(table, newLen, chains, place);
      } else {
        newTable := null;
      }
    }

    // The do-while loop of HT_GROW (ht-internal.h:322-327)
    method FindLength(size: nat) returns (idx: int, newLen: nat, newLimit: nat)
      requires Valid() && primeIdx < N_PRIMES - 1 && load(primes[N_PRIMES - 1]) > size
      ensures primeIdx < idx < N_PRIMES && newLen == primes[idx] && newLimit == load(newLen)
      ensures forall i | primeIdx < i < idx :: load(primes[i]) <= size
      ensures newLimit > size && newLen > 0 && newLen >= length
    {
      SearchStaysInside(primes, load, primeIdx, size);
      idx := primeIdx + 1;
      newLen := primes[idx];
      newLimit := load(newLen);
      while newLimit <= size && idx < N_PRIMES
        invariant primeIdx < idx < N_PRIMES && newLen == primes[idx] && newLimit == load(newLen)
        invariant if newLimit > size then Search(primes, load, primeIdx, size) == Some(idx)
                  else Search(primes, load, primeIdx, size) == Search(primes, load, idx, size)
        decreases N_PRIMES - idx
      {
        idx := idx + 1;
        newLen := primes[idx];
        newLimit := load(newLen);
      }
    }

    // _HT_FIND_P (ht-internal.h:139-152): the address of the matching entry or of the end of its chain
    method FindP(elm: Entry) returns (p: Option<Loc>, ghost b: nat, ghost i: nat)
      requires Valid() && elm.hash == hashfn(elm.key)
      ensures p.None? <==> table == null
      ensures p.Some? ==>
                && b < |chains| && i <= |chains[b]| && p.value == LocAt(chains, b, i)
                && (if i < |chains[b]| then chains[b][i].key == elm.key
                    else forall e | e in place :: e.key != elm.key)
    {
      hide Linked;
      b, i := 0, 0;
      if table == null {
        return None, b, i;
      }
      LinkedLength(table, chains, place);
      var slot := BucketOf(elm.hash, length);
      b := slot;
      var q := Slot(slot);
      LoadAt(table, chains, place, b, i);
      var cur := Load(table, q);
      while cur != null
        invariant i <= |chains[b]| && q == LocAt(chains, b, i)
        invariant cur == if i < |chains[b]| then chains[b][i] else null
        invariant forall j | 0 <= j < i :: chains[b][j].key != elm.key
        decreases |chains[b]| - i
      {
        if cur.key == elm.key {
          return Some(q), b, i;
        }
        q := NextOf(cur);
        i := i + 1;
        LoadAt(table, chains, place, b, i);
        cur := Load(table, q);
      }
      NotInBucket(chains, place, b, elm.key);
      return Some(q), b, i;
    }

    // HT_FIND (ht-internal.h:155-163)
    method Find(elm: Entry) returns (r: Entry?)
      requires Valid() && (elm in place ==> elm.hash == hashfn(elm.key))
      modifies elm`hash
      ensures Valid()
      ensures r == null ==> forall e | e in place :: e.key != elm.key
      ensures r != null ==> r in place && r.key == elm.key
      ensures elm.hash == hashfn(elm.key)
    {
      elm.hash := hashfn(elm.key);
      var p;
      ghost var b, i;
      p, b, i := FindP(elm);
      if p.None? {
        return null;
      }
      LoadAt(table, chains, place, b, i);
      return Load(table, p.value);
    }

    /** The hash of the new element, and its link into the bucket (ht-internal.h:173-176). */
    method Attach(elm: Entry, b: nat)
      requires table != null && length == table.Length > 0 && b == BucketOf(hashfn(elm.key), length)
      requires Linked(table, chains, place) && ByHash(place, length) && Keyed(hashfn, place.Keys)
      requires forall e | e in place :: e.key != elm.key
      modifies table, elm, place.Keys`next
      ensures Linked(table, Pushed(chains, b, elm), place[elm := b])
      ensures ByHash(place[elm := b], length) && Keyed(hashfn, place[elm := b].Keys)
      ensures |place[elm := b]| == |place| + 1 && |Pushed(chains, b, elm)| == |chains|
    {
      hide Linked, Keyed;
      LinkedLength(table, chains, place);
      elm.hash := hashfn(elm.key);
      KeyedInsert(hashfn, place, elm, b);
      Push(table, b, elm, chains, place);
    }

    // HT_INSERT once there is room (ht-internal.h:172-176)
    method LinkIn(elm: Entry)
      requires Valid() && table != null && forall e | e in place :: e.key != elm.key
      modifies this`entries, this`chains, this`place, table, elm, place.Keys`next
      ensures Valid() && place.Keys == old(place.Keys) + {elm} && entries == old(entries) + 1
      ensures table == old(table) && length == old(length) && limit == old(limit) && primeIdx == old(primeIdx)
    {
      hide Linked, Keyed, ByHash, Placed, Pushed, Monotone;
      Parts();
      var b := BucketOf(hashfn(elm.key), length);
      entries := entries + 1;
      Attach(elm, b);
      Reshape(Pushed(chains, b, elm), place[elm := b]);
    }

    // HT_INSERT (ht-internal.h:166-177); the table must not hold a matching entry
    method Insert(elm: Entry, mallocOk: bool, reallocOk: bool)
      requires Valid() && forall e | e in place :: e.key != elm.key
      requires table != null || mallocOk || reallocOk
      requires (table == null || entries >= limit) && primeIdx < N_PRIMES - 1 ==>
                load(primes[N_PRIMES - 1]) > entries + 1
      modifies this, table, elm, place.Keys`next
      ensures Valid() && place.Keys == old(place.Keys) + {elm} && entries == old(entries) + 1
      ensures old(Roomy() && (entries < limit || primeIdx < N_PRIMES - 1)) && (mallocOk || reallocOk) ==> Roomy()
      ensures if old((table == null || entries >= limit) && primeIdx < N_PRIMES - 1) && (mallocOk || reallocOk)
              then FirstRoomy(old(primeIdx), old(entries) + 1)
              else table == old(table) && length == old(length) && limit == old(limit) && primeIdx == old(primeIdx)
    {
      if table == null || entries >= limit {
        var _ := Grow(entries + 1, mallocOk, reallocOk);
      }
      LinkIn(elm);
    }

    // HT_REMOVE (ht-internal.h:202-215)
    method Remove(elm: Entry) returns (r: Entry?)
      requires Valid() && (elm in place ==> elm.hash == hashfn(elm.key))
      modifies this`entries, this`chains, this`place, table, elm`hash, place.Keys`next
      ensures Valid()
      ensures r == null ==> place == old(place) && forall e | e in place :: e.key != elm.key
      ensures r != null ==> r in old(place) && r.key == elm.key && r.next == null
      ensures r != null ==> place.Keys == old(place.Keys) - {r} && entries == old(entries) - 1
      ensures elm.hash == hashfn(elm.key)
    {
      hide Linked;
      elm.hash := hashfn(elm.key);
      var p;
      ghost var b, i;
      p, b, i := FindP(elm);
      if p.None? {
        return null;
      }
      LoadAt(table, chains, place, b, i);
      r := Load(table, p.value);
      if r == null {
        return null;
      }
      TakeOut(p.value, b, i);
      r.next := null;
    }

    /** What stays when one entry is taken out. */
    lemma WithoutIt(b: nat, i: nat)
      requires Valid() && b < |chains| && i < |chains[b]|
      ensures table != null && chains[b][i] in place
      ensures var pl := place - {chains[b][i]};
              && ByHash(pl, length) && Keyed(hashfn, pl.Keys)
              && |pl| == |place| - 1 && pl.Keys == place.Keys - {chains[b][i]}
    {
      hide Linked, Keyed;
      LoadAt(table, chains, place, b, i);
      KeyedRemove(hashfn, place, chains[b][i]);
    }

    // *p = (*p)->next (ht-internal.h:211, 281)
    method Detach(p: Loc, ghost b: nat, ghost i: nat)
      requires Valid() && b < |chains| && i < |chains[b]| && p == LocAt(chains, b, i)
      modifies table, place.Keys`next
      ensures table != null && chains[b][i] in place
      ensures var pl := place - {chains[b][i]};
              && Linked(table, Removed(chains, b, i), pl) && ByHash(pl, length)
              && Keyed(hashfn, pl.Keys) && |pl| == |place| - 1
    {
      hide Linked, Keyed, ByHash, Placed, Removed, GoodLengths, Monotone;
      WithoutIt(b, i);
      Parts();
      var _ := Unlink(table, p, chains, place, b, i);
    }

    // *p = (*p)->next and one entry less (ht-internal.h:210-213, 281-282)
    method TakeOut(p: Loc, ghost b: nat, ghost i: nat)
      requires Valid() && b < |chains| && i < |chains[b]| && p == LocAt(chains, b, i)
      modifies this`entries, this`chains, this`place, table, place.Keys`next
      ensures Valid() && table != null
      ensures chains == Removed(old(chains), b, i) && place == old(place - {chains[b][i]})
          && entries == old(entries) - 1
      ensures old(chains)[b][i] in old(place)
    {
      hide Linked, Keyed, ByHash, Placed, Removed, GoodLengths, Monotone;
      Detach(p, b, i);
      entries := entries - 1;
      Reshape(Removed(chains, b, i), place - {chains[b][i]});
    }

    // *p = next, whatever the link of the entry is now (ht-internal.h:236)
    method DetachCalled(p: Loc, link: Entry?, ghost b: nat, ghost i: nat)
      requires Valid() && b < |chains| && i < |chains[b]| && p == LocAt(chains, b, i)
      modifies table, place.Keys`next
      ensures table != null && chains[b][i] in place
      ensures var pl := place - {chains[b][i]};
              && Linked(table, Removed(chains, b, i), pl) && ByHash(pl, length)
              && Keyed(hashfn, pl.Keys) && |pl| == |place| - 1
    {
      hide Linked, Keyed, ByHash, Placed, Removed, GoodLengths, Monotone;
      WithoutIt(b, i);
      Parts();
      var _ := UnlinkCalled(table, p, link, chains, place, b, i);
    }

    // The same after the callback of HT_FOREACH_FN has done what it likes to the entry (ht-internal.h:232-236)
    method TakeOutCalled(p: Loc, link: Entry?, ghost b: nat, ghost i: nat)
      requires Valid() && b < |chains| && i < |chains[b]| && p == LocAt(chains, b, i)
      modifies this`entries, this`chains, this`place, table, place.Keys`next
      ensures Valid() && table != null
      ensures chains == Removed(old(chains), b, i) && place == old(place - {chains[b][i]})
          && entries == old(entries) - 1
      ensures old(chains)[b][i] in old(place)
    {
      hide Linked, Keyed, ByHash, Placed, Removed, GoodLengths, Monotone;
      DetachCalled(p, link, b, i);
      entries := entries - 1;
      Reshape(Removed(chains, b, i), place - {chains[b][i]});
    }

    // HT_FOREACH_FN (ht-internal.h:220-242).  `visited` are the entries that fn
    // was applied to, `start` and `data` the contents of its data argument before and after.
    method ForeachFn<D>(fn: (Entry, D) -> Answer<D>, start: D) returns (visited: seq<Entry>, data: D)
      requires Valid()
      modifies this`entries, this`chains, this`place, table, place.Keys`next
      ensures Valid() && visited == FlatFrom(old(chains), 0)
      ensures data == DataAfter(fn, start, visited)
      ensures forall e :: e in place <==> e in old(place) && e !in Dropped(fn, start, visited)
    {
      hide Linked, Keyed, ByHash, NoDup, Placed, FlatFrom, Covered, HashTable.Valid, DataAfter, Dropped;
      visited, data := [], start;
      NothingSeen(fn, start);
      OnceEach();
      if table == null {
        Empty();
        return;
      }
      Parts();
      ghost var all := FlatFrom(chains, 0);
      assert visited + all == all;
      var idx := 0;
      while idx < length
        invariant Valid() && table == old(table) && length == old(length) && length == |chains| && idx <= length
        invariant place.Keys <= old(place.Keys)
        invariant visited + FlatFrom(chains, idx) == all
        invariant data == DataAfter(fn, start, visited)
        invariant forall e :: e in place <==> e in old(place) && e !in Dropped(fn, start, visited)
      {
        visited, data := ForeachBucket(idx, fn, start, data, visited, all);
        idx := idx + 1;
      }
      FlatEnd(chains);
    }

    lemma NothingSeen<D>(fn: (Entry, D) -> Answer<D>, start: D)
      ensures DataAfter(fn, start, []) == start && Dropped(fn, start, []) == {}
    {
    }

    lemma Empty()
      requires Valid() && table == null
      ensures place == map[] && FlatFrom(chains, 0) == []
    {
    }

    // HT_FOREACH_FN, one bucket (ht-internal.h:230-240)
    method ForeachBucket<D>(idx: nat, fn: (Entry, D) -> Answer<D>, ghost start: D, given: D, before: seq<Entry>,
            ghost all: seq<Entry>) returns (visited: seq<Entry>, data: D)
      requires Valid() && table != null && idx < length == |chains|
      requires before + FlatFrom(chains, idx) == all
      requires given == DataAfter(fn, start, before)
      requires forall e | e in place :: e !in Dropped(fn, start, before)
      modifies this`entries, this`chains, this`place, table, place.Keys`next
      ensures Valid() && |chains| == old(|chains|)
      ensures visited + FlatFrom(chains, idx + 1) == all && before <= visited
      ensures Dropped(fn, start, before) <= Dropped(fn, start, visited)
      ensures data == DataAfter(fn, start, visited)
      ensures forall e :: e in place <==> e in old(place) && e !in Dropped(fn, start, visited)
    {
      hide Linked, Keyed, ByHash, NoDup, Placed, Remaining, FlatFrom, HashTable.Valid, DataAfter, Dropped;
      visited, data := before, given;
      RemainingEnds(chains, idx);
      Parts();
      ghost var i := 0;
      var p := Slot(idx);
      LoadAt(table, chains, place, idx, i);
      var cur := Load(table, p);
      while cur != null
        invariant Valid() && table == old(table) && length == old(length) && |chains| == length
        invariant place.Keys <= old(place.Keys)
        invariant i <= |chains[idx]| && p == LocAt(chains, idx, i)
            && cur == if i < |chains[idx]| then chains[idx][i] else null
        invariant visited + Remaining(chains, idx, i) == all && before <= visited
        invariant data == DataAfter(fn, start, visited) && Dropped(fn, start, before) <= Dropped(fn, start, visited)
        invariant forall e :: e in place <==> e in old(place) && e !in Dropped(fn, start, visited)
        decreases |chains[idx]| - i
      {
        Parts();
        VisitStep(chains, idx, i);
        LoadAt(table, chains, place, idx, i);
        Shift(visited, cur, Remaining(chains, idx, i + 1));
        OneMore(fn, start, visited, cur);
        visited := visited + [cur];
        var answer := fn(cur, data);
        data := answer.data;
        if answer.remove {
          TakeOutCalled(p, answer.link, idx, i);
        } else {
          p := NextOf(cur);
          i := i + 1;
        }
        Parts();
        LoadAt(table, chains, place, idx, i);
        cur := Load(table, p);
      }
      RemainingEnds(chains, idx);
    }

    /** The address holds the first of the entries still to visit, and is null if there are none. */
    ghost predicate PointsAt(p: Option<Loc>, rest: seq<Entry>)
      reads this, table, if p.Some? && p.value.NextOf? then {p.value.entry} else {}
    {
      if rest == [] then p.None?
      else p.Some? && table != null && (p.value.Slot? ==> p.value.b < table.Length) && Load(table, p.value) == rest[0]
    }

    // The scan for the next bucket in use, from bucket `start` on (ht-internal.h:249-255, 268-274, 286-292)
    method Scan(start: nat) returns (p: Option<Loc>, ghost b: nat)
      requires Valid() && start <= length
      ensures p.Some? ==> b < |chains| && chains[b] != [] && p.value == LocAt(chains, b, 0)
      ensures start <= |chains| && FlatFrom(chains, start) == if p.Some? then Remaining(chains, b, 0) else []
      ensures PointsAt(p, FlatFrom(chains, start))
    {
      hide Linked, Keyed, Remaining;
      var k := start;
      if table != null {
        Parts();
      }
      while k < length
        invariant k <= length == |chains| && FlatFrom(chains, k) == FlatFrom(chains, start)
      {
        Parts();
        LoadAt(table, chains, place, k, 0);
        if table[k] != null {
          RemainingEnds(chains, k);
          SameEntry(k, 0);
          return Some(Slot(k)), k;
        }
        k := k + 1;
      }
      return None, 0;
    }

    // HT_START (ht-internal.h:246-256)
    method Start() returns (p: Option<Loc>, ghost b: nat)
      requires Valid()
      ensures p.Some? ==> b < |chains| && chains[b] != [] && p.value == LocAt(chains, b, 0)
      ensures FlatFrom(chains, 0) == if p.Some? then Remaining(chains, b, 0) else []
      ensures PointsAt(p, FlatFrom(chains, 0))
    {
      p, b := Scan(0);
    }

    // HT_NEXT (ht-internal.h:262-276)
    method Next(elm: Loc, ghost b: nat, ghost i: nat) returns (p: Option<Loc>, ghost b': nat, ghost i': nat)
      requires Valid() && b < |chains| && i < |chains[b]| && elm == LocAt(chains, b, i)
      ensures p.Some? ==> b' < |chains| && i' < |chains[b']| && p.value == LocAt(chains, b', i')
      ensures Remaining(chains, b, i)[1..] == if p.Some? then Remaining(chains, b', i') else []
      ensures PointsAt(p, Remaining(chains, b, i)[1..])
    {
      hide Linked, Keyed, FlatFrom, HashTable.Valid;
      HasEntries(b, i);
      Parts();
      LoadAt(table, chains, place, b, i);
      VisitStep(chains, b, i);
      var cur := Load(table, elm);
      if cur.next != null {
        LoadAt(table, chains, place, b, i + 1);
        SameEntry(b, i + 1);
        return Some(NextOf(cur)), b, i + 1;
      }
      RemainingEnds(chains, b);
      p, b' := Scan(BucketOf(cur.hash, length) + 1);
      i' := 0;
    }

    lemma HasEntries(b: nat, i: nat)
      requires Valid() && b < |chains| && i < |chains[b]|
      ensures table != null && chains[b][i] in place && BucketOf(chains[b][i].hash, length) == b && length > 0
    {
      assert chains[b][i] in chains[b];
    }

    // HT_NEXT_RMV (ht-internal.h:277-294)
    method NextRmv(elm: Loc, ghost b: nat, ghost i: nat) returns (p: Option<Loc>, ghost b': nat, ghost i': nat)
      requires Valid() && b < |chains| && i < |chains[b]| && elm == LocAt(chains, b, i)
      modifies this`entries, this`chains, this`place, table, place.Keys`next
      ensures Valid() && place == old(place - {chains[b][i]}) && entries == old(entries) - 1
          && |chains| == old(|chains|)
      ensures p.Some? ==> b' < |chains| && i' < |chains[b']| && p.value == LocAt(chains, b', i')
      ensures old(Remaining(chains, b, i))[1..] == if p.Some? then Remaining(chains, b', i') else []
    {
      hide Linked, Keyed, FlatFrom, HashTable.Valid;
      HasEntries(b, i);
      Parts();
      LoadAt(table, chains, place, b, i);
      VisitStep(chains, b, i);
      var h := Load(table, elm).hash;
      TakeOut(elm, b, i);
      Parts();
      LoadAt(table, chains, place, b, i);
      if Load(table, elm) != null {
        return Some(elm), b, i;
      }
      RemainingEnds(chains, b);
      p, b' := Scan(BucketOf(h, length) + 1);
      i' := 0;
    }

    // HT_FOREACH (ht-internal.h:120-123), collecting the entries it visits
    method Foreach() returns (visited: seq<Entry>)
      requires Valid()
      ensures visited == FlatFrom(chains, 0)
    {
      hide Linked, Keyed, FlatFrom, Remaining, HashTable.Valid;
      visited := [];
      var p;
      ghost var b: nat, i: nat := 0, 0;
      p, b := Start();
      ghost var all, rest := FlatFrom(chains, 0), FlatFrom(chains, 0);
      while p.Some?
        invariant p.Some? ==> b < |chains| && i < |chains[b]| && p.value == LocAt(chains, b, i)
        invariant all == visited + rest && rest == if p.Some? then Remaining(chains, b, i) else []
        decreases |rest|
      {
        var e := Current(p.value, b, i);
        Advance(all, visited, rest);
        visited, rest := visited + [e], rest[1..];
        p, b, i := Next(p.value, b, i);
      }
    }

    // *elm, the entry that an iteration is at
    method Current(elm: Loc, ghost b: nat, ghost i: nat) returns (e: Entry)
      requires Valid() && b < |chains| && i < |chains[b]| && elm == LocAt(chains, b, i)
      ensures e in place && Remaining(chains, b, i) != [] && e == Remaining(chains, b, i)[0]
    {
      hide Linked, Keyed, FlatFrom, HashTable.Valid;
      HasEntries(b, i);
      Parts();
      LoadAt(table, chains, place, b, i);
      e := Load(table, elm);
    }

    // Reading the current entry and moving on with HT_NEXT_RMV
    method Take(elm: Loc, ghost b: nat, ghost i: nat, ghost rest: seq<Entry>)
      returns (e: Entry, p: Option<Loc>, ghost b': nat, ghost i': nat)
      requires Valid() && b < |chains| && i < |chains[b]| && elm == LocAt(chains, b, i)
          && rest == Remaining(chains, b, i)
      modifies this`entries, this`chains, this`place, table, place.Keys`next
      ensures Valid() && e in old(place) && table == old(table)
      ensures place == old(place) - {e} && place.Keys <= old(place.Keys)
      ensures rest != [] && e == rest[0]
      ensures p.Some? ==> b' < |chains| && i' < |chains[b']| && p.value == LocAt(chains, b', i')
      ensures rest[1..] == if p.Some? then Remaining(chains, b', i') else []
    {
      hide Linked, Keyed, FlatFrom, Remaining, Removed, HashTable.Valid;
      e := Current(elm, b, i);
      SameEntry(b, i);
      p, b', i' := NextRmv(elm, b, i);
    }

    // A HT_START loop that moves on with HT_NEXT_RMV empties the table
    method Drain() returns (visited: seq<Entry>)
      requires Valid()
      modifies this`entries, this`chains, this`place, table, place.Keys`next
      ensures Valid() && place == map[] && entries == 0 && visited == FlatFrom(old(chains), 0)
    {
      hide Linked, Keyed, FlatFrom, Remaining, NoDup, Covered, HashTable.Valid;
      AllCovered();
      visited := [];
      var p;
      ghost var b: nat, i: nat := 0, 0;
      p, b := Start();
      ghost var all, rest := FlatFrom(chains, 0), FlatFrom(chains, 0);
      while p.Some?
        invariant Valid() && table == old(table) && place.Keys <= old(place.Keys)
        invariant p.Some? ==> b < |chains| && i < |chains[b]| && p.value == LocAt(chains, b, i)
        invariant all == visited + rest && rest == if p.Some? then Remaining(chains, b, i) else []
        invariant Covered(place, rest)
        decreases |rest|
      {
        var e;
        CoveredStep(place, rest);
        e, p, b, i := Take(p.value, b, i, rest);
        Advance(all, visited, rest);
        visited, rest := visited + [e], rest[1..];
      }
      CoveredEnd(place, rest);
      NoneCounted();
    }

    lemma AllCovered()
      requires Valid()
      ensures Covered(place, FlatFrom(chains, 0))
    {
      OnceEach();
    }

    lemma NoneCounted()
      requires Valid() && place == map[]
      ensures entries == 0
    {
      Count();
    }

    /** A pass over the table meets every entry of the table, and each once. */
    lemma OnceEach()
      requires Valid()
      ensures NoDup(FlatFrom(chains, 0)) && (forall e :: e in FlatFrom(chains, 0) <==> e in place)
    {
      FlatOnce(chains, place, 0);
    }

    lemma SameEntry(b: nat, i: nat)
      requires b < |chains| && i < |chains[b]|
      ensures Remaining(chains, b, i)[0] == chains[b][i]
    {
    }

    lemma Count()
      requires Valid()
      ensures entries == |place|
    {
    }

    /** The code for an entry of bucket `b`: its stored hash is wrong, or the bucket is. */
    ghost predicate Reported(e: Entry, b: nat, r: int)
      requires length > 0
      reads this`length, e`hash
    {
      if e.hash != hashfn(e.key) then r == 1000 + b else BucketOf(e.hash, length) != b && r == 10000 + b
    }

    // _HT_REP_IS_BAD, one bucket (ht-internal.h:406-412), counting the entries
    method BucketIsBad(i: nat) returns (r: int, n: nat)
      requires table != null && i < length == table.Length && Linked(table, chains, place)
      ensures |chains| == length
      ensures r == 0 ==> n == |chains[i]| && SoundBucket(chains[i], i)
      ensures r != 0 ==> !Sound(place) && exists e :: e in place && Reported(e, place[e], r)
    {
      hide Linked, Placed;
      LinkedLength(table, chains, place);
      r, n := 0, 0;
      var elm := table[i];
      LoadAt(table, chains, place, i, 0);
      while elm != null
        invariant n <= |chains[i]| && elm == if n < |chains[i]| then chains[i][n] else null
        invariant SoundBucket(chains[i][..n], i)
        decreases |chains[i]| - n
      {
        LoadAt(table, chains, place, i, n);
        InBucket(chains, place, i, n);
        assert elm in place && place[elm] == i;
        if elm.hash != hashfn(elm.key) {
          assert Reported(elm, place[elm], 1000 + i);
          return 1000 + i, n;
        }
        if BucketOf(elm.hash, length) != i {
          assert Reported(elm, place[elm], 10000 + i);
          return 10000 + i, n;
        }
        n := n + 1;
        elm := elm.next;
      }
      assert chains[i][..n] == chains[i];
    }

    /** The first of the numbers in the header that is wrong, 0 if none is. */
    ghost function HeaderCode(): int
      requires |primes| == N_PRIMES && primeIdx < N_PRIMES
      reads this
    {
      if primeIdx < 0 || limit == 0 then 2
      else if entries > limit then 3
      else if length != primes[primeIdx] then 4
      else if limit != load(length) then 5
      else 0
    }

    /** An entry that is not where it belongs, or else a wrong count. */
    ghost predicate BodyCode(r: int)
      requires length > 0
      reads this, place.Keys`hash
    {
      if r == 6 then Sound(place) && entries != |place|
      else exists e :: e in place && Reported(e, place[e], r)
    }

    // _HT_REP_IS_BAD (ht-internal.h:385-417) on any table whose chains can be walked
    method RepIsBad() returns (r: int)
      requires |primes| == N_PRIMES && primeIdx < N_PRIMES
      requires if table == null then length == 0 else table.Length == length && Linked(table, chains, place)
      ensures length == 0 ==> (r == 0 <==> table == null && entries == 0 && limit == 0 && primeIdx == -1)
      ensures length > 0 ==> (r == 0 <==>
                && 0 <= primeIdx && 0 < limit && entries <= limit
                && length == primes[primeIdx] && limit == load(length)
                && Sound(place) && entries == |place|)
      ensures length == 0 ==> r == 0 || r == 1
      ensures length > 0 && r != 0 ==> r == HeaderCode() || (HeaderCode() == 0 && BodyCode(r))
      ensures Valid() && Roomy() ==> r == 0
    {
      if length == 0 {
        return if table == null && entries == 0 && limit == 0 && primeIdx == -1 then 0 else 1;
      }
      if table == null || primeIdx < 0 || limit == 0 {
        return 2;
      }
      if entries > limit {
        return 3;
      }
      if length != primes[primeIdx] {
        return 4;
      }
      if limit != load(length) {
        return 5;
      }
      r := CountIsBad();
    }

    // _HT_REP_IS_BAD, the buckets and the count (ht-internal.h:405-416)
    method CountIsBad() returns (r: int)
      requires table != null && length == table.Length > 0 && Linked(table, chains, place)
      ensures r == 0 <==> Sound(place) && entries == |place|
      ensures r != 0 ==> BodyCode(r)
    {
      hide Linked, Placed;
      LinkedLength(table, chains, place);
      FlatSize(chains, place);
      var n, i := 0, 0;
      while i < length
        invariant i <= length == |chains|
        invariant n + |FlatFrom(chains, i)| == |place|
        invariant forall c | 0 <= c < i :: SoundBucket(chains[c], c)
      {
        var bad, m := BucketIsBad(i);
        if bad != 0 {
          return bad;
        }
        n := n + m;
        i := i + 1;
      }
      SoundOverall();
      if n != entries {
        return 6;
      }
      return 0;
    }

    lemma SoundOverall()
      requires length == |chains| > 0 && Placed(chains, place)
      requires forall c | 0 <= c < |chains| :: SoundBucket(chains[c], c)
      ensures Sound(place)
    {
      forall e | e in place
        ensures e.hash == hashfn(e.key) && BucketOf(e.hash, length) == place[e]
      {
        assert e in chains[place[e]] && SoundBucket(chains[place[e]], place[e]);
      }
    }

    ghost predicate SoundBucket(xs: seq<Entry>, b: nat)
      requires length > 0
      reads this`length, Members(xs)`hash
    {
      forall e | e in xs :: e.hash == hashfn(e.key) && BucketOf(e.hash, length) == b
    }

    /** Every entry carries the hash of its key and is in the bucket of that hash. */
    ghost predicate Sound(place: map<Entry, nat>)
      requires length > 0
      reads this`length, place.Keys`hash
    {
      forall e | e in place :: e.hash == hashfn(e.key) && BucketOf(e.hash, length) == place[e]
    }
  }
}

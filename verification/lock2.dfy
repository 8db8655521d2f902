/**
 Two-lock acquisition by EVLOCK_LOCK2 / EVLOCK_UNLOCK2 of evthread-internal.h, by any number
 of threads on any locks.  A lock is its address, 0 is NULL.  One step of the system is one
 EVLOCK_LOCK or EVLOCK_UNLOCK of one thread; a thread that needs a lock another thread holds
 has no step.
 */
module Lock2 {

  type Lock = nat
  const NULL: Lock := 0

  /** The arguments of one LOCK2 and the matching UNLOCK2. */
  datatype Pair = Pair(lock1: Lock, lock2: Lock)

  // _EVLOCK_SORTLOCKS (evthread-internal.h:326-334)
  method SortLocks(lock1: Lock, lock2: Lock) returns (lockvar1: Lock, lockvar2: Lock)
    ensures multiset{lockvar1, lockvar2} == multiset{lock1, lock2}
    ensures lock1 != NULL && lock2 != NULL ==> lockvar1 <= lockvar2
    ensures lock1 == NULL || lock2 == NULL ==> lockvar1 == lock1 && lockvar2 == lock2
  {
    lockvar1, lockvar2 := lock1, lock2;
    if lockvar1 != NULL && lockvar2 != NULL && lockvar1 > lockvar2 {
      var tmp := lockvar1;
      lockvar1 := lockvar2;
      lockvar2 := tmp;
    }
  }

  /** There is only one such order, the one in which the threads below take their locks. */
  lemma SortedIsOrdered(p: Pair, o: Pair)
    requires multiset{o.lock1, o.lock2} == multiset{p.lock1, p.lock2}
    requires p.lock1 != NULL && p.lock2 != NULL ==> o.lock1 <= o.lock2
    requires p.lock1 == NULL || p.lock2 == NULL ==> o == p
    ensures o == Ordered(p, true)
  {
    assert o.lock1 in multiset{p.lock1, p.lock2} && o.lock2 in multiset{p.lock1, p.lock2};
    assert p.lock1 in multiset{o.lock1, o.lock2} && p.lock2 in multiset{o.lock1, o.lock2};
  }

  /** The order in which the two locks are taken; without `sort`, the order given by the caller. */
  function Ordered(p: Pair, sort: bool): Pair {
    if sort && p.lock1 != NULL && p.lock2 != NULL && p.lock1 > p.lock2 then Pair(p.lock2, p.lock1) else p
  }

  /** Where a thread is: about to take its first lock, about to take its second one, between LOCK2
      and UNLOCK2, or about to release its first lock. */
  datatype Pc = Lock1 | Lock2 | Inside | Unlock1

  /** `todo` are the pairs still to be locked and unlocked, the current one first. */
  datatype Thread = Thread(pc: Pc, todo: seq<Pair>, held: set<Lock>)

  type System = seq<Thread>

  predicate Done(th: Thread) {
    th.todo == []
  }

  /** The second lock is only touched if it is another one than the first. */
  function Second(p: Pair, sort: bool): Lock {
    var o := Ordered(p, sort);
    if o.lock2 == o.lock1 then NULL else o.lock2
  }

  function First(p: Pair, sort: bool): Lock {
    Ordered(p, sort).lock1
  }

  /** The lock that the next step of a thread takes, NULL if it takes none. */
  function Wants(th: Thread, sort: bool): Lock {
    if th.todo == [] then NULL
    else if th.pc == Lock1 then First(th.todo[0], sort)
    else if th.pc == Lock2 then Second(th.todo[0], sort)
    else NULL
  }

  function Singleton(l: Lock): set<Lock> {
    if l == NULL then {} else {l}
  }

  /** Thread `t` can go on: it is not finished, and the lock it needs next is free. */
  ghost predicate Enabled(s: System, t: nat, sort: bool) {
    && t < |s| && !Done(s[t])
    && forall u | 0 <= u < |s| :: Wants(s[t], sort) != NULL ==> Wants(s[t], sort) !in s[u].held
  }

  /** The thread after its next step (evthread-internal.h:338-354). */
  function Advance(th: Thread, sort: bool): Thread
    requires !Done(th)
  {
    var p := th.todo[0];
    match th.pc
    case Lock1 => th.(pc := Lock2, held := th.held + Singleton(First(p, sort)))
    case Lock2 => th.(pc := Inside, held := th.held + Singleton(Second(p, sort)))
    case Inside => th.(pc := Unlock1, held := th.held - Singleton(Second(p, sort)))
    case Unlock1 => Thread(Lock1, th.todo[1..], th.held - Singleton(First(p, sort)))
  }

  ghost predicate Step(s: System, s': System, t: nat, sort: bool) {
    Enabled(s, t, sort) && s' == s[t := Advance(s[t], sort)]
  }

  /** Every thread starts outside LOCK2 and holds no lock. */
  ghost predicate Init(s: System) {
    forall t | 0 <= t < |s| :: s[t].pc == Lock1 && s[t].held == {}
  }

  /** Some thread takes the system from `s` to `s'`. */
  ghost predicate Moves(s: System, s': System, sort: bool) {
    exists t: nat :: Step(s, s', t, sort)
  }

  /** A run: every state is reached from the one before by a step of some thread. */
  ghost predicate Run(run: seq<System>, sort: bool) {
    && run != [] && Init(run[0])
    && forall i | 1 <= i < |run| :: Moves(run[i - 1], run[i], sort)
  }

  ghost predicate Final(s: System) {
    forall t | 0 <= t < |s| :: Done(s[t])
  }

  ghost predicate AllFree(s: System) {
    forall t | 0 <= t < |s| :: s[t].held == {}
  }

  ghost predicate Stuck(s: System, sort: bool) {
    forall t: nat :: !Enabled(s, t, sort)
  }

  // ----- What every step keeps -----

  /** The locks that a thread holds at each point. */
  function Holding(th: Thread): set<Lock> {
    if th.todo == [] then {}
    else match th.pc
      case Lock1 => {}
      case Lock2 => Singleton(First(th.todo[0], true))
      case Inside => Singleton(First(th.todo[0], true)) + Singleton(Second(th.todo[0], true))
      case Unlock1 => Singleton(First(th.todo[0], true))
  }

  ghost predicate Inv(s: System) {
    && (forall t | 0 <= t < |s| :: s[t].held == Holding(s[t]) && (s[t].todo == [] ==> s[t].pc == Lock1))
    && (forall t, u | 0 <= t < |s| && 0 <= u < |s| && t != u :: s[t].held !! s[u].held)
  }

  lemma InitInv(s: System)
    requires Init(s)
    ensures Inv(s)
  {
  }

  lemma StepInv(s: System, s': System, t: nat)
    requires Inv(s) && Step(s, s', t, true)
    ensures Inv(s')
  {
    var th := s[t];
    assert th.pc == Lock2 ==> First(th.todo[0], true) != Second(th.todo[0], true) || Second(th.todo[0], true) == NULL;
    forall u | 0 <= u < |s| && u != t
      ensures s'[t].held !! s'[u].held
    {
      assert s[t].held !! s[u].held;
      assert Wants(th, true) != NULL ==> Wants(th, true) !in s[u].held;
    }
  }

  lemma {:induction false} RunInv(run: seq<System>, i: nat)
    requires Run(run, true) && i < |run|
    ensures Inv(run[i]) && |run[i]| == |run[0]|
  {
    if i == 0 {
      InitInv(run[0]);
    } else {
      RunInv(run, i - 1);
      assert Moves(run[i - 1], run[i], true);
      var t: nat :| Step(run[i - 1], run[i], t, true);
      StepInv(run[i - 1], run[i], t);
    }
  }

  /** The four steps of LOCK2 and UNLOCK2: in between the thread holds exactly the locks that were
      asked for, and afterwards none. */
  lemma HoldsBothBetween(th: Thread)
    requires th.todo != [] && th.pc == Lock1 && th.held == {}
    ensures var inside := Advance(Advance(th, true), true);
            && inside.pc == Inside
            && inside.held == Singleton(th.todo[0].lock1) + Singleton(th.todo[0].lock2)
            && Advance(Advance(inside, true), true) == Thread(Lock1, th.todo[1..], {})
  {
    var p := th.todo[0];
    var a, b := First(p, true), Second(p, true);
    assert Singleton(a) + Singleton(b) == Singleton(p.lock1) + Singleton(p.lock2);
    assert Singleton(a) !! Singleton(b);
    assert ({} + Singleton(a) + Singleton(b)) - Singleton(b) - Singleton(a) == {};
  }

  /** In every state of every run a thread that holds one of the two locks it is at holds the one with the lower
      address: that one is taken first and released last. */
  lemma LowerFirst(run: seq<System>, i: nat, t: nat, l: Lock)
    requires Run(run, true) && i < |run| && t < |run[i]| && l in run[i][t].held
    ensures var th := run[i][t];
            && th.todo != [] && l in {th.todo[0].lock1, th.todo[0].lock2}
            && forall o | o in {th.todo[0].lock1, th.todo[0].lock2} && NULL < o <= l :: o in th.held
  {
    RunInv(run, i);
  }

  // ----- Deadlock freedom -----

  /** No held lock has an address above `bound`. */
  ghost predicate Bounded(s: System, bound: nat) {
    forall t, l | 0 <= t < |s| && l in s[t].held :: l <= bound
  }

  /** A blocked thread waits for a lock whose holder, when blocked too, waits for a larger one:
      following the holders leads to a thread that can go on. */
  lemma {:induction false} FindEnabled(s: System, t: nat, bound: nat) returns (u: nat)
    requires Inv(s) && Bounded(s, bound) && t < |s| && !Done(s[t])
    ensures Enabled(s, u, true)
    decreases bound - Wants(s[t], true), s[t].pc == Lock1
  {
    if Enabled(s, t, true) {
      return t;
    }
    var x := Wants(s[t], true);
    var v :| 0 <= v < |s| && x != NULL && x in s[v].held;
    if Enabled(s, v, true) {
      return v;
    }
    // v holds x and is blocked, so x is its first lock and it waits for its second, larger one
    assert s[v].pc == Lock2 && x == First(s[v].todo[0], true);
    assert Wants(s[v], true) > x;
    u := FindEnabled(s, v, bound);
  }

  lemma {:induction false} HasBound(s: System) returns (bound: nat)
    requires forall t | 0 <= t < |s| :: s[t].held == Holding(s[t])
    ensures Bounded(s, bound)
  {
    if s == [] {
      bound := 0;
    } else {
      var rest := HasBound(s[1..]);
      bound := if s[0].todo == [] then rest else rest + s[0].todo[0].lock1 + s[0].todo[0].lock2;
      forall t, l | 0 <= t < |s| && l in s[t].held
        ensures l <= bound
      {
        if t > 0 {
          assert s[1..][t - 1] == s[t];
        }
      }
    }
  }

  /** In every state of every run in which some thread is not finished, some thread can go on. */
  lemma DeadlockFree(run: seq<System>, i: nat)
    requires Run(run, true) && i < |run| && !Final(run[i])
    ensures !Stuck(run[i], true)
  {
    RunInv(run, i);
    var bound := HasBound(run[i]);
    var t :| 0 <= t < |run[i]| && !Done(run[i][t]);
    var u := FindEnabled(run[i], t, bound);
  }

  /** In every state of every run no lock is held by two threads. */
  lemma AtMostOneHolder(run: seq<System>, i: nat, l: Lock, t: nat, u: nat)
    requires Run(run, true) && i < |run| && t < |run[i]| && u < |run[i]|
    requires l in run[i][t].held && l in run[i][u].held
    ensures t == u
  {
    RunInv(run, i);
  }

  // ----- Every run ends, with all locks free -----

  function StepsLeft(th: Thread): int {
    4 * |th.todo| - (match th.pc case Lock1 => 0 case Lock2 => 1 case Inside => 2 case Unlock1 => 3)
  }

  /** The number of lock and unlock operations that all threads together still have to do. */
  function Work(s: System): int {
    if s == [] then 0 else StepsLeft(s[0]) + Work(s[1..])
  }

  lemma {:induction false} WorkUpdate(s: System, t: nat, th: Thread)
    requires t < |s|
    ensures Work(s[t := th]) == Work(s) - StepsLeft(s[t]) + StepsLeft(th)
  {
    if t == 0 {
      assert s[t := th][1..] == s[1..];
    } else {
      WorkUpdate(s[1..], t - 1, th);
      assert s[t := th][1..] == s[1..][t - 1 := th];
    }
  }

  lemma {:induction false} WorkLeft(s: System)
    requires Inv(s)
    ensures Work(s) >= 0
    ensures Work(s) == 0 <==> Final(s)
  {
    if s != [] {
      assert Inv(s[1..]) by {
        forall t | 0 <= t < |s[1..]| ensures s[1..][t] == s[t + 1] {}
      }
      WorkLeft(s[1..]);
      assert StepsLeft(s[0]) >= 0 && (StepsLeft(s[0]) == 0 <==> Done(s[0]));
      assert Final(s) <==> Done(s[0]) && Final(s[1..]) by {
        assert forall t | 0 <= t < |s[1..]| :: s[1..][t] == s[t + 1];
        assert forall t | 1 <= t < |s| :: s[t] == s[1..][t - 1];
      }
    }
  }

  lemma {:induction false} RunWork(run: seq<System>, i: nat)
    requires Run(run, true) && i < |run|
    ensures Work(run[i]) == Work(run[0]) - i
  {
    if i > 0 {
      RunWork(run, i - 1);
      assert Moves(run[i - 1], run[i], true);
      var t: nat :| Step(run[i - 1], run[i], t, true);
      WorkUpdate(run[i - 1], t, Advance(run[i - 1][t], true));
    }
  }

  /** No run is longer than the work of its first state; a run that has not reached that length
      can be continued, and one that has is finished and has released every lock. */
  lemma EveryRunFinishes(run: seq<System>)
    requires Run(run, true)
    ensures |run| - 1 <= Work(run[0])
    ensures |run| - 1 < Work(run[0]) ==> exists s :: Run(run + [s], true)
    ensures |run| - 1 == Work(run[0]) ==>
              Final(run[|run| - 1]) && AllFree(run[|run| - 1])
  {
    var i := |run| - 1;
    RunInv(run, i);
    RunWork(run, i);
    WorkLeft(run[i]);
    if i < Work(run[0]) {
      DeadlockFree(run, i);
      var t: nat :| Enabled(run[i], t, true);
      var s := run[i][t := Advance(run[i][t], true)];
      assert Step(run[i], s, t, true);
      assert Moves(run[i], s, true);
      assert Run(run + [s], true);
    }
  }

  /** Without the address order two threads that name the same two locks the other way round can
      block each other for good. */
  lemma UnsortedDeadlocks() returns (run: seq<System>)
    ensures Run(run, false) && !Final(run[|run| - 1])
    ensures Stuck(run[|run| - 1], false)
  {
    var a := Thread(Lock1, [Pair(1, 2)], {});
    var b := Thread(Lock1, [Pair(2, 1)], {});
    var a1 := Advance(a, false);
    var b1 := Advance(b, false);
    var s0, s1, s2 := [a, b], [a1, b], [a1, b1];
    run := [s0, s1, s2];
    assert Step(s0, s1, 0, false);
    assert Moves(s0, s1, false);
    assert Step(s1, s2, 1, false);
    assert Moves(s1, s2, false);
    assert 2 in s2[1].held && 1 in s2[0].held;
    assert !Done(s2[0]);
  }
}

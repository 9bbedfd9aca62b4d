/** The ticket spinlock of kernel/cpu/spinlock.c as atomic steps of any number of threads.  The code
    works on 32-bit counters; beside it runs the same machine with unbounded counters and tickets, and
    every step of one is a step of the other. */
module Spinlock {
  import opened Common

  const M: int := 0x1_0000_0000

  type U32 = w: int | 0 <= w < M

  /** What a thread is doing; a thread that is not in the map is elsewhere. */
  datatype Pc =
    | Waiting(ticket: nat)  // spin_acquire, having taken a ticket
    | Holding(ticket: nat)  // between acquiring and spin_release
    | Loaded(back: nat)     // spin_try_acquire, having loaded `back`
    | Checked(back: nat)    // spin_try_acquire, having seen `front` equal to it

  datatype Op = Take | Spin | Release | LoadBack | LoadFront | Cas

  datatype Event = Event(thread: nat, op: Op)

  /** Whether a thread is at the point where the atomic operation comes next. */
  predicate Enabled(threads: map<nat, Pc>, e: Event) {
    match e.op
    case Take => e.thread !in threads
    case Spin => e.thread in threads && threads[e.thread].Waiting?
    case Release => e.thread in threads && threads[e.thread].Holding?
    case LoadBack => e.thread !in threads
    case LoadFront => e.thread in threads && threads[e.thread].Loaded?
    case Cas => e.thread in threads && threads[e.thread].Checked?
  }

  // ---------- the code, in 32 bits ----------

  /** The lock and the threads as they are in memory. */
  datatype Word = Word(front: U32, back: U32, threads: map<nat, Pc>)

  function Run32(c: Word, e: Event): Word
    requires Enabled(c.threads, e)
  {
    var t := e.thread;
    match e.op
    case Take => Word(c.front, (c.back + 1) % M, c.threads[t := Waiting(c.back)])
    case Spin =>
      var k := c.threads[t].ticket;
      if c.front == k then c.(threads := c.threads[t := Holding(k)]) else c
    case Release => Word((c.front + 1) % M, c.back, c.threads - {t})
    case LoadBack => c.(threads := c.threads[t := Loaded(c.back)])
    case LoadFront =>
      var b := c.threads[t].back;
      if c.front == b then c.(threads := c.threads[t := Checked(b)]) else c.(threads := c.threads - {t})
    case Cas =>
      if c.back == c.threads[t].back then Word(c.front, (c.back + 1) % M, c.threads[t := Holding(c.back)])
      else c.(threads := c.threads - {t})
  }

  /** The state after a sequence of events, if every event was enabled when it came. */
  ghost function After32(es: seq<Event>): Option<Word> {
    if es == [] then Some(Word(0, 0, map[]))
    else
      var c := After32(es[..|es| - 1]);
      var e := es[|es| - 1];
      if c.Some? && Enabled(c.value.threads, e) then Some(Run32(c.value, e)) else None
  }

  // ---------- the same with unbounded numbers ----------

  /** `entered` lists the tickets with which the lock was acquired, in that order. */
  datatype State = State(front: nat, back: nat, threads: map<nat, Pc>, entered: seq<nat>)

  /** Equal in 32 bits. */
  predicate Same(a: nat, b: nat) {
    a % M == b % M
  }

  function Run(s: State, e: Event): State
    requires Enabled(s.threads, e)
  {
    var t := e.thread;
    match e.op
    case Take => s.(back := s.back + 1, threads := s.threads[t := Waiting(s.back)])
    case Spin =>
      var k := s.threads[t].ticket;
      if Same(s.front, k) then s.(threads := s.threads[t := Holding(k)], entered := s.entered + [k]) else s
    case Release => s.(front := s.front + 1, threads := s.threads - {t})
    case LoadBack => s.(threads := s.threads[t := Loaded(s.back)])
    case LoadFront =>
      var b := s.threads[t].back;
      if Same(s.front, b) then s.(threads := s.threads[t := Checked(b)]) else s.(threads := s.threads - {t})
    case Cas =>
      if Same(s.back, s.threads[t].back)
      then s.(back := s.back + 1, threads := s.threads[t := Holding(s.back)], entered := s.entered + [s.back])
      else s.(threads := s.threads - {t})
  }

  ghost function After(es: seq<Event>): Option<State> {
    if es == [] then Some(State(0, 0, map[], []))
    else
      var s := After(es[..|es| - 1]);
      var e := es[|es| - 1];
      if s.Some? && Enabled(s.value.threads, e) then Some(Run(s.value, e)) else None
  }

  function Cut(p: Pc): Pc {
    match p
    case Waiting(k) => Waiting(k % M)
    case Holding(k) => Holding(k % M)
    case Loaded(b) => Loaded(b % M)
    case Checked(b) => Checked(b % M)
  }

  /** What memory shows of a state. */
  ghost function Memory(s: State): Word {
    Word(s.front % M, s.back % M, map t | t in s.threads :: Cut(s.threads[t]))
  }

  lemma StepRefines(s: State, e: Event)
    ensures Enabled(s.threads, e) <==> Enabled(Memory(s).threads, e)
    ensures Enabled(s.threads, e) ==> Memory(Run(s, e)) == Run32(Memory(s), e)
  {
    if Enabled(s.threads, e) {
      var c, c' := Run32(Memory(s), e), Memory(Run(s, e));
      assert c.threads.Keys == c'.threads.Keys;
    }
  }

  /** Every run of the code is a run of the unbounded machine, seen modulo 2^32, and the other way round. */
  lemma {:induction false} RunRefines(es: seq<Event>)
    ensures After(es).Some? <==> After32(es).Some?
    ensures After(es).Some? ==> After32(es).value == Memory(After(es).value)
  {
    if es != [] {
      var n := |es| - 1;
      RunRefines(es[..n]);
      if After(es[..n]).Some? {
        StepRefines(After(es[..n]).value, es[n]);
      }
    }
  }

  // ---------- what every run keeps ----------

  predicate Owns(threads: map<nat, Pc>, t: nat, k: nat) {
    t in threads && (threads[t].Waiting? || threads[t].Holding?) && threads[t].ticket == k
  }

  ghost predicate Owned(threads: map<nat, Pc>, k: nat) {
    exists t :: Owns(threads, t, k)
  }

  ghost predicate OneOwner(threads: map<nat, Pc>) {
    forall t, u, k | Owns(threads, t, k) && Owns(threads, u, k) :: t == u
  }

  /** Fewer than 2^32 tickets are out, and since a try loaded `back` fewer than 2^32 were taken. */
  ghost predicate Bounded(s: State) {
    Below(s, M, M)
  }

  /** Fewer than `out` tickets are out, and fewer than `window` were given out since any pending try began. */
  ghost predicate Below(s: State, out: int, window: int) {
    && s.back - s.front < out
    && forall t | t in s.threads && (s.threads[t].Loaded? || s.threads[t].Checked?) :: s.back - s.threads[t].back < window
  }

  ghost predicate ThreadOk(s: State, p: Pc) {
    match p
    case Waiting(k) => s.front <= k < s.back
    case Holding(k) => k == s.front < s.back
    case Loaded(b) => b <= s.back && b - s.front < M
    case Checked(b) => b <= s.front
  }

  ghost predicate Held(s: State) {
    exists t :: t in s.threads && s.threads[t].Holding?
  }

  ghost predicate Inv(s: State) {
    && s.front <= s.back
    && (forall t | t in s.threads :: ThreadOk(s, s.threads[t]))
    && OneOwner(s.threads) && (forall k | s.front <= k < s.back :: Owned(s.threads, k))
    && |s.entered| == s.front + (if Held(s) then 1 else 0)
    && forall i | 0 <= i < |s.entered| :: s.entered[i] == i
  }

  lemma SameNear(a: nat, b: nat)
    requires Same(a, b) && -M < a - b < M
    ensures a == b
  {
  }

  /** Taking a ticket. */
  lemma StepTake(s: State, t: nat)
    requires Inv(s) && t !in s.threads
    ensures Inv(Run(s, Event(t, Take)))
  {
    var s' := Run(s, Event(t, Take));
    var a, b := s.threads, s'.threads;
    assert forall u, k :: Owns(b, u, k) <==> Owns(a, u, k) || (u == t && k == s.back);
    assert Owns(b, t, s.back);
    OwnedKept(a, b);
    assert forall u :: u in b && b[u].Holding? <==> u in a && a[u].Holding?;
    SameHolders(s, s');
    assert forall k | s'.front <= k < s'.back :: k == s.back || Owned(a, k);
  }

  lemma OwnedKept(a: map<nat, Pc>, b: map<nat, Pc>)
    requires forall u, k | Owns(a, u, k) :: Owns(b, u, k)
    ensures forall k | Owned(a, k) :: Owned(b, k)
  {
    forall k | Owned(a, k)
      ensures Owned(b, k)
    {
      var u :| Owns(a, u, k);
      assert Owns(b, u, k);
    }
  }

  lemma SameHolders(s: State, s': State)
    requires forall u :: u in s.threads && s.threads[u].Holding? <==> u in s'.threads && s'.threads[u].Holding?
    ensures Held(s) <==> Held(s')
  {
    if Held(s) {
      var u :| u in s.threads && s.threads[u].Holding?;
      assert u in s'.threads && s'.threads[u].Holding?;
    }
    if Held(s') {
      var u :| u in s'.threads && s'.threads[u].Holding?;
      assert u in s.threads && s.threads[u].Holding?;
    }
  }

  /** A waiting thread's ticket shows up exactly when its turn has come, and then nobody holds the lock. */
  lemma Turn(s: State, t: nat)
    requires Inv(s) && Bounded(s) && t in s.threads && s.threads[t].Waiting?
    ensures Same(s.front, s.threads[t].ticket) <==> s.threads[t].ticket == s.front
    ensures s.threads[t].ticket == s.front ==> !Held(s)
  {
    var k := s.threads[t].ticket;
    assert ThreadOk(s, s.threads[t]);
    if Same(s.front, k) {
      SameNear(s.front, k);
      assert Owns(s.threads, t, k);
      if Held(s) {
        var u :| u in s.threads && s.threads[u].Holding?;
        assert ThreadOk(s, s.threads[u]);
        assert Owns(s.threads, u, k);
        assert false;
      }
    }
  }

  /** One look at `front`. */
  lemma StepSpin(s: State, t: nat)
    requires Inv(s) && Bounded(s) && Enabled(s.threads, Event(t, Spin))
    ensures Inv(Run(s, Event(t, Spin)))
  {
    var s', k := Run(s, Event(t, Spin)), s.threads[t].ticket;
    Turn(s, t);
    if k == s.front {
      assert s'.threads[t].Holding?;
      assert Held(s');
      assert forall u, j :: Owns(s'.threads, u, j) <==> Owns(s.threads, u, j);
      OwnedKept(s.threads, s'.threads);
    }
  }

  lemma StepRelease(s: State, t: nat)
    requires Inv(s) && Enabled(s.threads, Event(t, Release))
    ensures Inv(Run(s, Event(t, Release))) && !Held(Run(s, Event(t, Release)))
  {
    var s' := Run(s, Event(t, Release));
    var a, b := s.threads, s'.threads;
    assert ThreadOk(s, a[t]) && Owns(a, t, s.front) && Held(s);
    forall u | u in b
      ensures ThreadOk(s', b[u]) && !b[u].Holding?
    {
      assert ThreadOk(s, a[u]);
      assert !Owns(a, u, s.front);
    }
    forall k | s'.front <= k < s'.back
      ensures Owned(b, k)
    {
      assert Owned(a, k);
      var u :| Owns(a, u, k);
      assert Owns(b, u, k);
    }
    assert forall u, k | Owns(b, u, k) :: Owns(a, u, k);
  }

  /** The loads of a try change no owner. */
  lemma StepLoad(s: State, e: Event)
    requires Inv(s) && Bounded(s) && Enabled(s.threads, e) && (e.op == LoadBack || e.op == LoadFront)
    ensures Inv(Run(s, e))
  {
    var s' := Run(s, e);
    var a, b, t := s.threads, s'.threads, e.thread;
    assert forall u, k :: Owns(b, u, k) <==> Owns(a, u, k);
    OwnedKept(a, b);
    assert forall u :: u in b && b[u].Holding? <==> u in a && a[u].Holding?;
    SameHolders(s, s');
    if e.op == LoadFront && Same(s.front, a[t].back) {
      assert ThreadOk(s, a[t]);
      SameNear(s.front, a[t].back);
    }
  }

  /** A compare-and-swap succeeds only when the lock is free, with nobody waiting. */
  lemma Swap(s: State, t: nat)
    requires Inv(s) && Bounded(s) && t in s.threads && s.threads[t].Checked?
    ensures Same(s.back, s.threads[t].back) ==> s.back == s.front == s.threads[t].back && !Held(s)
  {
    var b := s.threads[t].back;
    assert ThreadOk(s, s.threads[t]);
    if Same(s.back, b) {
      SameNear(s.back, b);
      assert forall u | u in s.threads :: ThreadOk(s, s.threads[u]);
    }
  }

  lemma StepCas(s: State, t: nat)
    requires Inv(s) && Bounded(s) && Enabled(s.threads, Event(t, Cas))
    ensures Inv(Run(s, Event(t, Cas)))
  {
    var s' := Run(s, Event(t, Cas));
    var a, b := s.threads, s'.threads;
    Swap(s, t);
    if Same(s.back, a[t].back) {
      assert forall u | u in a :: ThreadOk(s, a[u]);
      assert forall u, k :: !Owns(a, u, k);
      assert forall u, k :: Owns(b, u, k) <==> u == t && k == s.back;
      assert Owns(b, t, s.back) && Owned(b, s.back) && b[t].Holding?;
      assert Held(s');
    } else {
      assert forall u, k :: Owns(b, u, k) <==> Owns(a, u, k);
      OwnedKept(a, b);
      assert forall u :: u in b && b[u].Holding? <==> u in a && a[u].Holding?;
      SameHolders(s, s');
    }
  }

  lemma StepKeeps(s: State, e: Event)
    requires Inv(s) && Bounded(s) && Enabled(s.threads, e)
    ensures Inv(Run(s, e))
  {
    hide Inv, Bounded, Run;
    match e.op
    case Take => StepTake(s, e.thread);
    case Spin => StepSpin(s, e.thread);
    case Release => StepRelease(s, e.thread);
    case LoadBack => StepLoad(s, e);
    case LoadFront => StepLoad(s, e);
    case Cas => StepCas(s, e.thread);
  }

  // ---------- whole runs ----------

  /** A run that is possible, and bounded in every state it goes through. */
  ghost predicate BoundedRun(es: seq<Event>) {
    After(es).Some? && forall n | 0 <= n <= |es| :: After(es[..n]).Some? ==> Bounded(After(es[..n]).value)
  }

  lemma {:induction false} RunKeeps(es: seq<Event>)
    requires BoundedRun(es)
    ensures Inv(After(es).value)
  {
    hide Inv, Bounded, Run;
    if es == [] {
      InitInv();
    } else {
      var n := |es| - 1;
      assert forall k | 0 <= k <= n :: es[..n][..k] == es[..k];
      RunKeeps(es[..n]);
      assert Bounded(After(es[..n]).value);
      StepKeeps(After(es[..n]).value, es[n]);
    }
  }

  lemma InitInv()
    ensures Inv(State(0, 0, map[], []))
  {
  }

  /** In every bounded run of the code at most one thread holds the lock. */
  lemma MutualExclusion(es: seq<Event>, t: nat, u: nat)
    requires BoundedRun(es) && After32(es).Some?
    requires var c := After32(es).value;
             t in c.threads && u in c.threads && c.threads[t].Holding? && c.threads[u].Holding?
    ensures t == u
  {
    RunRefines(es);
    RunKeeps(es);
    var s := After(es).value;
    assert ThreadOk(s, s.threads[t]) && ThreadOk(s, s.threads[u]);
    assert Owns(s.threads, t, s.front) && Owns(s.threads, u, s.front);
  }

  /** The lock is acquired with tickets 0, 1, 2, ... in this order. */
  lemma TicketOrder(es: seq<Event>)
    requires BoundedRun(es)
    ensures var s := After(es).value;
            && (forall i | 0 <= i < |s.entered| :: s.entered[i] == i)
            && forall t | t in s.threads && s.threads[t].Holding? :: s.threads[t].ticket == |s.entered| - 1
  {
    RunKeeps(es);
    var s := After(es).value;
    forall t | t in s.threads && s.threads[t].Holding?
      ensures s.threads[t].ticket == |s.entered| - 1
    {
      assert ThreadOk(s, s.threads[t]);
    }
  }

  /** While tickets are out and nobody holds the lock, exactly one waiting thread of the code finds its
      turn come, the one with the next ticket; while the lock is held none does. */
  lemma NextWaiter(es: seq<Event>) returns (t: nat)
    requires BoundedRun(es) && After32(es).Some?
    ensures var s, c := After(es).value, After32(es).value;
            !Held(s) && s.front < s.back ==>
              && t in c.threads && c.threads[t].Waiting? && c.threads[t].ticket == c.front && Owns(s.threads, t, s.front)
              && forall u | u in c.threads && c.threads[u].Waiting? && c.threads[u].ticket == c.front :: u == t
    ensures var s, c := After(es).value, After32(es).value;
            Held(s) ==> forall u | u in c.threads && c.threads[u].Waiting? :: c.threads[u].ticket != c.front
  {
    RunRefines(es);
    RunKeeps(es);
    var s, c := After(es).value, After32(es).value;
    var n := |es|;
    assert es[..n] == es;
    forall u | u in c.threads && c.threads[u].Waiting? && c.threads[u].ticket == c.front
      ensures Owns(s.threads, u, s.front) && !Held(s)
    {
      Turn(s, u);
    }
    t := 0;
    if !Held(s) && s.front < s.back {
      assert Owned(s.threads, s.front);
      t :| Owns(s.threads, t, s.front);
    }
  }

  // ---------- a try does not wait ----------

  /** A thread whose try looks at `front` goes on or gives up; one whose try swaps holds the lock or gives up. */
  lemma TryGoesOn(es: seq<Event>, t: nat)
    requires After32(es).Some?
    ensures var c := After32(es).value;
            Enabled(c.threads, Event(t, LoadFront)) ==>
              var d := After32(es + [Event(t, LoadFront)]);
              d.Some? && (t in d.value.threads ==> d.value.threads[t].Checked?)
    ensures var c := After32(es).value;
            Enabled(c.threads, Event(t, Cas)) ==>
              var d := After32(es + [Event(t, Cas)]);
              d.Some? && (t in d.value.threads ==> d.value.threads[t].Holding?)
  {
    hide After32;
    After32Snoc(es, Event(t, LoadFront));
    After32Snoc(es, Event(t, Cas));
  }

  lemma After32Snoc(es: seq<Event>, e: Event)
    ensures After32(es).Some? && Enabled(After32(es).value.threads, e) ==> After32(es + [e]) == Some(Run32(After32(es).value, e))
  {
    assert (es + [e])[..|es|] == es;
  }

  /** Within the bounds the look at `front` and the swap find equality in 32 bits exactly when the numbers
      are equal: the try goes on exactly when no ticket was out, and succeeds exactly when none was taken since. */
  lemma TryLooks(s: State, t: nat)
    requires Inv(s) && Bounded(s) && t in s.threads
    ensures s.threads[t].Loaded? ==> (Same(s.front, s.threads[t].back) <==> s.front == s.threads[t].back)
    ensures s.threads[t].Checked? ==> (Same(s.back, s.threads[t].back) <==> s.back == s.threads[t].back)
  {
    var p := s.threads[t];
    assert ThreadOk(s, p);
    if p.Loaded? && Same(s.front, p.back) {
      SameNear(s.front, p.back);
    }
    if p.Checked? && Same(s.back, p.back) {
      SameNear(s.back, p.back);
    }
  }

  /** A try with no event between its steps: with a ticket out, on a held lock in particular, it gives up
      after two steps; with none out it holds the lock after three.  The others are as they were. */
  lemma TryAlone(es: seq<Event>, t: nat)
    requires BoundedRun(es) && After32(es).Some? && t !in After32(es).value.threads
    ensures Held(After(es).value) ==> After(es).value.front < After(es).value.back
    ensures var s, c := After(es).value, After32(es).value;
            var d := After32(es + [Event(t, LoadBack)] + [Event(t, LoadFront)]);
            d.Some? &&
            if s.front < s.back then d.value == c
            else
              var e := After32(es + [Event(t, LoadBack)] + [Event(t, LoadFront)] + [Event(t, Cas)]);
              e == Some(Word(c.front, (c.back + 1) % M, c.threads[t := Holding(c.back)]))
  {
    RunRefines(es);
    RunKeeps(es);
    assert es[..|es|] == es;
    var s, c := After(es).value, After32(es).value;
    HeldIsOut(s);
    SameOnlyIf(s);
    hide After32, After, Inv, BoundedRun;
    var es1, es2 := es + [Event(t, LoadBack)], es + [Event(t, LoadBack)] + [Event(t, LoadFront)];
    After32Snoc(es, Event(t, LoadBack));
    After32Snoc(es1, Event(t, LoadFront));
    assert c.threads[t := Loaded(c.back)] - {t} == c.threads;
    After32Snoc(es2, Event(t, Cas));
    assert c.threads[t := Loaded(c.back)][t := Checked(c.back)][t := Holding(c.back)] == c.threads[t := Holding(c.back)];
  }

  lemma HeldIsOut(s: State)
    requires Inv(s)
    ensures Held(s) ==> s.front < s.back
  {
    if Held(s) {
      var u :| u in s.threads && s.threads[u].Holding?;
      assert ThreadOk(s, s.threads[u]);
    }
  }

  lemma SameOnlyIf(s: State)
    requires Inv(s) && Bounded(s)
    ensures Memory(s).front == Memory(s).back <==> s.front == s.back
  {
    if Same(s.front, s.back) {
      SameNear(s.front, s.back);
    }
  }

  /** A step changes no other thread. */
  lemma StepIsOwn(c: Word, e: Event, u: nat)
    requires Enabled(c.threads, e) && u != e.thread
    ensures u in Run32(c, e).threads <==> u in c.threads
    ensures u in c.threads ==> Run32(c, e).threads[u] == c.threads[u]
  {
  }

  // ---------- the bounds are tight ----------

  ghost predicate TwoHolders(c: Word) {
    exists t, u :: t in c.threads && u in c.threads && t != u && c.threads[t].Holding? && c.threads[u].Holding?
  }

  lemma AfterSnoc(es: seq<Event>, e: Event)
    ensures After(es).Some? && Enabled(After(es).value.threads, e) ==> After(es + [e]) == Some(Run(After(es).value, e))
  {
    assert (es + [e])[..|es|] == es;
  }

  /** Before its last event the run stays below these numbers. */
  ghost predicate RunBelow(es: seq<Event>, out: int, window: int) {
    forall k | 0 <= k < |es| :: After(es[..k]).Some? && Below(After(es[..k]).value, out, window)
  }

  lemma BelowSnoc(es: seq<Event>, e: Event, out: int, window: int)
    requires RunBelow(es, out, window) && After(es).Some? && Below(After(es).value, out, window)
    ensures RunBelow(es + [e], out, window)
  {
    hide After, Below;
    var fs := es + [e];
    forall k | 0 <= k < |fs|
      ensures After(fs[..k]).Some? && Below(After(fs[..k]).value, out, window)
    {
      if k < |es| {
        assert fs[..k] == es[..k];
      } else {
        assert fs[..k] == es;
      }
    }
  }

  lemma BelowMore(es: seq<Event>, out: int, window: int, out': int, window': int)
    requires RunBelow(es, out, window) && out <= out' && window <= window'
    ensures RunBelow(es, out', window')
  {
    hide After;
    forall k | 0 <= k < |es|
      ensures After(es[..k]).Some? && Below(After(es[..k]).value, out', window')
    {
      assert Below(After(es[..k]).value, out, window);
    }
  }

  function Crowd(n: nat): map<nat, Pc> {
    map t: nat | t < n :: Waiting(t)
  }

  /** `n` threads taking tickets. */
  lemma {:induction false} ManyTakes(n: nat) returns (es: seq<Event>)
    ensures After(es) == Some(State(0, n, Crowd(n), [])) && RunBelow(es, n, 1)
    ensures forall i | 0 <= i < |es| :: es[i].op == Take
  {
    if n == 0 {
      es := [];
      assert Crowd(0) == map[];
    } else {
      es := ManyTakes(n - 1);
      AfterSnoc(es, Event(n - 1, Take));
      BelowMore(es, n - 1, 1, n, 1);
      BelowSnoc(es, Event(n - 1, Take), n, 1);
      es := es + [Event(n - 1, Take)];
      assert Crowd(n) == Crowd(n - 1)[n - 1 := Waiting(n - 1)];
    }
  }

  lemma SeenTwice(es: seq<Event>, t: nat, u: nat)
    requires After(es).Some? && t != u
    requires var a := After(es).value.threads; t in a && u in a && a[t].Holding? && a[u].Holding?
    ensures After32(es).Some? && TwoHolders(After32(es).value)
  {
    RunRefines(es);
    var c := After32(es).value;
    assert t in c.threads && u in c.threads && c.threads[t].Holding? && c.threads[u].Holding?;
  }

  /** The run of the events one after the other, with the numbers it stays below. */
  lemma Then(es: seq<Event>, e: Event, out: int, window: int) returns (fs: seq<Event>)
    requires RunBelow(es, out, window) && After(es).Some? && Below(After(es).value, out, window)
    requires Enabled(After(es).value.threads, e)
    ensures fs == es + [e] && RunBelow(fs, out, window) && After(fs) == Some(Run(After(es).value, e))
  {
    hide RunBelow, Below;
    fs := es + [e];
    AfterSnoc(es, e);
    BelowSnoc(es, e, out, window);
  }

  /** With 2^32 tickets out, one more than the bound allows, a try takes a lock that is held. */
  lemma TryNeedsFewer() returns (es: seq<Event>)
    ensures After32(es).Some? && TwoHolders(After32(es).value) && RunBelow(es, M + 1, 1)
  {
    hide After, RunBelow;
    es := ManyTakes(M);
    BelowMore(es, M, 1, M + 1, 1);
    es := Then(es, Event(0, Spin), M + 1, 1);
    es := Then(es, Event(M, LoadBack), M + 1, 1);
    es := Then(es, Event(M, LoadFront), M + 1, 1);
    es := Then(es, Event(M, Cas), M + 1, 1);
    SeenTwice(es, 0, M);
  }

  /** With 2^32 + 1 tickets out and no try, two waiting threads see their turn. */
  lemma SpinNeedsFewer() returns (es: seq<Event>)
    ensures After32(es).Some? && TwoHolders(After32(es).value) && RunBelow(es, M + 2, 1)
    ensures forall i | 0 <= i < |es| :: es[i].op == Take || es[i].op == Spin
  {
    hide After, RunBelow;
    es := ManyTakes(M + 1);
    BelowMore(es, M + 1, 1, M + 2, 1);
    es := Then(es, Event(0, Spin), M + 2, 1);
    es := Then(es, Event(M, Spin), M + 2, 1);
    SeenTwice(es, 0, M);
  }

  function Counting(n: nat): seq<nat> {
    seq(n, i => i)
  }

  /** A try held up between its two loads and the swap while another thread goes through `n` times. */
  lemma {:induction false} ManyRounds(n: nat) returns (es: seq<Event>)
    ensures After(es) == Some(State(n, n, map[0 := Checked(0)], Counting(n))) && RunBelow(es, 2, n + 1)
  {
    hide RunBelow;
    if n == 0 {
      es := NoEvents(2, 1);
      es := Then(es, Event(0, LoadBack), 2, 1);
      es := Then(es, Event(0, LoadFront), 2, 1);
      assert After(es).value.threads == map[0 := Checked(0)] && Counting(0) == [];
    } else {
      es := ManyRounds(n - 1);
      BelowMore(es, 2, n, 2, n + 1);
      es := Then(es, Event(1, Take), 2, n + 1);
      es := Then(es, Event(1, Spin), 2, n + 1);
      es := Then(es, Event(1, Release), 2, n + 1);
      assert Counting(n) == Counting(n - 1) + [n - 1];
      assert After(es).value.threads == map[0 := Checked(0)];
    }
  }

  lemma NoEvents(out: int, window: int) returns (es: seq<Event>)
    ensures es == [] && RunBelow(es, out, window) && After(es) == Some(State(0, 0, map[], []))
  {
    es := [];
  }

  /** With 2^32 acquisitions inside the window of a try, one more than the bound allows, its swap takes a
      lock that is held. */
  lemma WindowNeedsFewer() returns (es: seq<Event>)
    ensures After32(es).Some? && TwoHolders(After32(es).value) && RunBelow(es, 2, M + 1)
  {
    hide After, RunBelow;
    es := ManyRounds(M - 1);
    BelowMore(es, 2, M, 2, M + 1);
    es := Then(es, Event(1, Take), 2, M + 1);
    es := Then(es, Event(1, Spin), 2, M + 1);
    es := Then(es, Event(0, Cas), 2, M + 1);
    SeenTwice(es, 0, 1);
  }
}

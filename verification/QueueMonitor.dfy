/**
 The bounded queue as a monitor (common/BoundedQueue.h:66-227): any number of threads,
 one mutex, two condition variables, every interleaving.

 A step is one critical section (the lock is free between steps), one notification
 sent after the lock was released, a timeout or a spurious wakeup. A thread that waits
 sits in the wait set of `notEmpty_` or `notFull_` until it is notified, times out, or
 wakes spuriously; then it takes the lock again and looks at its condition again.
 */
module QueueMonitor {
  import opened Basics
  import opened BoundedQueue

  datatype Pc<T> =
    | Idle(ok: bool)                       // not in a call; what the last one returned
    | PushAsleep(x: T) | PushAwake(x: T)   // waiting for room; woken, without the lock yet
    | PopAsleep(timed: bool) | PopAwake(timed: bool)
    | PopLate                              // popFor ran out of time
    | TellNotEmpty | TellNotFull           // about to notify_one
    | CloseTellsFull | CloseTellsEmpty     // close: about to notify_all on either variable
    | ClearTellsFull                       // clear: about to notify_all

  datatype Action<T> =
    | PushEnters(x: T) | PushResumes | TryPush(x: T) | ForcePush(x: T)
    | PopEnters(timed: bool) | PopResumes | PopTimesOut | PopLateReturns
    | Tells(wakes: nat)                    // notify_one, and who it wakes if anybody sleeps
    | Close | TellsAll | Clear               // TellsAll: one notify_all
    | SpuriousWake

  datatype Monitor<T> = Monitor(s: Shared<T>, pcs: map<nat, Pc<T>>)

  // ----- Steps -----

  /** `notFull_.wait` and the rest of `push`, with the lock held. */
  function PushLocked<T>(cap: nat, s: Shared<T>, x: T): (r: (Shared<T>, Pc<T>)) {
    if s.closed then (s, Idle(false))
    else if |s.q| < cap then (Pushed(s, x), TellNotEmpty)
    else (s, PushAsleep(x))
  }

  /** `notEmpty_.wait` and the rest of `pop` or `popFor`, with the lock held. */
  function PopLocked<T>(s: Shared<T>, timed: bool): (r: (Shared<T>, Pc<T>)) {
    if s.q != [] then (Popped(s), TellNotFull)
    else if s.closed then (s, Idle(false))
    else (s, PopAsleep(timed))
  }

  /** The step of one thread at `pc`, as far as the queue and the thread itself are concerned. */
  function Locked<T>(cap: nat, s: Shared<T>, pc: Pc<T>, a: Action<T>): (r: (Shared<T>, Pc<T>))
    requires cap > 0
  {
    match (pc, a)
    case (Idle(_), PushEnters(x)) => PushLocked(cap, s, x)
    case (PushAwake(x), PushResumes) => PushLocked(cap, s, x)
    case (Idle(_), TryPush(x)) =>
      if s.closed || |s.q| >= cap then (s, Idle(false)) else (TryPushed(cap, s, x), TellNotEmpty)
    case (Idle(_), ForcePush(x)) =>
      if s.closed then (s, Idle(false)) else (ForcePushed(cap, s, x), TellNotEmpty)
    case (Idle(_), PopEnters(timed)) => PopLocked(s, timed)
    case (PopAwake(timed), PopResumes) => PopLocked(s, timed)
    case (PopAsleep(true), PopTimesOut) => (s, PopLate)
    case (PopLate, PopLateReturns) => if s.q == [] then (s, Idle(false)) else (Popped(s), TellNotFull)
    case (TellNotEmpty, Tells(_)) => (s, Idle(true))
    case (TellNotFull, Tells(_)) => (s, Idle(true))
    case (Idle(_), Close) => (Closed(s), CloseTellsFull)
    case (CloseTellsFull, TellsAll) => (s, CloseTellsEmpty)
    case (CloseTellsEmpty, TellsAll) => (s, Idle(true))
    case (Idle(_), Clear) => (Cleared(s), ClearTellsFull)
    case (ClearTellsFull, TellsAll) => (s, Idle(true))
    case (PushAsleep(x), SpuriousWake) => (s, PushAwake(x))
    case (PopAsleep(timed), SpuriousWake) => (s, PopAwake(timed))
    case _ => (s, pc)
  }

  predicate CanAct<T>(pc: Pc<T>, a: Action<T>) {
    match a
    case PushEnters(_) => pc.Idle?
    case PushResumes => pc.PushAwake?
    case TryPush(_) => pc.Idle?
    case ForcePush(_) => pc.Idle?
    case PopEnters(_) => pc.Idle?
    case PopResumes => pc.PopAwake?
    case PopTimesOut => pc == PopAsleep(true)
    case PopLateReturns => pc.PopLate?
    case Tells(_) => pc.TellNotEmpty? || pc.TellNotFull?
    case Close => pc.Idle?
    case TellsAll => pc.CloseTellsFull? || pc.CloseTellsEmpty? || pc.ClearTellsFull?
    case Clear => pc.Idle?
    case SpuriousWake => pc.PushAsleep? || pc.PopAsleep?
  }

  function Woken<T>(pc: Pc<T>): Pc<T> {
    if pc.PushAsleep? then PushAwake(pc.x) else if pc.PopAsleep? then PopAwake(pc.timed) else pc
  }

  /** Is a thread at `sleeper` in the wait set that a thread at `teller` notifies? */
  predicate Hears<T>(teller: Pc<T>, sleeper: Pc<T>) {
    (sleeper.PopAsleep? && (teller.TellNotEmpty? || teller.CloseTellsEmpty?))
    || (sleeper.PushAsleep? && (teller.TellNotFull? || teller.CloseTellsFull? || teller.ClearTellsFull?))
  }

  /** `notify_one` wakes one thread of the wait set, unless it is empty; which one is not specified. */
  predicate Enabled<T>(m: Monitor<T>, t: nat, a: Action<T>) {
    && t in m.pcs && CanAct(m.pcs[t], a)
    && (a.Tells? ==> (a.wakes in m.pcs && Hears(m.pcs[t], m.pcs[a.wakes])) || Nobody(m.pcs, m.pcs[t]))
  }

  predicate Nobody<T>(pcs: map<nat, Pc<T>>, teller: Pc<T>) {
    forall u :: u in pcs ==> !Hears(teller, pcs[u])
  }

  function Step<T>(cap: nat, m: Monitor<T>, t: nat, a: Action<T>): Monitor<T>
    requires cap > 0 && Enabled(m, t, a)
  {
    var (s, pc) := Locked(cap, m.s, m.pcs[t], a);
    var pcs :=
      if a.Tells? && !Nobody(m.pcs, m.pcs[t]) then m.pcs[a.wakes := Woken(m.pcs[a.wakes])]
      else if a.TellsAll? then WakeAll(m.pcs, m.pcs[t])
      else m.pcs;
    Monitor(s, pcs[t := pc])
  }

  function WakeAll<T>(pcs: map<nat, Pc<T>>, teller: Pc<T>): map<nat, Pc<T>> {
    map u | u in pcs :: if Hears(teller, pcs[u]) then Woken(pcs[u]) else pcs[u]
  }

  // ----- Counting threads -----

  datatype Class = SleepsPush | SleepsPop | AwakePush | AwakePop | OneEmpty | OneFull | AllClear | AllClose | AllCloseEmpty | Late | Calm

  function ClassOf<T>(pc: Pc<T>): Class {
    match pc
    case PushAsleep(_) => SleepsPush
    case PopAsleep(_) => SleepsPop
    case PushAwake(_) => AwakePush
    case PopAwake(_) => AwakePop
    case TellNotEmpty => OneEmpty
    case TellNotFull => OneFull
    case ClearTellsFull => AllClear
    case CloseTellsFull => AllClose
    case CloseTellsEmpty => AllCloseEmpty
    case PopLate => Late
    case Idle(_) => Calm
  }

  function At<T>(pcs: map<nat, Pc<T>>, c: Class): set<nat> {
    set t | t in pcs && ClassOf(pcs[t]) == c
  }

  function Number<T>(pcs: map<nat, Pc<T>>, c: Class): nat {
    |At(pcs, c)|
  }

  function One(b: bool): nat {
    if b then 1 else 0
  }

  lemma Moves<T>(pcs: map<nat, Pc<T>>, t: nat, pc: Pc<T>, c: Class)
    requires t in pcs
    ensures Number(pcs[t := pc], c) + One(ClassOf(pcs[t]) == c) == Number(pcs, c) + One(ClassOf(pc) == c)
  {
    hide ClassOf;
    OneElementMoves(At(pcs, c), At(pcs[t := pc], c), t);
  }

  lemma OneElementMoves<E>(was: set<E>, now: set<E>, t: E)
    requires forall u :: u in was && u != t ==> u in now
    requires forall u :: u in now && u != t ==> u in was
    ensures |now| + One(t in was) == |was| + One(t in now)
  {
    assert was - {t} == now - {t};
    SizeWithout(was, t);
    SizeWithout(now, t);
  }

  lemma SizeWithout<E>(s: set<E>, t: E)
    ensures |s| == |s - {t}| + One(t in s)
  {
    if t in s { assert s == (s - {t}) + {t}; } else { assert s == s - {t}; }
  }

  /** How many threads there are of each class. */
  datatype Tally = Tally(sleepsPush: nat, sleepsPop: nat, awakePush: nat, awakePop: nat, oneEmpty: nat, oneFull: nat,
                         allClear: nat, allClose: nat, allCloseEmpty: nat, late: nat)

  function TallyOf<T>(pcs: map<nat, Pc<T>>): Tally {
    Tally(Number(pcs, SleepsPush), Number(pcs, SleepsPop), Number(pcs, AwakePush), Number(pcs, AwakePop),
          Number(pcs, OneEmpty), Number(pcs, OneFull), Number(pcs, AllClear), Number(pcs, AllClose), Number(pcs, AllCloseEmpty),
          Number(pcs, Late))
  }

  /** `b` is `a` with one thread moved from class `x` to class `y`. */
  predicate Moved(a: Tally, b: Tally, x: Class, y: Class) {
    && b.sleepsPush + One(x.SleepsPush?) == a.sleepsPush + One(y.SleepsPush?)
    && b.sleepsPop + One(x.SleepsPop?) == a.sleepsPop + One(y.SleepsPop?)
    && b.awakePush + One(x.AwakePush?) == a.awakePush + One(y.AwakePush?)
    && b.awakePop + One(x.AwakePop?) == a.awakePop + One(y.AwakePop?)
    && b.oneEmpty + One(x.OneEmpty?) == a.oneEmpty + One(y.OneEmpty?)
    && b.oneFull + One(x.OneFull?) == a.oneFull + One(y.OneFull?)
    && b.allClear + One(x.AllClear?) == a.allClear + One(y.AllClear?)
    && b.allClose + One(x.AllClose?) == a.allClose + One(y.AllClose?)
    && b.allCloseEmpty + One(x.AllCloseEmpty?) == a.allCloseEmpty + One(y.AllCloseEmpty?)
    && b.late + One(x.Late?) == a.late + One(y.Late?)
  }

  lemma TallyMoves<T>(pcs: map<nat, Pc<T>>, t: nat, pc: Pc<T>)
    requires t in pcs
    ensures Moved(TallyOf(pcs), TallyOf(pcs[t := pc]), ClassOf(pcs[t]), ClassOf(pc))
  {
    hide Number, ClassOf;
    Moves(pcs, t, pc, SleepsPush);
    Moves(pcs, t, pc, SleepsPop);
    Moves(pcs, t, pc, AwakePush);
    Moves(pcs, t, pc, AwakePop);
    Moves(pcs, t, pc, OneEmpty);
    Moves(pcs, t, pc, OneFull);
    Moves(pcs, t, pc, AllClear);
    Moves(pcs, t, pc, AllClose);
    Moves(pcs, t, pc, AllCloseEmpty);
    Moves(pcs, t, pc, Late);
  }

  lemma NobodyIsZero<T>(pcs: map<nat, Pc<T>>, c: Class)
    ensures Number(pcs, c) == 0 <==> forall t :: t in pcs ==> ClassOf(pcs[t]) != c
  {
    if Number(pcs, c) == 0 {
      forall t | t in pcs
        ensures ClassOf(pcs[t]) != c
      {
        assert t !in At(pcs, c);
      }
    } else {
      var t := AnElement(At(pcs, c));
    }
  }

  // ----- No lost wakeup -----

  /** While open: a consumer sleeps only if the elements are covered by notifications on their way and consumers
      already woken; a producer sleeps only if the free places are. Once closed, sleepers are about to be told. */
  predicate NoLostWakeup(cap: nat, size: nat, closed: bool, n: Tally) {
    && (!closed && n.sleepsPop > 0 ==> n.oneEmpty + n.awakePop >= size)
    && (!closed && n.sleepsPush > 0 ==> n.allClear > 0 || n.oneFull + n.awakePush >= cap - size)
    && (closed && n.sleepsPush > 0 ==> n.allClose > 0)
    && (closed && n.sleepsPop > 0 ==> n.allClose + n.allCloseEmpty > 0)
  }

  ghost predicate Good<T>(cap: nat, m: Monitor<T>) {
    cap > 0 && IsFifo(cap, m.s) && NoLostWakeup(cap, |m.s.q|, m.s.closed, TallyOf(m.pcs))
  }

  lemma LockedKeepsFifo<T>(cap: nat, s: Shared<T>, pc: Pc<T>, a: Action<T>)
    requires cap > 0 && IsFifo(cap, s)
    ensures IsFifo(cap, Locked(cap, s, pc, a).0)
  {
    hide IsFifo, Cleared, Popped, ForcePushed, Enqueue;
    PoppedKeeps(cap, s);
    ClearedKeeps(cap, s);
    CloseKeeps(cap, s);
    match a
    case PushEnters(x) => if |s.q| < cap { EnqueueKeeps(cap, s, x); }
    case PushResumes => if pc.PushAwake? && |s.q| < cap { EnqueueKeeps(cap, s, pc.x); }
    case TryPush(x) => if |s.q| < cap { EnqueueKeeps(cap, s, x); }
    case ForcePush(x) => ForcePushedKeeps(cap, s, x);
    case _ =>
  }

  lemma CloseKeeps<T>(cap: nat, s: Shared<T>)
    requires IsFifo(cap, s)
    ensures IsFifo(cap, Closed(s))
  {
  }

  /** A step that wakes nobody. */
  lemma OwnStepKeeps<T>(cap: nat, m: Monitor<T>, t: nat, a: Action<T>)
    requires Good(cap, m) && Enabled(m, t, a) && !a.Tells? && !a.TellsAll?
    ensures var r := Step(cap, m, t, a);
      NoLostWakeup(cap, |r.s.q|, r.s.closed, TallyOf(r.pcs))
  {
    hide Number, IsFifo, TallyOf;
    TallyMoves(m.pcs, t, Locked(cap, m.s, m.pcs[t], a).1);
    SizeIsBounded(cap, m.s);
  }

  /** The class a teller's audience is in, and the one it moves them to. */
  function Asleep<T>(teller: Pc<T>): Class {
    if teller.TellNotEmpty? || teller.CloseTellsEmpty? then SleepsPop else SleepsPush
  }

  function Awake<T>(teller: Pc<T>): Class {
    if teller.TellNotEmpty? || teller.CloseTellsEmpty? then AwakePop else AwakePush
  }

  predicate TellsAllNow<T>(pc: Pc<T>) {
    pc.CloseTellsFull? || pc.CloseTellsEmpty? || pc.ClearTellsFull?
  }

  lemma ClassOfWoken<T>(pcs: map<nat, Pc<T>>, teller: Pc<T>, u: nat)
    requires u in pcs && TellsAllNow(teller)
    ensures ClassOf(WakeAll(pcs, teller)[u]) == if ClassOf(pcs[u]) == Asleep(teller) then Awake(teller) else ClassOf(pcs[u])
  {
  }

  lemma NumberOfWoken<T>(pcs: map<nat, Pc<T>>, teller: Pc<T>, c: Class)
    requires TellsAllNow(teller)
    ensures Number(WakeAll(pcs, teller), c) == if c == Asleep(teller) then 0
      else Number(pcs, c) + if c == Awake(teller) then Number(pcs, Asleep(teller)) else 0
  {
    var woken := WakeAll(pcs, teller);
    forall u | u in pcs
      ensures ClassOf(woken[u]) == if ClassOf(pcs[u]) == Asleep(teller) then Awake(teller) else ClassOf(pcs[u])
    {
      ClassOfWoken(pcs, teller, u);
    }
    assert woken.Keys == pcs.Keys && Asleep(teller) != Awake(teller);
    hide ClassOf, WakeAll, Asleep, Awake;
    NumberOfMerged(pcs, woken, Asleep(teller), Awake(teller), c);
  }

  /** Class `from` is merged into class `to`. */
  lemma NumberOfMerged<T>(pcs: map<nat, Pc<T>>, now: map<nat, Pc<T>>, from: Class, to: Class, c: Class)
    requires now.Keys == pcs.Keys && from != to
    requires forall u :: u in pcs ==> ClassOf(now[u]) == if ClassOf(pcs[u]) == from then to else ClassOf(pcs[u])
    ensures Number(now, c) == if c == from then 0 else Number(pcs, c) + if c == to then Number(pcs, from) else 0
  {
    AtMerged(pcs, now, from, to, c);
    if c == to { DifferentClasses(pcs, c, from); }
    hide *;
    SizeOfMerged(At(pcs, c), if c == to then At(pcs, from) else {}, At(now, c), c == from);
    NumberIs(pcs, c);
    NumberIs(pcs, from);
    NumberIs(now, c);
  }

  lemma NumberIs<T>(pcs: map<nat, Pc<T>>, c: Class)
    ensures Number(pcs, c) == |At(pcs, c)|
  {
  }

  lemma AtMerged<T>(pcs: map<nat, Pc<T>>, now: map<nat, Pc<T>>, from: Class, to: Class, c: Class)
    requires now.Keys == pcs.Keys && from != to
    requires forall u :: u in pcs ==> ClassOf(now[u]) == if ClassOf(pcs[u]) == from then to else ClassOf(pcs[u])
    ensures forall u :: u in At(now, c) ==> c != from && (u in At(pcs, c) || (c == to && u in At(pcs, from)))
    ensures c != from ==> forall u :: u in At(pcs, c) || (c == to && u in At(pcs, from)) ==> u in At(now, c)
  {
    hide ClassOf;
  }

  lemma DifferentClasses<T>(pcs: map<nat, Pc<T>>, c: Class, d: Class)
    requires c != d
    ensures At(pcs, c) !! At(pcs, d)
  {
    hide ClassOf;
  }

  lemma SizeOfMerged<E>(a: set<E>, b: set<E>, all: set<E>, gone: bool)
    requires a !! b
    requires forall u :: u in all ==> !gone && (u in a || u in b)
    requires !gone ==> forall u :: u in a || u in b ==> u in all
    ensures |all| == if gone then 0 else |a| + |b|
  {
    if gone { assert all == {}; } else { assert all == a + b; }
  }

  /** After a `notify_all` nobody sleeps on that variable; every sleeper is awake. */
  lemma TallyOfWakeAll<T>(pcs: map<nat, Pc<T>>, teller: Pc<T>)
    requires TellsAllNow(teller)
    ensures var a, b := TallyOf(pcs), TallyOf(WakeAll(pcs, teller));
      b == if teller.CloseTellsEmpty? then a.(sleepsPop := 0, awakePop := a.awakePop + a.sleepsPop)
           else a.(sleepsPush := 0, awakePush := a.awakePush + a.sleepsPush)
  {
    hide Number, WakeAll;
    NumberOfWoken(pcs, teller, SleepsPush);
    NumberOfWoken(pcs, teller, SleepsPop);
    NumberOfWoken(pcs, teller, AwakePush);
    NumberOfWoken(pcs, teller, AwakePop);
    NumberOfWoken(pcs, teller, OneEmpty);
    NumberOfWoken(pcs, teller, OneFull);
    NumberOfWoken(pcs, teller, AllClear);
    NumberOfWoken(pcs, teller, AllClose);
    NumberOfWoken(pcs, teller, AllCloseEmpty);
    NumberOfWoken(pcs, teller, Late);
  }

  /** `notify_one`. */
  lemma TellKeeps<T>(cap: nat, m: Monitor<T>, t: nat, a: Action<T>)
    requires Good(cap, m) && Enabled(m, t, a) && a.Tells?
    ensures var r := Step(cap, m, t, a);
      NoLostWakeup(cap, |r.s.q|, r.s.closed, TallyOf(r.pcs))
  {
    hide Number, IsFifo, TallyOf, Nobody, Good;
    GoodTally(cap, m);
    if Nobody(m.pcs, m.pcs[t]) {
      NobodySleeps(m.pcs, m.pcs[t]);
      TallyMoves(m.pcs, t, Idle(true));
    } else {
      var mid := m.pcs[a.wakes := Woken(m.pcs[a.wakes])];
      TallyMoves(m.pcs, a.wakes, Woken(m.pcs[a.wakes]));
      TallyMoves(mid, t, Idle(true));
    }
  }

  lemma GoodTally<T>(cap: nat, m: Monitor<T>)
    requires Good(cap, m)
    ensures cap > 0 && NoLostWakeup(cap, |m.s.q|, m.s.closed, TallyOf(m.pcs))
  {
  }

  lemma NobodySleeps<T>(pcs: map<nat, Pc<T>>, teller: Pc<T>)
    requires Nobody(pcs, teller) && (teller.TellNotEmpty? || teller.TellNotFull?)
    ensures if teller.TellNotEmpty? then TallyOf(pcs).sleepsPop == 0 else TallyOf(pcs).sleepsPush == 0
  {
    NobodyIsZero(pcs, Asleep(teller));
    hide Number;
  }

  /** `notify_all`. */
  lemma TellAllKeeps<T>(cap: nat, m: Monitor<T>, t: nat)
    requires Good(cap, m) && Enabled(m, t, TellsAll)
    ensures var r := Step(cap, m, t, TellsAll);
      NoLostWakeup(cap, |r.s.q|, r.s.closed, TallyOf(r.pcs))
  {
    hide Number, IsFifo, TallyOf, WakeAll;
    TallyOfWakeAll(m.pcs, m.pcs[t]);
    TellerStays(m.pcs, t);
    TallyMoves(WakeAll(m.pcs, m.pcs[t]), t, Locked(cap, m.s, m.pcs[t], TellsAll).1);
  }

  lemma TellerStays<T>(pcs: map<nat, Pc<T>>, t: nat)
    requires t in pcs && !pcs[t].PushAsleep? && !pcs[t].PopAsleep?
    ensures t in WakeAll(pcs, pcs[t]) && WakeAll(pcs, pcs[t])[t] == pcs[t]
  {
  }

  lemma StepKeeps<T>(cap: nat, m: Monitor<T>, t: nat, a: Action<T>)
    requires Good(cap, m) && Enabled(m, t, a)
    ensures Good(cap, Step(cap, m, t, a))
  {
    hide TallyOf, IsFifo, NoLostWakeup, Step, Locked;
    StepShared(cap, m, t, a);
    LockedKeepsFifo(cap, m.s, m.pcs[t], a);
    if a.Tells? { TellKeeps(cap, m, t, a); }
    else if a.TellsAll? { TellAllKeeps(cap, m, t); }
    else { OwnStepKeeps(cap, m, t, a); }
  }

  lemma StepShared<T>(cap: nat, m: Monitor<T>, t: nat, a: Action<T>)
    requires cap > 0 && Enabled(m, t, a)
    ensures Step(cap, m, t, a).s == Locked(cap, m.s, m.pcs[t], a).0
    ensures Step(cap, m, t, a).pcs.Keys == m.pcs.Keys
  {
    hide Locked;
  }

  // ----- Runs -----

  datatype Move<T> = Move(thread: nat, action: Action<T>)

  ghost predicate Legal<T>(cap: nat, m: Monitor<T>, run: seq<Move<T>>)
    requires cap > 0
    decreases |run|
  {
    run == [] || (Enabled(m, run[0].thread, run[0].action) && Legal(cap, Step(cap, m, run[0].thread, run[0].action), run[1..]))
  }

  function After<T>(cap: nat, m: Monitor<T>, run: seq<Move<T>>): Monitor<T>
    requires cap > 0 && Legal(cap, m, run)
    decreases |run|
  {
    if run == [] then m else After(cap, Step(cap, m, run[0].thread, run[0].action), run[1..])
  }

  ghost predicate Initial<T>(m: Monitor<T>) {
    m.s == Fresh() && forall t :: t in m.pcs ==> m.pcs[t].Idle?
  }

  lemma {:induction false} RunKeeps<T>(cap: nat, m: Monitor<T>, run: seq<Move<T>>)
    requires cap > 0 && Good(cap, m) && Legal(cap, m, run)
    ensures Good(cap, After(cap, m, run))
    decreases |run|
  {
    hide Good, Step, Enabled;
    if run != [] {
      StepKeeps(cap, m, run[0].thread, run[0].action);
      RunKeeps(cap, Step(cap, m, run[0].thread, run[0].action), run[1..]);
    }
  }

  lemma InitialIsGood<T>(cap: nat, m: Monitor<T>)
    requires cap > 0 && Initial(m)
    ensures Good(cap, m)
  {
    NobodyIsZero(m.pcs, SleepsPush);
    NobodyIsZero(m.pcs, SleepsPop);
  }

  /** Who a sleeping consumer can count on. */
  lemma ConsumerIsCovered<T>(cap: nat, m: Monitor<T>, t: nat)
    requires Good(cap, m) && t in m.pcs
    ensures m.pcs[t].PopAsleep? && m.s.closed ==> exists u :: u in m.pcs && (m.pcs[u].CloseTellsFull? || m.pcs[u].CloseTellsEmpty?)
    ensures m.pcs[t].PopAsleep? && !m.s.closed && m.s.q != [] ==> exists u :: u in m.pcs && (m.pcs[u].TellNotEmpty? || m.pcs[u].PopAwake?)
  {
    SomebodyIn(m.pcs, SleepsPop);
    SomebodyIn(m.pcs, AllClose);
    SomebodyIn(m.pcs, AllCloseEmpty);
    SomebodyIn(m.pcs, OneEmpty);
    SomebodyIn(m.pcs, AwakePop);
    hide Number;
  }

  /** Who a sleeping producer can count on. */
  lemma ProducerIsCovered<T>(cap: nat, m: Monitor<T>, t: nat)
    requires Good(cap, m) && t in m.pcs
    ensures m.pcs[t].PushAsleep? && m.s.closed ==> exists u :: u in m.pcs && m.pcs[u].CloseTellsFull?
    ensures m.pcs[t].PushAsleep? && !m.s.closed && |m.s.q| < cap ==>
      exists u :: u in m.pcs && (m.pcs[u].ClearTellsFull? || m.pcs[u].TellNotFull? || m.pcs[u].PushAwake?)
  {
    SomebodyIn(m.pcs, SleepsPush);
    SomebodyIn(m.pcs, AllClose);
    SomebodyIn(m.pcs, AllClear);
    SomebodyIn(m.pcs, OneFull);
    SomebodyIn(m.pcs, AwakePush);
    hide Number;
  }

  lemma SomebodyIn<T>(pcs: map<nat, Pc<T>>, c: Class)
    ensures Number(pcs, c) > 0 <==> exists t :: t in pcs && ClassOf(pcs[t]) == c
  {
    NobodyIsZero(pcs, c);
  }

  /** A thread that is neither between calls nor asleep has a step of its own to take. */
  predicate Busy<T>(pc: Pc<T>) {
    !pc.Idle? && !pc.PushAsleep? && !pc.PopAsleep?
  }

  ghost predicate Quiet<T>(m: Monitor<T>) {
    forall t :: t in m.pcs ==> !Busy(m.pcs[t])
  }

  /** No lost wakeup, whatever the interleaving, timeouts and spurious wakeups included. In a state where nobody
      is on the way, a sleeping consumer means the queue is open and empty, a sleeping producer that it is open
      and full; and at any moment, a consumer asleep beside queued elements has a thread on its way to them. */
  lemma SleepersAreRight<T>(cap: nat, m: Monitor<T>, run: seq<Move<T>>, t: nat)
    requires cap > 0 && Initial(m) && Legal(cap, m, run)
    requires var r := After(cap, m, run); t in r.pcs && (r.pcs[t].PopAsleep? || r.pcs[t].PushAsleep?)
    ensures var r := After(cap, m, run);
      Quiet(r) ==> !r.s.closed && if r.pcs[t].PopAsleep? then r.s.q == [] else |r.s.q| == cap
    ensures var r := After(cap, m, run);
      r.pcs[t].PopAsleep? && r.s.q != [] ==> exists u :: u in r.pcs && Busy(r.pcs[u])
    ensures var r := After(cap, m, run);
      r.pcs[t].PushAsleep? && |r.s.q| < cap ==> exists u :: u in r.pcs && Busy(r.pcs[u])
  {
    hide After, Good, Legal;
    InitialIsGood(cap, m);
    RunKeeps(cap, m, run);
    var r := After(cap, m, run);
    if r.pcs[t].PopAsleep? { ConsumerIsCovered(cap, r, t); } else { ProducerIsCovered(cap, r, t); }
    GoodSize(cap, r);
  }

  lemma GoodSize<T>(cap: nat, m: Monitor<T>)
    requires Good(cap, m)
    ensures |m.s.q| <= cap
  {
  }

  // ----- What a caller can rely on -----

  /** `pop` (without a timeout) returns false only when the queue is closed and empty, `popFor` only when it is
      empty; and the element a successful one returns is the oldest one left. */
  lemma PopFailsOnlyAtTheEnd<T>(cap: nat, m: Monitor<T>, t: nat, a: Action<T>)
    requires cap > 0 && Enabled(m, t, a) && (a.PopEnters? || a.PopResumes? || a.PopLateReturns?)
    ensures var r := Step(cap, m, t, a);
      && (r.pcs[t].Idle? <==> m.s.q == [] && (m.s.closed || a.PopLateReturns?))
      && (r.pcs[t].TellNotFull? <==> m.s.q != [])
      && (r.pcs[t].TellNotFull? ==> r.s.popped == m.s.popped + [m.s.q[0]] && m.s.q == [m.s.q[0]] + r.s.q)
      && (!r.pcs[t].TellNotFull? ==> r.s == m.s)
  {
    assert m.s.q != [] ==> m.s.q == [m.s.q[0]] + m.s.q[1..];
  }

  /** The calls that do not wait, and `popFor` once it is late: what they do and whether they succeed. */
  lemma CallsThatDoNotWait<T>(cap: nat, m: Monitor<T>, t: nat, a: Action<T>)
    requires cap > 0 && Enabled(m, t, a)
    ensures t in Step(cap, m, t, a).pcs
    ensures var s, r := m.s, Step(cap, m, t, a);
      && (a.TryPush? && !s.closed && |s.q| < cap ==>
            r.s.q == s.q + [a.x] && r.s.accepted == s.accepted + [a.x] && r.s.dropped == s.dropped && r.pcs[t] == TellNotEmpty)
      && (a.ForcePush? && !s.closed ==>
            && r.s.q == (if |s.q| < cap then s.q else s.q[1..]) + [a.x] && r.s.accepted == s.accepted + [a.x]
            && r.s.dropped == s.dropped + (if |s.q| < cap then 0 else 1) && r.pcs[t] == TellNotEmpty)
      && ((a.TryPush? && (s.closed || |s.q| >= cap)) || (a.ForcePush? && s.closed) || (a.PopLateReturns? && s.q == []) ==>
            r.s == s && r.pcs[t] == Idle(false))
      && (a.PopLateReturns? && s.q != [] ==>
            r.s.q == s.q[1..] && r.s.popped == s.popped + [s.q[0]] && r.s.accepted == s.accepted && r.pcs[t] == TellNotFull)
  {
    hide WakeAll, Nobody;
  }

  /** Only an element some thread is pushing enters the queue, at its end, and never once it is closed;
      it stays closed; nothing that left it comes back. */
  lemma QueueOnlyGrowsAtTheEnd<T>(cap: nat, m: Monitor<T>, t: nat, a: Action<T>)
    requires cap > 0 && Enabled(m, t, a)
    ensures var r := Step(cap, m, t, a).s;
      && (m.s.closed ==> r.closed && r.accepted == m.s.accepted)
      && m.s.accepted <= r.accepted && m.s.fates <= r.fates && m.s.popped <= r.popped
      && (r.accepted != m.s.accepted ==>
            ((a.PushEnters? || a.TryPush? || a.ForcePush?) && r.accepted == m.s.accepted + [a.x])
            || (a.PushResumes? && r.accepted == m.s.accepted + [m.pcs[t].x]))
  {
    StepShared(cap, m, t, a);
    hide Step, Enabled;
  }

  // ----- The queue comes to rest -----

  /** Steps the threads take by themselves, once nobody starts a call, times out or wakes spuriously. */
  predicate Internal<T>(a: Action<T>) {
    a.PushResumes? || a.PopResumes? || a.PopLateReturns? || a.Tells? || a.TellsAll?
  }

  /** `k` is more than the number of threads. */
  function Effort(n: Tally, k: nat): int {
    5 * (n.sleepsPush + n.sleepsPop) + 6 * (n.awakePush + n.awakePop) + 4 * n.late + 2 * (n.oneEmpty + n.oneFull)
    + Times(k, n.allClear + n.allCloseEmpty + 2 * n.allClose)
  }

  function Times(k: nat, n: nat): nat {
    k * n
  }

  function Cost(k: nat, ahead: nat): nat {
    if ahead == 0 then 0 else if ahead == 1 then k else k + k
  }

  /** How many `notify_all` a thread of the class has ahead. */
  function Ahead(c: Class): nat {
    match c case AllClear => 1 case AllCloseEmpty => 1 case AllClose => 2 case _ => 0
  }

  function Own(c: Class): nat {
    match c
    case SleepsPush => 5 case SleepsPop => 5 case AwakePush => 6 case AwakePop => 6
    case OneEmpty => 2 case OneFull => 2 case Late => 4 case _ => 0
  }

  function ClassEffort(c: Class, k: nat): nat {
    Own(c) + Cost(k, Ahead(c))
  }

  lemma EffortMoves(a: Tally, b: Tally, x: Class, y: Class, k: nat)
    requires Moved(a, b, x, y)
    ensures Effort(b, k) == Effort(a, k) - ClassEffort(x, k) + ClassEffort(y, k)
  {
    hide Times, Cost;
    var p, q := a.allClear + a.allCloseEmpty + 2 * a.allClose, b.allClear + b.allCloseEmpty + 2 * b.allClose;
    TalliesMove(a, b, x, y);
    TimesMoves(k, p, q, Ahead(x), Ahead(y));
    hide Moved, Own, Ahead;
  }

  lemma TalliesMove(a: Tally, b: Tally, x: Class, y: Class)
    requires Moved(a, b, x, y)
    ensures b.allClear + b.allCloseEmpty + 2 * b.allClose + Ahead(x) == a.allClear + a.allCloseEmpty + 2 * a.allClose + Ahead(y)
    ensures var own := (n: Tally) => 5 * (n.sleepsPush + n.sleepsPop) + 6 * (n.awakePush + n.awakePop) + 4 * n.late
                                     + 2 * (n.oneEmpty + n.oneFull);
      own(b) + Own(x) == own(a) + Own(y)
  {
  }

  lemma TimesMoves(k: nat, p: nat, q: nat, x: nat, y: nat)
    requires q + x == p + y && x <= 2 && y <= 2
    ensures Times(k, q) + Cost(k, x) == Times(k, p) + Cost(k, y)
  {
    TimesSum(k, q, x);
    TimesSum(k, p, y);
  }

  lemma TimesSum(k: nat, p: nat, x: nat)
    requires x <= 2
    ensures Times(k, p + x) == Times(k, p) + Cost(k, x)
  {
    assert k * (p + x) == k * p + k * x;
  }

  lemma NumberIsBounded<T>(pcs: map<nat, Pc<T>>, c: Class)
    ensures Number(pcs, c) <= |pcs|
  {
    SubsetSmaller(At(pcs, c), pcs.Keys);
    assert |pcs.Keys| == |pcs|;
  }

  lemma EffortIsNatural(n: Tally, k: nat)
    ensures Effort(n, k) >= 0
  {
  }

  lemma WakingCosts(a: Tally, b: Tally, k: nat)
    requires b == a.(sleepsPop := 0, awakePop := a.awakePop + a.sleepsPop)
      || b == a.(sleepsPush := 0, awakePush := a.awakePush + a.sleepsPush)
    requires a.sleepsPop < k && a.sleepsPush < k
    ensures Effort(b, k) < Effort(a, k) + k
  {
  }

  /** Every internal step uses up effort. */
  lemma InternalStepsTire<T>(cap: nat, m: Monitor<T>, t: nat, a: Action<T>)
    requires cap > 0 && Enabled(m, t, a) && Internal(a)
    ensures var k := |m.pcs| + 1; 0 <= Effort(TallyOf(Step(cap, m, t, a).pcs), k) < Effort(TallyOf(m.pcs), k)
  {
    hide Number, TallyOf, Effort, Nobody, WakeAll, Moved;
    var k, pc := |m.pcs| + 1, Locked(cap, m.s, m.pcs[t], a).1;
    EffortIsNatural(TallyOf(Step(cap, m, t, a).pcs), k);
    if a.Tells? && !Nobody(m.pcs, m.pcs[t]) {
      var mid := m.pcs[a.wakes := Woken(m.pcs[a.wakes])];
      TallyMoves(m.pcs, a.wakes, Woken(m.pcs[a.wakes]));
      EffortMoves(TallyOf(m.pcs), TallyOf(mid), ClassOf(m.pcs[a.wakes]), ClassOf(Woken(m.pcs[a.wakes])), k);
      TallyMoves(mid, t, pc);
      EffortMoves(TallyOf(mid), TallyOf(mid[t := pc]), ClassOf(m.pcs[t]), ClassOf(pc), k);
    } else if a.TellsAll? {
      TellAllTires(cap, m, t);
    } else {
      TallyMoves(m.pcs, t, pc);
      EffortMoves(TallyOf(m.pcs), TallyOf(m.pcs[t := pc]), ClassOf(m.pcs[t]), ClassOf(pc), k);
    }
  }

  lemma TellAllTires<T>(cap: nat, m: Monitor<T>, t: nat)
    requires cap > 0 && Enabled(m, t, TellsAll)
    ensures var k := |m.pcs| + 1; Effort(TallyOf(Step(cap, m, t, TellsAll).pcs), k) < Effort(TallyOf(m.pcs), k)
  {
    hide Number, Effort, WakeAll, Moved;
    var k, pc := |m.pcs| + 1, Locked(cap, m.s, m.pcs[t], TellsAll).1;
    var mid := WakeAll(m.pcs, m.pcs[t]);
    NumberIsBounded(m.pcs, SleepsPush);
    NumberIsBounded(m.pcs, SleepsPop);
    TallyOfWakeAll(m.pcs, m.pcs[t]);
    WakingCosts(TallyOf(m.pcs), TallyOf(mid), k);
    TellerStays(m.pcs, t);
    TallyMoves(mid, t, pc);
    EffortMoves(TallyOf(mid), TallyOf(mid[t := pc]), ClassOf(m.pcs[t]), ClassOf(pc), k);
  }

  /** Left alone, the threads come to rest: a run of internal steps is no longer than the effort it starts with ... */
  lemma {:induction false} InternalRunsEnd<T>(cap: nat, m: Monitor<T>, run: seq<Move<T>>)
    requires cap > 0 && Legal(cap, m, run) && forall i :: 0 <= i < |run| ==> Internal(run[i].action)
    ensures |run| <= Effort(TallyOf(m.pcs), |m.pcs| + 1)
    decreases |run|
  {
    hide Effort, TallyOf, Internal;
    if run == [] {
      EffortIsNatural(TallyOf(m.pcs), |m.pcs| + 1);
    } else {
      var next := Step(cap, m, run[0].thread, run[0].action);
      StepShared(cap, m, run[0].thread, run[0].action);
      assert |next.pcs.Keys| == |next.pcs| && |m.pcs.Keys| == |m.pcs|;
      InternalStepsTire(cap, m, run[0].thread, run[0].action);
      InternalRunsEnd(cap, next, run[1..]);
    }
  }

  /** ... and as long as they are not at rest, one of them can take an internal step. */
  lemma UnlessQuietSomeStep<T>(m: Monitor<T>, t: nat) returns (a: Action<T>)
    requires t in m.pcs && Busy(m.pcs[t])
    ensures Enabled(m, t, a) && Internal(a)
  {
    match m.pcs[t]
    case PushAwake(_) => a := PushResumes;
    case PopAwake(_) => a := PopResumes;
    case PopLate => a := PopLateReturns;
    case TellNotEmpty => a := AnyTell(m, t);
    case TellNotFull => a := AnyTell(m, t);
    case _ => a := TellsAll;
  }

  lemma AnyTell<T>(m: Monitor<T>, t: nat) returns (a: Action<T>)
    requires t in m.pcs && (m.pcs[t].TellNotEmpty? || m.pcs[t].TellNotFull?)
    ensures Enabled(m, t, a) && Internal(a)
  {
    a := Tells(t);
    if !Nobody(m.pcs, m.pcs[t]) {
      var u :| u in m.pcs && Hears(m.pcs[t], m.pcs[u]);
      a := Tells(u);
    }
  }
}

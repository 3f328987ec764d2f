/**
 The sender's three loops over their two bounded queues
 (app/sender/SenderPipeline.cpp:228-372): capture pushes raw frames, encode pops them
 and pushes encoded frames, send pops those.

 Camera, encoder, file and socket are abstract: each may succeed or fail at any call.
 The queues are the monitors of `QueueMonitor`, so a step is one critical section,
 notification, timeout or spurious wakeup of one thread, or one piece of a loop's own
 work; every interleaving of the three threads is a run.
 */
module SenderPipeline {
  import opened BoundedQueue
  import opened QueueMonitor

  datatype Thread = Capturing | Encoding | Sending

  /** The thread's number in the queues. */
  function Tid(t: Thread): nat {
    match t case Capturing => 0 case Encoding => 1 case Sending => 2
  }

  datatype Capture = CapTop | CapHolds(x: int) | CapPushes | CapStops | CapCloses | CapDone

  /** `drained`: the loop ended because `pop` returned false. */
  datatype Encode =
    | EncTop | EncPops | EncHas | EncHolds(out: seq<int>, last: bool) | EncPushes(rest: seq<int>, last: bool)
    | EncFlushes | EncFails | EncStops(drained: bool) | EncClosesRaw(drained: bool)
    | EncStopsSend(drained: bool) | EncClosesSend(drained: bool) | EncDone(drained: bool)

  /** `seen`: how many frames had been accepted when `popFor` last found the queue empty. */
  datatype Send =
    | SndTop | SndPops | SndHas | SndChecks(seen: nat) | SndFails | SndStops | SndClosesSend
    | SndStopsRaw | SndClosesRaw | SndDone(seen: nat) | SndFailed

  datatype Loops = Loops(abort: bool, capture: Capture, encode: Encode, sender: Send)

  datatype Pipeline = Pipeline(raw: Monitor<int>, send: Monitor<int>, loops: Loops)

  datatype Sizes = Sizes(raw: nat, send: nat)

  /** What the abstract stage does: hand something on, give up, or just go on. */
  datatype Choice = Read(x: int) | Out(frames: seq<int>) | Fail | Go

  datatype Event = OnRaw(t: Thread, a: Action<int>) | OnSend(t: Thread, a: Action<int>) | Works(t: Thread, choice: Choice)

  // ----- A loop's own steps -----

  /** The queue call a loop makes when it goes on from where it is, if it makes one. */
  datatype Call = OnRawQueue(a: Action<int>) | OnSendQueue(a: Action<int>) | NoCall

  predicate CanWork(l: Loops, t: Thread, choice: Choice) {
    match t
    case Capturing => (
      match l.capture
      case CapTop => choice.Fail? || (choice.Read? && !l.abort)
      case CapHolds(_) => choice.Go?
      case CapStops => choice.Go?
      case _ => false)
    case Encoding => (
      match l.encode
      case EncTop => choice.Go?
      case EncHas => choice.Out? || choice.Fail?
      case EncHolds(out, _) => choice.Go? || (choice.Fail? && out != [])
      case EncFlushes => choice.Out? || choice.Fail?
      case EncFails => choice.Go?
      case EncStops(_) => choice.Go?
      case EncStopsSend(_) => choice.Go?
      case _ => false)
    case Sending => (
      match l.sender
      case SndTop => choice.Go?
      case SndHas => choice.Go? || choice.Fail?
      case SndChecks(_) => choice.Go?
      case SndFails => choice.Go?
      case SndStops => choice.Go?
      case SndStopsRaw => choice.Go?
      case _ => false)
  }

  function CaptureWorks(s: Capture, choice: Choice): (r: (Capture, Call)) {
    match s
    case CapTop => if choice.Read? then (CapHolds(choice.x), NoCall) else (CapStops, NoCall)
    case CapHolds(x) => (CapPushes, OnRawQueue(PushEnters(x)))
    case CapStops => (CapCloses, OnRawQueue(Close))
    case s => (s, NoCall)
  }

  function EncodeWorks(s: Encode, choice: Choice): (r: (Encode, Call)) {
    match s
    case EncTop => (EncPops, OnRawQueue(PopEnters(false)))
    case EncHas => if choice.Out? then (EncHolds(choice.frames, false), NoCall) else (EncFails, NoCall)
    case EncHolds(out, last) =>
      if choice.Fail? then (EncFails, NoCall)
      else if out != [] then (EncPushes(out[1..], last), OnSendQueue(PushEnters(out[0])))
      else if last then (EncStops(true), NoCall)
      else (EncTop, NoCall)
    case EncFlushes => if choice.Out? then (EncHolds(choice.frames, true), NoCall) else (EncFails, NoCall)
    case EncFails => (EncStops(false), NoCall)
    case EncStops(d) => (EncClosesRaw(d), OnRawQueue(Close))
    case EncStopsSend(d) => (EncClosesSend(d), OnSendQueue(Close))
    case s => (s, NoCall)
  }

  function SendWorks(s: Send, choice: Choice, closed: bool): (r: (Send, Call)) {
    match s
    case SndTop => (SndPops, OnSendQueue(PopEnters(true)))
    case SndHas => if choice.Fail? then (SndFails, NoCall) else (SndTop, NoCall)
    case SndChecks(seen) => if closed then (SndDone(seen), NoCall) else (SndTop, NoCall)
    case SndFails => (SndStops, NoCall)
    case SndStops => (SndClosesSend, OnSendQueue(Close))
    case SndStopsRaw => (SndClosesRaw, OnRawQueue(Close))
    case s => (s, NoCall)
  }

  /** `closed` is what `isClosed` answers. */
  function Worked(l: Loops, t: Thread, choice: Choice, closed: bool): (r: (Loops, Call)) {
    match t
    case Capturing =>
      var (s, call) := CaptureWorks(l.capture, choice);
      (l.(capture := s), call)
    case Encoding =>
      var (s, call) := EncodeWorks(l.encode, choice);
      (l.(encode := s, abort := l.abort || l.encode.EncFails?), call)
    case Sending =>
      var (s, call) := SendWorks(l.sender, choice, closed);
      (l.(sender := s, abort := l.abort || l.sender.SndFails?), call)
  }

  // ----- Return from a queue call -----

  function RawReturns(l: Loops, t: Thread, ok: bool): Loops {
    match t
    case Capturing =>
      l.(capture := if l.capture.CapPushes? && ok then CapTop else if l.capture.CapPushes? then CapStops else CapDone)
    case Encoding =>
      l.(encode := match l.encode
                   case EncPops => if ok then EncHas else EncFlushes
                   case EncClosesRaw(d) => EncStopsSend(d)
                   case e => e)
    case Sending => l.(sender := SndFailed)
  }

  /** `accepted` is the number of frames the send queue has ever accepted. */
  function SendReturns(l: Loops, t: Thread, ok: bool, accepted: nat): Loops {
    match t
    case Capturing => l
    case Encoding =>
      l.(encode := match l.encode
                   case EncPushes(rest, last) => if ok then EncHolds(rest, last) else EncFails
                   case EncClosesSend(d) => EncDone(d)
                   case e => e)
    case Sending =>
      l.(sender := match l.sender
                   case SndPops => if ok then SndHas else SndChecks(accepted)
                   case SndClosesSend => SndStopsRaw
                   case e => e)
  }

  // ----- Steps of the pipeline -----

  /** Inside a queue call: everything but starting a new one. */
  predicate InCall(a: Action<int>) {
    Internal(a) || a.PopTimesOut? || a.SpuriousWake?
  }

  predicate BetweenCalls(p: Pipeline, t: Thread) {
    var n := Tid(t);
    n in p.raw.pcs && p.raw.pcs[n].Idle? && n in p.send.pcs && p.send.pcs[n].Idle?
  }

  predicate Possible(p: Pipeline, e: Event) {
    match e
    case OnRaw(t, a) => Enabled(p.raw, Tid(t), a) && InCall(a)
    case OnSend(t, a) => Enabled(p.send, Tid(t), a) && InCall(a)
    case Works(t, choice) => BetweenCalls(p, t) && CanWork(p.loops, t, choice)
  }

  /** One step of a thread inside the raw-frame queue, and its return from there if the call is over. */
  function RawStep(c: Sizes, p: Pipeline, t: Thread, a: Action<int>): Pipeline
    requires c.raw > 0 && Enabled(p.raw, Tid(t), a)
  {
    var m, n := Step(c.raw, p.raw, Tid(t), a), Tid(t);
    Pipeline(m, p.send, if n in m.pcs && m.pcs[n].Idle? then RawReturns(p.loops, t, m.pcs[n].ok) else p.loops)
  }

  function SendStep(c: Sizes, p: Pipeline, t: Thread, a: Action<int>): Pipeline
    requires c.send > 0 && Enabled(p.send, Tid(t), a)
  {
    var m, n := Step(c.send, p.send, Tid(t), a), Tid(t);
    Pipeline(p.raw, m, if n in m.pcs && m.pcs[n].Idle? then SendReturns(p.loops, t, m.pcs[n].ok, |m.s.accepted|) else p.loops)
  }

  lemma StartsAreEnabled(p: Pipeline, t: Thread, choice: Choice)
    requires BetweenCalls(p, t)
    ensures match Worked(p.loops, t, choice, p.send.s.closed).1
            case NoCall => true
            case OnRawQueue(a) => Enabled(p.raw, Tid(t), a)
            case OnSendQueue(a) => Enabled(p.send, Tid(t), a)
  {
  }

  function Next(c: Sizes, p: Pipeline, e: Event): Pipeline
    requires c.raw > 0 && c.send > 0 && Possible(p, e)
  {
    match e
    case OnRaw(t, a) => RawStep(c, p, t, a)
    case OnSend(t, a) => SendStep(c, p, t, a)
    case Works(t, choice) =>
      StartsAreEnabled(p, t, choice);
      var (l, call) := Worked(p.loops, t, choice, p.send.s.closed);
      match call
      case NoCall => p.(loops := l)
      case OnRawQueue(a) => RawStep(c, p.(loops := l), t, a)
      case OnSendQueue(a) => SendStep(c, p.(loops := l), t, a)
  }

  // ----- The invariant -----

  /** What a thread is doing in a queue. */
  datatype Role = Outside | Pushing | Popping(timed: bool) | Closing

  function RawRole(l: Loops, t: Thread): Role {
    match t
    case Capturing => if l.capture.CapPushes? then Pushing else if l.capture.CapCloses? then Closing else Outside
    case Encoding => if l.encode.EncPops? then Popping(false) else if l.encode.EncClosesRaw? then Closing else Outside
    case Sending => if l.sender.SndClosesRaw? then Closing else Outside
  }

  function SendRole(l: Loops, t: Thread): Role {
    match t
    case Capturing => Outside
    case Encoding => if l.encode.EncPushes? then Pushing else if l.encode.EncClosesSend? then Closing else Outside
    case Sending => if l.sender.SndPops? then Popping(true) else if l.sender.SndClosesSend? then Closing else Outside
  }

  predicate Fits(role: Role, pc: Pc<int>) {
    match role
    case Outside => pc.Idle?
    case Pushing => pc.PushAsleep? || pc.PushAwake? || pc.TellNotEmpty?
    case Popping(timed) => pc == PopAsleep(timed) || pc == PopAwake(timed) || (timed && pc.PopLate?) || pc.TellNotFull?
    case Closing => pc.CloseTellsFull? || pc.CloseTellsEmpty?
  }

  predicate HasThreads(m: Monitor<int>) {
    m.pcs.Keys == {Tid(Capturing), Tid(Encoding), Tid(Sending)}
  }

  ghost predicate QueueOk(cap: nat, m: Monitor<int>) {
    Good(cap, m) && HasThreads(m) && m.s.dropped == 0
  }

  ghost predicate Placed(p: Pipeline) {
    forall t :: (Tid(t) in p.raw.pcs && Fits(RawRole(p.loops, t), p.raw.pcs[Tid(t)]))
             && (Tid(t) in p.send.pcs && Fits(SendRole(p.loops, t), p.send.pcs[Tid(t)]))
  }

  predicate IsDrained(e: Encode) {
    e.EncFlushes? || ((e.EncHolds? || e.EncPushes?) && e.last)
    || ((e.EncStops? || e.EncClosesRaw? || e.EncStopsSend? || e.EncClosesSend? || e.EncDone?) && e.drained)
  }

  predicate EncodeClosedRaw(e: Encode) {
    e.EncClosesRaw? || e.EncStopsSend? || e.EncClosesSend? || e.EncDone?
  }

  predicate SendStopped(s: Send) {
    s.SndClosesSend? || s.SndStopsRaw? || s.SndClosesRaw? || s.SndFailed?
  }

  /** Who has closed what, and what is known from it. */
  ghost predicate Told(raw: Shared<int>, send: Shared<int>, l: Loops) {
    && (l.capture.CapCloses? || l.capture.CapDone? || EncodeClosedRaw(l.encode) || l.sender.SndClosesRaw? || l.sender.SndFailed?
        ==> raw.closed)
    && (l.encode.EncClosesSend? || l.encode.EncDone? || SendStopped(l.sender) || l.sender.SndDone? ==> send.closed)
    && (IsDrained(l.encode) ==> raw.closed && raw.q == [])
    && (l.encode.EncStops? || EncodeClosedRaw(l.encode) ==> l.encode.drained || l.abort)
    && (l.sender.SndStops? || SendStopped(l.sender) ==> l.abort)
    && (l.sender.SndChecks? || l.sender.SndDone? ==> |send.popped| == l.sender.seen)
  }

  ghost predicate Inv(c: Sizes, p: Pipeline) {
    QueueOk(c.raw, p.raw) && QueueOk(c.send, p.send) && Placed(p) && Told(p.raw.s, p.send.s, p.loops)
  }

  // ----- One queue step -----

  /** A thread, in `role`, starts its call or goes on with it. */
  predicate Does(role: Role, pc: Pc<int>, a: Action<int>) {
    || (!role.Outside? && Fits(role, pc) && InCall(a))
    || (pc.Idle? && ((role.Pushing? && a.PushEnters?) || (role.Popping? && a == PopEnters(role.timed)) || (role.Closing? && a.Close?)))
  }

  /** What a queue step does to the thread that takes it. */
  lemma OwnPlace(cap: nat, m: Monitor<int>, t: nat, a: Action<int>, role: Role)
    requires cap > 0 && Enabled(m, t, a) && Does(role, m.pcs[t], a)
    ensures t in Step(cap, m, t, a).pcs
    ensures var pc := Step(cap, m, t, a).pcs[t];
      && (pc.Idle? || Fits(role, pc))
      && (pc.Idle? && !pc.ok && role.Popping? ==> m.s.q == [] && (role.timed || m.s.closed))
      && (pc.Idle? && !pc.ok ==> Step(cap, m, t, a).s == m.s)
      && (pc.Idle? && !pc.ok && role.Pushing? ==> m.s.closed)
  {
  }

  /** The other threads stay where they are, or wake up. */
  lemma OthersPlace(cap: nat, m: Monitor<int>, t: nat, a: Action<int>, u: nat, role: Role)
    requires cap > 0 && Enabled(m, t, a) && u != t && u in m.pcs && Fits(role, m.pcs[u])
    ensures u in Step(cap, m, t, a).pcs && Fits(role, Step(cap, m, t, a).pcs[u])
  {
    hide Locked, Nobody;
  }

  lemma LockedDoes(cap: nat, s: Shared<int>, pc: Pc<int>, a: Action<int>, role: Role)
    requires cap > 0 && CanAct(pc, a) && Does(role, pc, a)
    ensures var r := Locked(cap, s, pc, a).0;
      && r.dropped == s.dropped
      && r.closed == (s.closed || a.Close?)
      && (s.closed ==> r.accepted == s.accepted && (s.q == [] ==> r.q == []))
      && (!role.Popping? ==> r.popped == s.popped)
      && (!role.Pushing? ==> r.accepted == s.accepted)
      && (role.Closing? && a.Close? ==> r.closed)
  {
  }

  /** What it does to the queue. */
  lemma QueueStep(cap: nat, m: Monitor<int>, t: nat, a: Action<int>, role: Role)
    requires QueueOk(cap, m) && Enabled(m, t, a) && Does(role, m.pcs[t], a)
    ensures var r := Step(cap, m, t, a);
      && QueueOk(cap, r)
      && r.s.closed == (m.s.closed || a.Close?)
      && (m.s.closed ==> r.s.accepted == m.s.accepted && (m.s.q == [] ==> r.s.q == []))
      && (!role.Popping? ==> r.s.popped == m.s.popped)
      && (!role.Pushing? ==> r.s.accepted == m.s.accepted)
  {
    StepShared(cap, m, t, a);
    StepKeeps(cap, m, t, a);
    LockedDoes(cap, m.s, m.pcs[t], a, role);
    hide Step, Locked, Good, Does, Fits, Nobody, CanAct;
  }

  /** With nothing ever dropped, what was popped and what is queued are together what was accepted. */
  lemma NothingDropped(cap: nat, s: Shared<int>)
    requires IsFifo(cap, s) && s.dropped == 0
    ensures s.popped + s.q == s.accepted
  {
    AllPicked(s.accepted[..|s.fates|], s.fates);
    assert s.accepted == s.accepted[..|s.fates|] + s.accepted[|s.fates|..];
  }

  lemma {:induction false} AllPicked(xs: seq<int>, fates: seq<bool>)
    requires |xs| == |fates| && Count(fates, false) == 0
    ensures Picked(xs, fates) == xs
    decreases |xs|
  {
    if xs != [] {
      var n := |xs| - 1;
      AllPicked(xs[..n], fates[..n]);
      assert xs == xs[..n] + [xs[n]];
    }
  }

  // ----- Every step keeps the invariant -----

  /** A thread other than `t` has the same role after `t` returned from a call. */
  lemma RolesAfterReturn(l: Loops, t: Thread, ok: bool, n: nat, u: Thread)
    ensures u != t ==> RawRole(RawReturns(l, t, ok), u) == RawRole(l, u) && SendRole(RawReturns(l, t, ok), u) == SendRole(l, u)
    ensures u != t ==> RawRole(SendReturns(l, t, ok, n), u) == RawRole(l, u) && SendRole(SendReturns(l, t, ok, n), u) == SendRole(l, u)
    ensures !RawRole(l, t).Outside? ==> RawRole(RawReturns(l, t, ok), t).Outside? && SendRole(RawReturns(l, t, ok), t) == SendRole(l, t)
    ensures !SendRole(l, t).Outside? ==> SendRole(SendReturns(l, t, ok, n), t).Outside? && RawRole(SendReturns(l, t, ok, n), t) == RawRole(l, t)
  {
  }

  /** Everyone but `t` is where its loop says; `t` is about to take step `a` in the raw queue. */
  ghost predicate PlacedBut(p: Pipeline, t: Thread) {
    forall u :: (Tid(u) in p.raw.pcs && (u == t || Fits(RawRole(p.loops, u), p.raw.pcs[Tid(u)])))
             && (Tid(u) in p.send.pcs && (u == t || Fits(SendRole(p.loops, u), p.send.pcs[Tid(u)])))
  }

  lemma RawStepPlaces(c: Sizes, p: Pipeline, t: Thread, a: Action<int>)
    requires c.raw > 0 && PlacedBut(p, t) && Fits(SendRole(p.loops, t), p.send.pcs[Tid(t)])
    requires Enabled(p.raw, Tid(t), a) && Does(RawRole(p.loops, t), p.raw.pcs[Tid(t)], a)
    ensures Placed(RawStep(c, p, t, a))
  {
    var role, m := RawRole(p.loops, t), Step(c.raw, p.raw, Tid(t), a);
    OwnPlace(c.raw, p.raw, Tid(t), a, role);
    forall u
      ensures u != t ==> Tid(u) in m.pcs && Fits(RawRole(p.loops, u), m.pcs[Tid(u)])
    {
      if u != t { OthersPlace(c.raw, p.raw, Tid(t), a, Tid(u), RawRole(p.loops, u)); }
    }
    forall u {
      RolesAfterReturn(p.loops, t, m.pcs[Tid(t)].Idle? && m.pcs[Tid(t)].ok, 0, u);
    }
    hide Step, Enabled, RawRole, SendRole, Does;
  }

  lemma SendStepPlaces(c: Sizes, p: Pipeline, t: Thread, a: Action<int>)
    requires c.send > 0 && PlacedBut(p, t) && Fits(RawRole(p.loops, t), p.raw.pcs[Tid(t)])
    requires Enabled(p.send, Tid(t), a) && Does(SendRole(p.loops, t), p.send.pcs[Tid(t)], a)
    ensures Placed(SendStep(c, p, t, a))
  {
    var role, m := SendRole(p.loops, t), Step(c.send, p.send, Tid(t), a);
    OwnPlace(c.send, p.send, Tid(t), a, role);
    forall u
      ensures u != t ==> Tid(u) in m.pcs && Fits(SendRole(p.loops, u), m.pcs[Tid(u)])
    {
      if u != t { OthersPlace(c.send, p.send, Tid(t), a, Tid(u), SendRole(p.loops, u)); }
    }
    forall u {
      RolesAfterReturn(p.loops, t, m.pcs[Tid(t)].Idle? && m.pcs[Tid(t)].ok, |m.s.accepted|, u);
    }
    hide Step, Enabled, RawRole, SendRole, Does;
  }

  lemma RawReturnTells(raw: Shared<int>, send: Shared<int>, l: Loops, t: Thread, ok: bool)
    requires Told(raw, send, l) && !RawRole(l, t).Outside?
    requires !ok && RawRole(l, t).Popping? ==> raw.q == [] && raw.closed
    requires !ok && RawRole(l, t).Pushing? ==> raw.closed
    ensures Told(raw, send, RawReturns(l, t, ok))
  {
  }

  lemma SendReturnTells(raw: Shared<int>, send: Shared<int>, l: Loops, t: Thread, ok: bool)
    requires Told(raw, send, l) && !SendRole(l, t).Outside?
    requires !ok && SendRole(l, t).Popping? ==> |send.popped| == |send.accepted|
    ensures Told(raw, send, SendReturns(l, t, ok, |send.accepted|))
  {
  }

  lemma RawStepTells(c: Sizes, p: Pipeline, t: Thread, a: Action<int>)
    requires c.raw > 0 && QueueOk(c.raw, p.raw) && Enabled(p.raw, Tid(t), a)
    requires Does(RawRole(p.loops, t), p.raw.pcs[Tid(t)], a) && !RawRole(p.loops, t).Outside?
    requires Told(Step(c.raw, p.raw, Tid(t), a).s, p.send.s, p.loops)
    ensures var r := RawStep(c, p, t, a); Told(r.raw.s, r.send.s, r.loops)
  {
    hide Step, Enabled, Does, Fits, QueueOk, Told, RawReturns;
    var m := Step(c.raw, p.raw, Tid(t), a);
    OwnPlace(c.raw, p.raw, Tid(t), a, RawRole(p.loops, t));
    if m.pcs[Tid(t)].Idle? { RawReturnTells(m.s, p.send.s, p.loops, t, m.pcs[Tid(t)].ok); }
    hide RawRole;
  }

  lemma SendStepTells(c: Sizes, p: Pipeline, t: Thread, a: Action<int>)
    requires c.send > 0 && QueueOk(c.send, p.send) && Enabled(p.send, Tid(t), a)
    requires Does(SendRole(p.loops, t), p.send.pcs[Tid(t)], a) && !SendRole(p.loops, t).Outside?
    requires Told(p.raw.s, Step(c.send, p.send, Tid(t), a).s, p.loops)
    ensures var r := SendStep(c, p, t, a); Told(r.raw.s, r.send.s, r.loops)
  {
    hide Step, Enabled, Does, Fits, Told, SendReturns, Good;
    var m := Step(c.send, p.send, Tid(t), a);
    OwnPlace(c.send, p.send, Tid(t), a, SendRole(p.loops, t));
    GoodIsFifo(c.send, p.send);
    EmptyMeansAllPopped(c.send, p.send.s);
    if m.pcs[Tid(t)].Idle? { SendReturnTells(p.raw.s, m.s, p.loops, t, m.pcs[Tid(t)].ok); }
    hide SendRole;
  }

  lemma GoodIsFifo(cap: nat, m: Monitor<int>)
    requires Good(cap, m)
    ensures IsFifo(cap, m.s)
  {
  }

  lemma EmptyMeansAllPopped(cap: nat, s: Shared<int>)
    ensures IsFifo(cap, s) && s.dropped == 0 && s.q == [] ==> |s.popped| == |s.accepted|
  {
    if IsFifo(cap, s) && s.dropped == 0 { NothingDropped(cap, s); }
  }

  /** What the loops have been told stays true while the queues move on. */
  lemma StaysTold(raw: Shared<int>, send: Shared<int>, l: Loops, raw2: Shared<int>, send2: Shared<int>)
    requires Told(raw, send, l)
    requires raw.closed ==> raw2.closed && (raw.q == [] ==> raw2.q == [])
    requires send.closed ==> send2.closed
    requires l.sender.SndChecks? || l.sender.SndDone? ==> send2.popped == send.popped
    ensures Told(raw2, send2, l)
  {
  }

  /** Steps inside a call. */
  lemma InsideKeeps(c: Sizes, p: Pipeline, e: Event)
    requires c.raw > 0 && c.send > 0 && Inv(c, p) && Possible(p, e) && !e.Works?
    ensures Inv(c, Next(c, p, e))
  {
    hide Enabled, Told, Good, Internal, Step;
    match e
    case OnRaw(t, a) => {
      NotOutside(p.raw, Tid(t), a, RawRole(p.loops, t));
      QueueStep(c.raw, p.raw, Tid(t), a, RawRole(p.loops, t));
      RawStepPlaces(c, p, t, a);
      StaysTold(p.raw.s, p.send.s, p.loops, Step(c.raw, p.raw, Tid(t), a).s, p.send.s);
      RawStepTells(c, p, t, a);
    }
    case OnSend(t, a) => {
      NotOutside(p.send, Tid(t), a, SendRole(p.loops, t));
      QueueStep(c.send, p.send, Tid(t), a, SendRole(p.loops, t));
      SendStepPlaces(c, p, t, a);
      PopsOnlyInPops(p.loops, t);
      StaysTold(p.raw.s, p.send.s, p.loops, p.raw.s, Step(c.send, p.send, Tid(t), a).s);
      SendStepTells(c, p, t, a);
    }
  }

  lemma NotOutside(m: Monitor<int>, n: nat, a: Action<int>, role: Role)
    requires Enabled(m, n, a) && InCall(a) && Fits(role, m.pcs[n])
    ensures Does(role, m.pcs[n], a) && !role.Outside?
  {
  }

  lemma PopsOnlyInPops(l: Loops, t: Thread)
    ensures SendRole(l, t).Popping? ==> l.sender.SndPops?
  {
  }

  /** A loop's own step changes only its own role, to that of the call it makes. */
  lemma WorkRoles(l: Loops, t: Thread, choice: Choice, closed: bool, pc: Pc<int>, u: Thread)
    requires CanWork(l, t, choice) && pc.Idle?
    ensures var (r, call) := Worked(l, t, choice, closed);
      && (u != t ==> RawRole(r, u) == RawRole(l, u) && SendRole(r, u) == SendRole(l, u))
      && (call.OnRawQueue? ==> Does(RawRole(r, t), pc, call.a) && !RawRole(r, t).Outside? && SendRole(r, t).Outside?)
      && (call.OnSendQueue? ==> Does(SendRole(r, t), pc, call.a) && !SendRole(r, t).Outside? && RawRole(r, t).Outside?)
      && (call.NoCall? ==> RawRole(r, t).Outside? && SendRole(r, t).Outside?)
  {
  }

  lemma WorkTells(raw: Shared<int>, send: Shared<int>, l: Loops, t: Thread, choice: Choice, raw2: Shared<int>, send2: Shared<int>)
    requires CanWork(l, t, choice) && Told(raw, send, l)
    requires raw.closed ==> raw2.closed && (raw.q == [] ==> raw2.q == [])
    requires send.closed ==> send2.closed
    requires Worked(l, t, choice, send.closed).1 == OnRawQueue(Close) ==> raw2.closed
    requires Worked(l, t, choice, send.closed).1 == OnSendQueue(Close) ==> send2.closed
    requires !SendRole(Worked(l, t, choice, send.closed).0, t).Popping? ==> send2.popped == send.popped
    ensures Told(raw2, send2, Worked(l, t, choice, send.closed).0)
  {
  }

  lemma WorkKeeps(c: Sizes, p: Pipeline, t: Thread, choice: Choice)
    requires c.raw > 0 && c.send > 0 && Inv(c, p) && Possible(p, Works(t, choice))
    ensures Inv(c, Next(c, p, Works(t, choice)))
  {
    hide Enabled, Told, Good, Internal, Step, CanWork, Worked, RawRole, SendRole, Does, RawReturns, SendReturns;
    var n := Tid(t);
    StartsAreEnabled(p, t, choice);
    var (l, call) := Worked(p.loops, t, choice, p.send.s.closed);
    var q := p.(loops := l);
    forall u
      ensures u != t ==> RawRole(l, u) == RawRole(p.loops, u) && SendRole(l, u) == SendRole(p.loops, u)
    {
      WorkRoles(p.loops, t, choice, p.send.s.closed, p.raw.pcs[n], u);
    }
    WorkRoles(p.loops, t, choice, p.send.s.closed, p.raw.pcs[n], t);
    WorkRoles(p.loops, t, choice, p.send.s.closed, p.send.pcs[n], t);
    assert PlacedBut(q, t);
    match call
    case NoCall => {
      WorkTells(p.raw.s, p.send.s, p.loops, t, choice, p.raw.s, p.send.s);
    }
    case OnRawQueue(a) => {
      QueueStep(c.raw, p.raw, n, a, RawRole(l, t));
      WorkTells(p.raw.s, p.send.s, p.loops, t, choice, Step(c.raw, p.raw, n, a).s, p.send.s);
      RawStepPlaces(c, q, t, a);
      RawStepTells(c, q, t, a);
    }
    case OnSendQueue(a) => {
      QueueStep(c.send, p.send, n, a, SendRole(l, t));
      WorkTells(p.raw.s, p.send.s, p.loops, t, choice, p.raw.s, Step(c.send, p.send, n, a).s);
      SendStepPlaces(c, q, t, a);
      SendStepTells(c, q, t, a);
    }
  }

  lemma NextKeeps(c: Sizes, p: Pipeline, e: Event)
    requires c.raw > 0 && c.send > 0 && Inv(c, p) && Possible(p, e)
    ensures Inv(c, Next(c, p, e))
  {
    hide Inv, Possible, Next;
    match e
    case Works(t, choice) => WorkKeeps(c, p, t, choice);
    case _ => InsideKeeps(c, p, e);
  }

  // ----- Runs -----

  ghost predicate Initially(p: Pipeline) {
    && HasThreads(p.raw) && Initial(p.raw) && HasThreads(p.send) && Initial(p.send)
    && p.loops == Loops(false, CapTop, EncTop, SndTop)
  }

  ghost predicate CanRun(c: Sizes, p: Pipeline, run: seq<Event>)
    requires c.raw > 0 && c.send > 0
    decreases |run|
  {
    run == [] || (Possible(p, run[0]) && CanRun(c, Next(c, p, run[0]), run[1..]))
  }

  function Ran(c: Sizes, p: Pipeline, run: seq<Event>): Pipeline
    requires c.raw > 0 && c.send > 0 && CanRun(c, p, run)
    decreases |run|
  {
    if run == [] then p else Ran(c, Next(c, p, run[0]), run[1..])
  }

  lemma {:induction false} RunKeepsInv(c: Sizes, p: Pipeline, run: seq<Event>)
    requires c.raw > 0 && c.send > 0 && Inv(c, p) && CanRun(c, p, run)
    ensures Inv(c, Ran(c, p, run))
    decreases |run|
  {
    hide Inv, Next, Possible;
    if run != [] {
      NextKeeps(c, p, run[0]);
      RunKeepsInv(c, Next(c, p, run[0]), run[1..]);
    }
  }

  lemma InitiallyInv(c: Sizes, p: Pipeline)
    requires c.raw > 0 && c.send > 0 && Initially(p)
    ensures Inv(c, p)
  {
    hide Good, HasThreads;
    InitialIsGood(c.raw, p.raw);
    InitialIsGood(c.send, p.send);
    ThreeThreads(p.raw);
    ThreeThreads(p.send);
  }

  // ----- Freedom from deadlock -----

  predicate Finished(l: Loops, t: Thread) {
    match t
    case Capturing => l.capture.CapDone?
    case Encoding => l.encode.EncDone?
    case Sending => l.sender.SndDone? || l.sender.SndFailed?
  }

  predicate Sleeps(pc: Pc<int>) {
    pc.PushAsleep? || pc.PopAsleep?
  }

  /** The send loop going round its timeout with nothing to send and no reason to stop. */
  predicate Polls(p: Pipeline)
    requires Tid(Sending) in p.send.pcs
  {
    && p.send.s.q == [] && !p.send.s.closed
    && (p.loops.sender.SndTop? || p.loops.sender.SndChecks? || p.loops.sender.SndPops?)
    && !p.send.pcs[Tid(Sending)].TellNotFull?
  }

  /** An unfinished thread that is neither asleep nor merely polling. */
  ghost predicate GetsOn(p: Pipeline, t: Thread)
    requires forall u: Thread :: Tid(u) in p.raw.pcs && Tid(u) in p.send.pcs
  {
    && !Finished(p.loops, t)
    && match t
       case Capturing => !Sleeps(p.raw.pcs[Tid(t)])
       case Encoding => !Sleeps(p.raw.pcs[Tid(t)]) && !Sleeps(p.send.pcs[Tid(t)])
       case Sending => !Polls(p)
  }

  /** In every reachable state some unfinished loop gets on, whatever fails and however the threads interleave. */
  lemma NoDeadlock(c: Sizes, start: Pipeline, run: seq<Event>, t: Thread)
    requires c.raw > 0 && c.send > 0 && Initially(start) && CanRun(c, start, run)
    requires !Finished(Ran(c, start, run).loops, t)
    ensures var p := Ran(c, start, run);
      && (forall u: Thread :: Tid(u) in p.raw.pcs && Tid(u) in p.send.pcs)
      && exists u: Thread :: GetsOn(p, u)
  {
    hide Ran, CanRun, Initially, Inv, GetsOn;
    InitiallyInv(c, start);
    RunKeepsInv(c, start, run);
    ThreadsAreThere(c, Ran(c, start, run));
    SomebodyGetsOn(c, Ran(c, start, run), t);
  }

  lemma ThreadsAreThere(c: Sizes, p: Pipeline)
    requires Inv(c, p)
    ensures forall u: Thread :: Tid(u) in p.raw.pcs && Tid(u) in p.send.pcs
  {
    hide Good, Told;
  }

  /** Where the three threads can be in either queue. */
  lemma WhereTheyAre(c: Sizes, p: Pipeline)
    requires Inv(c, p)
    ensures c.raw > 0 && c.send > 0
    ensures forall n :: n in p.raw.pcs || n in p.send.pcs ==> n == 0 || n == 1 || n == 2
    ensures forall n :: n == 0 || n == 1 || n == 2 ==> n in p.raw.pcs && n in p.send.pcs
    ensures Fits(RawRole(p.loops, Capturing), p.raw.pcs[0]) && Fits(SendRole(p.loops, Capturing), p.send.pcs[0])
    ensures Fits(RawRole(p.loops, Encoding), p.raw.pcs[1]) && Fits(SendRole(p.loops, Encoding), p.send.pcs[1])
    ensures Fits(RawRole(p.loops, Sending), p.raw.pcs[2]) && Fits(SendRole(p.loops, Sending), p.send.pcs[2])
  {
    hide Fits, RawRole, SendRole, Good, HasThreads, Told;
    ThreeThreads(p.raw);
    ThreeThreads(p.send);
    PositiveCaps(c, p);
    assert Tid(Capturing) == 0 && Tid(Encoding) == 1 && Tid(Sending) == 2;
  }

  lemma ThreeThreads(m: Monitor<int>)
    requires HasThreads(m)
    ensures forall n :: n in m.pcs <==> n == 0 || n == 1 || n == 2
  {
    assert forall n :: n in m.pcs <==> n in m.pcs.Keys;
  }

  lemma PositiveCaps(c: Sizes, p: Pipeline)
    requires Inv(c, p)
    ensures c.raw > 0 && c.send > 0
  {
  }

  lemma SomebodyGetsOn(c: Sizes, p: Pipeline, t: Thread)
    requires Inv(c, p) && !Finished(p.loops, t)
    requires forall u: Thread :: Tid(u) in p.raw.pcs && Tid(u) in p.send.pcs
    ensures exists u: Thread :: GetsOn(p, u)
  {
    hide Inv, GetsOn, Finished;
    if Finished(p.loops, Encoding) { AfterEncode(c, p, t); }
    else {
      EncodeGetsOnUnless(p);
      if Sleeps(p.raw.pcs[Tid(Encoding)]) { EncodeStarves(c, p); }
      else if Sleeps(p.send.pcs[Tid(Encoding)]) { EncodeIsBlocked(c, p); }
    }
    assert GetsOn(p, Capturing) || GetsOn(p, Encoding) || GetsOn(p, Sending);
  }

  lemma EncodeGetsOnUnless(p: Pipeline)
    requires forall u: Thread :: Tid(u) in p.raw.pcs && Tid(u) in p.send.pcs
    requires !Finished(p.loops, Encoding)
    ensures GetsOn(p, Encoding) || Sleeps(p.raw.pcs[Tid(Encoding)]) || Sleeps(p.send.pcs[Tid(Encoding)])
  {
  }

  /** The encode loop has finished: both queues are closed, nobody is stuck. */
  lemma AfterEncode(c: Sizes, p: Pipeline, t: Thread)
    requires Inv(c, p) && Finished(p.loops, Encoding) && !Finished(p.loops, t)
    requires forall u: Thread :: Tid(u) in p.raw.pcs && Tid(u) in p.send.pcs
    ensures GetsOn(p, Capturing) || GetsOn(p, Sending)
  {
    hide Good, Placed;
    WhereTheyAre(c, p);
    ProducerIsCovered(c.raw, p.raw, Tid(Capturing));
  }

  /** The encode loop sleeps on the raw-frame queue. */
  lemma EncodeStarves(c: Sizes, p: Pipeline)
    requires Inv(c, p) && !Finished(p.loops, Encoding)
    requires forall u: Thread :: Tid(u) in p.raw.pcs && Tid(u) in p.send.pcs
    requires Sleeps(p.raw.pcs[Tid(Encoding)])
    ensures GetsOn(p, Capturing) || GetsOn(p, Sending)
  {
    hide Good, Placed;
    WhereTheyAre(c, p);
    ConsumerIsCovered(c.raw, p.raw, Tid(Encoding));
    ProducerIsCovered(c.raw, p.raw, Tid(Capturing));
  }

  /** The encode loop sleeps on the send queue. */
  lemma EncodeIsBlocked(c: Sizes, p: Pipeline)
    requires Inv(c, p) && !Finished(p.loops, Encoding)
    requires forall u: Thread :: Tid(u) in p.raw.pcs && Tid(u) in p.send.pcs
    requires Sleeps(p.send.pcs[Tid(Encoding)])
    ensures GetsOn(p, Sending)
  {
    hide Good, Placed;
    WhereTheyAre(c, p);
    ProducerIsCovered(c.send, p.send, Tid(Encoding));
  }

  predicate By(e: Event, t: Thread) {
    e.t == t
  }

  /** Getting on means having a step to take. */
  lemma GettingOnIsAStep(c: Sizes, p: Pipeline, t: Thread) returns (e: Event)
    requires Inv(c, p) && forall u: Thread :: Tid(u) in p.raw.pcs && Tid(u) in p.send.pcs
    requires GetsOn(p, t)
    ensures Possible(p, e) && By(e, t)
  {
    hide Good, Told;
    var n := Tid(t);
    assert Fits(RawRole(p.loops, t), p.raw.pcs[n]) && Fits(SendRole(p.loops, t), p.send.pcs[n]);
    if !p.raw.pcs[n].Idle? {
      assert Busy(p.raw.pcs[n]);
      var a := UnlessQuietSomeStep(p.raw, n);
      e := OnRaw(t, a);
    } else if Busy(p.send.pcs[n]) {
      var a := UnlessQuietSomeStep(p.send, n);
      e := OnSend(t, a);
    } else if !p.send.pcs[n].Idle? {
      e := OnSend(t, PopTimesOut);
      assert Enabled(p.send, n, PopTimesOut);
    } else {
      var choice := AChoice(p.loops, t);
      e := Works(t, choice);
    }
  }

  lemma AChoice(l: Loops, t: Thread) returns (choice: Choice)
    requires !Finished(l, t) && RawRole(l, t).Outside? && SendRole(l, t).Outside?
    ensures CanWork(l, t, choice)
  {
    choice := if CanWork(l, t, Go) then Go else Fail;
  }

  // ----- Every captured frame is encoded -----

  /** However the run went, the encode loop has popped the captured frames in order, with nothing lost on the way;
      if it finished and no stage failed, it has popped every one of them. */
  lemma EveryFrameIsEncoded(c: Sizes, start: Pipeline, run: seq<Event>)
    requires c.raw > 0 && c.send > 0 && Initially(start) && CanRun(c, start, run)
    ensures var p := Ran(c, start, run);
      && p.raw.s.popped + p.raw.s.q == p.raw.s.accepted
      && (p.loops.encode.EncDone? && !p.loops.abort ==> p.raw.s.popped == p.raw.s.accepted && p.raw.s.closed)
  {
    InitiallyInv(c, start);
    RunKeepsInv(c, start, run);
    hide Ran, CanRun, Good, Initially;
    var p := Ran(c, start, run);
    GoodIsFifo(c.raw, p.raw);
    NothingDropped(c.raw, p.raw.s);
  }

  /** The send loop's `popFor` and `isClosed` are two looks at the queue. When the loop ends without failing, it has
      sent exactly the frames accepted before its last unsuccessful `popFor`; so it has sent every accepted frame
      if and only if none was accepted between that look and the `isClosed` after it. */
  lemma WhatTheSenderLeaves(c: Sizes, start: Pipeline, run: seq<Event>)
    requires c.raw > 0 && c.send > 0 && Initially(start) && CanRun(c, start, run)
    requires Ran(c, start, run).loops.sender.SndDone?
    ensures var p := Ran(c, start, run); var seen := p.loops.sender.seen;
      && p.send.s.closed && seen <= |p.send.s.accepted|
      && p.send.s.popped == p.send.s.accepted[..seen] && p.send.s.q == p.send.s.accepted[seen..]
      && (p.send.s.popped == p.send.s.accepted <==> seen == |p.send.s.accepted|)
  {
    InitiallyInv(c, start);
    RunKeepsInv(c, start, run);
    hide Ran, CanRun, Good, Initially;
    var p := Ran(c, start, run);
    GoodIsFifo(c.send, p.send);
    NothingDropped(c.send, p.send.s);
  }

  lemma {:induction false} OneMoreStep(c: Sizes, p: Pipeline, run: seq<Event>, e: Event)
    requires c.raw > 0 && c.send > 0 && CanRun(c, p, run) && Possible(Ran(c, p, run), e)
    ensures CanRun(c, p, run + [e]) && Ran(c, p, run + [e]) == Next(c, Ran(c, p, run), e)
    decreases |run|
  {
    hide Possible, Next;
    var all := run + [e];
    if run == [] {
      assert all[1..] == [];
    } else {
      assert all[0] == run[0] && all[1..] == run[1..] + [e];
      OneMoreStep(c, Next(c, p, run[0]), run[1..], e);
    }
  }

  /** A queue nobody waits in, with the three threads as given. */
  function Plain(s: Shared<int>, capture: Pc<int>, encode: Pc<int>, sender: Pc<int>): Monitor<int> {
    Monitor(s, map[0 := capture, 1 := encode, 2 := sender])
  }

  const EMPTY: Shared<int> := Fresh()
  const SHUT: Shared<int> := Fresh().(closed := true)
  const ONE: Shared<int> := Shared([7], 1, 0, false, [7], [], [])

  function Beginning(): Pipeline {
    var idle := Plain(EMPTY, Idle(true), Idle(true), Idle(true));
    Pipeline(idle, idle, Loops(false, CapTop, EncTop, SndTop))
  }

  /** The run that leaves a frame behind, in the order things happen. */
  function LateFrame(): seq<Event> {
    [Works(Capturing, Fail), Works(Capturing, Go), Works(Encoding, Go), Works(Encoding, Out([7])),
     Works(Sending, Go), OnSend(Sending, PopTimesOut), OnSend(Sending, PopLateReturns),
     Works(Encoding, Go), OnSend(Encoding, Tells(0)), Works(Encoding, Go),
     Works(Encoding, Go), OnRaw(Encoding, TellsAll), OnRaw(Encoding, TellsAll), Works(Encoding, Go),
     Works(Sending, Go)]
  }

  /** The state after the first `n` of these events. */
  function Stage(n: nat): Pipeline
    requires n <= 15
  {
    var ok, no := Idle(true), Idle(false);
    var calm := Plain(EMPTY, ok, ok, ok);
    var closing := CloseTellsFull;
    if n == 0 then Beginning()
    else if n == 1 then Pipeline(calm, calm, Loops(false, CapStops, EncTop, SndTop))
    else
      var raw := if n == 2 then Plain(SHUT, closing, ok, ok)
                 else if n <= 10 then Plain(SHUT, closing, no, ok)
                 else if n == 11 then Plain(SHUT, closing, closing, ok)
                 else if n == 12 then Plain(SHUT, closing, CloseTellsEmpty, ok)
                 else Plain(SHUT, closing, ok, ok);
      var send := if n <= 4 then calm
                  else if n == 5 then Plain(EMPTY, ok, ok, PopAsleep(true))
                  else if n == 6 then Plain(EMPTY, ok, ok, PopLate)
                  else if n == 7 then Plain(EMPTY, ok, ok, no)
                  else if n == 8 then Plain(ONE, ok, TellNotEmpty, no)
                  else if n <= 13 then Plain(ONE, ok, ok, no)
                  else Plain(ONE.(closed := true), ok, closing, no);
      var encode := if n == 2 then EncTop
                    else if n == 3 then EncFlushes
                    else if n <= 7 then EncHolds([7], true)
                    else if n == 8 then EncPushes([], true)
                    else if n == 9 then EncHolds([], true)
                    else if n == 10 then EncStops(true)
                    else if n <= 12 then EncClosesRaw(true)
                    else if n == 13 then EncStopsSend(true)
                    else EncClosesSend(true);
      var sender := if n <= 4 then SndTop else if n <= 6 then SndPops else if n <= 14 then SndChecks(0) else SndDone(0);
      Pipeline(raw, send, Loops(false, CapCloses, encode, sender))
  }

  lemma StageStep(n: nat)
    requires n < 15
    ensures Possible(Stage(n), LateFrame()[n]) && Next(Sizes(1, 1), Stage(n), LateFrame()[n]) == Stage(n + 1)
  {
    hide Next, Stage, Possible, LateFrame;
    if n < 4 { CaptureQuits(n); }
    else if n < 7 { SenderLooks(n); }
    else if n < 8 { FrameIsPushed(n); }
    else if n < 10 { FrameIsQueued(n); }
    else if n < 11 { RawIsClosed(n); }
    else if n < 13 { RawIsTold(n); }
    else { SendIsClosed(n); }
  }

  lemma CaptureQuits(n: nat)
    requires 0 <= n < 4
    ensures Possible(Stage(n), LateFrame()[n]) && Next(Sizes(1, 1), Stage(n), LateFrame()[n]) == Stage(n + 1)
  {
    hide WakeAll, Nobody;
  }

  lemma SenderLooks(n: nat)
    requires 4 <= n < 7
    ensures Possible(Stage(n), LateFrame()[n]) && Next(Sizes(1, 1), Stage(n), LateFrame()[n]) == Stage(n + 1)
  {
    hide WakeAll, Nobody;
  }

  lemma FrameIsPushed(n: nat)
    requires 7 <= n < 8
    ensures Possible(Stage(n), LateFrame()[n]) && Next(Sizes(1, 1), Stage(n), LateFrame()[n]) == Stage(n + 1)
  {
    hide WakeAll, Nobody;
    var none: seq<int> := [];
    assert none + [7] == [7] && [7][1..] == none;
    assert Enqueue(EMPTY, 7) == ONE;
  }

  lemma FrameIsQueued(n: nat)
    requires 8 <= n < 10
    ensures Possible(Stage(n), LateFrame()[n]) && Next(Sizes(1, 1), Stage(n), LateFrame()[n]) == Stage(n + 1)
  {
    hide WakeAll;
  }

  lemma RawIsClosed(n: nat)
    requires 10 <= n < 11
    ensures Possible(Stage(n), LateFrame()[n]) && Next(Sizes(1, 1), Stage(n), LateFrame()[n]) == Stage(n + 1)
  {
    hide WakeAll, Nobody;
  }

  lemma RawIsTold(n: nat)
    requires 11 <= n < 13
    ensures Possible(Stage(n), LateFrame()[n]) && Next(Sizes(1, 1), Stage(n), LateFrame()[n]) == Stage(n + 1)
  {
    hide Nobody;
  }

  lemma SendIsClosed(n: nat)
    requires 13 <= n < 15
    ensures Possible(Stage(n), LateFrame()[n]) && Next(Sizes(1, 1), Stage(n), LateFrame()[n]) == Stage(n + 1)
  {
    hide WakeAll, Nobody;
  }

  lemma {:induction false} StagesAreReached(n: nat)
    requires n <= 15
    ensures CanRun(Sizes(1, 1), Beginning(), LateFrame()[..n])
    ensures Ran(Sizes(1, 1), Beginning(), LateFrame()[..n]) == Stage(n)
  {
    hide Next, Possible, LateFrame;
    var run := LateFrame();
    FifteenEvents();
    if n != 0 {
      StagesAreReached(n - 1);
      StageStep(n - 1);
      OneMoreStep(Sizes(1, 1), Beginning(), run[..n - 1], run[n - 1]);
      assert run[..n] == run[..n - 1] + [run[n - 1]];
    }
  }

  lemma FifteenEvents()
    ensures |LateFrame()| == 15
  {
  }

  /** It does happen: no stage fails, and the send loop ends with an accepted frame still in its queue. */
  lemma AFrameCanBeLeftBehind()
    ensures Initially(Beginning()) && CanRun(Sizes(1, 1), Beginning(), LateFrame())
    ensures var p := Ran(Sizes(1, 1), Beginning(), LateFrame());
      p.loops.sender.SndDone? && !p.loops.abort && p.loops.encode == EncClosesSend(true)
      && p.send.s.accepted == [7] && p.send.s.popped == []
  {
    hide Ran, CanRun, Initially, LateFrame, Next;
    FifteenEvents();
    assert LateFrame()[..15] == LateFrame();
    StagesAreReached(15);
    BeginningIsInitial();
  }

  lemma BeginningIsInitial()
    ensures Initially(Beginning())
  {
    assert Beginning().raw.pcs.Keys == {0, 1, 2};
  }
}

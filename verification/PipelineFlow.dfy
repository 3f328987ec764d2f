/**
 What flows through the sender: from the camera through the raw-frame queue, the encoder
 and the send queue to the socket, each loop hands on exactly what it was given, in
 order; and each loop ends for a reason, and then in order.
 */
module PipelineFlow {
  import opened BoundedQueue
  import opened QueueMonitor
  import opened SenderPipeline

  /** What the stages have been asked and have answered: frames read, frames the encoder put out, calls of the
      encoder for a frame, frames handed to the socket; whether reading has ended, encoding or sending has failed;
      whether the encoder was flushed. */
  datatype Log = Log(captured: seq<int>, outs: seq<int>, encodes: nat, sends: nat,
                     captureEnded: bool, encodeFailed: bool, sendFailed: bool, flushed: bool)

  const NOTHING: Log := Log([], [], 0, 0, false, false, false, false)

  function Logged(g: Log, l: Loops, e: Event): Log {
    match e
    case Works(Capturing, choice) =>
      g.(captured := g.captured + if choice.Read? then [choice.x] else [], captureEnded := g.captureEnded || choice.Fail?)
    case Works(Encoding, choice) =>
      g.(encodes := g.encodes + if l.encode.EncHas? then 1 else 0,
         outs := g.outs + if choice.Out? then choice.frames else [],
         flushed := g.flushed || (l.encode.EncFlushes? && choice.Out?),
         encodeFailed := g.encodeFailed || choice.Fail?)
    case Works(Sending, choice) =>
      g.(sends := g.sends + if l.sender.SndHas? then 1 else 0, sendFailed := g.sendFailed || choice.Fail?)
    case _ => g
  }

  function LogOf(c: Sizes, p: Pipeline, run: seq<Event>, g: Log): Log
    requires c.raw > 0 && c.send > 0 && CanRun(c, p, run)
    decreases |run|
  {
    if run == [] then g else LogOf(c, Next(c, p, run[0]), run[1..], Logged(g, p.loops, run[0]))
  }

  // ----- What a thread inside a queue call has in its hands -----

  /** The element a pushing thread has not got in yet. */
  function InHand(pc: Pc<int>): seq<int> {
    if pc.PushAsleep? || pc.PushAwake? then [pc.x] else []
  }

  /** 1 if a popping thread has an element it has not returned with. */
  function Taken(pc: Pc<int>): nat {
    if pc.TellNotFull? then 1 else 0
  }

  // ----- The invariant, loop by loop -----

  /** What was read has been pushed, but for the frame in hand; the loop is left when reading fails or ends, or when
      the queue, closed, refuses a frame. */
  ghost predicate CaptureFlows(s: Shared<int>, pc: Pc<int>, l: Capture, g: Log) {
    match l
    case CapTop => g.captured == s.accepted && !g.captureEnded
    case CapHolds(x) => g.captured == s.accepted + [x] && !g.captureEnded
    case CapPushes => g.captured == s.accepted + InHand(pc) && !g.captureEnded
    case _ => if g.captureEnded then g.captured == s.accepted
              else s.closed && |g.captured| == |s.accepted| + 1 && s.accepted <= g.captured
  }

  predicate EncodeGaveUp(l: Encode) {
    l.EncFails? || ((l.EncStops? || l.EncClosesRaw? || l.EncStopsSend? || l.EncClosesSend? || l.EncDone?) && !l.drained)
  }

  /** Every frame popped is given to the encoder, once. */
  ghost predicate EncodeTakes(s: Shared<int>, pc: Pc<int>, l: Encode, g: Log) {
    |s.popped| == g.encodes + if l.EncHas? then 1 else if l.EncPops? then Taken(pc) else 0
  }

  /** What the encoder put out has been pushed, but for what is left of its last answer; unless the loop gave up,
      because a stage failed or the queue, closed, refused a frame. It stops of itself only after flushing. */
  ghost predicate EncodeFlows(s: Shared<int>, pc: Pc<int>, l: Encode, g: Log) {
    && (EncodeGaveUp(l) ==> s.accepted <= g.outs && (g.encodeFailed || (s.closed && |g.outs| > |s.accepted|)))
    && (!EncodeGaveUp(l) ==> !g.encodeFailed
                             && g.outs == s.accepted + match l
                                                       case EncHolds(out, _) => out
                                                       case EncPushes(rest, _) => InHand(pc) + rest
                                                       case _ => [])
    && (l.EncTop? || l.EncPops? || l.EncHas? || l.EncFlushes? ==> !g.flushed)
    && (l.EncHolds? || l.EncPushes? ==> g.flushed == l.last)
    && ((l.EncStops? || l.EncClosesRaw? || l.EncStopsSend? || l.EncClosesSend? || l.EncDone?) && l.drained ==> g.flushed)
  }

  predicate SendGaveUp(l: Send) {
    l.SndFails? || l.SndStops? || SendStopped(l)
  }

  /** Every frame popped is sent, once; the loop gives up exactly when that fails. */
  ghost predicate SendFlows(s: Shared<int>, pc: Pc<int>, l: Send, g: Log) {
    && |s.popped| == g.sends + (if l.SndHas? then 1 else if l.SndPops? then Taken(pc) else 0)
    && (g.sendFailed <==> SendGaveUp(l))
  }

  /** The abort flag is raised by exactly the loops that gave up, once they get to it. */
  ghost predicate AbortIs(l: Loops) {
    l.abort <==> (EncodeGaveUp(l.encode) && !l.encode.EncFails?) || (SendGaveUp(l.sender) && !l.sender.SndFails?)
  }

  ghost predicate Flows(p: Pipeline, g: Log)
    requires HasThreads(p.raw) && HasThreads(p.send)
  {
    && CaptureFlows(p.raw.s, p.raw.pcs[Tid(Capturing)], p.loops.capture, g)
    && EncodeTakes(p.raw.s, p.raw.pcs[Tid(Encoding)], p.loops.encode, g)
    && EncodeFlows(p.send.s, p.send.pcs[Tid(Encoding)], p.loops.encode, g)
    && SendFlows(p.send.s, p.send.pcs[Tid(Sending)], p.loops.sender, g)
    && AbortIs(p.loops)
  }

  // ----- One queue step -----

  /** The thread that takes the step. */
  lemma OwnHands(cap: nat, m: Monitor<int>, t: nat, a: Action<int>, role: Role)
    requires cap > 0 && Enabled(m, t, a) && Does(role, m.pcs[t], a)
    ensures t in Step(cap, m, t, a).pcs
    ensures var r := Step(cap, m, t, a); var pc := r.pcs[t];
      && (role.Pushing? && pc != Idle(false) ==>
            r.s.accepted + InHand(pc) == m.s.accepted + if a.PushEnters? then [a.x] else InHand(m.pcs[t]))
      && (role.Pushing? && pc == Idle(false) ==>
            m.s.closed && r.s.accepted == m.s.accepted && (a.PushEnters? || InHand(m.pcs[t]) != []))
      && (role.Pushing? && pc == Idle(true) ==> InHand(m.pcs[t]) == [] && !a.PushEnters?)
      && (role.Popping? ==> |r.s.popped| - (if pc == Idle(true) then 1 else Taken(pc)) == |m.s.popped| - Taken(m.pcs[t]))
      && (!role.Popping? ==> r.s.popped == m.s.popped)
      && (!role.Pushing? ==> r.s.accepted == m.s.accepted)
      && (m.s.closed ==> r.s.closed)
  {
    hide WakeAll, Nobody, IsFifo;
  }

  /** The others keep what they have. */
  lemma OthersHands(cap: nat, m: Monitor<int>, t: nat, a: Action<int>, u: nat)
    requires cap > 0 && Enabled(m, t, a) && u != t && u in m.pcs
    ensures u in Step(cap, m, t, a).pcs
    ensures InHand(Step(cap, m, t, a).pcs[u]) == InHand(m.pcs[u]) && Taken(Step(cap, m, t, a).pcs[u]) == Taken(m.pcs[u])
  {
    hide Locked, Nobody;
  }

  /** A step of the capture loop in the raw-frame queue. */
  lemma CaptureMoves(cap: nat, m: Monitor<int>, a: Action<int>, l: Loops, g: Log)
    requires cap > 0 && HasThreads(m) && Enabled(m, Tid(Capturing), a) && Does(RawRole(l, Capturing), m.pcs[Tid(Capturing)], a)
    requires !RawRole(l, Capturing).Outside?
    requires l.capture.CapPushes? ==>
      !g.captureEnded && g.captured == m.s.accepted + if a.PushEnters? then [a.x] else InHand(m.pcs[Tid(Capturing)])
    requires l.capture.CapCloses? ==> CaptureFlows(m.s, m.pcs[Tid(Capturing)], l.capture, g)
    ensures Tid(Capturing) in Step(cap, m, Tid(Capturing), a).pcs
    ensures var r := Step(cap, m, Tid(Capturing), a); var pc := r.pcs[Tid(Capturing)];
      var after := if pc.Idle? then RawReturns(l, Capturing, pc.ok) else l;
      CaptureFlows(r.s, pc, after.capture, g)
  {
    hide Step, Enabled, Does;
    OwnHands(cap, m, Tid(Capturing), a, RawRole(l, Capturing));
    OwnPlace(cap, m, Tid(Capturing), a, RawRole(l, Capturing));
  }

  /** A step of the encode loop in the raw-frame queue. */
  lemma EncodeMovesRaw(cap: nat, m: Monitor<int>, a: Action<int>, l: Loops, g: Log)
    requires cap > 0 && HasThreads(m) && Enabled(m, Tid(Encoding), a) && Does(RawRole(l, Encoding), m.pcs[Tid(Encoding)], a)
    requires !RawRole(l, Encoding).Outside?
    requires |m.s.popped| == g.encodes + if l.encode.EncPops? then Taken(m.pcs[Tid(Encoding)]) else 0
    ensures Tid(Encoding) in Step(cap, m, Tid(Encoding), a).pcs
    ensures var r := Step(cap, m, Tid(Encoding), a); var pc := r.pcs[Tid(Encoding)];
      var after := if pc.Idle? then RawReturns(l, Encoding, pc.ok) else l;
      EncodeTakes(r.s, pc, after.encode, g)
  {
    hide Step, Enabled, Does;
    OwnHands(cap, m, Tid(Encoding), a, RawRole(l, Encoding));
    OwnPlace(cap, m, Tid(Encoding), a, RawRole(l, Encoding));
  }

  /** ... and what it does to its bookkeeping of the send queue. */
  lemma EncodeReturnsFromRaw(s: Shared<int>, pc: Pc<int>, l: Loops, g: Log, ok: bool)
    requires !RawRole(l, Encoding).Outside? && EncodeFlows(s, pc, l.encode, g)
    ensures EncodeFlows(s, pc, RawReturns(l, Encoding, ok).encode, g)
  {
  }

  /** A step of the encode loop in the send queue. */
  lemma EncodeMovesSend(cap: nat, m: Monitor<int>, a: Action<int>, l: Loops, g: Log, n: nat)
    requires cap > 0 && HasThreads(m) && Enabled(m, Tid(Encoding), a) && Does(SendRole(l, Encoding), m.pcs[Tid(Encoding)], a)
    requires !SendRole(l, Encoding).Outside?
    requires l.encode.EncPushes? ==>
      !g.encodeFailed && g.flushed == l.encode.last
      && g.outs == m.s.accepted + (if a.PushEnters? then [a.x] else InHand(m.pcs[Tid(Encoding)])) + l.encode.rest
    requires l.encode.EncClosesSend? ==> EncodeFlows(m.s, m.pcs[Tid(Encoding)], l.encode, g)
    ensures Tid(Encoding) in Step(cap, m, Tid(Encoding), a).pcs
    ensures var r := Step(cap, m, Tid(Encoding), a); var pc := r.pcs[Tid(Encoding)];
      var after := if pc.Idle? then SendReturns(l, Encoding, pc.ok, n) else l;
      EncodeFlows(r.s, pc, after.encode, g)
  {
    hide Step, Enabled, Does;
    OwnHands(cap, m, Tid(Encoding), a, SendRole(l, Encoding));
    OwnPlace(cap, m, Tid(Encoding), a, SendRole(l, Encoding));
  }

  /** A step of the send loop in the send queue. */
  lemma SendMoves(cap: nat, m: Monitor<int>, a: Action<int>, l: Loops, g: Log, n: nat)
    requires cap > 0 && HasThreads(m) && Enabled(m, Tid(Sending), a) && Does(SendRole(l, Sending), m.pcs[Tid(Sending)], a)
    requires !SendRole(l, Sending).Outside?
    requires |m.s.popped| == g.sends + if l.sender.SndPops? then Taken(m.pcs[Tid(Sending)]) else 0
    requires g.sendFailed <==> SendGaveUp(l.sender)
    ensures Tid(Sending) in Step(cap, m, Tid(Sending), a).pcs
    ensures var r := Step(cap, m, Tid(Sending), a); var pc := r.pcs[Tid(Sending)];
      var after := if pc.Idle? then SendReturns(l, Sending, pc.ok, n) else l;
      SendFlows(r.s, pc, after.sender, g)
  {
    hide Step, Enabled, Does;
    OwnHands(cap, m, Tid(Sending), a, SendRole(l, Sending));
    OwnPlace(cap, m, Tid(Sending), a, SendRole(l, Sending));
  }

  // ----- One step in a queue keeps the flow -----

  /** Thread `t`, in its role in the raw-frame queue, is about to take step `a` there. */
  ghost predicate ReadyInRaw(p: Pipeline, t: Thread, a: Action<int>, g: Log)
    requires HasThreads(p.raw) && HasThreads(p.send)
  {
    var l, s := p.loops, p.raw.s;
    && !RawRole(l, t).Outside? && Does(RawRole(l, t), p.raw.pcs[Tid(t)], a)
    && (l.capture.CapPushes? && t.Capturing? ==>
          !g.captureEnded && g.captured == s.accepted + if a.PushEnters? then [a.x] else InHand(p.raw.pcs[Tid(Capturing)]))
    && ((l.capture.CapPushes? && t.Capturing?) || CaptureFlows(s, p.raw.pcs[Tid(Capturing)], l.capture, g))
    && EncodeTakes(s, p.raw.pcs[Tid(Encoding)], l.encode, g)
    && EncodeFlows(p.send.s, p.send.pcs[Tid(Encoding)], l.encode, g)
    && SendFlows(p.send.s, p.send.pcs[Tid(Sending)], l.sender, g)
    && AbortIs(l)
  }

  lemma RawKeepsFlow(c: Sizes, p: Pipeline, t: Thread, a: Action<int>, g: Log)
    requires c.raw > 0 && HasThreads(p.raw) && HasThreads(p.send) && Enabled(p.raw, Tid(t), a) && ReadyInRaw(p, t, a, g)
    ensures HasThreads(RawStep(c, p, t, a).raw) && Flows(RawStep(c, p, t, a), g)
  {
    hide Step, Enabled, Does;
    var m, l := Step(c.raw, p.raw, Tid(t), a), p.loops;
    StepShared(c.raw, p.raw, Tid(t), a);
    OwnHands(c.raw, p.raw, Tid(t), a, RawRole(l, t));
    if !t.Capturing? { OthersHands(c.raw, p.raw, Tid(t), a, Tid(Capturing)); }
    if !t.Encoding? { OthersHands(c.raw, p.raw, Tid(t), a, Tid(Encoding)); }
    match t
    case Capturing => CaptureMoves(c.raw, p.raw, a, l, g);
    case Encoding =>
      EncodeMovesRaw(c.raw, p.raw, a, l, g);
      EncodeReturnsFromRaw(p.send.s, p.send.pcs[Tid(Encoding)], l, g, m.pcs[Tid(t)].Idle? && m.pcs[Tid(t)].ok);
    case Sending =>
  }

  /** The same for the send queue. */
  ghost predicate ReadyInSend(p: Pipeline, t: Thread, a: Action<int>, g: Log)
    requires HasThreads(p.raw) && HasThreads(p.send)
  {
    var l, s := p.loops, p.send.s;
    && !SendRole(l, t).Outside? && Does(SendRole(l, t), p.send.pcs[Tid(t)], a)
    && CaptureFlows(p.raw.s, p.raw.pcs[Tid(Capturing)], l.capture, g)
    && EncodeTakes(p.raw.s, p.raw.pcs[Tid(Encoding)], l.encode, g)
    && (l.encode.EncPushes? && t.Encoding? ==>
          !g.encodeFailed && g.flushed == l.encode.last
          && g.outs == s.accepted + (if a.PushEnters? then [a.x] else InHand(p.send.pcs[Tid(Encoding)])) + l.encode.rest)
    && ((l.encode.EncPushes? && t.Encoding?) || EncodeFlows(s, p.send.pcs[Tid(Encoding)], l.encode, g))
    && SendFlows(s, p.send.pcs[Tid(Sending)], l.sender, g)
    && AbortIs(l)
  }

  lemma SendKeepsFlow(c: Sizes, p: Pipeline, t: Thread, a: Action<int>, g: Log)
    requires c.send > 0 && HasThreads(p.raw) && HasThreads(p.send) && Enabled(p.send, Tid(t), a) && ReadyInSend(p, t, a, g)
    ensures HasThreads(SendStep(c, p, t, a).send) && Flows(SendStep(c, p, t, a), g)
  {
    hide Step, Enabled, Does;
    var m, l := Step(c.send, p.send, Tid(t), a), p.loops;
    StepShared(c.send, p.send, Tid(t), a);
    OwnHands(c.send, p.send, Tid(t), a, SendRole(l, t));
    if !t.Sending? { OthersHands(c.send, p.send, Tid(t), a, Tid(Sending)); }
    if !t.Encoding? { OthersHands(c.send, p.send, Tid(t), a, Tid(Encoding)); }
    match t
    case Capturing =>
    case Encoding => EncodeMovesSend(c.send, p.send, a, l, g, |m.s.accepted|);
    case Sending => SendMoves(c.send, p.send, a, l, g, |m.s.accepted|);
  }

  // ----- Every step keeps the flow -----

  /** Steps inside a call. */
  lemma InsideFlows(c: Sizes, p: Pipeline, e: Event, g: Log)
    requires c.raw > 0 && c.send > 0 && Inv(c, p) && Possible(p, e) && !e.Works?
    requires Flows(p, g)
    ensures var r := Next(c, p, e); HasThreads(r.raw) && HasThreads(r.send) && Flows(r, g)
  {
    hide Enabled, Told, Good, Internal, Step, CaptureFlows, EncodeTakes, EncodeFlows, SendFlows, AbortIs;
    match e
    case OnRaw(t, a) => {
      NotOutside(p.raw, Tid(t), a, RawRole(p.loops, t));
      InCallPushes(p.raw, Tid(t), a);
      CaptureInCall(p.raw.s, p.raw.pcs[Tid(Capturing)], p.loops, g);
      RawKeepsFlow(c, p, t, a, g);
    }
    case OnSend(t, a) => {
      NotOutside(p.send, Tid(t), a, SendRole(p.loops, t));
      InCallPushes(p.send, Tid(t), a);
      EncodeInCall(p.send.s, p.send.pcs[Tid(Encoding)], p.loops, g);
      SendKeepsFlow(c, p, t, a, g);
    }
  }

  /** Going on with a call is not starting one. */
  lemma InCallPushes(m: Monitor<int>, n: nat, a: Action<int>)
    requires InCall(a)
    ensures !a.PushEnters?
  {
  }

  lemma CaptureInCall(s: Shared<int>, pc: Pc<int>, l: Loops, g: Log)
    requires CaptureFlows(s, pc, l.capture, g)
    ensures l.capture.CapPushes? ==> !g.captureEnded && g.captured == s.accepted + InHand(pc)
  {
  }

  lemma EncodeInCall(s: Shared<int>, pc: Pc<int>, l: Loops, g: Log)
    requires EncodeFlows(s, pc, l.encode, g)
    ensures l.encode.EncPushes? ==>
              !g.encodeFailed && g.flushed == l.encode.last && g.outs == s.accepted + InHand(pc) + l.encode.rest
  {
    if l.encode.EncPushes? {
      assert s.accepted + (InHand(pc) + l.encode.rest) == s.accepted + InHand(pc) + l.encode.rest;
    }
  }

  /** What a loop's own step does to the flow, before the queue call it makes, if any. */
  lemma CaptureWorksFlows(s: Shared<int>, pc: Pc<int>, l: Loops, choice: Choice, closed: bool, g: Log)
    requires CanWork(l, Capturing, choice) && pc.Idle? && CaptureFlows(s, pc, l.capture, g) && AbortIs(l)
    ensures var (r, call) := Worked(l, Capturing, choice, closed); var h := Logged(g, l, Works(Capturing, choice));
      && r == l.(capture := r.capture) && AbortIs(r)
      && h == g.(captured := h.captured, captureEnded := h.captureEnded)
      && !call.OnSendQueue?
      && (!call.OnRawQueue? ==> CaptureFlows(s, pc, r.capture, h))
      && (call.OnRawQueue? && r.capture.CapPushes? ==>
            call.a.PushEnters? && !h.captureEnded && h.captured == s.accepted + [call.a.x])
      && (call.OnRawQueue? && !r.capture.CapPushes? ==> CaptureFlows(s, pc, r.capture, h))
  {
  }

  lemma EncodeWorksFlows(raw: Shared<int>, send: Shared<int>, rawPc: Pc<int>, sendPc: Pc<int>, l: Loops, choice: Choice, closed: bool, g: Log)
    requires CanWork(l, Encoding, choice) && rawPc.Idle? && sendPc.Idle?
    requires EncodeTakes(raw, rawPc, l.encode, g) && EncodeFlows(send, sendPc, l.encode, g) && AbortIs(l)
    ensures var (r, call) := Worked(l, Encoding, choice, closed); var h := Logged(g, l, Works(Encoding, choice));
      && r == l.(encode := r.encode, abort := r.abort)
      && h == g.(encodes := h.encodes, outs := h.outs, flushed := h.flushed, encodeFailed := h.encodeFailed)
      && AbortIs(r) && EncodeTakes(raw, rawPc, r.encode, h)
      && (r.encode.EncPushes? ==>
            call.OnSendQueue? && call.a.PushEnters? && !h.encodeFailed && h.flushed == r.encode.last
            && h.outs == send.accepted + [call.a.x] + r.encode.rest)
      && (!r.encode.EncPushes? ==> EncodeFlows(send, sendPc, r.encode, h))
  {
    if l.encode.EncHolds? && choice.Go? && l.encode.out != [] {
      assert l.encode.out == [l.encode.out[0]] + l.encode.out[1..];
      assert send.accepted + ([l.encode.out[0]] + l.encode.out[1..]) == send.accepted + [l.encode.out[0]] + l.encode.out[1..];
    }
  }

  lemma SendWorksFlows(send: Shared<int>, pc: Pc<int>, l: Loops, choice: Choice, closed: bool, g: Log)
    requires CanWork(l, Sending, choice) && pc.Idle? && SendFlows(send, pc, l.sender, g) && AbortIs(l)
    ensures var (r, call) := Worked(l, Sending, choice, closed); var h := Logged(g, l, Works(Sending, choice));
      && r == l.(sender := r.sender, abort := r.abort)
      && h == g.(sends := h.sends, sendFailed := h.sendFailed)
      && AbortIs(r) && SendFlows(send, pc, r.sender, h)
  {
  }

  /** The steps the loops take themselves. */
  lemma WorkFlows(c: Sizes, p: Pipeline, t: Thread, choice: Choice, g: Log)
    requires c.raw > 0 && c.send > 0 && Inv(c, p) && Possible(p, Works(t, choice)) && Flows(p, g)
    ensures var r := Next(c, p, Works(t, choice));
      HasThreads(r.raw) && HasThreads(r.send) && Flows(r, Logged(g, p.loops, Works(t, choice)))
  {
    hide Enabled, Told, Good, Internal, Step, CanWork, Worked, RawRole, SendRole, Does, Logged, AbortIs;
    StartsAreEnabled(p, t, choice);
    var (l, call) := Worked(p.loops, t, choice, p.send.s.closed);
    var h, q := Logged(g, p.loops, Works(t, choice)), p.(loops := l);
    WorkRoles(p.loops, t, choice, p.send.s.closed, p.raw.pcs[Tid(t)], t);
    WorkRoles(p.loops, t, choice, p.send.s.closed, p.send.pcs[Tid(t)], t);
    match t {
      case Capturing => CaptureWorksFlows(p.raw.s, p.raw.pcs[Tid(t)], p.loops, choice, p.send.s.closed, g);
      case Encoding =>
        EncodeWorksFlows(p.raw.s, p.send.s, p.raw.pcs[Tid(t)], p.send.pcs[Tid(t)], p.loops, choice, p.send.s.closed, g);
      case Sending => SendWorksFlows(p.send.s, p.send.pcs[Tid(t)], p.loops, choice, p.send.s.closed, g);
    }
    match call
    case NoCall =>
    case OnRawQueue(a) => RawKeepsFlow(c, q, t, a, h);
    case OnSendQueue(a) => SendKeepsFlow(c, q, t, a, h);
  }

  // ----- Who closes, and who is to blame -----

  /** As long as nobody aborts, each queue is closed by the loop that fills it. */
  ghost predicate ClosedByOwner(p: Pipeline) {
    && (p.raw.s.closed ==> p.loops.capture.CapCloses? || p.loops.capture.CapDone? || p.loops.abort)
    && (p.send.s.closed ==> p.loops.encode.EncClosesSend? || p.loops.encode.EncDone? || p.loops.abort)
  }

  predicate CaptureLeft(l: Capture) {
    l.CapStops? || l.CapCloses? || l.CapDone?
  }

  /** A loop that stops without a reason of its own was stopped by an abort. */
  ghost predicate Blamed(l: Loops, g: Log) {
    && (CaptureLeft(l.capture) && !g.captureEnded ==> l.abort)
    && (EncodeGaveUp(l.encode) && !g.encodeFailed ==> l.abort && g.sendFailed)
  }

  lemma RawBlames(c: Sizes, p: Pipeline, t: Thread, a: Action<int>, g: Log)
    requires c.raw > 0 && QueueOk(c.raw, p.raw) && Enabled(p.raw, Tid(t), a)
    requires Does(RawRole(p.loops, t), p.raw.pcs[Tid(t)], a) && !RawRole(p.loops, t).Outside?
    requires ClosedByOwner(p) && Blamed(p.loops, g)
    requires a.Close? ==> t.Capturing? || p.raw.s.closed || p.loops.abort
    ensures var r := RawStep(c, p, t, a); ClosedByOwner(r) && Blamed(r.loops, g)
  {
    hide Step, Enabled, QueueOk, Does, InCall, Fits;
    CloseIsClosing(p.raw, Tid(t), a, RawRole(p.loops, t));
    QueueStep(c.raw, p.raw, Tid(t), a, RawRole(p.loops, t));
    OwnPlace(c.raw, p.raw, Tid(t), a, RawRole(p.loops, t));
  }

  lemma SendBlames(c: Sizes, p: Pipeline, t: Thread, a: Action<int>, g: Log)
    requires c.send > 0 && QueueOk(c.send, p.send) && Enabled(p.send, Tid(t), a)
    requires Does(SendRole(p.loops, t), p.send.pcs[Tid(t)], a) && !SendRole(p.loops, t).Outside?
    requires ClosedByOwner(p) && Blamed(p.loops, g) && AbortIs(p.loops) && (g.sendFailed <==> SendGaveUp(p.loops.sender))
    requires a.Close? ==> t.Encoding? || p.loops.abort
    ensures var r := SendStep(c, p, t, a); ClosedByOwner(r) && Blamed(r.loops, g)
  {
    hide Step, Enabled, QueueOk, Does, InCall, Fits;
    CloseIsClosing(p.send, Tid(t), a, SendRole(p.loops, t));
    QueueStep(c.send, p.send, Tid(t), a, SendRole(p.loops, t));
    OwnPlace(c.send, p.send, Tid(t), a, SendRole(p.loops, t));
  }

  lemma CloseIsClosing(m: Monitor<int>, n: nat, a: Action<int>, role: Role)
    requires Enabled(m, n, a) && Does(role, m.pcs[n], a)
    ensures a.Close? ==> role.Closing?
  {
  }

  // ----- Runs -----

  ghost predicate AllHolds(c: Sizes, p: Pipeline, g: Log) {
    && Inv(c, p) && HasThreads(p.raw) && HasThreads(p.send)
    && Flows(p, g) && ClosedByOwner(p) && Blamed(p.loops, g)
  }

  lemma InsideBlames(c: Sizes, p: Pipeline, e: Event, g: Log)
    requires c.raw > 0 && c.send > 0 && AllHolds(c, p, g) && Possible(p, e) && !e.Works?
    ensures var r := Next(c, p, e); ClosedByOwner(r) && Blamed(r.loops, g)
  {
    hide Enabled, Told, Good, Internal, Step, CaptureFlows, EncodeTakes, EncodeFlows, AbortIs, ClosedByOwner, Blamed;
    match e
    case OnRaw(t, a) => {
      NotOutside(p.raw, Tid(t), a, RawRole(p.loops, t));
      InCallCloses(a);
      RawBlames(c, p, t, a, g);
    }
    case OnSend(t, a) => {
      NotOutside(p.send, Tid(t), a, SendRole(p.loops, t));
      InCallCloses(a);
      SendBlames(c, p, t, a, g);
    }
  }

  lemma InCallCloses(a: Action<int>)
    requires InCall(a)
    ensures !a.Close?
  {
  }

  /** A loop that closes a queue it does not fill finds it closed or has raised the abort flag. */
  lemma WorkBlames(raw: Shared<int>, send: Shared<int>, l: Loops, t: Thread, choice: Choice, g: Log)
    requires CanWork(l, t, choice) && Told(raw, send, l) && Blamed(l, g) && (g.sendFailed ==> SendGaveUp(l.sender))
    ensures var (r, call) := Worked(l, t, choice, send.closed); var h := Logged(g, l, Works(t, choice));
      && Blamed(r, h) && (l.abort ==> r.abort)
      && (l.capture.CapCloses? || l.capture.CapDone? ==> r.capture == l.capture)
      && (l.encode.EncClosesSend? || l.encode.EncDone? ==> r.encode == l.encode)
      && (call.OnRawQueue? && call.a.Close? ==> t.Capturing? || raw.closed || r.abort)
      && (call.OnSendQueue? && call.a.Close? ==> t.Encoding? || r.abort)
  {
  }

  lemma WorkKeepsBlame(c: Sizes, p: Pipeline, t: Thread, choice: Choice, g: Log)
    requires c.raw > 0 && c.send > 0 && AllHolds(c, p, g) && Possible(p, Works(t, choice))
    ensures var r := Next(c, p, Works(t, choice)); ClosedByOwner(r) && Blamed(r.loops, Logged(g, p.loops, Works(t, choice)))
  {
    hide Enabled, Told, Good, Internal, Step, CanWork, Worked, RawRole, SendRole, Does;
    hide Logged, Blamed, CaptureFlows, EncodeTakes, EncodeFlows, AbortIs;
    StartsAreEnabled(p, t, choice);
    var (l, call) := Worked(p.loops, t, choice, p.send.s.closed);
    var h, q := Logged(g, p.loops, Works(t, choice)), p.(loops := l);
    WorkRoles(p.loops, t, choice, p.send.s.closed, p.raw.pcs[Tid(t)], t);
    WorkRoles(p.loops, t, choice, p.send.s.closed, p.send.pcs[Tid(t)], t);
    WorkBlames(p.raw.s, p.send.s, p.loops, t, choice, g);
    match t {
      case Capturing => CaptureWorksFlows(p.raw.s, p.raw.pcs[Tid(t)], p.loops, choice, p.send.s.closed, g);
      case Encoding =>
        EncodeWorksFlows(p.raw.s, p.send.s, p.raw.pcs[Tid(t)], p.send.pcs[Tid(t)], p.loops, choice, p.send.s.closed, g);
      case Sending => SendWorksFlows(p.send.s, p.send.pcs[Tid(t)], p.loops, choice, p.send.s.closed, g);
    }
    match call
    case NoCall =>
    case OnRawQueue(a) => RawBlames(c, q, t, a, h);
    case OnSendQueue(a) => SendBlames(c, q, t, a, h);
  }

  lemma NextHolds(c: Sizes, p: Pipeline, e: Event, g: Log)
    requires c.raw > 0 && c.send > 0 && AllHolds(c, p, g) && Possible(p, e)
    ensures AllHolds(c, Next(c, p, e), Logged(g, p.loops, e))
  {
    hide Inv, Possible, Next, Flows, ClosedByOwner, Blamed;
    NextKeeps(c, p, e);
    match e {
      case Works(t, choice) =>
        WorkFlows(c, p, t, choice, g);
        WorkKeepsBlame(c, p, t, choice, g);
      case _ =>
        InsideFlows(c, p, e, g);
        InsideBlames(c, p, e, g);
    }
  }

  lemma {:induction false} RunHolds(c: Sizes, p: Pipeline, run: seq<Event>, g: Log)
    requires c.raw > 0 && c.send > 0 && AllHolds(c, p, g) && CanRun(c, p, run)
    ensures AllHolds(c, Ran(c, p, run), LogOf(c, p, run, g))
    decreases |run|
  {
    hide AllHolds, Next, Possible, Logged;
    if run != [] {
      NextHolds(c, p, run[0], g);
      RunHolds(c, Next(c, p, run[0]), run[1..], Logged(g, p.loops, run[0]));
    }
  }

  lemma InitiallyHolds(c: Sizes, p: Pipeline)
    requires c.raw > 0 && c.send > 0 && Initially(p)
    ensures AllHolds(c, p, NOTHING)
  {
    InitiallyInv(c, p);
    ThreeThreads(p.raw);
    ThreeThreads(p.send);
    hide Inv;
  }

  // ----- What flows -----

  /** At any moment of any run: the raw-frame queue has accepted the frames read from the camera, in order, but for at
      most the last one; the encoder has been called for the frames popped, but for at most the last one; the send
      queue has accepted what the encoder put out, in order, up to some point; the frames popped from it have been
      sent, but for at most the last one. */
  lemma WhatFlows(c: Sizes, start: Pipeline, run: seq<Event>)
    requires c.raw > 0 && c.send > 0 && Initially(start) && CanRun(c, start, run)
    ensures var p, g := Ran(c, start, run), LogOf(c, start, run, NOTHING);
      && p.raw.s.accepted <= g.captured && |g.captured| - |p.raw.s.accepted| <= 1
      && p.raw.s.popped + p.raw.s.q == p.raw.s.accepted && 0 <= |p.raw.s.popped| - g.encodes <= 1
      && p.send.s.accepted <= g.outs
      && p.send.s.popped + p.send.s.q == p.send.s.accepted && 0 <= |p.send.s.popped| - g.sends <= 1
  {
    hide Ran, CanRun, LogOf, Initially, AllHolds;
    InitiallyHolds(c, start);
    RunHolds(c, start, run, NOTHING);
    WhatFlowsNow(c, Ran(c, start, run), LogOf(c, start, run, NOTHING));
  }

  lemma WhatFlowsNow(c: Sizes, p: Pipeline, g: Log)
    requires AllHolds(c, p, g)
    ensures p.raw.s.accepted <= g.captured && |g.captured| - |p.raw.s.accepted| <= 1
    ensures p.raw.s.popped + p.raw.s.q == p.raw.s.accepted && 0 <= |p.raw.s.popped| - g.encodes <= 1
    ensures p.send.s.accepted <= g.outs
    ensures p.send.s.popped + p.send.s.q == p.send.s.accepted && 0 <= |p.send.s.popped| - g.sends <= 1
  {
    hide Good, Placed, Told, HasThreads, ClosedByOwner, Blamed, IsFifo, AbortIs;
    GoodIsFifo(c.raw, p.raw);
    GoodIsFifo(c.send, p.send);
    NothingDropped(c.raw, p.raw.s);
    NothingDropped(c.send, p.send.s);
  }

  /** Once all three loops are done, the abort flag is up if and only if encoding or sending has failed. If it is not,
      nothing got lost on the way: every frame read was given to the encoder, in order; the encoder was flushed; all
      it put out, in order, was accepted by the send queue, and of that the sender sent what it had seen. */
  lemma WhatComesOut(c: Sizes, start: Pipeline, run: seq<Event>)
    requires c.raw > 0 && c.send > 0 && Initially(start) && CanRun(c, start, run)
    requires forall t: Thread :: Finished(Ran(c, start, run).loops, t)
    ensures var p, g := Ran(c, start, run), LogOf(c, start, run, NOTHING);
      && (p.loops.abort <==> g.encodeFailed || g.sendFailed)
      && (!p.loops.abort ==>
            && p.raw.s.popped == g.captured && g.encodes == |g.captured| && g.flushed
            && p.send.s.accepted == g.outs
            && p.loops.sender.SndDone? && g.sends == p.loops.sender.seen <= |g.outs|
            && p.send.s.popped == g.outs[..g.sends])
  {
    hide Ran, CanRun, LogOf, Initially, AllHolds;
    InitiallyHolds(c, start);
    RunHolds(c, start, run, NOTHING);
    WhatComesOutNow(c, Ran(c, start, run), LogOf(c, start, run, NOTHING));
  }

  lemma WhatComesOutNow(c: Sizes, p: Pipeline, g: Log)
    requires AllHolds(c, p, g) && forall t: Thread :: Finished(p.loops, t)
    ensures p.loops.abort <==> g.encodeFailed || g.sendFailed
    ensures !p.loops.abort ==>
              && p.raw.s.popped == g.captured && g.encodes == |g.captured| && g.flushed
              && p.send.s.accepted == g.outs
              && p.loops.sender.SndDone? && g.sends == p.loops.sender.seen <= |g.outs|
              && p.send.s.popped == g.outs[..g.sends]
  {
    hide Good, Placed, HasThreads, ClosedByOwner, IsFifo;
    assert Finished(p.loops, Capturing) && Finished(p.loops, Encoding) && Finished(p.loops, Sending);
    GoodIsFifo(c.raw, p.raw);
    GoodIsFifo(c.send, p.send);
    NothingDropped(c.raw, p.raw.s);
    NothingDropped(c.send, p.send.s);
  }

  /** A loop that is done has closed both queues, or the one it fills. */
  lemma DoneHasClosed(c: Sizes, start: Pipeline, run: seq<Event>)
    requires c.raw > 0 && c.send > 0 && Initially(start) && CanRun(c, start, run)
    ensures var p := Ran(c, start, run);
      && (p.loops.capture.CapDone? ==> p.raw.s.closed)
      && (p.loops.encode.EncDone? ==> p.raw.s.closed && p.send.s.closed)
      && (p.loops.sender.SndDone? ==> p.send.s.closed)
      && (p.loops.sender.SndFailed? ==> p.loops.abort && p.raw.s.closed && p.send.s.closed)
      && (!p.loops.abort && p.send.s.closed ==> p.raw.s.closed && p.raw.s.q == [])
  {
    InitiallyHolds(c, start);
    RunHolds(c, start, run, NOTHING);
    hide Ran, CanRun, LogOf, Initially, Good, Flows, Blamed, QueueOk, Placed;
  }

  /** Once the abort flag is up it stays up, and no frame is read any more. */
  lemma {:induction false} NothingReadAfterAbort(c: Sizes, p: Pipeline, run: seq<Event>, g: Log)
    requires c.raw > 0 && c.send > 0 && CanRun(c, p, run) && p.loops.abort
    ensures Ran(c, p, run).loops.abort && LogOf(c, p, run, g).captured == g.captured
    decreases |run|
  {
    if run != [] {
      AbortStays(c, p, run[0], g);
      hide Next, Possible, Logged;
      NothingReadAfterAbort(c, Next(c, p, run[0]), run[1..], Logged(g, p.loops, run[0]));
    }
  }

  lemma AbortStays(c: Sizes, p: Pipeline, e: Event, g: Log)
    requires c.raw > 0 && c.send > 0 && Possible(p, e) && p.loops.abort
    ensures Next(c, p, e).loops.abort && Logged(g, p.loops, e).captured == g.captured
  {
    hide Step, Enabled, InCall;
  }
}

/** The whole reverse tunnel: handlers on the node write their messages to one connection in any interleaving, the
    gateway's reader takes them off one by one, and each client must get its own response and nothing else. */
module Demux {
  import opened Wrappers
  import opened Responses
  import opened Sessions
  import Frames

  /** One proxied request: the handler's calls, the messages they make, and how many of these were written,
      read, and read while the request was pending. */
  datatype Flow = Flow(calls: seq<Call>, script: seq<Message>, written: nat, read: nat, handled: nat)

  /** The session, every request sent to the node, and the messages under way. */
  datatype System = System(session: State, flows: map<ReqID, Flow>, wire: seq<Message>)

  const IDLE := System(START, map[], [])

  datatype Action =
    | Request(id: ReqID, calls: seq<Call>)  // proxy admits a request whose handler will make these calls
    | Put(id: ReqID)                        // that handler's thread writes its next message
    | Read                                  // the gateway's reader handles the oldest message
    | Gone(id: ReqID)                       // proxy returns: finished or cancelled
    | Result(id: ReqID)                     // proxy takes its result
    | Hangup                                // the session closes

  function Act(s: System, a: Action): System {
    match a
    case Request(id, calls) =>
      if CanAdmit(s.session, id)
      then System(Next(s.session, Admit(id)), s.flows[id := Flow(calls, Emitted(id, map[], false, calls), 0, 0, 0)],
          s.wire)
      else s
    case Put(id) =>
      if id in s.flows && s.flows[id].written < |s.flows[id].script|
      then s.(flows := s.flows[id := s.flows[id].(written := s.flows[id].written + 1)],
              wire := s.wire + [s.flows[id].script[s.flows[id].written]])
      else s
    case Read =>
      if s.wire == [] || s.wire[0].id !in s.flows then s
      else
        var id := s.wire[0].id;
        System(Next(s.session, Deliver(s.wire[0])), s.flows[id := ReadOne(s.flows[id], id in s.session.pending)],
            s.wire[1..])
    case Gone(id) => s.(session := Next(s.session, Release(id)))
    case Result(id) => s.(session := Next(s.session, Receive(id)))
    case Hangup => s.(session := Next(s.session, CloseAll))
  }

  function ReadOne(flow: Flow, pending: bool): Flow {
    flow.(read := flow.read + 1, handled := flow.handled + if pending then 1 else 0)
  }

  function Play(actions: seq<Action>): System {
    if actions == [] then IDLE else Act(Play(actions[..|actions| - 1]), actions[|actions| - 1])
  }

  /** The messages of one request among those under way, in order. */
  function Of(ms: seq<Message>, id: ReqID): seq<Message> {
    if ms == [] then [] else (if ms[0].id == id then [ms[0]] else []) + Of(ms[1..], id)
  }

  lemma {:induction false} OfAppend(ms: seq<Message>, m: Message, id: ReqID)
    ensures Of(ms + [m], id) == Of(ms, id) + if m.id == id then [m] else []
  {
    var tail := if m.id == id then [m] else [];
    if ms == [] {
      assert ms + [m] == [m] && [m][1..] == [];
      assert tail + [] == tail;
    } else {
      assert (ms + [m])[0] == ms[0] && (ms + [m])[1..] == ms[1..] + [m];
      OfAppend(ms[1..], m, id);
      Frames.Associative(if ms[0].id == id then [ms[0]] else [], Of(ms[1..], id), tail);
    }
  }

  lemma {:induction false} NoneOf(ms: seq<Message>, id: ReqID)
    requires forall i :: 0 <= i < |ms| ==> ms[i].id != id
    ensures Of(ms, id) == []
  {
    if ms != [] {
      NoneOf(ms[1..], id);
    }
  }

  /** What holds of one request at every moment: its messages under way are exactly the written, unread part of its
      script; its client has received exactly the rendering of a first part of the script, which is the whole read part
      as long as it is pending; and a success was only offered after the whole script. */
  ghost predicate Progress(flow: Flow, queue: seq<Message>, slot: Slot, pending: bool) {
    && flow.handled <= flow.read <= flow.written <= |flow.script|
    && queue == flow.script[flow.read..flow.written]
    && slot.out == Render(EMPTY, flow.script[..flow.handled])
    && (pending ==> flow.handled == flow.read)
    && (Done in slot.offers ==> flow.handled == |flow.script|)
  }

  /** Messages of one id, of which only the last is an End. */
  ghost predicate Shaped(id: ReqID, script: seq<Message>) {
    script != [] && forall i :: 0 <= i < |script| ==> script[i].id == id && (script[i].End? <==> i == |script| - 1)
  }

  ghost predicate FlowOk(s: System, id: ReqID)
    requires id in s.flows
  {
    && s.flows[id].script == Emitted(id, map[], false, s.flows[id].calls)
    && Shaped(id, s.flows[id].script)
    && id in s.session.slots
    && Progress(s.flows[id], Of(s.wire, id), s.session.slots[id], id in s.session.pending)
  }

  ghost predicate Framed(s: System) {
    && Valid(s.session)
    && s.session.slots.Keys == s.flows.Keys
    && forall i :: 0 <= i < |s.wire| ==> s.wire[i].id in s.flows
  }

  ghost predicate Sound(s: System) {
    Framed(s) && forall id <- s.flows :: FlowOk(s, id)
  }

  lemma ProgressPut(flow: Flow, queue: seq<Message>, slot: Slot, pending: bool)
    requires Progress(flow, queue, slot, pending) && flow.written < |flow.script|
    ensures Progress(flow.(written := flow.written + 1), queue + [flow.script[flow.written]], slot, pending)
  {
  }

  lemma RenderNext(script: seq<Message>, k: nat)
    requires k < |script|
    ensures Render(EMPTY, script[..k + 1]) == Rendered(Render(EMPTY, script[..k]), script[k])
  {
    assert script[..k + 1] == script[..k] + [script[k]];
    RenderAppend(EMPTY, script[..k], [script[k]]);
    assert [script[k]][1..] == [];
  }

  /** The reader takes the oldest message of a request; if it is pending, its client sees it. */
  lemma ProgressRead(id: ReqID, flow: Flow, m: Message, rest: seq<Message>, slot: Slot, pending: bool)
    requires Shaped(id, flow.script) && Progress(flow, [m] + rest, slot, pending)
    ensures Progress(ReadOne(flow, pending), rest, if pending then OnMessage(slot, m) else slot, pending)
  {
    var script := flow.script;
    assert script[flow.read..flow.written] == [m] + rest;
    assert script[flow.read] == m;
    assert script[flow.read + 1..flow.written] == rest;
    if pending {
      RenderNext(script, flow.read);
    }
  }

  lemma RequestFlow(s: System, id: ReqID, calls: seq<Call>, other: ReqID)
    requires Sound(s) && CanAdmit(s.session, id) && other in Act(s, Request(id, calls)).flows
    ensures FlowOk(Act(s, Request(id, calls)), other)
  {
    if other != id {
      assert FlowOk(s, other);
    } else {
      NoneOf(s.wire, id);
      EmittedShape(id, map[], false, calls);
    }
  }

  lemma RequestFrame(s: System, id: ReqID, calls: seq<Call>)
    requires Framed(s) && CanAdmit(s.session, id)
    ensures Framed(Act(s, Request(id, calls)))
  {
    hide Emitted;
    NextIsValid(s.session, Admit(id));
  }

  lemma RequestKeeps(s: System, id: ReqID, calls: seq<Call>)
    requires Sound(s) && CanAdmit(s.session, id)
    ensures Sound(Act(s, Request(id, calls)))
  {
    hide FlowOk, Framed, Act, CanAdmit;
    RequestFrame(s, id, calls);
    forall other | other in Act(s, Request(id, calls)).flows
      ensures FlowOk(Act(s, Request(id, calls)), other)
    {
      RequestFlow(s, id, calls, other);
    }
  }

  lemma PutFlow(s: System, id: ReqID, other: ReqID)
    requires id in s.flows && s.flows[id].written < |s.flows[id].script| && other in s.flows
    requires FlowOk(s, id) && FlowOk(s, other)
    ensures FlowOk(Act(s, Put(id)), other)
  {
    var flow := s.flows[id];
    var m := flow.script[flow.written];
    assert m.id == id;
    OfAppend(s.wire, m, other);
    if other == id {
      ProgressPut(flow, Of(s.wire, id), s.session.slots[id], id in s.session.pending);
    } else {
      assert Of(s.wire, other) + [] == Of(s.wire, other);
    }
  }

  lemma PutFlows(s: System, id: ReqID)
    requires Sound(s) && id in s.flows && s.flows[id].written < |s.flows[id].script|
    ensures forall other <- Act(s, Put(id)).flows :: FlowOk(Act(s, Put(id)), other)
  {
    hide FlowOk, Next;
    forall other | other in Act(s, Put(id)).flows
      ensures FlowOk(Act(s, Put(id)), other)
    {
      PutFlow(s, id, other);
    }
  }

  lemma PutFrame(s: System, id: ReqID)
    requires Framed(s) && id in s.flows && s.flows[id].written < |s.flows[id].script|
    requires s.flows[id].script[s.flows[id].written].id == id
    ensures Framed(Act(s, Put(id)))
  {
  }

  lemma PutKeeps(s: System, id: ReqID)
    requires Sound(s) && id in s.flows && s.flows[id].written < |s.flows[id].script|
    ensures Sound(Act(s, Put(id)))
  {
    PutFlows(s, id);
    assert FlowOk(s, id);
    PutFrame(s, id);
  }

  lemma ReadFlow(s: System, id: ReqID)
    requires s.wire != [] && s.wire[0].id in s.flows && id in s.flows && FlowOk(s, id)
    requires s.session.pending <= s.session.slots.Keys
    ensures FlowOk(Act(s, Read), id)
  {
    var m, rest := s.wire[0], s.wire[1..];
    if id == m.id {
      ProgressRead(id, s.flows[id], m, Of(rest, id), s.session.slots[id], id in s.session.pending);
    } else {
      assert [] + Of(rest, id) == Of(rest, id);
    }
  }

  lemma ReadFlows(s: System)
    requires Sound(s) && s.wire != []
    ensures forall id <- Act(s, Read).flows :: FlowOk(Act(s, Read), id)
  {
    hide FlowOk, Next, OnMessage;
    forall id | id in Act(s, Read).flows
      ensures FlowOk(Act(s, Read), id)
    {
      ReadFlow(s, id);
    }
  }

  lemma ReadFrame(s: System)
    requires Framed(s) && s.wire != []
    ensures Framed(Act(s, Read))
  {
    NextIsValid(s.session, Deliver(s.wire[0]));
  }

  lemma ReadKeeps(s: System)
    requires Sound(s) && s.wire != []
    ensures Sound(Act(s, Read))
  {
    ReadFlows(s);
    ReadFrame(s);
  }

  /** Session steps other than frames leave what clients received alone. */
  lemma SessionKeeps(s: System, step: Step)
    requires Sound(s) && (step.Release? || step.Receive? || step.CloseAll?)
    ensures Sound(s.(session := Next(s.session, step)))
  {
    var s' := s.(session := Next(s.session, step));
    NextIsValid(s.session, step);
    forall id | id in s'.flows
      ensures FlowOk(s', id)
    {
      assert FlowOk(s, id);
      ProgressStays(s.session, step, id, s.flows[id], Of(s.wire, id));
    }
  }

  lemma ProgressStays(s: State, step: Step, id: ReqID, flow: Flow, queue: seq<Message>)
    requires step.Release? || step.Receive? || step.CloseAll?
    requires id in s.slots && Progress(flow, queue, s.slots[id], id in s.pending)
    ensures id in Next(s, step).slots && Progress(flow, queue, Next(s, step).slots[id], id in Next(s, step).pending)
  {
  }

  lemma {:induction false} PlayKeeps(actions: seq<Action>)
    ensures Sound(Play(actions))
  {
    if actions != [] {
      var s, a := Play(actions[..|actions| - 1]), actions[|actions| - 1];
      PlayKeeps(actions[..|actions| - 1]);
      match a
      case Request(id, calls) => if CanAdmit(s.session, id) { RequestKeeps(s, id, calls); }
      case Put(id) => if id in s.flows && s.flows[id].written < |s.flows[id].script| { PutKeeps(s, id); }
      case Read => if s.wire != [] { ReadKeeps(s); }
      case Gone(id) => SessionKeeps(s, Release(id));
      case Result(id) => SessionKeeps(s, Receive(id));
      case Hangup => SessionKeeps(s, CloseAll);
    }
  }

  lemma ProgressMeans(id: ReqID, flow: Flow, queue: seq<Message>, slot: Slot, pending: bool)
    requires flow.script == Emitted(id, map[], false, flow.calls) && Progress(flow, queue, slot, pending)
    ensures Stage(slot.out, Meaning(flow.calls))
    ensures flow.handled == |flow.script| ==> slot.out == Meaning(flow.calls)
  {
    RenderEmitted(id, flow.calls);
    PrefixIsStage(EMPTY, flow.script, flow.handled);
    assert flow.script[..|flow.script|] == flow.script;
  }

  /** In every interleaving, what the gateway has written for a request is an earlier stage of exactly the response
      its own handler described: the status and headers, then a prefix of the body bytes, none from another request.
      Once its End was taken as its result, its client has the whole response. */
  lemma EachClientGetsItsOwnResponse(actions: seq<Action>, id: ReqID)
    requires id in Play(actions).flows
    ensures var s := Play(actions);
      && id in s.session.slots
      && Stage(s.session.slots[id].out, Meaning(s.flows[id].calls))
      && (s.session.slots[id].taken == Some(Done) ==> s.session.slots[id].out == Meaning(s.flows[id].calls))
  {
    PlayKeeps(actions);
    var s := Play(actions);
    assert FlowOk(s, id) && SlotOk(s.session.slots[id]);
    ProgressMeans(id, s.flows[id], Of(s.wire, id), s.session.slots[id], id in s.session.pending);
  }

  /** When `proxy` reports success, the client has the whole response if and only if every message of it but the End
      was handled while the request was pending; a close after the status cuts the response short and still counts as
      success. */
  lemma SuccessIsWholeExactly(actions: seq<Action>, id: ReqID)
    requires id in Play(actions).flows && id in Play(actions).session.slots
    requires Report(Play(actions).session.slots[id]) == Some(Done)
    ensures var s := Play(actions);
      s.session.slots[id].out == Meaning(s.flows[id].calls) <==> s.flows[id].handled >= |s.flows[id].script| - 1
  {
    PlayKeeps(actions);
    var s := Play(actions);
    assert FlowOk(s, id) && SlotOk(s.session.slots[id]);
    var flow := s.flows[id];
    hide Play, Emitted, Render, Meaning;
    if flow.handled == 0 {
      assert flow.script[..0] == [];
      RenderNothing();
      EmittedMiddle(id, map[], false, flow.calls);
    } else {
      PrefixIsWhole(id, flow.calls, flow.handled);
    }
  }

  lemma RenderNothing()
    ensures Render(EMPTY, []) == EMPTY
  {
  }

  /** A handler writes one byte; the gateway reads the head, then the session closes. */
  function CutAfterHead(id: ReqID, b: Frames.Byte): seq<Action> {
    [Request(id, [Write([b])]), Put(id), Read, Hangup, Result(id)]
  }

  /** That run is reported as a success, and its client has the status and none of the body. */
  lemma CutResponseIsSuccess(id: ReqID, b: Frames.Byte)
    ensures var s := Play(CutAfterHead(id, b));
      && id in s.flows && id in s.session.slots
      && Report(s.session.slots[id]) == Some(Done)
      && s.session.slots[id].out == Output(Some(OK_STATUS), map[], [])
      && Meaning(s.flows[id].calls).body == [b]
  {
    StripTwice(map[]);
    hide Render, StripHop, Play;
    var calls := [Write([b])];
    assert calls[1..] == [];
    EmittedWriteFirst(id, [b]);
    PlayFive(Request(id, calls), Put(id), Read, Hangup, Result(id));
    var s2 := Act(Act(IDLE, Request(id, calls)), Put(id));
    assert s2.wire == [Head(id, OK_STATUS, map[])];
    var s3 := Act(s2, Read);
    assert s3.session.slots[id].out == Output(Some(OK_STATUS), map[], []) && s3.session.slots[id].wrote;
    assert Act(s3, Hangup).session.slots[id].errc == [Offline];
    assert BodyOf(calls) == [b] + BodyOf([]);
  }

  lemma PlayFive(a: Action, b: Action, c: Action, d: Action, e: Action)
    ensures Play([a, b, c, d, e]) == Act(Act(Act(Act(Act(IDLE, a), b), c), d), e)
  {
    hide Act;
    assert [a, b, c, d, e][..4] == [a, b, c, d] && [a, b, c, d][..3] == [a, b, c] && [a, b, c][..2] == [a, b];
    assert [a, b][..1] == [a] && [a][..0] == [];
    assert Play([a]) == Act(IDLE, a);
    assert Play([a, b]) == Act(Act(IDLE, a), b);
    assert Play([a, b, c]) == Act(Act(Act(IDLE, a), b), c);
    assert Play([a, b, c, d]) == Act(Act(Act(Act(IDLE, a), b), c), d);
  }

  lemma EmittedWriteFirst(id: ReqID, data: seq<Frames.Byte>)
    ensures Emitted(id, map[], false, [Write(data)])[0] == Head(id, OK_STATUS, map[])
  {
    StripTwice(map[]);
    hide StripHop;
    EmittedMiddle(id, map[], false, [Write(data)]);
  }

  /** While a request stays pending nothing written for it is lost: its client has received the rendering of every
      message of its script that left the wire, and once its End has, the whole response. */
  lemma PendingMissesNothing(actions: seq<Action>, id: ReqID)
    requires id in Play(actions).session.pending
    ensures var s := Play(actions);
      && id in s.flows && id in s.session.slots && s.flows[id].read <= |s.flows[id].script|
      && s.session.slots[id].out == Render(EMPTY, s.flows[id].script[..s.flows[id].read])
      && (s.flows[id].read == |s.flows[id].script| ==> s.session.slots[id].out == Meaning(s.flows[id].calls))
  {
    PlayKeeps(actions);
    var s := Play(actions);
    assert FlowOk(s, id);
    RenderEmitted(id, s.flows[id].calls);
    assert s.flows[id].script[..|s.flows[id].script|] == s.flows[id].script;
  }
}

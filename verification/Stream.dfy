/** The tunnel down to its bytes (internal/tunnel/client.go, internal/gateway/server.go): messages as frames, frames as
    bytes, any number of handlers writing to one connection, and back from those bytes, whole or cut anywhere, to what
    each client is shown. */
module Stream {
  import opened Wrappers
  import opened Frames
  import opened Responses
  import opened Sessions
  import opened Demux

  const TYPE_HEAD: Byte := 9
  const TYPE_BODY: Byte := 10
  const TYPE_END: Byte := 11

  /** JSON of head and end frames, and its inverse where it parses. */
  datatype Json = Json(head: (ReqID, int, Header) -> seq<Byte>, unhead: seq<Byte> -> Option<(ReqID, int, Header)>,
                       end: ReqID -> seq<Byte>, unend: seq<Byte> -> Option<ReqID>)

  ghost predicate Inverse(j: Json) {
    && (forall id, status, header :: j.unhead(j.head(id, status, header)) == Some((id, status, header)))
    && (forall id :: j.unend(j.end(id)) == Some(id))
  }

  function FrameOf(j: Json, m: Message): Frame {
    match m
    case Head(id, status, header) => Frame(TYPE_HEAD, j.head(id, status, header))
    case Body(id, data) => Frame(TYPE_BODY, Padded(id) + data)
    case End(id) => Frame(TYPE_END, j.end(id))
  }

  function FramesOf(j: Json, ms: seq<Message>): (fs: seq<Frame>)
    ensures |fs| == |ms|
    ensures forall i :: 0 <= i < |ms| ==> fs[i] == FrameOf(j, ms[i])
  {
    seq(|ms|, i requires 0 <= i < |ms| => FrameOf(j, ms[i]))
  }

  /** The switch of `readLoop`: other types, and payloads that do not parse, are passed over. */
  function MessageOf(j: Json, f: Frame): Option<Message> {
    if f.typ == TYPE_HEAD then
      match j.unhead(f.payload)
      case None => None
      case Some((id, status, header)) => Some(Head(id, status, header))
    else if f.typ == TYPE_BODY then
      match DecodeBody(f.payload)
      case None => None
      case Some((id, data)) => Some(Body(id, data))
    else if f.typ == TYPE_END then
      match j.unend(f.payload)
      case None => None
      case Some(id) => Some(End(id))
    else None
  }

  function Messages(j: Json, fs: seq<Frame>): seq<Message>
    decreases |fs|
  {
    if fs == [] then []
    else (match MessageOf(j, fs[0]) case None => [] case Some(m) => [m]) + Messages(j, fs[1..])
  }

  /** Request ids have 16 bytes, and the frame is within the limit. */
  ghost predicate Sendable(j: Json, m: Message) {
    |m.id| == ID_LENGTH && Fits(FrameOf(j, m))
  }

  ghost predicate AllSendable(j: Json, ms: seq<Message>) {
    forall i :: 0 <= i < |ms| ==> Sendable(j, ms[i])
  }

  lemma MessageBack(j: Json, m: Message)
    requires Inverse(j) && Sendable(j, m)
    ensures MessageOf(j, FrameOf(j, m)) == Some(m)
  {
    if m.Body? {
      DecodeBodyInverts(m.id, m.data);
    }
  }

  lemma {:induction false} MessagesBack(j: Json, ms: seq<Message>)
    requires Inverse(j) && AllSendable(j, ms)
    ensures AllFit(FramesOf(j, ms)) && Messages(j, FramesOf(j, ms)) == ms
  {
    if ms != [] {
      MessageBack(j, ms[0]);
      MessagesBack(j, ms[1..]);
      assert FramesOf(j, ms)[1..] == FramesOf(j, ms[1..]);
      assert [ms[0]] + ms[1..] == ms;
    }
    assert forall i :: 0 <= i < |ms| ==> Sendable(j, ms[i]);
  }

  /** The bytes of messages written one after the other. */
  ghost function BytesOf(j: Json, ms: seq<Message>): seq<Byte>
    requires AllSendable(j, ms)
  {
    assert forall i :: 0 <= i < |ms| ==> Sendable(j, ms[i]);
    EncodeAll(FramesOf(j, ms))
  }

  /** What the gateway's reader makes of bytes. */
  function ReadBytes(j: Json, bytes: seq<Byte>): seq<Message> {
    Messages(j, ReadAll(bytes).0)
  }

  /** Reading the bytes of any messages gives back those messages. */
  lemma ReadBack(j: Json, ms: seq<Message>)
    requires Inverse(j) && AllSendable(j, ms)
    ensures ReadBytes(j, BytesOf(j, ms)) == ms
  {
    MessagesBack(j, ms);
    ReadAllWritten(FramesOf(j, ms));
  }

  /** From bytes cut anywhere the reader gets a first part of the messages. */
  lemma ReadCut(j: Json, ms: seq<Message>, k: nat)
    requires Inverse(j) && AllSendable(j, ms) && k <= |BytesOf(j, ms)|
    ensures ReadBytes(j, BytesOf(j, ms)[..k]) <= ms
  {
    var fs := FramesOf(j, ms);
    MessagesBack(j, ms);
    ReadAllTruncated(fs, k);
    var read := ReadAll(EncodeAll(fs)[..k]).0;
    assert AllSendable(j, ms[..|read|]);
    assert read == fs[..|read|] == FramesOf(j, ms[..|read|]);
    MessagesBack(j, ms[..|read|]);
  }

  /** From a handler's calls through messages, frames and bytes to its client: the whole stream shows exactly the
      response the calls describe, and a stream cut anywhere an earlier stage of it. */
  lemma BytesShowResponse(j: Json, id: ReqID, calls: seq<Call>, k: nat)
    requires Inverse(j) && AllSendable(j, Emitted(id, map[], false, calls))
    requires k <= |BytesOf(j, Emitted(id, map[], false, calls))|
    ensures var bytes := BytesOf(j, Emitted(id, map[], false, calls));
      && Render(EMPTY, ReadBytes(j, bytes)) == Meaning(calls)
      && Stage(Render(EMPTY, ReadBytes(j, bytes[..k])), Meaning(calls))
  {
    var ms := Emitted(id, map[], false, calls);
    hide Emitted, Render, ReadBytes;
    ReadBack(j, ms);
    ReadCut(j, ms, k);
    RenderEmitted(id, calls);
    var part := ReadBytes(j, BytesOf(j, ms)[..k]);
    PrefixIsStage(EMPTY, ms, |part|);
    assert ms[..|part|] == part;
  }

  // ----- many requests on one stream -----

  /** The message an action puts on the wire, if it puts one. */
  function Added(s: System, a: Action): seq<Message> {
    if a.Put? && a.id in s.flows && s.flows[a.id].written < |s.flows[a.id].script|
    then [s.flows[a.id].script[s.flows[a.id].written]] else []
  }

  /** Every message put on the wire, in order. */
  function Written(actions: seq<Action>): seq<Message> {
    if actions == [] then []
    else
      var init, a := actions[..|actions| - 1], actions[|actions| - 1];
      Written(init) + Added(Play(init), a)
  }

  /** What was written for a request is the written part of its script. */
  ghost predicate Account(flow: Flow, queue: seq<Message>) {
    flow.written <= |flow.script| && queue == flow.script[..flow.written]
  }

  ghost predicate Accounted(flows: map<ReqID, Flow>, written: seq<Message>) {
    && (forall i :: 0 <= i < |written| ==> written[i].id in flows)
    && (forall id <- flows :: Account(flows[id], Of(written, id)))
  }

  lemma AccountedRequest(flows: map<ReqID, Flow>, written: seq<Message>, id: ReqID, flow: Flow)
    requires Accounted(flows, written) && id !in flows && flow.written == 0
    ensures Accounted(flows[id := flow], written)
  {
    NoneOf(written, id);
  }

  lemma AccountPut(flow: Flow, queue: seq<Message>)
    requires Account(flow, queue) && flow.written < |flow.script|
    ensures Account(flow.(written := flow.written + 1), queue + [flow.script[flow.written]])
  {
    assert flow.script[..flow.written + 1] == flow.script[..flow.written] + [flow.script[flow.written]];
  }

  lemma AccountedPut(flows: map<ReqID, Flow>, written: seq<Message>, id: ReqID)
    requires Accounted(flows, written) && id in flows && flows[id].written < |flows[id].script|
    requires flows[id].script[flows[id].written].id == id
    ensures var flow := flows[id];
      Accounted(flows[id := flow.(written := flow.written + 1)], written + [flow.script[flow.written]])
  {
    var flow := flows[id];
    var m := flow.script[flow.written];
    var flows' := flows[id := flow.(written := flow.written + 1)];
    AccountPut(flow, Of(written, id));
    hide Of, Account;
    forall other | other in flows'
      ensures Account(flows'[other], Of(written + [m], other))
    {
      OfAppend(written, m, other);
      assert Account(flows[other], Of(written, other));
      assert Of(written, other) + [] == Of(written, other);
    }
  }

  /** Reading, and the session's own steps, leave what was written alone. */
  lemma AccountedElse(s: System, a: Action, written: seq<Message>)
    requires !a.Request? && !a.Put? && Accounted(s.flows, written)
    ensures Accounted(Act(s, a).flows, written)
  {
    hide Of, Next;
    forall id | id in s.flows
      ensures id in Act(s, a).flows && Account(Act(s, a).flows[id], Of(written, id))
    {
      assert Account(s.flows[id], Of(written, id));
    }
  }

  lemma WritesOwn(s: System, id: ReqID)
    requires Sound(s) && id in s.flows && s.flows[id].written < |s.flows[id].script|
    ensures s.flows[id].script[s.flows[id].written].id == id
  {
    hide Emitted, Render, Of;
    assert FlowOk(s, id);
  }

  lemma AdmitsNew(s: System, id: ReqID)
    requires Sound(s) && CanAdmit(s.session, id)
    ensures id !in s.flows
  {
    hide FlowOk;
  }

  lemma RequestStep(s: System, written: seq<Message>, id: ReqID, calls: seq<Call>)
    requires Sound(s) && Accounted(s.flows, written)
    ensures Accounted(Act(s, Request(id, calls)).flows, written)
  {
    hide Sound, CanAdmit, Next, Emitted, Accounted;
    if CanAdmit(s.session, id) {
      AdmitsNew(s, id);
      AccountedRequest(s.flows, written, id, Flow(calls, Emitted(id, map[], false, calls), 0, 0, 0));
    }
  }

  lemma PutActs(s: System, id: ReqID)
    requires id in s.flows && s.flows[id].written < |s.flows[id].script|
    ensures Added(s, Put(id)) == [s.flows[id].script[s.flows[id].written]]
    ensures Act(s, Put(id)).flows == s.flows[id := s.flows[id].(written := s.flows[id].written + 1)]
  {
  }

  lemma PutStep(s: System, written: seq<Message>, id: ReqID)
    requires Sound(s) && Accounted(s.flows, written)
    requires id in s.flows && s.flows[id].written < |s.flows[id].script|
    ensures Accounted(Act(s, Put(id)).flows, written + Added(s, Put(id)))
  {
    hide Sound, Accounted, Act, Added;
    WritesOwn(s, id);
    PutActs(s, id);
    AccountedPut(s.flows, written, id);
  }

  lemma PutNothing(s: System, id: ReqID)
    requires !(id in s.flows && s.flows[id].written < |s.flows[id].script|)
    ensures Added(s, Put(id)) == [] && Act(s, Put(id)) == s
  {
  }

  lemma AccountedStep(s: System, a: Action, written: seq<Message>)
    requires Sound(s) && Accounted(s.flows, written)
    ensures Accounted(Act(s, a).flows, written + Added(s, a))
  {
    hide Sound, Act, Accounted;
    assert written + [] == written;
    match a
    case Request(id, calls) => RequestStep(s, written, id, calls);
    case Put(id) =>
      if id in s.flows && s.flows[id].written < |s.flows[id].script| {
        PutStep(s, written, id);
      } else {
        PutNothing(s, id);
      }
    case _ => AccountedElse(s, a, written);
  }

  lemma {:induction false} AlwaysAccounted(actions: seq<Action>)
    ensures Accounted(Play(actions).flows, Written(actions))
  {
    if actions != [] {
      var init := actions[..|actions| - 1];
      AlwaysAccounted(init);
      PlayKeeps(init);
      hide Sound, Act, Accounted, Added;
      AccountedStep(Play(init), actions[|actions| - 1], Written(init));
    }
  }

  /** In every interleaving of every handler's messages on one connection, the bytes written so far, read back, hold of
      each request exactly the part of its response that was written: they show an earlier stage of what its handler
      described, and all of it once its last message is written. */
  lemma BytesShowEachResponse(j: Json, actions: seq<Action>, id: ReqID)
    requires Inverse(j) && AllSendable(j, Written(actions)) && id in Play(actions).flows
    ensures var flow := Play(actions).flows[id];
            var shown := Render(EMPTY, Of(ReadBytes(j, BytesOf(j, Written(actions))), id));
      && Stage(shown, Meaning(flow.calls))
      && (flow.written == |flow.script| ==> shown == Meaning(flow.calls))
  {
    var s := Play(actions);
    AlwaysAccounted(actions);
    PlayKeeps(actions);
    ReadBack(j, Written(actions));
    assert FlowOk(s, id);
    var flow := s.flows[id];
    assert Account(flow, Of(Written(actions), id));
    hide Play, Written, Sound, Emitted, Render, ReadBytes;
    RenderEmitted(id, flow.calls);
    PrefixIsStage(EMPTY, flow.script, flow.written);
    assert flow.script[..|flow.script|] == flow.script;
  }
}

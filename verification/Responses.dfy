/** One proxied response: what a handler writes, the messages the node sends for it (internal/tunnel/client.go),
    and what the gateway hands to its HTTP client (internal/gateway/server.go). */
module Responses {
  import opened Wrappers
  import opened Frames
  import Text

  type ReqID = seq<Byte>

  /** Header names are written in lower case, in which equal names are equal strings. */
  type Header = map<string, seq<string>>

  const CHUNK := 64 * 1024
  const ID_LENGTH := 16
  const OK_STATUS := 200

  datatype Message =
    | Head(id: ReqID, status: int, header: Header)
    | Body(id: ReqID, data: seq<Byte>)
    | End(id: ReqID)

  // ----- hop-by-hop headers -----

  const CONNECTION := "connection"
  const HOP_BY_HOP := {CONNECTION, "keep-alive", "proxy-authenticate", "proxy-authorization", "te", "trailer",
                       "transfer-encoding", "upgrade"}

  /** `StripHop`: drops the hop-by-hop headers and those the Connection header names. */
  function StripHop(h: Header): Header {
    map k | k in h && k !in HOP_BY_HOP && !NamedByConnection(h, k) :: h[k]
  }

  predicate NamedByConnection(h: Header, k: string) {
    CONNECTION in h && exists v <- h[CONNECTION] :: Text.Lower(v) == k
  }

  /** Stripping on the node and again on the gateway is stripping once. */
  lemma StripTwice(h: Header)
    ensures StripHop(StripHop(h)) == StripHop(h)
    ensures StripHop(map[]) == map[]
  {
    assert CONNECTION !in StripHop(h);
  }

  // ----- body frames -----

  function Padded(id: ReqID): (r: seq<Byte>)
    ensures |r| == ID_LENGTH
    ensures |id| == ID_LENGTH ==> r == id
  {
    seq(ID_LENGTH, i requires 0 <= i < ID_LENGTH => if i < |id| then id[i] else 0)
  }

  /** A 16-byte id, cut or zero-filled as `copy` does, then the data. */
  method EncodeBody(id: ReqID, data: seq<Byte>) returns (out: array<Byte>)
    ensures fresh(out) && out[..] == Padded(id) + data
  {
    out := new Byte[ID_LENGTH + |data|](i => 0);
    var i := 0;
    while i < ID_LENGTH && i < |id|
      invariant 0 <= i <= ID_LENGTH && i <= |id|
      invariant forall k :: 0 <= k < i ==> out[k] == id[k]
      invariant forall k :: i <= k < out.Length ==> out[k] == 0
    {
      out[i] := id[i];
      i := i + 1;
    }
    for j := 0 to |data|
      invariant forall k :: 0 <= k < ID_LENGTH ==> out[k] == Padded(id)[k]
      invariant forall k :: 0 <= k < j ==> out[ID_LENGTH + k] == data[k]
    {
      out[ID_LENGTH + j] := data[j];
    }
    assert out[..] == out[..ID_LENGTH] + out[ID_LENGTH..];
    assert out[..ID_LENGTH] == Padded(id) && out[ID_LENGTH..] == data;
  }

  function DecodeBody(payload: seq<Byte>): Option<(ReqID, seq<Byte>)> {
    if |payload| < ID_LENGTH then None else Some((payload[..ID_LENGTH], payload[ID_LENGTH..]))
  }

  /** Decoding undoes encoding exactly for ids of 16 bytes. */
  lemma DecodeBodyInverts(id: ReqID, data: seq<Byte>)
    ensures DecodeBody(Padded(id) + data) == Some((Padded(id), data))
    ensures DecodeBody(Padded(id) + data) == Some((id, data)) <==> |id| == 16
  {
    assert (Padded(id) + data)[..ID_LENGTH] == Padded(id);
    assert (Padded(id) + data)[ID_LENGTH..] == data;
  }

  // ----- what the node sends -----

  /** The chunks `streamWriter.Write` cuts its argument into. */
  function Chunks(p: seq<Byte>): seq<seq<Byte>>
    decreases |p|
  {
    if p == [] then []
    else
      var n := if CHUNK > |p| then |p| else CHUNK;
      [p[..n]] + Chunks(p[n..])
  }

  function Flatten(pieces: seq<seq<Byte>>): seq<Byte> {
    if pieces == [] then [] else pieces[0] + Flatten(pieces[1..])
  }

  /** Chunks are nonempty, at most 64 KiB, fit a frame with their id, and concatenate to the argument. */
  lemma {:induction false} ChunksCover(p: seq<Byte>)
    ensures Flatten(Chunks(p)) == p
    ensures forall i :: 0 <= i < |Chunks(p)| ==> 0 < |Chunks(p)[i]| <= 65_536 && ID_LENGTH + |Chunks(p)[i]| <= MAX_FRAME
    decreases |p|
  {
    if p != [] {
      var n := if CHUNK > |p| then |p| else CHUNK;
      ChunksCover(p[n..]);
      assert p == p[..n] + p[n..];
      assert Chunks(p)[1..] == Chunks(p[n..]);
    }
  }

  /** No more chunks than needed: all but the last are full. */
  lemma {:induction false} ChunksAreFull(p: seq<Byte>)
    ensures forall i :: 0 <= i < |Chunks(p)| - 1 ==> |Chunks(p)[i]| == 65_536
    decreases |p|
  {
    if p != [] {
      var n := if CHUNK > |p| then |p| else CHUNK;
      ChunksAreFull(p[n..]);
    }
  }

  function Bodies(id: ReqID, pieces: seq<seq<Byte>>): (ms: seq<Message>)
    ensures |ms| == |pieces|
  {
    if pieces == [] then [] else [Body(id, pieces[0])] + Bodies(id, pieces[1..])
  }

  /** What a handler does with its response writer. */
  datatype Call = SetHeader(name: string, values: seq<string>) | WriteHeader(code: int) | Write(data: seq<Byte>)

  function Lead(id: ReqID, header: Header, wrote: bool, code: int): seq<Message> {
    if wrote then [] else [Head(id, code, StripHop(header))]
  }

  /** The messages for the remaining calls of a handler. */
  function Emitted(id: ReqID, header: Header, wrote: bool, calls: seq<Call>): seq<Message>
    decreases |calls|
  {
    if calls == [] then Lead(id, header, wrote, OK_STATUS) + [End(id)]
    else match calls[0]
      case SetHeader(name, values) => Emitted(id, header[name := values], wrote, calls[1..])
      case WriteHeader(code) => Lead(id, header, wrote, code) + Emitted(id, header, true, calls[1..])
      case Write(data) =>
        Lead(id, header, wrote, OK_STATUS) + Bodies(id, Chunks(data)) + Emitted(id, header, true, calls[1..])
  }

  /** The first `n` messages, or all of them. */
  function Take(ms: seq<Message>, n: nat): seq<Message> {
    if n < |ms| then ms[..n] else ms
  }

  function Left(room: nat, used: nat): nat {
    if used <= room then room - used else 0
  }

  lemma TakeAppend(a: seq<Message>, b: seq<Message>, room: nat)
    ensures Take(a + b, room) == Take(a, room) + Take(b, Left(room, |a|))
    ensures Left(room, |a + b|) == Left(Left(room, |a|), |b|)
  {
  }

  lemma TakeNone(room: nat)
    ensures Take([], room) == []
  {
  }

  /** The response writer a handler is given, over a connection that takes `room` more frames before it breaks. */
  class StreamWriter {
    const id: ReqID
    var header: Header
    var wrote: bool
    var sent: seq<Message>
    var room: nat

    constructor (id: ReqID, room: nat)
      ensures this.id == id && header == map[] && !wrote && sent == [] && this.room == room
    {
      this.id, this.room := id, room;
      header, wrote, sent := map[], false, [];
    }

    method Send(m: Message) returns (ok: bool)
      modifies this`sent, this`room
      ensures ok <==> old(room) > 0
      ensures sent == old(sent) + Take([m], old(room)) && room == Left(old(room), 1)
    {
      ok := room > 0;
      if ok {
        sent, room := sent + [m], room - 1;
      }
    }

    method WriteHeader(code: int)
      modifies this`wrote, this`sent, this`room
      ensures wrote
      ensures var ms := Lead(id, header, old(wrote), code);
        sent == old(sent) + Take(ms, old(room)) && room == Left(old(room), |ms|)
    {
      if wrote {
        return;
      }
      wrote := true;
      var ok := Send(Head(id, code, StripHop(header)));
    }

    /** The loop of `Write`: sends chunk after chunk until the connection breaks. */
    method WriteChunks(p: seq<Byte>) returns (n: nat, ok: bool)
      modifies this`sent, this`room
      ensures n <= |p| && (ok <==> |Chunks(p)| <= old(room)) && (ok ==> n == |p|)
      ensures sent == old(sent) + Take(Bodies(id, Chunks(p)), old(room)) && room == Left(old(room), |Chunks(p)|)
    {
      var rest := p;
      ghost var all, gone := Bodies(id, Chunks(p)), 0;
      n := 0;
      while |rest| > 0
        invariant n + |rest| == |p|
        invariant gone <= |all| && Chunks(rest) == Chunks(p)[gone..]
        invariant gone <= old(room) && room == old(room) - gone && sent == old(sent) + all[..gone]
        decreases |rest|
      {
        var size := CHUNK;
        if size > |rest| {
          size := |rest|;
        }
        NextChunk(id, p, gone, rest);
        var sentIt := Send(Body(id, rest[..size]));
        if !sentIt {
          return n, false;
        }
        n := n + size;
        rest := rest[size..];
        gone := gone + 1;
      }
      assert all[..gone] == all;
      return n, true;
    }

    /** `Write`: the header first if it is still due, then the chunks; cut short only by a broken connection. */
    method Write(p: seq<Byte>) returns (n: nat, ok: bool)
      modifies this`wrote, this`sent, this`room
      ensures wrote && n <= |p|
      ensures var ms := Lead(id, header, old(wrote), OK_STATUS) + Bodies(id, Chunks(p));
        && sent == old(sent) + Take(ms, old(room)) && room == Left(old(room), |ms|)
        && (|ms| <= old(room) ==> ok && n == |p|) && (ok ==> n == |p|)
    {
      hide StripHop, Chunks, Take;
      ghost var lead, bodies := Lead(id, header, wrote, OK_STATUS), Bodies(id, Chunks(p));
      TakeAppend(lead, bodies, room);
      TakeNone(room);
      Associative(sent, Take(lead, room), Take(bodies, Left(room, |lead|)));
      assert sent + [] == sent;
      if !wrote {
        WriteHeader(OK_STATUS);
      }
      n, ok := WriteChunks(p);
    }
  }

  lemma NextChunk(id: ReqID, p: seq<Byte>, gone: nat, rest: seq<Byte>)
    requires gone <= |Chunks(p)| && Chunks(rest) == Chunks(p)[gone..] && rest != []
    ensures var size := if CHUNK > |rest| then |rest| else CHUNK;
      && gone < |Chunks(p)|
      && Bodies(id, Chunks(p))[..gone + 1] == Bodies(id, Chunks(p))[..gone] + [Body(id, rest[..size])]
      && Chunks(rest[size..]) == Chunks(p)[gone + 1..]
  {
    var size := if CHUNK > |rest| then |rest| else CHUNK;
    var all := Chunks(p);
    DropNext(all, gone, [rest[..size]] + Chunks(rest[size..]));
    BodiesAt(id, all, gone);
    TakeNext(Bodies(id, all), gone);
  }

  lemma DropNext<T>(all: seq<T>, i: nat, rest: seq<T>)
    requires i <= |all| && all[i..] == rest && rest != []
    ensures i < |all| && all[i] == rest[0] && all[i + 1..] == rest[1..]
  {
  }

  lemma TakeNext<T>(all: seq<T>, i: nat)
    requires i < |all|
    ensures all[..i + 1] == all[..i] + [all[i]]
  {
  }

  const BAD_REQUEST := 400
  const CONTENT_TYPE := "content-type"
  const PLAIN_TEXT := ["text/plain; charset=utf-8"]

  /** The text "invalid request". */
  const INVALID_REQUEST: seq<Byte> := [105, 110, 118, 97, 108, 105, 100, 32, 114, 101, 113, 117, 101, 115, 116]

  /** `writeError` means what a handler would by these calls. */
  function Refusal(text: seq<Byte>): seq<Call> {
    [SetHeader(CONTENT_TYPE, PLAIN_TEXT), WriteHeader(BAD_REQUEST), Write(text)]
  }

  lemma RefusalEmitted(id: ReqID, text: seq<Byte>)
    requires 0 < |text| <= CHUNK
    ensures Emitted(id, map[], false, Refusal(text))
         == [Head(id, BAD_REQUEST, map[CONTENT_TYPE := PLAIN_TEXT]), Body(id, text), End(id)]
  {
    var header: Header := map[CONTENT_TYPE := PLAIN_TEXT];
    var calls := Refusal(text);
    assert StripHop(header) == header;
    hide StripHop;
    assert calls[1..] == [WriteHeader(BAD_REQUEST), Write(text)] && calls[1..][1..] == [Write(text)];
    assert [Write(text)][1..] == [];
    assert text[|text|..] == [] && text[..|text|] == text;
    assert Chunks([]) == [] && Chunks(text) == [text];
    assert [text][1..] == [];
    assert Bodies(id, [text]) == [Body(id, text)];
    assert Emitted(id, header, true, []) == [End(id)];
    assert Emitted(id, header, true, [Write(text)]) == [Body(id, text), End(id)];
    assert Emitted(id, header, false, calls[1..]) == [Head(id, BAD_REQUEST, header), Body(id, text), End(id)];
    assert map[][CONTENT_TYPE := PLAIN_TEXT] == header;
  }

  /** `writeError` for a request that cannot be made: three messages, whatever became of the ones before. */
  method WriteError(w: StreamWriter)
    modifies w
    ensures w.sent == old(w.sent) + Take(Emitted(w.id, map[], false, Refusal(INVALID_REQUEST)), old(w.room))
  {
    RefusalEmitted(w.id, INVALID_REQUEST);
    var head, body := Head(w.id, BAD_REQUEST, map[CONTENT_TYPE := PLAIN_TEXT]), Body(w.id, INVALID_REQUEST);
    hide Emitted, StripHop;
    TakeAppend([head], [body], w.room);
    TakeAppend([head] + [body], [End(w.id)], w.room);
    assert [head] + [body] + [End(w.id)] == [head, body, End(w.id)];
    var headSent := w.Send(head);
    var bodySent := w.Send(body);
    var endSent := w.Send(End(w.id));
  }

  /** `handleHTTP`: runs the handler against a fresh writer, adds the header if none was written, and ends the response;
      a request that cannot be made is answered with an error instead. */
  method HandleHTTP(id: ReqID, usable: bool, calls: seq<Call>, room: nat) returns (w: StreamWriter)
    ensures fresh(w)
    ensures w.sent == if |id| == ID_LENGTH
                      then Take(Emitted(id, map[], false, if usable then calls else Refusal(INVALID_REQUEST)), room)
                      else []
  {
    hide StripHop, Chunks, Bodies, Refusal;
    w := new StreamWriter(id, room);
    if |id| != ID_LENGTH {
      return;
    }
    if !usable {
      WriteError(w);
      return;
    }
    ghost var all, done: seq<Message> := Emitted(id, map[], false, calls), [];
    for i := 0 to |calls|
      invariant w.id == id && fresh(w)
      invariant all == done + Emitted(id, w.header, w.wrote, calls[i..])
      invariant w.sent == Take(done, room) && w.room == Left(room, |done|)
    {
      ghost var ms: seq<Message> := [];
      ghost var rest := calls[i..];
      assert rest[1..] == calls[i + 1..];
      match calls[i] {
        case SetHeader(name, values) =>
          w.header := w.header[name := values];
        case WriteHeader(code) =>
          ms := Lead(id, w.header, w.wrote, code);
          TakeAppend(done, ms, room);
          w.WriteHeader(code);
        case Write(data) =>
          ms := Lead(id, w.header, w.wrote, OK_STATUS) + Bodies(id, Chunks(data));
          TakeAppend(done, ms, room);
          var n, ok := w.Write(data);
      }
      Associative(done, ms, Emitted(id, w.header, w.wrote, calls[i + 1..]));
      done := done + ms;
    }
    ghost var lead := Lead(id, w.header, w.wrote, OK_STATUS);
    TakeAppend(done, lead, room);
    TakeAppend(done + lead, [End(id)], room);
    Associative(done, lead, [End(id)]);
    if !w.wrote {
      w.WriteHeader(OK_STATUS);
    }
    var sentIt := w.Send(End(id));
  }

  lemma {:induction false} BodiesAt(id: ReqID, pieces: seq<seq<Byte>>, i: nat)
    requires i < |pieces|
    ensures Bodies(id, pieces)[i] == Body(id, pieces[i])
  {
    if i > 0 {
      BodiesAt(id, pieces[1..], i - 1);
    }
  }

  // ----- what the gateway writes -----

  /** What an HTTP client of the gateway has received; the first status decides. */
  datatype Output = Output(status: Option<int>, header: Header, body: seq<Byte>)

  const EMPTY := Output(None, map[], [])

  function Started(out: Output, code: int, header: Header): Output {
    if out.status.Some? then out else out.(status := Some(if code == 0 then OK_STATUS else code), header := header)
  }

  /** The effect of one message on the client. */
  function Rendered(out: Output, m: Message): Output {
    match m
    case Head(_, code, header) => Started(out, code, StripHop(header))
    case Body(_, data) => var o := Started(out, OK_STATUS, map[]); o.(body := o.body + data)
    case End(_) => out
  }

  function Render(out: Output, ms: seq<Message>): Output
    decreases |ms|
  {
    if ms == [] then out else Render(Rendered(out, ms[0]), ms[1..])
  }

  // ----- what the handler meant -----

  function StatusOf(calls: seq<Call>): int {
    if calls == [] then OK_STATUS
    else match calls[0]
      case SetHeader(_, _) => StatusOf(calls[1..])
      case WriteHeader(code) => if code == 0 then OK_STATUS else code
      case Write(_) => OK_STATUS
  }

  function HeaderOf(header: Header, calls: seq<Call>): Header
    decreases |calls|
  {
    if calls != [] && calls[0].SetHeader?
    then HeaderOf(header[calls[0].name := calls[0].values], calls[1..]) else header
  }

  function BodyOf(calls: seq<Call>): seq<Byte> {
    if calls == [] then [] else (if calls[0].Write? then calls[0].data else []) + BodyOf(calls[1..])
  }

  /** The response a handler's calls describe. */
  function Meaning(calls: seq<Call>): Output {
    Output(Some(StatusOf(calls)), StripHop(HeaderOf(map[], calls)), BodyOf(calls))
  }

  lemma {:induction false} RenderAppend(out: Output, a: seq<Message>, b: seq<Message>)
    ensures Render(out, a + b) == Render(Render(out, a), b)
    decreases |a|
  {
    if a == [] {
      assert a + b == b;
    } else {
      assert (a + b)[1..] == a[1..] + b;
      RenderAppend(Rendered(out, a[0]), a[1..], b);
    }
  }

  lemma {:induction false} RenderBodies(out: Output, id: ReqID, pieces: seq<seq<Byte>>)
    requires out.status.Some?
    ensures Render(out, Bodies(id, pieces)) == out.(body := out.body + Flatten(pieces))
    decreases |pieces|
  {
    if pieces == [] {
      assert out.body + [] == out.body;
    } else {
      RenderBodies(out.(body := out.body + pieces[0]), id, pieces[1..]);
      Associative(out.body, pieces[0], Flatten(pieces[1..]));
    }
  }

  /** After the status is out, the remaining messages add exactly the remaining body. */
  lemma {:induction false} RenderRest(out: Output, id: ReqID, header: Header, calls: seq<Call>)
    requires out.status.Some?
    ensures Render(out, Emitted(id, header, true, calls)) == out.(body := out.body + BodyOf(calls))
    decreases |calls|
  {
    if calls == [] {
      assert Emitted(id, header, true, calls) == [End(id)] && [End(id)][1..] == [];
      assert out.body + [] == out.body;
    } else {
      match calls[0]
      case SetHeader(name, values) => RenderRest(out, id, header[name := values], calls[1..]);
      case WriteHeader(code) =>
        assert Emitted(id, header, true, calls) == Emitted(id, header, true, calls[1..]);
        RenderRest(out, id, header, calls[1..]);
      case Write(data) =>
        RenderWrite(out, id, header, data, calls[1..]);
        RenderRest(out.(body := out.body + data), id, header, calls[1..]);
        Associative(out.body, data, BodyOf(calls[1..]));
        assert [calls[0]] + calls[1..] == calls;
    }
  }

  lemma EmittedWrite(id: ReqID, header: Header, data: seq<Byte>, calls: seq<Call>)
    ensures Emitted(id, header, true, [Write(data)] + calls)
              == Bodies(id, Chunks(data)) + Emitted(id, header, true, calls)
  {
    hide Chunks, Bodies;
    var all := [Write(data)] + calls;
    assert all[0] == Write(data) && all[1..] == calls;
  }

  lemma RenderWrite(out: Output, id: ReqID, header: Header, data: seq<Byte>, calls: seq<Call>)
    requires out.status.Some?
    ensures Render(out, Emitted(id, header, true, [Write(data)] + calls))
         == Render(out.(body := out.body + data), Emitted(id, header, true, calls))
  {
    hide Emitted, Chunks, Render, Bodies;
    EmittedWrite(id, header, data, calls);
    RenderAppend(out, Bodies(id, Chunks(data)), Emitted(id, header, true, calls));
    RenderBodies(out, id, Chunks(data));
    ChunksCover(data);
  }

  lemma {:induction false} RenderFromStart(id: ReqID, header: Header, calls: seq<Call>)
    ensures Render(EMPTY, Emitted(id, header, false, calls))
         == Output(Some(StatusOf(calls)), StripHop(HeaderOf(header, calls)), BodyOf(calls))
    decreases |calls|
  {
    var strip := StripHop(header);
    StripTwice(header);
    hide StripHop;
    if calls == [] {
      RenderAppend(EMPTY, [Head(id, OK_STATUS, strip)], [End(id)]);
    } else {
      match calls[0]
      case SetHeader(name, values) => RenderFromStart(id, header[name := values], calls[1..]);
      case WriteHeader(code) =>
        RenderAppend(EMPTY, [Head(id, code, strip)], Emitted(id, header, true, calls[1..]));
        RenderRest(Started(EMPTY, code, strip), id, header, calls[1..]);
      case Write(data) =>
        var lead, bodies := [Head(id, OK_STATUS, strip)], Bodies(id, Chunks(data));
        var later := Emitted(id, header, true, calls[1..]);
        Associative(lead, bodies, later);
        RenderAppend(EMPTY, lead, bodies + later);
        RenderAppend(Started(EMPTY, OK_STATUS, strip), bodies, later);
        RenderBodies(Started(EMPTY, OK_STATUS, strip), id, Chunks(data));
        ChunksCover(data);
        assert [] + data == data;
        RenderRest(Started(EMPTY, OK_STATUS, strip).(body := data), id, header, calls[1..]);
    }
  }

  /** Rendering everything a handler emitted gives exactly the response its calls describe. */
  lemma RenderEmitted(id: ReqID, calls: seq<Call>)
    ensures Render(EMPTY, Emitted(id, map[], false, calls)) == Meaning(calls)
  {
    RenderFromStart(id, map[], calls);
  }

  lemma InvalidText()
    ensures |INVALID_REQUEST| == 15 && forall i :: 0 <= i < 15 ==> INVALID_REQUEST[i] == "invalid request"[i] as int
  {
  }

  /** A request that cannot be made is answered with status 400 and the words "invalid request" as plain text. */
  lemma UnusableIsAnswered(id: ReqID)
    ensures var out := Render(EMPTY, Emitted(id, map[], false, Refusal(INVALID_REQUEST)));
      && out.status == Some(400)
      && out.header == map["content-type" := ["text/plain; charset=utf-8"]]
      && |out.body| == 15 && forall i :: 0 <= i < 15 ==> out.body[i] == "invalid request"[i] as int
  {
    InvalidText();
    var text := INVALID_REQUEST;
    RefusalEmitted(id, text);
    var header: Header := map[CONTENT_TYPE := PLAIN_TEXT];
    assert StripHop(header) == header;
    hide StripHop, Emitted, INVALID_REQUEST;
    RenderThree(Head(id, BAD_REQUEST, header), Body(id, text), End(id));
    assert [] + text == text;
  }

  lemma RenderThree(a: Message, b: Message, c: Message)
    ensures Render(EMPTY, [a, b, c]) == Rendered(Rendered(Rendered(EMPTY, a), b), c)
  {
    hide Rendered;
    var x, y := Rendered(EMPTY, a), Rendered(Rendered(EMPTY, a), b);
    assert [a, b, c][1..] == [b, c] && [b, c][1..] == [c] && [c][1..] == [];
    assert Render(EMPTY, [a, b, c]) == Render(x, [b, c]) == Render(y, [c]) == Render(Rendered(y, c), []);
  }

  /** `a` is an earlier stage of response `b`. */
  ghost predicate Stage(a: Output, b: Output) {
    && a.body <= b.body
    && (a.status.None? ==> a.body == [])
    && (a.status.Some? ==> a.status == b.status && a.header == b.header)
  }

  lemma {:induction false} RenderGrows(out: Output, ms: seq<Message>)
    requires out.status.None? ==> out.body == []
    ensures Stage(out, Render(out, ms))
    decreases |ms|
  {
    if ms != [] {
      RenderGrows(Rendered(out, ms[0]), ms[1..]);
    }
  }

  /** Rendering the first messages of a response gives an earlier stage of it. */
  lemma PrefixIsStage(out: Output, ms: seq<Message>, k: nat)
    requires k <= |ms| && (out.status.None? ==> out.body == [])
    ensures Stage(Render(out, ms[..k]), Render(out, ms))
  {
    hide Rendered, StripHop;
    RenderGrows(out, ms[..k]);
    assert ms[..k] + ms[k..] == ms;
    RenderAppend(out, ms[..k], ms[k..]);
    var mid := Render(out, ms[..k]);
    assert mid.status.None? ==> mid.body == [] by {
      RenderKeepsOrder(out, ms[..k]);
    }
    RenderGrows(mid, ms[k..]);
  }

  lemma {:induction false} RenderKeepsOrder(out: Output, ms: seq<Message>)
    requires out.status.None? ==> out.body == []
    ensures var r := Render(out, ms); r.status.None? ==> r.body == []
    decreases |ms|
  {
    if ms != [] {
      RenderKeepsOrder(Rendered(out, ms[0]), ms[1..]);
    }
  }

  /** Every message of a response carries its id, and only the last one is an End. */
  lemma {:induction false} EmittedShape(id: ReqID, header: Header, wrote: bool, calls: seq<Call>)
    ensures var ms := Emitted(id, header, wrote, calls);
      ms != [] && forall i :: 0 <= i < |ms| ==> ms[i].id == id && (ms[i].End? <==> i == |ms| - 1)
    decreases |calls|
  {
    if calls != [] {
      match calls[0]
      case SetHeader(name, values) => EmittedShape(id, header[name := values], wrote, calls[1..]);
      case WriteHeader(code) => EmittedShape(id, header, true, calls[1..]);
      case Write(data) =>
        EmittedShape(id, header, true, calls[1..]);
        forall i | 0 <= i < |Bodies(id, Chunks(data))|
          ensures Bodies(id, Chunks(data))[i] == Body(id, Chunks(data)[i])
        {
          BodiesAt(id, Chunks(data), i);
        }
    }
  }

  /** Between the head of a response and its End there are only body messages, none of them empty. */
  lemma {:induction false} EmittedMiddle(id: ReqID, header: Header, wrote: bool, calls: seq<Call>)
    ensures var ms := Emitted(id, header, wrote, calls);
      && |ms| >= (if wrote then 1 else 2)
      && forall i :: (if wrote then 0 else 1) <= i < |ms| - 1 ==> ms[i].Body? && ms[i].data != []
    decreases |calls|
  {
    if calls != [] {
      match calls[0]
      case SetHeader(name, values) => EmittedMiddle(id, header[name := values], wrote, calls[1..]);
      case WriteHeader(code) => EmittedMiddle(id, header, true, calls[1..]);
      case Write(data) =>
        EmittedMiddle(id, header, true, calls[1..]);
        ChunksCover(data);
        forall i | 0 <= i < |Bodies(id, Chunks(data))|
          ensures Bodies(id, Chunks(data))[i] == Body(id, Chunks(data)[i])
        {
          BodiesAt(id, Chunks(data), i);
        }
    }
  }

  /** Once the status is out, the first messages of a response show all of it exactly when only its End may be
      missing. */
  lemma PrefixIsWhole(id: ReqID, calls: seq<Call>, k: nat)
    requires var ms := Emitted(id, map[], false, calls); 1 <= k <= |ms|
    ensures var ms := Emitted(id, map[], false, calls);
      Render(EMPTY, ms[..k]) == Meaning(calls) <==> k >= |ms| - 1
  {
    var ms := Emitted(id, map[], false, calls);
    EmittedMiddle(id, map[], false, calls);
    EmittedShape(id, map[], false, calls);
    RenderEmitted(id, calls);
    hide Emitted;
    assert ms == ms[..k] + ms[k..];
    RenderAppend(EMPTY, ms[..k], ms[k..]);
    var out, rest := Render(EMPTY, ms[..k]), ms[k..];
    if k == |ms| {
      assert rest == [];
    } else {
      assert Render(out, rest) == Render(Rendered(out, rest[0]), rest[1..]);
      if k == |ms| - 1 {
        assert rest == [ms[k]] && rest[1..] == [];
      } else {
        RenderKeepsOrder(EMPTY, ms[..k]);
        RenderKeepsOrder(Rendered(out, rest[0]), rest[1..]);
        RenderGrows(Rendered(out, rest[0]), rest[1..]);
        assert |Rendered(out, rest[0]).body| > |out.body|;
      }
    }
  }
}

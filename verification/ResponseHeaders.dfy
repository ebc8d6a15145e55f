/** Which status and which headers of a handler's response arrive, told from its calls alone. */
module ResponseHeaders {
  import opened Wrappers
  import opened Responses
  import Text
  import Demux

  /** Call `j` is made before the head goes out: up to it the handler only sets headers. */
  predicate BeforeHead(calls: seq<Call>, j: int) {
    0 <= j < |calls| && forall i :: 0 <= i <= j ==> calls[i].SetHeader?
  }

  /** The last time `name` is set before the head goes out, it is set to `values`. */
  ghost predicate LastSet(calls: seq<Call>, name: string, values: seq<string>) {
    exists j :: BeforeHead(calls, j) && calls[j] == SetHeader(name, values) && NotSetAfter(calls, j, name)
  }

  predicate NotSetAfter(calls: seq<Call>, j: int, name: string) {
    forall i :: j < i < |calls| && BeforeHead(calls, i) ==> calls[i].name != name
  }

  /** The headers no proxy forwards, and those that some value the Connection header had by then names. */
  ghost predicate HopByHop(calls: seq<Call>, name: string) {
    || name == "connection" || name == "keep-alive" || name == "proxy-authenticate" || name == "proxy-authorization"
    || name == "te" || name == "trailer" || name == "transfer-encoding" || name == "upgrade"
    || exists values, v :: LastSet(calls, "connection", values) && v in values && Text.Lower(v) == name
  }

  predicate Holds(h: Header, name: string, values: seq<string>) {
    name in h && h[name] == values
  }

  lemma BeforeHeadNext(call: Call, calls: seq<Call>, j: int)
    requires call.SetHeader?
    ensures 0 <= j ==> (BeforeHead([call] + calls, j + 1) <==> BeforeHead(calls, j))
    ensures BeforeHead([call] + calls, 0)
  {
    var all := [call] + calls;
    if 0 <= j && BeforeHead(all, j + 1) {
      assert forall i :: 0 <= i <= j ==> calls[i] == all[i + 1];
    }
    if BeforeHead(calls, j) {
      assert forall i :: 0 < i <= j + 1 ==> all[i] == calls[i - 1];
    }
  }

  lemma NotSetNext(call: Call, calls: seq<Call>, j: int, name: string)
    requires call.SetHeader? && 0 <= j
    ensures NotSetAfter([call] + calls, j + 1, name) <==> NotSetAfter(calls, j, name)
    ensures NotSetAfter([call] + calls, 0, name) <==> NotSetAfter(calls, -1, name)
  {
    var all := [call] + calls;
    forall i | 0 <= i < |calls| ensures all[i + 1] == calls[i] && (BeforeHead(all, i + 1) <==> BeforeHead(calls, i)) {
      BeforeHeadNext(call, calls, i);
    }
    hide BeforeHead;
    forall k: int | k == j || k == -1
      ensures NotSetAfter(all, k + 1, name) <==> NotSetAfter(calls, k, name)
    {
      if NotSetAfter(all, k + 1, name) {
        forall i | k < i < |calls| && BeforeHead(calls, i) ensures calls[i].name != name {
          assert BeforeHead(all, i + 1) by { BeforeHeadAt(calls, i); }
        }
      }
      if NotSetAfter(calls, k, name) {
        forall i | k + 1 < i < |all| && BeforeHead(all, i) ensures all[i].name != name {
          assert all[i] == calls[i - 1];
        }
      }
    }
  }

  lemma BeforeHeadAt(calls: seq<Call>, i: int)
    requires BeforeHead(calls, i)
    ensures 0 <= i < |calls| && calls[i].SetHeader?
  {
  }

  /** The header when the head goes out: what was last set, or what was there before. */
  lemma {:induction false} HeaderOfExactly(h: Header, calls: seq<Call>, name: string, values: seq<string>)
    ensures Holds(HeaderOf(h, calls), name, values) <==>
            LastSet(calls, name, values) || (Holds(h, name, values) && NotSetAfter(calls, -1, name))
    decreases |calls|
  {
    if calls == [] || !calls[0].SetHeader? {
      assert forall j :: !BeforeHead(calls, j);
    } else {
      var call, rest := calls[0], calls[1..];
      assert calls == [call] + rest;
      HeaderOfExactly(h[call.name := call.values], rest, name, values);
      LastSetNext(call, rest, name, values);
      NotSetFirst(call, rest, name);
    }
  }

  lemma NotSetFirst(call: Call, rest: seq<Call>, name: string)
    requires call.SetHeader?
    ensures NotSetAfter([call] + rest, -1, name) <==> call.name != name && NotSetAfter(rest, -1, name)
  {
    var all := [call] + rest;
    NotSetNext(call, rest, 0, name);
    BeforeHeadNext(call, rest, 0);
    assert all[0] == call;
    hide BeforeHead;
    assert NotSetAfter(all, -1, name) <==> all[0].name != name && NotSetAfter(all, 0, name) by {
      if NotSetAfter(all, 0, name) && all[0].name != name {
        forall i | -1 < i < |all| && BeforeHead(all, i) ensures all[i].name != name {
          assert i == 0 || 0 < i;
        }
      }
    }
  }

  lemma LastSetNext(call: Call, rest: seq<Call>, name: string, values: seq<string>)
    requires call.SetHeader?
    ensures LastSet([call] + rest, name, values) <==>
      LastSet(rest, name, values) || (call == SetHeader(name, values) && NotSetAfter(rest, -1, name))
  {
    var all := [call] + rest;
    BeforeHeadNext(call, rest, 0);
    NotSetNext(call, rest, 0, name);
    forall j | 0 <= j < |rest|
      ensures all[j + 1] == rest[j]
      ensures BeforeHead(all, j + 1) <==> BeforeHead(rest, j)
      ensures NotSetAfter(all, j + 1, name) <==> NotSetAfter(rest, j, name)
    {
      BeforeHeadNext(call, rest, j);
      NotSetNext(call, rest, j, name);
    }
    hide NotSetAfter;
    if LastSet(all, name, values) {
      var j :| BeforeHead(all, j) && all[j] == SetHeader(name, values) && NotSetAfter(all, j, name);
      if j > 0 {
        assert BeforeHead(rest, j - 1) && rest[j - 1] == all[j];
      }
    }
    if LastSet(rest, name, values) {
      var j :| BeforeHead(rest, j) && rest[j] == SetHeader(name, values) && NotSetAfter(rest, j, name);
      assert BeforeHead(all, j + 1) && all[j + 1] == rest[j];
    }
    if call == SetHeader(name, values) && NotSetAfter(rest, -1, name) {
      assert BeforeHead(all, 0) && all[0] == call;
    }
  }

  lemma LastSetIs(calls: seq<Call>, name: string, values: seq<string>)
    ensures Holds(HeaderOf(map[], calls), name, values) <==> LastSet(calls, name, values)
  {
    HeaderOfExactly(map[], calls, name, values);
  }

  lemma HopByHopExactly(calls: seq<Call>, name: string)
    ensures HopByHop(calls, name) <==>
      name in HOP_BY_HOP || NamedByConnection(HeaderOf(map[], calls), name)
  {
    var h := HeaderOf(map[], calls);
    if CONNECTION in h {
      LastSetIs(calls, CONNECTION, h[CONNECTION]);
    }
    if exists values, v :: LastSet(calls, "connection", values) && v in values && Text.Lower(v) == name {
      var values, v :| LastSet(calls, "connection", values) && v in values && Text.Lower(v) == name;
      LastSetIs(calls, CONNECTION, values);
    }
  }

  /** A header arrives with exactly the values it was last set to before the head went out, unless it is a hop-by-hop
      header, and no other header arrives. */
  lemma HeaderArrivesExactly(id: ReqID, calls: seq<Call>, name: string, values: seq<string>)
    ensures Holds(Render(EMPTY, Emitted(id, map[], false, calls)).header, name, values) <==>
            LastSet(calls, name, values) && !HopByHop(calls, name)
  {
    RenderEmitted(id, calls);
    LastSetIs(calls, name, values);
    HopByHopExactly(calls, name);
    hide LastSet, HopByHop, HeaderOf, Render, Emitted, StatusOf, BodyOf, NamedByConnection;
  }

  /** Call `j` is the first that is not a SetHeader; a WriteHeader gives its code, where 0 stands for 200, a Write
      gives 200. */
  predicate Decides(calls: seq<Call>, j: int, code: int) {
    && 0 <= j < |calls| && (forall i :: 0 <= i < j ==> calls[i].SetHeader?)
    && match calls[j]
       case WriteHeader(c) => code == if c == 0 then 200 else c
       case Write(_) => code == 200
       case SetHeader(_, _) => false
  }

  /** The status these calls decide on; 200 where none does. */
  ghost predicate Status(calls: seq<Call>, code: int) {
    if forall i :: 0 <= i < |calls| ==> calls[i].SetHeader? then code == 200 else exists j :: Decides(calls, j, code)
  }

  lemma {:induction false} StatusIs(calls: seq<Call>)
    ensures Status(calls, StatusOf(calls))
  {
    if calls != [] {
      var rest, code := calls[1..], StatusOf(calls);
      if calls[0].SetHeader? {
        StatusIs(rest);
        if i :| 0 <= i < |calls| && !calls[i].SetHeader? {
          assert rest[i - 1] == calls[i];
          var j :| Decides(rest, j, code);
          assert forall i :: 0 < i < j + 1 ==> calls[i] == rest[i - 1];
          assert Decides(calls, j + 1, code);
        }
      } else {
        assert Decides(calls, 0, code);
      }
    }
  }

  /** In every interleaving of the tunnel: once a client has a status, it is the one its handler decided on, and a
      header is there exactly as the handler last set it, unless it is hop-by-hop. */
  lemma ClientHasHeadersExactly(actions: seq<Demux.Action>, id: ReqID, name: string, values: seq<string>)
    requires id in Demux.Play(actions).flows && id in Demux.Play(actions).session.slots
    requires Demux.Play(actions).session.slots[id].out.status.Some?
    ensures var calls, out := Demux.Play(actions).flows[id].calls, Demux.Play(actions).session.slots[id].out;
      && Status(calls, out.status.value)
      && (Holds(out.header, name, values) <==> LastSet(calls, name, values) && !HopByHop(calls, name))
  {
    hide Demux.Play, LastSet, HopByHop, Status, Render, Emitted;
    Demux.EachClientGetsItsOwnResponse(actions, id);
    var calls := Demux.Play(actions).flows[id].calls;
    RenderEmitted(id, calls);
    HeaderArrivesExactly(id, calls, name, values);
    StatusIs(calls);
  }
}

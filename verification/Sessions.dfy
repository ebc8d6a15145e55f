/** One tunnel session on the gateway: the bounded table of pending requests, and who wins when End, close and
    cancellation race (internal/gateway/server.go). */
module Sessions {
  import opened Wrappers
  import opened Responses
  import Frames

  const MAX_PENDING := 32

  /** `nil` from an End frame, or errOffline from a close. */
  datatype Outcome = Done | Offline

  /** A `pending`: what its client received, the one-place result channel, every result ever offered to it,
      and what `proxy` took from the channel. */
  datatype Slot = Slot(out: Output, wrote: bool, errc: seq<Outcome>, offers: seq<Outcome>, taken: Option<Outcome>)

  const FRESH := Slot(EMPTY, false, [], [], None)

  /** A non-blocking send: dropped when the channel is full. */
  function Offer(slot: Slot, o: Outcome): Slot {
    slot.(errc := if slot.errc == [] then [o] else slot.errc, offers := slot.offers + [o])
  }

  /** What `proxy` reports once it has taken its result: offline counts as success when the client already got a
      status. */
  function Report(slot: Slot): Option<Outcome> {
    if slot.taken == Some(Offline) && slot.wrote then Some(Done) else slot.taken
  }

  /** Every request ever admitted, those still pending, and whether the session is closed. */
  datatype State = State(slots: map<ReqID, Slot>, pending: set<ReqID>, closed: bool)

  const START := State(map[], {}, false)

  datatype Step =
    | Admit(id: ReqID)      // proxy's first locked section
    | Release(id: ReqID)    // proxy's deferred removal, also after a cancelled client
    | Receive(id: ReqID)    // proxy takes its result
    | CloseAll              // session.close
    | Deliver(m: Message)   // the reader handles a frame

  predicate CanAdmit(s: State, id: ReqID) {
    !s.closed && |s.pending| < MAX_PENDING && id !in s.slots
  }

  function OnMessage(slot: Slot, m: Message): Slot {
    match m
    case Head(_, _, _) => slot.(out := Rendered(slot.out, m), wrote := true)
    case Body(_, _) => slot.(out := Rendered(slot.out, m), wrote := true)
    case End(_) => Offer(slot, Done)
  }

  function Next(s: State, step: Step): State {
    match step
    case Admit(id) =>
      if CanAdmit(s, id) then s.(slots := s.slots[id := FRESH], pending := s.pending + {id}) else s
    case Release(id) => s.(pending := s.pending - {id})
    case Receive(id) =>
      if id in s.slots && s.slots[id].errc != [] && s.slots[id].taken.None?
      then s.(slots := s.slots[id := s.slots[id].(taken := Some(s.slots[id].errc[0]), errc := s.slots[id].errc[1..])])
      else s
    case CloseAll =>
      if s.closed then s
      else State(map id | id in s.slots :: if id in s.pending then Offer(s.slots[id], Offline) else s.slots[id],
                 {}, true)
    case Deliver(m) =>
      if m.id in s.pending && m.id in s.slots then s.(slots := s.slots[m.id := OnMessage(s.slots[m.id], m)]) else s
  }

  /** What one request's bookkeeping keeps: the channel holds at most one result, the first one offered,
      and whatever was taken was the first one offered. */
  ghost predicate SlotOk(slot: Slot) {
    && |slot.errc| <= 1
    && (slot.taken.None? ==> slot.errc == if slot.offers == [] then [] else [slot.offers[0]])
    && (slot.taken.Some? ==> slot.offers != [] && slot.taken.value == slot.offers[0])
    && (slot.wrote <==> slot.out.status.Some?)
    && (!slot.wrote ==> slot.out.body == [])
  }

  ghost predicate Valid(s: State) {
    && s.pending <= s.slots.Keys && |s.pending| <= MAX_PENDING
    && (s.closed ==> s.pending == {})
    && forall id <- s.slots :: SlotOk(s.slots[id])
  }

  /** What can only move forward in one request's bookkeeping. */
  ghost predicate SlotLater(a: Slot, b: Slot) {
    && a.offers <= b.offers
    && (a.taken.Some? ==> b.taken == a.taken)
    && Stage(a.out, b.out)
  }

  ghost predicate Later(s: State, s': State) {
    && (s.closed ==> s'.closed)
    && forall id <- s.slots ::
      && id in s'.slots && SlotLater(s.slots[id], s'.slots[id])
      && (id !in s.pending ==>
            id !in s'.pending && s'.slots[id].out == s.slots[id].out && s'.slots[id].offers == s.slots[id].offers)
  }

  lemma OfferKeeps(slot: Slot, o: Outcome)
    requires SlotOk(slot)
    ensures SlotOk(Offer(slot, o)) && SlotLater(slot, Offer(slot, o))
  {
  }

  lemma MessageKeeps(slot: Slot, m: Message)
    requires SlotOk(slot)
    ensures SlotOk(OnMessage(slot, m)) && SlotLater(slot, OnMessage(slot, m))
  {
    if m.End? {
      OfferKeeps(slot, Done);
    }
  }

  /** One slot changes, the others and the pending set stay. */
  lemma UpdateKeeps(s: State, id: ReqID, slot: Slot)
    requires Valid(s) && id in s.slots && SlotOk(slot) && SlotLater(s.slots[id], slot)
    requires id !in s.pending ==> slot.out == s.slots[id].out && slot.offers == s.slots[id].offers
    ensures Valid(s.(slots := s.slots[id := slot])) && Later(s, s.(slots := s.slots[id := slot]))
  {
    forall other | other in s.slots
      ensures SlotLater(s.slots[other], s.slots[id := slot][other])
    {
      assert SlotOk(s.slots[other]);
    }
  }

  lemma AdmitKeeps(s: State, id: ReqID)
    requires Valid(s) && CanAdmit(s, id)
    ensures Valid(Next(s, Admit(id))) && Later(s, Next(s, Admit(id)))
  {
    assert SlotOk(FRESH);
    assert forall other <- s.slots :: SlotOk(s.slots[other]);
  }

  lemma CloseKeeps(s: State)
    requires Valid(s) && !s.closed
    ensures Valid(Next(s, CloseAll)) && Later(s, Next(s, CloseAll))
  {
    var s' := Next(s, CloseAll);
    forall id | id in s.slots
      ensures SlotOk(s'.slots[id]) && SlotLater(s.slots[id], s'.slots[id])
    {
      assert SlotOk(s.slots[id]);
      OfferKeeps(s.slots[id], Offline);
    }
  }

  lemma SameIsLater(s: State)
    requires Valid(s)
    ensures Later(s, s)
  {
    assert forall id <- s.slots :: SlotOk(s.slots[id]);
  }

  lemma NextKeeps(s: State, step: Step)
    requires Valid(s)
    ensures Valid(Next(s, step)) && Later(s, Next(s, step))
  {
    SameIsLater(s);
    match step
    case Admit(id) => if CanAdmit(s, id) { AdmitKeeps(s, id); }
    case Release(id) => PendingShrinks(s.pending, id);
    case Receive(id) =>
      if id in s.slots && s.slots[id].errc != [] && s.slots[id].taken.None? {
        UpdateKeeps(s, id, s.slots[id].(taken := Some(s.slots[id].errc[0]), errc := s.slots[id].errc[1..]));
      }
    case CloseAll => if !s.closed { CloseKeeps(s); }
    case Deliver(m) =>
      if m.id in s.pending {
        MessageKeeps(s.slots[m.id], m);
        UpdateKeeps(s, m.id, OnMessage(s.slots[m.id], m));
      }
  }

  lemma NextIsValid(s: State, step: Step)
    requires Valid(s)
    ensures Valid(Next(s, step))
    ensures !step.Admit? ==> Next(s, step).slots.Keys == s.slots.Keys
  {
    NextKeeps(s, step);
  }

  lemma PendingShrinks(pending: set<ReqID>, id: ReqID)
    ensures |pending - {id}| <= |pending|
  {
    if id !in pending {
      assert pending - {id} == pending;
    }
  }

  function Run(s: State, steps: seq<Step>): State {
    if steps == [] then s else Next(Run(s, steps[..|steps| - 1]), steps[|steps| - 1])
  }

  /** In every interleaving of admissions, frames, results, cancellations and closes: at most 32 requests are pending,
      a closed session has none, and each request's result is the first one offered to it. */
  lemma {:induction false} RunKeeps(steps: seq<Step>)
    ensures Valid(Run(START, steps))
  {
    if steps != [] {
      RunKeeps(steps[..|steps| - 1]);
      NextKeeps(Run(START, steps[..|steps| - 1]), steps[|steps| - 1]);
    }
  }

  lemma {:induction false} RunIsLater(s: State, steps: seq<Step>)
    requires Valid(s)
    ensures Valid(Run(s, steps)) && Later(s, Run(s, steps))
  {
    if steps != [] {
      RunIsLater(s, steps[..|steps| - 1]);
      NextKeeps(Run(s, steps[..|steps| - 1]), steps[|steps| - 1]);
      LaterTransitive(s, Run(s, steps[..|steps| - 1]), Run(s, steps));
    } else {
      SameIsLater(s);
    }
  }

  lemma LaterTransitive(a: State, b: State, c: State)
    requires Later(a, b) && Later(b, c)
    ensures Later(a, c)
  {
    forall id | id in a.slots
      ensures SlotLater(a.slots[id], c.slots[id])
    {
      assert SlotLater(a.slots[id], b.slots[id]) && SlotLater(b.slots[id], c.slots[id]);
    }
  }

  /** Closing: it never reverts, nothing is pending afterwards, and every request pending at the close that had no
      result yet is told the node is offline; later End frames cannot change that. */
  lemma CloseDecides(s: State, steps: seq<Step>, id: ReqID)
    requires Valid(s) && id in s.pending
    ensures var s' := Run(Next(s, CloseAll), steps);
      && s'.closed && s'.pending == {}
      && id in s'.slots && s'.slots[id].offers != []
      && (s.slots[id].offers == [] ==> s'.slots[id].offers == [Offline])
      && (s'.slots[id].taken.Some? ==>
            s'.slots[id].taken.value == if s.slots[id].offers == [] then Offline else s.slots[id].offers[0])
  {
    NextKeeps(s, CloseAll);
    RunIsLater(Next(s, CloseAll), steps);
    var closed, s' := Next(s, CloseAll), Run(Next(s, CloseAll), steps);
    assert SlotOk(s'.slots[id]);
    assert s'.slots[id].offers == closed.slots[id].offers == s.slots[id].offers + [Offline];
  }

  /** An End frame handled while the request is pending and undecided decides it: success, whatever happens later. */
  lemma EndDecides(s: State, steps: seq<Step>, id: ReqID)
    requires Valid(s) && id in s.pending && s.slots[id].offers == []
    ensures var s' := Run(Next(s, Deliver(End(id))), steps);
      && id in s'.slots && s'.slots[id].offers != [] && s'.slots[id].offers[0] == Done
      && (s'.slots[id].taken.Some? ==> s'.slots[id].taken.value == Done)
  {
    NextKeeps(s, Deliver(End(id)));
    RunIsLater(Next(s, Deliver(End(id))), steps);
    assert SlotOk(Run(Next(s, Deliver(End(id))), steps).slots[id]);
  }

  /** The session object; its methods are the locked sections and frame handlers. */
  class Session {
    const username: string
    var slots: map<ReqID, Slot>
    var pending: set<ReqID>
    var closed: bool

    function Current(): State
      reads this
    {
      State(slots, pending, closed)
    }

    constructor (username: string)
      ensures this.username == username && Current() == START
    {
      this.username := username;
      slots, pending, closed := map[], {}, false;
    }

    /** `proxy` up to the request being sent; ids are random and not reused. */
    method Enter(id: ReqID) returns (ok: bool)
      requires id !in slots
      modifies this
      ensures ok <==> CanAdmit(old(Current()), id)
      ensures Current() == Next(old(Current()), Admit(id))
    {
      if closed || |pending| >= MAX_PENDING {
        return false;
      }
      slots := slots[id := FRESH];
      pending := pending + {id};
      return true;
    }

    method Leave(id: ReqID)
      modifies this`pending
      ensures Current() == Next(old(Current()), Release(id))
    {
      pending := pending - {id};
    }

    /** The end of `proxy`. */
    method Await(id: ReqID) returns (r: Option<Outcome>)
      requires id in slots && slots[id].taken.None?
      modifies this`slots
      ensures Current() == Next(old(Current()), Receive(id))
      ensures r == Report(slots[id])
      ensures r.Some? <==> old(slots)[id].errc != []
    {
      var p := slots[id];
      if p.errc == [] {
        return None;
      }
      slots := slots[id := p.(taken := Some(p.errc[0]), errc := p.errc[1..])];
      return Some(if p.errc[0] == Offline && p.wrote then Done else p.errc[0]);
    }

    method Close()
      modifies this
      ensures Current() == Next(old(Current()), CloseAll)
    {
      if closed {
        return;
      }
      closed := true;
      while pending != {}
        invariant closed && pending <= old(pending) && slots.Keys == old(slots).Keys
        invariant forall id <- slots ::
          slots[id] == (if id in old(pending) && id !in pending then Offer(old(slots)[id], Offline) else old(slots)[id])
      {
        var id :| id in pending;
        if id in slots {
          slots := slots[id := Offer(slots[id], Offline)];
        }
        pending := pending - {id};
      }
    }

    method OnHead(id: ReqID, status: int, header: Header)
      requires Valid(Current())
      modifies this`slots
      ensures Current() == Next(old(Current()), Deliver(Head(id, status, header)))
    {
      if id !in pending {
        return;
      }
      var p := slots[id];
      var out := Started(p.out, if status == 0 then OK_STATUS else status, StripHop(header));
      slots := slots[id := p.(out := out, wrote := true)];
    }

    method OnBody(id: ReqID, data: seq<Frames.Byte>)
      requires Valid(Current())
      modifies this`slots
      ensures Current() == Next(old(Current()), Deliver(Body(id, data)))
    {
      if id !in pending {
        return;
      }
      var p := slots[id];
      if !p.wrote {
        p := p.(out := Started(p.out, OK_STATUS, map[]), wrote := true);
      }
      assert SlotOk(old(slots)[id]);
      p := p.(out := p.out.(body := p.out.body + data));
      slots := slots[id := p];
    }

    method OnEnd(id: ReqID)
      requires Valid(Current())
      modifies this`slots
      ensures Current() == Next(old(Current()), Deliver(End(id)))
    {
      if id !in pending {
        return;
      }
      slots := slots[id := Offer(slots[id], Done)];
    }
  }
}

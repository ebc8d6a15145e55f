/** Which POSTs are dispatched and why the others are refused, with every limit written out, over runs in which the
    steps of different POSTs interleave. */
module InboxAdmission {
  import opened Wrappers
  import opened Text
  import opened Letters
  import opened Spelling
  import opened Inbox
  import opened InboxLaws

  /** The body has between one byte and one MiB, the signature is valid, and the Date is at most half a minute ahead of
      the clock and at most twelve hours behind it. */
  predicate Authenticated(w: World, r: Request, at: int) {
    1 <= r.size <= 1_048_576 && w.authentic(r) && at - 43_200 <= r.date <= at + 30
  }

  /** The document names an actor by an HTTP IRI. */
  predicate NamesActor(w: World, r: Request) {
    r.activity.Some? && r.activity.value.actor != "" && w.isHTTP(r.activity.value.actor)
  }

  /** It is the actor whose document the signature's key came with, letter by letter up to case and a slash. */
  predicate FromSigner(r: Request)
    requires r.activity.Some?
  {
    r.signer.id != "" ==> SpeltAlike(r.activity.value.actor, r.signer.id)
  }

  /** The checks before the block lookup, as what each answer means. */
  lemma CheckedExactly(w: World, replay: map<string, int>, r: Request, at: int)
    ensures var seen, result := w.hashOf(r.signature) in replay, Checked(w, replay, r, at);
      && (result.Ok? <==> Authenticated(w, r, at) && !seen && NamesActor(w, r) && FromSigner(r))
      && (result.Ok? ==> r.activity == Some(result.value))
      && (result == Err(Replayed) <==> Authenticated(w, r, at) && seen)
      && (result == Err(BadActivity) <==>
            !(1 <= r.size <= 1_048_576) || (Authenticated(w, r, at) && !seen && !NamesActor(w, r)))
      && (result == Err(Unauthorized) <==>
            && 1 <= r.size <= 1_048_576
            && (!Authenticated(w, r, at) || (!seen && NamesActor(w, r) && !FromSigner(r))))
  {
    if r.activity.Some? {
      SameIRIExactly(r.activity.value.actor, r.signer.id);
    }
    hide SameIRI, SpeltAlike;
  }

  /** In every run a POST is dispatched exactly when its body, signature and Date are in order at the clock it read, its
      signature is not in the replay table it met, its actor is its signer, and neither the actor nor its host is among
      the blocks it met. */
  lemma DispatchedExactly(w: World, t: Tables, steps: seq<Step>, m: int)
    requires WellFormed(steps) && 0 <= m < |steps| && steps[m].action.Remember?
    ensures var r, c, a := RequestOf(steps, m), CheckOf(steps, m), Prior(steps, m);
      && c < a < m
      && (InboxLaws.Dispatched(w, t, steps, m) <==>
            && Authenticated(w, r, steps[c].read) && NamesActor(w, r) && FromSigner(r)
            && w.hashOf(r.signature) !in Play(w, t, steps, c).replay
            && r.activity.value.actor !in Play(w, t, steps, a).blocks
            && w.hostOf(r.activity.value.actor) !in Play(w, t, steps, a).blocks)
  {
    var a := Prior(steps, m);
    assert Linked(steps, m) && Linked(steps, a);
    var c := Prior(steps, a);
    hide WellFormed, Play, Checked, Authenticated, NamesActor, FromSigner;
    assert CheckOf(steps, c) == c == CheckOf(steps, a) == CheckOf(steps, m);
    var r := RequestOf(steps, m);
    CheckedExactly(w, Play(w, t, steps, c).replay, r, steps[c].read);
    assert Passed(w, t, steps, c) <==> Checked(w, Play(w, t, steps, c).replay, r, steps[c].read).Ok?;
    assert Passed(w, t, steps, m) <==> Passed(w, t, steps, a);
    assert Passed(w, t, steps, a) <==>
      Passed(w, t, steps, c) && !Blocked(w, Play(w, t, steps, a).blocks, r.activity.value);
  }

  /** A POST in order but for its actor, which is spelt otherwise than its signer, is refused as unauthorized, and none
      of its steps changes any table. */
  lemma OtherActorIsRefused(w: World, t: Tables, steps: seq<Step>, k: int)
    requires WellFormed(steps) && 0 <= k < |steps| && !steps[k].action.Local?
    requires var r := RequestOf(steps, k);
             && r.activity.Some? && r.signer.id != "" && !SpeltAlike(r.activity.value.actor, r.signer.id)
    ensures var r, c := RequestOf(steps, k), CheckOf(steps, k);
      Authenticated(w, r, steps[c].read) && NamesActor(w, r)
          && w.hashOf(r.signature) !in Play(w, t, steps, c).replay ==>
        Checked(w, Play(w, t, steps, c).replay, r, steps[c].read) == Err(Unauthorized)
    ensures !Passed(w, t, steps, k) && Play(w, t, steps, k + 1) == Play(w, t, steps, k)
  {
    var c := CheckOf(steps, k);
    hide Checked, Authenticated, NamesActor, SpeltAlike, WellFormed;
    CheckedExactly(w, Play(w, t, steps, c).replay, RequestOf(steps, k), steps[c].read);
    PassedThroughCheck(w, t, steps, k);
  }

  lemma {:induction false} PassedThroughCheck(w: World, t: Tables, steps: seq<Step>, k: int)
    requires WellFormed(steps) && 0 <= k < |steps| && !steps[k].action.Local?
    ensures var c := CheckOf(steps, k);
      Passed(w, t, steps, k) ==> Checked(w, Play(w, t, steps, c).replay, RequestOf(steps, k), steps[c].read).Ok?
    decreases k
  {
    hide Checked, Play, Blocked;
    assert Linked(steps, k);
    if !steps[k].action.Check? {
      PassedThroughCheck(w, t, steps, Prior(steps, k));
    }
  }

  /** The same of a single call of `Process`: it answers unauthorized and leaves the tables it met. */
  lemma OtherActorVerdict(w: World, r: Request, m: Meeting)
    requires Authenticated(w, r, m.verifiedAt) && NamesActor(w, r) && w.hashOf(r.signature) !in m.seen.replay
    requires r.signer.id != "" && !SpeltAlike(r.activity.value.actor, r.signer.id)
    ensures VerdictOf(w, r, m) == Rejected(Unauthorized) && LeftBy(w, r, m) == m.seen
  {
    CheckedExactly(w, m.seen.replay, r, m.verifiedAt);
    hide Checked, SpeltAlike;
  }

  // ----- pruning -----

  lemma RememberedExactly(replay: map<string, int>, hash: string, now: int, h: string)
    ensures var kept := if h == hash && h !in replay then Some(now) else if h in replay then Some(replay[h]) else None;
      && (h in Remembered(replay, hash, now) <==> kept.Some? && kept.value >= now - 86_400)
      && (h in Remembered(replay, hash, now) ==> Remembered(replay, hash, now)[h] == kept.value)
  {
  }

  /** Remembering a POST leaves no entry older than a day, and loses none that is younger. */
  lemma PrunedExactly(w: World, t: Tables, steps: seq<Step>, m: int, h: string)
    requires WellFormed(steps) && InboxLaws.Dispatched(w, t, steps, m)
    ensures var before, after := Play(w, t, steps, m).replay, Play(w, t, steps, m + 1).replay;
      && (h in after ==> after[h] >= steps[m].read - 86_400)
      && (h in before && before[h] >= steps[m].read - 86_400 ==> h in after && after[h] == before[h])
      && (h in after && h !in before ==> h == HashAt(w, steps, m) && after[h] == steps[m].read)
  {
    hide Play, Passed, WellFormed, CheckOf, Remembered;
    ReplayAfter(w, t, steps, m);
    RememberedExactly(Play(w, t, steps, m).replay, HashAt(w, steps, m), steps[m].read, h);
  }
}

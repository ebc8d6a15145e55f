/** From an index change to queued deliveries (internal/federation/publish.go, internal/federation/store.go):
    one delivery per distinct inbox among the followers read. */
module Publishing {
  import opened Numbers
  import opened Queue
  import opened Text
  import opened Wrappers
  import Indexer

  const DEFAULT_PAGE := 20

  datatype Follower = Follower(actor: string, inbox: string, sharedInbox: string)

  /** A page of the accepted followers, given in the order the query sorts them; a limit over 80 falls back to 20. */
  function ListFollowers(accepted: seq<Follower>, offset: int, limit: int): seq<Follower> {
    var size := if limit <= 0 || limit > 80 then DEFAULT_PAGE else limit;
    var from := if offset < 0 then 0 else offset;
    if from >= |accepted| then []
    else if from + size >= |accepted| then accepted[from..] else accepted[from..from + size]
  }

  function AcceptedInboxes(accepted: seq<Follower>): seq<Follower> {
    ListFollowers(accepted, 0, 10000)
  }

  /** Where a follower gets its deliveries: the shared inbox if it has one. */
  function Effective(f: Follower): string {
    if f.sharedInbox != "" then f.sharedInbox else f.inbox
  }

  function Inboxes(list: seq<Follower>): set<string> {
    set f | f in list && Effective(f) != "" :: Effective(f)
  }

  lemma InboxesNext(list: seq<Follower>, f: Follower)
    ensures Inboxes(list + [f]) == Inboxes(list) + if Effective(f) != "" then {Effective(f)} else {}
  {
    assert forall g :: g in list + [f] <==> g in list || g == f;
  }

  /** `after` is `before` plus one new delivery of `activity` to each inbox of `targets` not queued for it yet. */
  ghost predicate FannedOut(before: Rows, after: Rows, targets: set<string>, activity: string, payload: Payload) {
    && before <= after
    && (forall i :: |before| <= i < |after| ==>
          && after[i].inbox in targets && !Queued(before, after[i].inbox, activity)
          && after[i] == NewJob(after[i].inbox, activity, payload, after[i].nextAt))
    && (forall i, j :: |before| <= i < j < |after| ==> after[i].inbox != after[j].inbox)
    && (forall inbox <- targets :: Queued(after, inbox, activity))
  }

  lemma FanOutNext(before: Rows, after: Rows, targets: set<string>, activity: string, payload: Payload, inbox: string,
                   now: int)
    requires FannedOut(before, after, targets, activity, payload)
    ensures FannedOut(before,
      if Queued(after, inbox, activity) then after else after + [NewJob(inbox, activity, payload, now)],
      targets + {inbox}, activity, payload)
  {
    var after' := if Queued(after, inbox, activity) then after else after + [NewJob(inbox, activity, payload, now)];
    if after' != after {
      assert after'[|after|].inbox == inbox && after'[|after|].activity == activity;
    }
    forall other | other in targets + {inbox}
      ensures Queued(after', other, activity)
    {
      if other in targets {
        var i :| 0 <= i < |after| && after[i].inbox == other && after[i].activity == activity;
        assert after'[i] == after[i];
      }
    }
  }

  /** The new rows are due as soon as they were queued, between the two clock readings. */
  ghost predicate DueFrom(before: Rows, after: Rows, from: int, to: int) {
    forall i :: |before| <= i < |after| ==> from <= after[i].nextAt <= to
  }

  lemma DueNext(before: Rows, after: Rows, from: int, to: int, inbox: string, activity: string, payload: Payload,
                now: int)
    requires DueFrom(before, after, from, to) && from <= to <= now
    ensures DueFrom(before, if Queued(after, inbox, activity) then after
                            else after + [NewJob(inbox, activity, payload, now)], from, now)
  {
  }

  lemma DueNone(rows: Rows, from: int, to: int)
    ensures DueFrom(rows, rows, from, to)
  {
  }

  lemma NoneFannedOut(rows: Rows, activity: string, payload: Payload)
    ensures Inboxes([]) == {} && FannedOut(rows, rows, {}, activity, payload)
  {
  }

  // ----- activity ids -----

  const ACTIVITIES := "/activities/"
  const UPDATES := "/updates/"
  const DELETES := "/deletes/"

  /** The id of the activity for a change: the file's own for a Create, and the second as well for the others. */
  function ActivityID(actor: string, ch: Indexer.Change, now: int): string {
    actor + ACTIVITIES + (ch.rec.id + Suffix(ch.kind, now))
  }

  function Suffix(kind: Indexer.Kind, now: int): string {
    match kind
    case Create => ""
    case Update => UPDATES + Decimal(now)
    case Delete => DELETES + Decimal(now)
  }

  /** Every activity id lies below the actor, and a Create is at the file's own place there. */
  lemma IdBelowActor(actor: string, ch: Indexer.Change, now: int)
    ensures actor + "/activities/" + ch.rec.id <= ActivityID(actor, ch, now)
    ensures ch.kind == Indexer.Create ==> ActivityID(actor, ch, now) == actor + "/activities/" + ch.rec.id
  {
    var base, suffix := actor + ACTIVITIES, Suffix(ch.kind, now);
    assert ch.rec.id + "" == ch.rec.id;
    assert base + (ch.rec.id + suffix) == base + ch.rec.id + suffix;
  }

  lemma SuffixDetermines(k1: Indexer.Kind, now1: int, k2: Indexer.Kind, now2: int)
    ensures Suffix(k1, now1) == Suffix(k2, now2) <==> k1 == k2 && (k1 == Indexer.Create || now1 == now2)
  {
    var s1, s2 := Suffix(k1, now1), Suffix(k2, now2);
    if s1 == s2 && k1 == k2 != Indexer.Create {
      assert s1[|UPDATES|..] == Decimal(now1) && s2[|UPDATES|..] == Decimal(now2);
      DecimalDetermines(now1, now2);
    }
    assert k1 == Indexer.Update ==> s1[1] == 'u';
    assert k1 == Indexer.Delete ==> s1[1] == 'd';
    assert k2 == Indexer.Update ==> s2[1] == 'u';
    assert k2 == Indexer.Delete ==> s2[1] == 'd';
  }

  /** Two changes share an activity id exactly when they are of one kind, about one file, and, unless they are
      Creates, in one second. File ids hold no slash. */
  lemma SameIdExactly(actor: string, a: Indexer.Change, now1: int, b: Indexer.Change, now2: int)
    requires '/' !in a.rec.id && '/' !in b.rec.id
    ensures ActivityID(actor, a, now1) == ActivityID(actor, b, now2) <==>
            a.rec.id == b.rec.id && a.kind == b.kind && (a.kind == Indexer.Create || now1 == now2)
  {
    var base := actor + ACTIVITIES;
    var s, t := a.rec.id + Suffix(a.kind, now1), b.rec.id + Suffix(b.kind, now2);
    SuffixDetermines(a.kind, now1, b.kind, now2);
    assert ActivityID(actor, a, now1)[|base|..] == s && ActivityID(actor, b, now2)[|base|..] == t;
    if s == t {
      FileThenSuffix(a.rec.id, a.kind, now1, b.rec.id, b.kind, now2);
    }
  }

  lemma FileThenSuffix(a: string, k1: Indexer.Kind, now1: int, b: string, k2: Indexer.Kind, now2: int)
    requires '/' !in a && '/' !in b && a + Suffix(k1, now1) == b + Suffix(k2, now2)
    ensures a == b && Suffix(k1, now1) == Suffix(k2, now2)
  {
    SuffixStarts(k1, now1);
    SuffixStarts(k2, now2);
    hide Suffix;
    CutAtSlash(a, Suffix(k1, now1));
    CutAtSlash(b, Suffix(k2, now2));
  }

  lemma CutAtSlash(a: string, rest: string)
    requires '/' !in a && (rest != "" ==> rest[0] == '/')
    ensures Cut(a + rest, '/') == if rest == "" then None else Some((a, rest[1..]))
    ensures rest == "" ==> a + rest == a
    ensures rest != "" ==> rest == ['/'] + rest[1..]
  {
    if rest == "" {
      CutNone(a, '/');
      assert a + rest == a;
    } else {
      CutFirst(a, '/', rest[1..]);
      assert rest == ['/'] + rest[1..];
    }
  }

  lemma SuffixStarts(kind: Indexer.Kind, now: int)
    ensures Suffix(kind, now) != "" ==> Suffix(kind, now)[0] == '/'
  {
  }

  class Publisher {
    const store: Store
    var activities: map<string, Payload>

    constructor (store: Store)
      ensures this.store == store && activities == map[]
    {
      this.store := store;
      activities := map[];
    }

    /** Saves the activity and queues it once per distinct inbox; nothing at all while paused. The document and its
        encoding are a parameter. */
    method OnIndexChange(paused: bool, actor: string, accepted: seq<Follower>, ch: Indexer.Change,
                         encode: (string, Indexer.Change) -> Payload)
      returns (ghost readAt: int)
      modifies this, store
      ensures old(store.clock) <= readAt <= store.clock
      ensures paused ==> store.rows == old(store.rows) && activities == old(activities)
      ensures !paused ==>
                var id := ActivityID(actor, ch, readAt);
                && activities == old(activities)[id := encode(id, ch)]
                && FannedOut(old(store.rows), store.rows, Inboxes(AcceptedInboxes(accepted)), id, encode(id, ch))
                && DueFrom(old(store.rows), store.rows, readAt, store.clock)
    {
      hide Decimal, Queued, DueFrom, FannedOut, Inboxes;
      readAt := store.clock;
      if paused {
        return;
      }
      var id := actor + ACTIVITIES + ch.rec.id;
      match ch.kind {
        case Create =>
          assert ch.rec.id + "" == ch.rec.id;
        case Update =>
          var now := store.Now();
          readAt := now;
          id := actor + ACTIVITIES + (ch.rec.id + (UPDATES + Decimal(now)));
        case Delete =>
          var now := store.Now();
          readAt := now;
          id := actor + ACTIVITIES + (ch.rec.id + (DELETES + Decimal(now)));
      }
      assert id == ActivityID(actor, ch, readAt);
      var payload := encode(id, ch);
      activities := activities[id := payload];
      var followers := AcceptedInboxes(accepted);
      var seen: set<string> := {};
      NoneFannedOut(store.rows, id, payload);
      DueNone(store.rows, readAt, store.clock);
      for i := 0 to |followers|
        invariant activities == old(activities)[id := payload] && readAt <= store.clock
        invariant seen == Inboxes(followers[..i])
        invariant FannedOut(old(store.rows), store.rows, seen, id, payload)
        invariant DueFrom(old(store.rows), store.rows, readAt, store.clock)
      {
        var f := followers[i];
        assert followers[..i + 1] == followers[..i] + [f];
        InboxesNext(followers[..i], f);
        var inbox := f.inbox;
        if f.sharedInbox != "" {
          inbox := f.sharedInbox;
        }
        assert inbox == Effective(f);
        if inbox != "" && inbox !in seen {
          ghost var rows, start := store.rows, store.clock;
          store.Enqueue(inbox, id, payload);
          DueNext(old(store.rows), rows, readAt, start, inbox, id, payload, store.clock);
          FanOutNext(old(store.rows), rows, seen, id, payload, inbox, store.clock);
          seen := seen + {inbox};
        }
      }
      assert followers[..|followers|] == followers;
    }
  }

  /** The rows of one activity for one inbox. */
  function RowsFor(rows: Rows, inbox: string, activity: string): set<nat> {
    set i | 0 <= i < |rows| && rows[i].inbox == inbox && rows[i].activity == activity
  }

  /** At most one row per inbox and activity. */
  ghost predicate Distinct(rows: Rows) {
    forall i, j :: 0 <= i < j < |rows| ==> !(rows[i].inbox == rows[j].inbox && rows[i].activity == rows[j].activity)
  }

  /** A publication leaves exactly one row per inbox it is meant for, none for others, and changes no earlier row. */
  lemma OneRowPerInbox(before: Rows, after: Rows, targets: set<string>, activity: string, payload: Payload)
    requires Distinct(before) && FannedOut(before, after, targets, activity, payload)
    ensures Distinct(after)
    ensures forall inbox <- targets :: |RowsFor(after, inbox, activity)| == 1
    ensures forall inbox :: inbox !in targets ==> RowsFor(after, inbox, activity) == RowsFor(before, inbox, activity)
    ensures forall inbox, other :: other != activity ==> RowsFor(after, inbox, other) == RowsFor(before, inbox, other)
  {
    forall i, j | 0 <= i < j < |after|
      ensures !(after[i].inbox == after[j].inbox && after[i].activity == after[j].activity)
    {
      if i < |before| <= j {
        assert before[i] == after[i];
        assert !Queued(before, after[j].inbox, activity);
      }
    }
    forall inbox | inbox in targets
      ensures |RowsFor(after, inbox, activity)| == 1
    {
      var i :| 0 <= i < |after| && after[i].inbox == inbox && after[i].activity == activity;
      assert RowsFor(after, inbox, activity) == {i};
    }
  }

  /** Publishing the same activity id to the same followers again adds nothing and revives nothing. */
  lemma RepublishingAddsNothing(before: Rows, once: Rows, twice: Rows, targets: set<string>, activity: string,
                                p: Payload, q: Payload)
    requires FannedOut(before, once, targets, activity, p) && FannedOut(once, twice, targets, activity, q)
    ensures twice == once
  {
    NewRowsAreForNewInboxes(once, twice, targets, activity, q);
  }

  /** A row is only added for an inbox that had none. */
  lemma NewRowsAreForNewInboxes(before: Rows, after: Rows, targets: set<string>, activity: string, payload: Payload)
    requires FannedOut(before, after, targets, activity, payload)
    ensures after == before || exists inbox <- targets :: !Queued(before, inbox, activity)
  {
    if |before| < |after| {
      assert after[|before|].inbox in targets && !Queued(before, after[|before|].inbox, activity);
    }
  }

  /** Of two changes published one after the other to the same inboxes, the second gets rows of its own if and only if
      it is not of the same kind, about the same file and, unless a Create, in the same second. Otherwise its document
      replaces the saved one and is never queued. */
  lemma ChangeIsQueuedExactly(actor: string, a: Indexer.Change, now1: int, b: Indexer.Change, now2: int, before: Rows,
                              once: Rows, twice: Rows, targets: set<string>, p: Payload, q: Payload)
    requires '/' !in a.rec.id && '/' !in b.rec.id && targets != {}
    requires FannedOut(before, once, targets, ActivityID(actor, a, now1), p)
    requires FannedOut(once, twice, targets, ActivityID(actor, b, now2), q)
    requires forall inbox <- targets :: !Queued(before, inbox, ActivityID(actor, b, now2))
    ensures twice != once <==> !(a.rec.id == b.rec.id && a.kind == b.kind && (a.kind == Indexer.Create || now1 == now2))
  {
    SameIdExactly(actor, a, now1, b, now2);
    var id1, id2 := ActivityID(actor, a, now1), ActivityID(actor, b, now2);
    hide ActivityID;
    if id1 == id2 {
      RepublishingAddsNothing(before, once, twice, targets, id1, p, q);
    } else {
      var inbox :| inbox in targets;
      OtherIdAddsNothing(before, once, targets, id1, p, inbox, id2);
      assert Queued(twice, inbox, id2);
    }
  }

  lemma OtherIdAddsNothing(before: Rows, after: Rows, targets: set<string>, activity: string, payload: Payload,
                           inbox: string, other: string)
    requires FannedOut(before, after, targets, activity, payload) && other != activity
    requires !Queued(before, inbox, other)
    ensures !Queued(after, inbox, other)
  {
    forall i | 0 <= i < |after| ensures !(after[i].inbox == inbox && after[i].activity == other) {
      if i < |before| {
        assert after[i] == before[i];
      }
    }
  }

  /** Deliveries for this follower go to its shared inbox if it has one, else to its own. */
  predicate GoesTo(f: Follower, inbox: string) {
    inbox != "" && (inbox == f.sharedInbox || (f.sharedInbox == "" && inbox == f.inbox))
  }

  /** A fresh activity is queued for an inbox exactly when deliveries for one of the first twenty accepted followers go
      there. */
  lemma QueuedExactly(accepted: seq<Follower>, before: Rows, after: Rows, activity: string, payload: Payload,
                      inbox: string)
    requires forall i :: 0 <= i < |before| ==> before[i].activity != activity
    requires FannedOut(before, after, Inboxes(AcceptedInboxes(accepted)), activity, payload)
    ensures Queued(after, inbox, activity) <==> exists k :: 0 <= k < |accepted| && k < 20 && GoesTo(accepted[k], inbox)
  {
    var read := AcceptedInboxes(accepted);
    assert read == if |accepted| <= 20 then accepted else accepted[..20];
    assert inbox in Inboxes(read) <==> exists k :: 0 <= k < |accepted| && k < 20 && GoesTo(accepted[k], inbox) by {
      if inbox in Inboxes(read) {
        var k :| 0 <= k < |read| && Effective(read[k]) == inbox;
        assert GoesTo(accepted[k], inbox);
      }
      if k :| 0 <= k < |accepted| && k < 20 && GoesTo(accepted[k], inbox) {
        assert read[k] == accepted[k] && Effective(read[k]) == inbox;
      }
    }
    if Queued(after, inbox, activity) {
      var i :| 0 <= i < |after| && after[i].inbox == inbox && after[i].activity == activity;
      assert i >= |before|;
    }
  }

  /** Every accepted follower with an inbox gets a fresh activity exactly when the followers past the first 20 bring no
      inbox of their own: the list read is cut to one default page. */
  lemma WhoIsServed(accepted: seq<Follower>, before: Rows, after: Rows, activity: string, payload: Payload)
    requires forall i :: 0 <= i < |before| ==> before[i].activity != activity
    requires FannedOut(before, after, Inboxes(AcceptedInboxes(accepted)), activity, payload)
    ensures (forall f <- accepted :: Effective(f) != "" ==> Queued(after, Effective(f), activity))
       <==> (forall k :: DEFAULT_PAGE <= k < |accepted| && Effective(accepted[k]) != "" ==>
               Effective(accepted[k]) in Inboxes(accepted[..DEFAULT_PAGE]))
    ensures |accepted| <= DEFAULT_PAGE ==> forall f <- accepted :: Effective(f) != "" ==>
              Queued(after, Effective(f), activity)
  {
    var read := AcceptedInboxes(accepted);
    assert read == if |accepted| <= DEFAULT_PAGE then accepted else accepted[..DEFAULT_PAGE];
    forall inbox
      ensures Queued(after, inbox, activity) <==> inbox in Inboxes(read)
    {
      if Queued(after, inbox, activity) {
        var i :| 0 <= i < |after| && after[i].inbox == inbox && after[i].activity == activity;
        assert i >= |before|;
      }
    }
    forall k | 0 <= k < |accepted| && k < DEFAULT_PAGE && Effective(accepted[k]) != ""
      ensures Effective(accepted[k]) in Inboxes(read)
    {
      assert accepted[k] == read[k];
    }
  }

  /** Twenty-one followers, each with an inbox of its own. */
  function TwentyOne(): (accepted: seq<Follower>)
    ensures |accepted| == 21
  {
    seq(21, i requires 0 <= i < 21 => Follower(Itoa(i), Itoa(i), ""))
  }

  /** The last of them is accepted and has an inbox, and a fresh activity is not queued for it. */
  lemma LastOfTwentyOneIsMissed(before: Rows, after: Rows, activity: string, payload: Payload)
    requires forall i :: 0 <= i < |before| ==> before[i].activity != activity
    requires FannedOut(before, after, Inboxes(AcceptedInboxes(TwentyOne())), activity, payload)
    ensures Effective(TwentyOne()[20]) != "" && !Queued(after, Effective(TwentyOne()[20]), activity)
  {
    var accepted, last := TwentyOne(), Effective(TwentyOne()[20]);
    var read := AcceptedInboxes(accepted);
    assert read == accepted[..20];
    assert last !in Inboxes(read) by {
      forall f | f in read ensures Effective(f) != last {
        var i :| 0 <= i < 20 && f == accepted[i];
        DigitsOfItoa(i);
        DigitsOfItoa(20);
      }
    }
    forall i | 0 <= i < |after| ensures !(after[i].inbox == last && after[i].activity == activity) {
      if i < |before| {
        assert after[i] == before[i];
      }
    }
  }
}

/** From emitted changes to what one inbox is sent: a change is queued only if its activity id is new, so replaying the
    queue can differ from replaying the changes. */
module QueuedChanges {
  import opened Indexer
  import opened IndexerLaws
  import opened Publishing
  import opened Wrappers
  import FileStore
  import Queue

  datatype Publication = Publication(ch: Change, at: int)

  function IdOf(actor: string, p: Publication): string {
    ActivityID(actor, p.ch, p.at)
  }

  /** The last publication repeats the activity id of an earlier one. */
  predicate Repeats(actor: string, pubs: seq<Publication>)
    requires pubs != []
  {
    exists j :: 0 <= j < |pubs| - 1 && IdOf(actor, pubs[j]) == IdOf(actor, pubs[|pubs| - 1])
  }

  /** The publications whose activity id is new. */
  function Fresh(actor: string, pubs: seq<Publication>): seq<Publication> {
    if pubs == [] then []
    else Fresh(actor, pubs[..|pubs| - 1]) + if Repeats(actor, pubs) then [] else [pubs[|pubs| - 1]]
  }

  function Changes(pubs: seq<Publication>): (changes: seq<Change>)
    ensures |changes| == |pubs| && forall i :: 0 <= i < |pubs| ==> changes[i] == pubs[i].ch
  {
    seq(|pubs|, i requires 0 <= i < |pubs| => pubs[i].ch)
  }

  // ----- what is queued -----

  /** Deliveries change rows but not what they deliver or where. */
  ghost predicate SameKeys(a: Queue.Rows, b: Queue.Rows) {
    |a| == |b| && forall i :: 0 <= i < |a| ==> a[i].inbox == b[i].inbox && a[i].activity == b[i].activity
  }

  /** Publications one after the other, each reaching `inbox`, with deliveries in between. */
  ghost predicate IsPublished(actor: string, inbox: string, pubs: seq<Publication>, states: seq<Queue.Rows>) {
    && |states| == |pubs| + 1
    && forall k :: 0 <= k < |pubs| ==> PublishedStep(actor, inbox, pubs[k], states[k], states[k + 1])
  }

  ghost predicate PublishedStep(actor: string, inbox: string, p: Publication, rows: Queue.Rows, rows': Queue.Rows) {
    exists mid, targets, payload ::
      SameKeys(rows, mid) && inbox in targets && FannedOut(mid, rows', targets, IdOf(actor, p), payload)
  }

  /** The activities queued for one inbox, in the order of the queue. */
  function QueuedFor(rows: Queue.Rows, inbox: string): seq<string> {
    if rows == [] then []
    else
      var last := rows[|rows| - 1];
      QueuedFor(rows[..|rows| - 1], inbox) + if last.inbox == inbox then [last.activity] else []
  }

  function Ids(actor: string, pubs: seq<Publication>): (ids: seq<string>)
    ensures |ids| == |pubs| && forall i :: 0 <= i < |pubs| ==> ids[i] == IdOf(actor, pubs[i])
  {
    seq(|pubs|, i requires 0 <= i < |pubs| => IdOf(actor, pubs[i]))
  }

  lemma {:induction false} QueuedIn(rows: Queue.Rows, inbox: string, activity: string)
    ensures activity in QueuedFor(rows, inbox) <==> Queue.Queued(rows, inbox, activity)
  {
    if rows != [] {
      var init, last := rows[..|rows| - 1], rows[|rows| - 1];
      QueuedIn(init, inbox, activity);
      if Queue.Queued(init, inbox, activity) {
        var i :| 0 <= i < |init| && init[i].inbox == inbox && init[i].activity == activity;
        assert rows[i] == init[i];
      }
      if i :| 0 <= i < |rows| && rows[i].inbox == inbox && rows[i].activity == activity {
        assert i < |init| ==> init[i] == rows[i];
      }
    }
  }

  lemma {:induction false} SameKeysQueued(a: Queue.Rows, b: Queue.Rows, inbox: string)
    requires SameKeys(a, b)
    ensures QueuedFor(a, inbox) == QueuedFor(b, inbox)
  {
    if a != [] {
      SameKeysQueued(a[..|a| - 1], b[..|b| - 1], inbox);
    }
  }

  /** New rows for other inboxes add nothing to this one's queue, and a new row for it adds its activity. */
  lemma {:induction false} QueuedAppend(before: Queue.Rows, after: Queue.Rows, inbox: string, k: nat)
    requires before <= after && |before| <= k <= |after|
    requires forall i, j :: |before| <= i < j < |after| ==> after[i].inbox != after[j].inbox
    ensures (forall i :: |before| <= i < k ==> after[i].inbox != inbox) ==>
              QueuedFor(after[..k], inbox) == QueuedFor(before, inbox)
    ensures forall i :: |before| <= i < k && after[i].inbox == inbox ==>
              QueuedFor(after[..k], inbox) == QueuedFor(before, inbox) + [after[i].activity]
  {
    if k == |before| {
      assert after[..k] == before;
    } else {
      QueuedAppend(before, after, inbox, k - 1);
      assert after[..k][..k - 1] == after[..k - 1] && after[..k][k - 1] == after[k - 1];
      var here := if after[k - 1].inbox == inbox then [after[k - 1].activity] else [];
      assert QueuedFor(after[..k], inbox) == QueuedFor(after[..k - 1], inbox) + here;
      assert QueuedFor(after[..k - 1], inbox) + [] == QueuedFor(after[..k - 1], inbox);
    }
  }

  /** One publication that reaches an inbox queues its activity there unless it is queued there already. */
  lemma FanOutQueues(before: Queue.Rows, after: Queue.Rows, targets: set<string>, activity: string,
                     payload: Queue.Payload, inbox: string)
    requires FannedOut(before, after, targets, activity, payload) && inbox in targets
    ensures QueuedFor(after, inbox) ==
            QueuedFor(before, inbox) + if activity in QueuedFor(before, inbox) then [] else [activity]
  {
    QueuedIn(before, inbox, activity);
    QueuedAppend(before, after, inbox, |after|);
    assert after[..|after|] == after;
    hide QueuedFor;
    if Queue.Queued(before, inbox, activity) {
      assert forall i :: |before| <= i < |after| ==> after[i].inbox != inbox;
      assert QueuedFor(before, inbox) + [] == QueuedFor(before, inbox);
    } else {
      assert forall i :: 0 <= i < |before| ==> before[i] == after[i];
      assert Queue.Queued(after, inbox, activity);
      var i :| 0 <= i < |after| && after[i].inbox == inbox && after[i].activity == activity;
    }
  }

  lemma IdsNext(actor: string, pubs: seq<Publication>, p: Publication)
    ensures Ids(actor, pubs + [p]) == Ids(actor, pubs) + [IdOf(actor, p)]
    ensures IdOf(actor, p) in Ids(actor, pubs) <==> Repeats(actor, pubs + [p])
  {
    hide IdOf;
    assert forall j :: 0 <= j < |pubs| ==> (pubs + [p])[j] == pubs[j];
    if IdOf(actor, p) in Ids(actor, pubs) {
      var j :| 0 <= j < |pubs| && Ids(actor, pubs)[j] == IdOf(actor, p);
      assert IdOf(actor, (pubs + [p])[j]) == IdOf(actor, p);
    }
  }

  /** The ids queued are those published. */
  lemma {:induction false} FreshIds(actor: string, pubs: seq<Publication>, id: string)
    ensures id in Ids(actor, Fresh(actor, pubs)) <==> id in Ids(actor, pubs)
  {
    if pubs != [] {
      hide IdOf, Repeats, Ids;
      var init, last := pubs[..|pubs| - 1], pubs[|pubs| - 1];
      assert pubs == init + [last];
      FreshIds(actor, init, id);
      IdsNext(actor, init, last);
      if Repeats(actor, pubs) {
        assert Fresh(actor, pubs) == Fresh(actor, init);
      } else {
        IdsNext(actor, Fresh(actor, init), last);
      }
    }
  }

  /** What the queue holds for an inbox after a run of publications that reach it: each new activity id once, in
      order. */
  lemma {:induction false} QueueHoldsFresh(actor: string, inbox: string, pubs: seq<Publication>,
                                           states: seq<Queue.Rows>, n: nat)
    requires IsPublished(actor, inbox, pubs, states) && n <= |pubs|
    requires forall k :: 0 <= k < |pubs| ==> IdOf(actor, pubs[k]) !in QueuedFor(states[0], inbox)
    ensures QueuedFor(states[n], inbox) == QueuedFor(states[0], inbox) + Ids(actor, Fresh(actor, pubs[..n]))
  {
    hide IdOf, QueuedFor, FannedOut, SameKeys;
    if n == 0 {
      assert pubs[..0] == [];
      assert QueuedFor(states[0], inbox) + [] == QueuedFor(states[0], inbox);
    } else {
      QueueHoldsFresh(actor, inbox, pubs, states, n - 1);
      var p := pubs[n - 1];
      assert PublishedStep(actor, inbox, p, states[n - 1], states[n]);
      var mid, targets, payload :| SameKeys(states[n - 1], mid) && inbox in targets
        && FannedOut(mid, states[n], targets, IdOf(actor, p), payload);
      SameKeysQueued(states[n - 1], mid, inbox);
      FanOutQueues(mid, states[n], targets, IdOf(actor, p), payload, inbox);
      FreshNext(actor, pubs, n);
    }
  }

  lemma FreshNext(actor: string, pubs: seq<Publication>, n: nat)
    requires 0 < n <= |pubs|
    ensures var before, id := Ids(actor, Fresh(actor, pubs[..n - 1])), IdOf(actor, pubs[n - 1]);
      Ids(actor, Fresh(actor, pubs[..n])) == before + if id in before then [] else [id]
  {
    hide IdOf, Repeats, Ids;
    var init, all, p := pubs[..n - 1], pubs[..n], pubs[n - 1];
    assert all == init + [p] && all[..n - 1] == init;
    FreshIds(actor, init, IdOf(actor, p));
    IdsNext(actor, init, p);
    if Repeats(actor, all) {
      assert Fresh(actor, all) == Fresh(actor, init);
      assert Ids(actor, Fresh(actor, init)) + [] == Ids(actor, Fresh(actor, init));
    } else {
      IdsNext(actor, Fresh(actor, init), p);
    }
  }

  // ----- what replaying the queue gives -----

  /** The kind of the last change about an id. */
  function LastAbout(changes: seq<Change>, id: FileStore.ID): Option<Kind> {
    if changes == [] then None
    else
      var last := changes[|changes| - 1];
      if last.rec.id == id then Some(last.kind) else LastAbout(changes[..|changes| - 1], id)
  }

  /** Replaying changes leaves an id known as the last change about it says. */
  lemma {:induction false} ReplayIsLastWord(ids: set<FileStore.ID>, changes: seq<Change>, id: FileStore.ID)
    ensures id in Replay(ids, changes) <==>
            match LastAbout(changes, id) case None => id in ids case Some(kind) => kind != Delete
  {
    if changes != [] {
      ReplayIsLastWord(ids, changes[..|changes| - 1], id);
    }
  }

  lemma AboutNext(pubs: seq<Publication>, p: Publication, id: FileStore.ID)
    ensures LastAbout(Changes(pubs + [p]), id)
         == if p.ch.rec.id == id then Some(p.ch.kind) else LastAbout(Changes(pubs), id)
  {
    assert Changes(pubs + [p])[..|pubs|] == Changes(pubs);
  }

  /** A publication that repeats an activity id is about a file published about before. */
  lemma RepeatIsAbout(actor: string, init: seq<Publication>, p: Publication)
    requires '/' !in p.ch.rec.id && forall q <- init :: '/' !in q.ch.rec.id
    requires Repeats(actor, init + [p])
    ensures LastAbout(Changes(init), p.ch.rec.id).Some?
  {
    var pubs := init + [p];
    hide ActivityID, LastAbout;
    var j :| 0 <= j < |pubs| - 1 && IdOf(actor, pubs[j]) == IdOf(actor, pubs[|pubs| - 1]);
    assert pubs[j] == init[j] && init[j] in init;
    SameIdExactly(actor, init[j].ch, init[j].at, p.ch, p.at);
    AboutSome(Changes(init), j);
  }

  /** Every file published about is published about afresh. */
  lemma {:induction false} FreshIsAbout(actor: string, pubs: seq<Publication>, id: FileStore.ID)
    requires forall p <- pubs :: '/' !in p.ch.rec.id
    ensures LastAbout(Changes(pubs), id).Some? <==> LastAbout(Changes(Fresh(actor, pubs)), id).Some?
  {
    if pubs != [] {
      hide Repeats, Changes, LastAbout;
      var init, last := pubs[..|pubs| - 1], pubs[|pubs| - 1];
      assert pubs == init + [last];
      FreshIsAbout(actor, init, id);
      AboutNext(init, last, id);
      if Repeats(actor, pubs) {
        RepeatIsAbout(actor, init, last);
        assert Fresh(actor, pubs) == Fresh(actor, init);
      } else {
        AboutNext(Fresh(actor, init), last, id);
      }
    }
  }

  lemma {:induction false} AboutSome(changes: seq<Change>, j: nat)
    requires j < |changes|
    ensures LastAbout(changes, changes[j].rec.id).Some?
  {
    if j < |changes| - 1 {
      AboutSome(changes[..|changes| - 1], j);
    }
  }

  /** Whoever replays what was queued for an inbox agrees about a file with whoever replays every change exactly when
      the last change about it and the last queued change about it are both Deletes or neither is. */
  lemma QueuedReplayAgreesExactly(actor: string, pubs: seq<Publication>, ids: set<FileStore.ID>, id: FileStore.ID)
    requires forall p <- pubs :: '/' !in p.ch.rec.id
    ensures var all, queued := Changes(pubs), Changes(Fresh(actor, pubs));
      (id in Replay(ids, all) <==> id in Replay(ids, queued)) <==>
      (LastAbout(all, id) == Some(Delete) <==> LastAbout(queued, id) == Some(Delete))
  {
    hide Fresh;
    FreshIsAbout(actor, pubs, id);
    ReplayIsLastWord(ids, Changes(pubs), id);
    ReplayIsLastWord(ids, Changes(Fresh(actor, pubs)), id);
  }

  /** In particular where no two publications share an activity id, everything is queued. */
  lemma {:induction false} AllFresh(actor: string, pubs: seq<Publication>)
    requires forall i, j :: 0 <= i < j < |pubs| ==> IdOf(actor, pubs[i]) != IdOf(actor, pubs[j])
    ensures Fresh(actor, pubs) == pubs
  {
    hide IdOf;
    if pubs != [] {
      AllFresh(actor, pubs[..|pubs| - 1]);
      assert !Repeats(actor, pubs);
      assert pubs[..|pubs| - 1] + [pubs[|pubs| - 1]] == pubs;
    }
  }

  /** A Delete, an Update and a Delete of one file in one second. */
  function InOneSecond(rec: FileStore.Record, at: int): seq<Publication> {
    [Publication(Change(Delete, rec), at), Publication(Change(Update, rec), at), Publication(Change(Delete, rec), at)]
  }

  /** The last Delete is not queued: replaying the changes forgets the file, replaying the queue does not. */
  lemma LastDeleteIsNotQueued(actor: string, rec: FileStore.Record, at: int, ids: set<FileStore.ID>)
    requires '/' !in rec.id
    ensures var pubs := InOneSecond(rec, at);
      rec.id !in Replay(ids, Changes(pubs)) && rec.id in Replay(ids, Changes(Fresh(actor, pubs)))
  {
    var pubs := InOneSecond(rec, at);
    SameIdExactly(actor, pubs[0].ch, at, pubs[1].ch, at);
    SameIdExactly(actor, pubs[0].ch, at, pubs[2].ch, at);
    hide ActivityID;
    assert IdOf(actor, pubs[0]) == IdOf(actor, pubs[2]) && IdOf(actor, pubs[0]) != IdOf(actor, pubs[1]);
    assert pubs[..2] == [pubs[0], pubs[1]] && pubs[..2][..1] == [pubs[0]] && [pubs[0]][..0] == [];
    assert Fresh(actor, [pubs[0]]) == [pubs[0]];
    assert Fresh(actor, pubs[..2]) == [pubs[0], pubs[1]];
    assert Repeats(actor, pubs);
    assert Fresh(actor, pubs) == [pubs[0], pubs[1]];
    ReplayIsLastWord(ids, Changes(pubs), rec.id);
    ReplayIsLastWord(ids, Changes(Fresh(actor, pubs)), rec.id);
  }
}

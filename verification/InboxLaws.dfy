/** Replay rejection over whole runs of the inbox: when a signature is dispatched and when it is refused. */
module InboxLaws {
  import opened Inbox
  import opened Text
  import opened Letters
  import opened Spelling

  /** What one POST does, step by step, and what the owner does meanwhile. A step of a POST names the step it continues:
      its check (signature and replay lookup), its block lookup, remembering its signature, and its handler. A Local
      change (the owner blocking, following, removing a follower) leaves the replay table alone. */
  datatype Action =
    | Check(request: Request)
    | Admit(check: nat)
    | Remember(admit: nat)
    | Handle(remember: nat)
    | Local(followers: map<string, Remote>, following: map<string, bool>, blocks: set<string>,
            accepts: seq<(string, string)>)

  /** A step takes effect at `at`; the clock it uses was read at `read`, no later. */
  datatype Step = Step(action: Action, read: int, at: int)

  /** The step that step `k` continues, or -1. */
  function Prior(steps: seq<Step>, k: int): int
    requires 0 <= k < |steps|
  {
    match steps[k].action
    case Check(_) => -1
    case Admit(c) => c
    case Remember(a) => a
    case Handle(m) => m
    case Local(_, _, _, _) => -1
  }

  /** Step `k` continues an earlier step of the right kind, if it continues any. */
  predicate Linked(steps: seq<Step>, k: int)
    requires 0 <= k < |steps|
  {
    && Prior(steps, k) < k
    && match steps[k].action
       case Admit(c) => steps[c].action.Check?
       case Remember(a) => steps[a].action.Admit?
       case Handle(m) => steps[m].action.Remember?
       case _ => true
  }

  /** A POST takes each of its steps at most once. */
  ghost predicate WellFormed(steps: seq<Step>) {
    && (forall k :: 0 <= k < |steps| ==> Linked(steps, k))
    && (forall i, j :: 0 <= i < j < |steps| && Prior(steps, i) >= 0 ==> steps[i].action != steps[j].action)
  }

  /** The check of the POST that step `k` belongs to. */
  ghost function CheckOf(steps: seq<Step>, k: int): (c: int)
    requires WellFormed(steps) && 0 <= k < |steps| && !steps[k].action.Local?
    ensures 0 <= c <= k && steps[c].action.Check?
    decreases k
  {
    assert Linked(steps, k);
    if steps[k].action.Check? then k else CheckOf(steps, Prior(steps, k))
  }

  ghost function RequestOf(steps: seq<Step>, k: int): Request
    requires WellFormed(steps) && 0 <= k < |steps| && !steps[k].action.Local?
  {
    steps[CheckOf(steps, k)].action.request
  }

  /** Step `k` is reached by a POST that has passed everything up to and including it. */
  ghost predicate Passed(w: World, t: Tables, steps: seq<Step>, k: int)
    requires WellFormed(steps) && 0 <= k < |steps| && !steps[k].action.Local?
    ensures Passed(w, t, steps, k) ==> RequestOf(steps, k).activity.Some?
    decreases k, 1
  {
    assert Linked(steps, k);
    match steps[k].action
    case Check(r) => Checked(w, Play(w, t, steps, k).replay, r, steps[k].read).Ok?
    case Admit(c) => Passed(w, t, steps, c)
        && !Blocked(w, Play(w, t, steps, k).blocks, RequestOf(steps, k).activity.value)
    case Remember(a) => Passed(w, t, steps, a)
    case Handle(m) => Passed(w, t, steps, m)
  }

  /** The tables after the first `k` steps. */
  ghost function Play(w: World, t: Tables, steps: seq<Step>, k: int): Tables
    requires WellFormed(steps) && 0 <= k <= |steps|
    decreases k, 0
  {
    if k == 0 then t
    else
      var before := Play(w, t, steps, k - 1);
      match steps[k - 1].action
      case Check(_) => before
      case Admit(_) => before
      case Remember(_) =>
        if Passed(w, t, steps, k - 1)
        then before.(replay := Remembered(before.replay, HashAt(w, steps, k - 1), steps[k - 1].read)) else before
      case Handle(_) =>
        if Passed(w, t, steps, k - 1)
        then Handled(w, before, RequestOf(steps, k - 1).activity.value, RequestOf(steps, k - 1).signer).0 else before
      case Local(followers, following, blocks, accepts) => Tables(before.replay, followers, following, blocks, accepts)
  }

  ghost function SignatureAt(steps: seq<Step>, k: int): string
    requires WellFormed(steps) && 0 <= k < |steps| && !steps[k].action.Local?
  {
    RequestOf(steps, k).signature
  }

  ghost function HashAt(w: World, steps: seq<Step>, k: int): string
    requires WellFormed(steps) && 0 <= k < |steps| && !steps[k].action.Local?
  {
    w.hashOf(SignatureAt(steps, k))
  }

  /** The clock never goes back, and a POST reads it in the order of its steps. */
  ghost predicate Clocked(steps: seq<Step>)
    requires WellFormed(steps)
  {
    && (forall k :: 0 <= k < |steps| ==> steps[k].read <= steps[k].at)
    && (forall i, j :: 0 <= i < j < |steps| ==> steps[i].at <= steps[j].at)
    && (forall k :: 0 <= k < |steps| && 0 <= Prior(steps, k) < k ==> steps[Prior(steps, k)].at <= steps[k].read)
  }

  /** No POST takes longer than the slack from reading the clock for its Date to its replay lookup. */
  ghost predicate Prompt(steps: seq<Step>) {
    forall c :: 0 <= c < |steps| && steps[c].action.Check? ==> steps[c].at - steps[c].read <= SLACK
  }

  /** Authentic requests whose signatures have one hash carry one Date; SignatureCheck derives this from what a
      signature covers. */
  ghost predicate OneDate(w: World, steps: seq<Step>) {
    forall i, j :: 0 <= i < |steps| && 0 <= j < |steps| && Twins(w, steps[i], steps[j]) ==>
      steps[i].action.request.date == steps[j].action.request.date
  }

  /** Two checks of authentic requests whose signatures have one hash. */
  predicate Twins(w: World, a: Step, b: Step) {
    && a.action.Check? && b.action.Check?
    && w.authentic(a.action.request) && w.authentic(b.action.request)
    && w.hashOf(a.action.request.signature) == w.hashOf(b.action.request.signature)
  }

  /** A POST reaches its handler exactly when it is remembered. */
  ghost predicate Dispatched(w: World, t: Tables, steps: seq<Step>, m: int)
    requires WellFormed(steps)
  {
    0 <= m < |steps| && steps[m].action.Remember? && Passed(w, t, steps, m)
  }

  // ----- single steps -----

  lemma HandlersKeepReplay(w: World, t: Tables, a: Activity, signer: Remote)
    ensures Handled(w, t, a, signer).0.replay == t.replay
  {
    hide SameIRI, UndoneActor, FoldEquals, ObjectID;
    match a.kind {
      case Follow => assert Followed(w, t, a, signer).0.replay == t.replay;
      case Undo => assert Undone(t, a).0.replay == t.replay;
      case _ =>
    }
  }

  /** Only remembering touches the replay table. */
  lemma ReplayAfter(w: World, t: Tables, steps: seq<Step>, k: int)
    requires WellFormed(steps) && 0 <= k < |steps|
    ensures Play(w, t, steps, k + 1).replay ==
            if Dispatched(w, t, steps, k)
            then Remembered(Play(w, t, steps, k).replay, HashAt(w, steps, k), steps[k].read)
            else Play(w, t, steps, k).replay
  {
    hide Checked, Handled, Remembered, Linked;
    if steps[k].action.Handle? && Passed(w, t, steps, k) {
      HandlersKeepReplay(w, Play(w, t, steps, k), RequestOf(steps, k).activity.value, RequestOf(steps, k).signer);
    }
  }

  /** The check and block lookup a remembered POST has passed. */
  lemma DispatchedMeans(w: World, t: Tables, steps: seq<Step>, m: int)
    requires WellFormed(steps) && Dispatched(w, t, steps, m)
    ensures var c := CheckOf(steps, m);
            && c < m && Passed(w, t, steps, c) && steps[c].action.request == RequestOf(steps, m)
            && Checked(w, Play(w, t, steps, c).replay, RequestOf(steps, m), steps[c].read).Ok?
  {
    hide Checked, Play;
    var a := Prior(steps, m);
    assert Linked(steps, m) && Linked(steps, a);
    var c := Prior(steps, a);
    assert CheckOf(steps, c) == c == CheckOf(steps, a) == CheckOf(steps, m);
    assert Passed(w, t, steps, a) && Passed(w, t, steps, c);
  }

  lemma CheckedMeans(w: World, replay: map<string, int>, r: Request, now: int)
    requires Checked(w, replay, r, now).Ok?
    ensures w.authentic(r) && DateAccepted(r.date, now) && w.hashOf(r.signature) !in replay
  {
    hide SameIRI;
  }

  // ----- the entry of a dispatched signature -----

  /** An entry that was not there after `c` steps was put there by a dispatched POST, with the time that POST read. */
  lemma {:induction false} EntryFrom(w: World, t: Tables, steps: seq<Step>, c: int, k: int, h: string)
    requires WellFormed(steps) && 0 <= c <= k <= |steps|
    requires h !in Play(w, t, steps, c).replay && h in Play(w, t, steps, k).replay
    ensures exists m :: c <= m < k && Dispatched(w, t, steps, m) && HashAt(w, steps, m) == h
              && steps[m].read == Play(w, t, steps, k).replay[h]
    decreases k
  {
    hide Play, Passed, CheckOf, WellFormed;
    ReplayAfter(w, t, steps, k - 1);
    if h in Play(w, t, steps, k - 1).replay {
      EntryFrom(w, t, steps, c, k - 1, h);
    } else {
      assert Dispatched(w, t, steps, k - 1) && HashAt(w, steps, k - 1) == h;
    }
  }

  /** Some dispatched POST with this hash was remembered more than the retention time before step `k`. */
  ghost predicate Expired(w: World, t: Tables, steps: seq<Step>, h: string, k: int)
    requires WellFormed(steps) && 0 < k <= |steps|
  {
    exists m :: 0 <= m < k && Dispatched(w, t, steps, m) && HashAt(w, steps, m) == h
      && steps[k - 1].at > steps[m].read + RETAIN
  }

  lemma RememberedKeeps(replay: map<string, int>, hash: string, now: int, h: string)
    ensures h in replay ==> h in Remembered(replay, hash, now) || replay[h] < now - RETAIN
    ensures hash !in replay ==> hash in Remembered(replay, hash, now)
  {
  }

  lemma HeldEntry(w: World, t: Tables, steps: seq<Step>, m: int, k: int)
    requires WellFormed(steps) && m <= k <= |steps| && Dispatched(w, t, steps, m)
    requires HashAt(w, steps, m) in Play(w, t, steps, k).replay
    ensures exists e :: 0 <= e < k && Dispatched(w, t, steps, e) && HashAt(w, steps, e) == HashAt(w, steps, m)
              && steps[e].read == Play(w, t, steps, k).replay[HashAt(w, steps, m)]
  {
    hide Play, Passed, WellFormed, Checked;
    var c := CheckOf(steps, m);
    DispatchedMeans(w, t, steps, m);
    CheckedMeans(w, Play(w, t, steps, c).replay, RequestOf(steps, m), steps[c].read);
    EntryFrom(w, t, steps, c, k, HashAt(w, steps, m));
  }

  lemma ExpiredNext(w: World, t: Tables, steps: seq<Step>, h: string, k: int)
    requires WellFormed(steps) && Clocked(steps) && 0 < k < |steps| && Expired(w, t, steps, h, k)
    ensures Expired(w, t, steps, h, k + 1)
  {
    hide WellFormed, Passed, CheckOf;
    var m :| 0 <= m < k && Dispatched(w, t, steps, m) && HashAt(w, steps, m) == h
      && steps[k - 1].at > steps[m].read + RETAIN;
    assert steps[k - 1].at <= steps[k].at;
  }

  /** One more step: an entry stays unless it has expired. */
  lemma HeldNext(w: World, t: Tables, steps: seq<Step>, m: int, k: int)
    requires WellFormed(steps) && Clocked(steps) && m <= k < |steps| && Dispatched(w, t, steps, m)
    requires HashAt(w, steps, m) in Play(w, t, steps, k).replay
    ensures HashAt(w, steps, m) in Play(w, t, steps, k + 1).replay || Expired(w, t, steps, HashAt(w, steps, m), k + 1)
  {
    hide Play, WellFormed, Passed, CheckOf, Remembered;
    var h, replay := HashAt(w, steps, m), Play(w, t, steps, k).replay;
    ReplayAfter(w, t, steps, k);
    HeldEntry(w, t, steps, m, k);
    if Dispatched(w, t, steps, k) {
      RememberedKeeps(replay, HashAt(w, steps, k), steps[k].read, h);
      assert steps[k].read <= steps[k].at;
    }
  }

  /** Remembering leaves the hash in the table, or an expired entry for it. */
  lemma HeldFirst(w: World, t: Tables, steps: seq<Step>, m: int)
    requires WellFormed(steps) && Clocked(steps) && Dispatched(w, t, steps, m)
    ensures HashAt(w, steps, m) in Play(w, t, steps, m + 1).replay || Expired(w, t, steps, HashAt(w, steps, m), m + 1)
  {
    hide Play, WellFormed, Passed, Remembered;
    var h, replay := HashAt(w, steps, m), Play(w, t, steps, m).replay;
    if h in replay {
      HeldNext(w, t, steps, m, m);
    } else {
      ReplayAfter(w, t, steps, m);
      RememberedKeeps(replay, h, steps[m].read, h);
    }
  }

  /** Once a POST is dispatched its hash stays in the table until an entry for it has expired. */
  lemma {:induction false} EntryHeld(w: World, t: Tables, steps: seq<Step>, m: int, k: int)
    requires WellFormed(steps) && Clocked(steps) && m < k <= |steps| && Dispatched(w, t, steps, m)
    ensures HashAt(w, steps, m) in Play(w, t, steps, k).replay || Expired(w, t, steps, HashAt(w, steps, m), k)
    decreases k
  {
    hide Play, WellFormed, Passed, Expired, CheckOf;
    if m == k - 1 {
      HeldFirst(w, t, steps, m);
    } else {
      EntryHeld(w, t, steps, m, k - 1);
      if HashAt(w, steps, m) in Play(w, t, steps, k - 1).replay {
        HeldNext(w, t, steps, m, k - 1);
      } else {
        ExpiredNext(w, t, steps, HashAt(w, steps, m), k - 1);
      }
    }
  }

  lemma ReadInOrder(w: World, t: Tables, steps: seq<Step>, m: int)
    requires WellFormed(steps) && Clocked(steps) && Dispatched(w, t, steps, m)
    ensures steps[CheckOf(steps, m)].read <= steps[m].read
  {
    hide Play, Passed;
    var a := Prior(steps, m);
    assert Linked(steps, m) && Linked(steps, a);
    assert steps[a].at <= steps[m].read && steps[Prior(steps, a)].at <= steps[a].read;
  }

  /** When a dispatched signature comes again with a Date still in the window, its hash is in the table: by the time an
      entry expires, the Date is too old. */
  lemma HeldOrTooOld(w: World, t: Tables, steps: seq<Step>, m: int, c: int)
    requires WellFormed(steps) && Clocked(steps) && Prompt(steps) && OneDate(w, steps)
    requires m < c < |steps| && Dispatched(w, t, steps, m) && steps[c].action.Check?
    requires HashAt(w, steps, m) == HashAt(w, steps, c)
    requires w.authentic(RequestOf(steps, c)) && DateAccepted(RequestOf(steps, c).date, steps[c].read)
    ensures HashAt(w, steps, c) in Play(w, t, steps, c).replay
  {
    hide Play, Passed, Checked, WellFormed;
    var h := HashAt(w, steps, c);
    EntryHeld(w, t, steps, m, c);
    if Expired(w, t, steps, h, c) {
      var e :| 0 <= e < c && Dispatched(w, t, steps, e) && HashAt(w, steps, e) == h
        && steps[c - 1].at > steps[e].read + RETAIN;
      TooOld(w, t, steps, e, c);
    }
  }

  lemma TooOld(w: World, t: Tables, steps: seq<Step>, e: int, c: int)
    requires WellFormed(steps) && Clocked(steps) && Prompt(steps) && OneDate(w, steps)
    requires 0 <= e < c < |steps| && Dispatched(w, t, steps, e) && steps[c].action.Check?
    requires HashAt(w, steps, e) == HashAt(w, steps, c) && w.authentic(RequestOf(steps, c))
    ensures steps[c - 1].at > steps[e].read + RETAIN ==> !DateAccepted(RequestOf(steps, c).date, steps[c].read)
  {
    hide Play, Passed, Checked, WellFormed;
    var f := CheckOf(steps, e);
    DispatchedMeans(w, t, steps, e);
    CheckedMeans(w, Play(w, t, steps, f).replay, RequestOf(steps, e), steps[f].read);
    ReadInOrder(w, t, steps, e);
    assert steps[c - 1].at <= steps[c].at && steps[c].at - steps[c].read <= SLACK;
    assert steps[f].action.request.date == steps[c].action.request.date;
  }

  // ----- exactly the replays are refused -----

  /** The POST would pass its check if its signature were new. */
  predicate OtherwiseFine(w: World, r: Request, verifiedAt: int) {
    Checked(w, map[], r, verifiedAt).Ok?
  }

  lemma OtherwiseFineMeans(w: World, replay: map<string, int>, r: Request, verifiedAt: int)
    requires OtherwiseFine(w, r, verifiedAt)
    ensures w.authentic(r) && DateAccepted(r.date, verifiedAt)
    ensures Checked(w, replay, r, verifiedAt).Ok? <==> w.hashOf(r.signature) !in replay
  {
    hide SameIRI;
  }

  /** In every run and every interleaving, a POST that is otherwise fine is refused as a replay exactly when a POST with
      the same signature hash was remembered before its replay lookup, however long before. */
  lemma ReplayExact(w: World, t: Tables, steps: seq<Step>, c: int)
    requires WellFormed(steps) && Clocked(steps) && Prompt(steps) && OneDate(w, steps)
    requires 0 <= c < |steps| && steps[c].action.Check? && OtherwiseFine(w, RequestOf(steps, c), steps[c].read)
    requires HashAt(w, steps, c) !in t.replay
    ensures !Passed(w, t, steps, c) <==>
            exists m :: 0 <= m < c && Dispatched(w, t, steps, m) && HashAt(w, steps, m) == HashAt(w, steps, c)
  {
    var h, replay := HashAt(w, steps, c), Play(w, t, steps, c).replay;
    assert Passed(w, t, steps, c) <==> Checked(w, replay, RequestOf(steps, c), steps[c].read).Ok?;
    hide Play, Passed, Checked, WellFormed;
    OtherwiseFineMeans(w, replay, RequestOf(steps, c), steps[c].read);
    if h in replay {
      assert Play(w, t, steps, 0) == t by { PlayNothing(w, t, steps); }
      EntryFrom(w, t, steps, 0, c, h);
    }
    if m :| 0 <= m < c && Dispatched(w, t, steps, m) && HashAt(w, steps, m) == h {
      HeldOrTooOld(w, t, steps, m, c);
    }
  }

  lemma PlayNothing(w: World, t: Tables, steps: seq<Step>)
    requires WellFormed(steps)
    ensures Play(w, t, steps, 0) == t
  {
  }

  /** Two POSTs with one signature overlap: the replay lookup of each comes before the other is remembered. */
  ghost predicate Overlap(steps: seq<Step>, m1: int, m2: int)
    requires WellFormed(steps) && 0 <= m1 < |steps| && 0 <= m2 < |steps|
    requires !steps[m1].action.Local? && !steps[m2].action.Local?
  {
    CheckOf(steps, m2) < m1 && CheckOf(steps, m1) < m2
  }

  /** Two dispatched POSTs with one signature overlap. So where POSTs with one signature do not overlap, each
      signature is dispatched at most once, although the replay table is pruned. */
  lemma AtMostOnce(w: World, t: Tables, steps: seq<Step>, m1: int, m2: int)
    requires WellFormed(steps) && Clocked(steps) && Prompt(steps) && OneDate(w, steps)
    requires Dispatched(w, t, steps, m1) && Dispatched(w, t, steps, m2) && m1 != m2
    requires HashAt(w, steps, m1) == HashAt(w, steps, m2)
    ensures Overlap(steps, m1, m2)
  {
    CommitFirst(w, t, steps, m1, m2);
    CommitFirst(w, t, steps, m2, m1);
  }

  lemma CommitFirst(w: World, t: Tables, steps: seq<Step>, m1: int, m2: int)
    requires WellFormed(steps) && Clocked(steps) && Prompt(steps) && OneDate(w, steps)
    requires Dispatched(w, t, steps, m1) && Dispatched(w, t, steps, m2)
    requires HashAt(w, steps, m1) == HashAt(w, steps, m2)
    ensures CheckOf(steps, m2) < m1
  {
    hide Play, Passed, Checked, WellFormed;
    var c := CheckOf(steps, m2);
    DispatchedMeans(w, t, steps, m2);
    CheckedMeans(w, Play(w, t, steps, c).replay, RequestOf(steps, m2), steps[c].read);
    assert CheckOf(steps, c) == c;
    if m1 < c {
      HeldOrTooOld(w, t, steps, m1, c);
      assert false;
    }
  }

  /** The POST that is remembered at `m`, if it gets there, passes everything but perhaps the replay lookup. */
  ghost predicate FineUpTo(w: World, t: Tables, steps: seq<Step>, m: int)
    requires WellFormed(steps) && 0 <= m < |steps| && steps[m].action.Remember?
  {
    var c := CheckOf(steps, m);
    assert Linked(steps, m);
    && OtherwiseFine(w, RequestOf(steps, m), steps[c].read)
    && !Blocked(w, Play(w, t, steps, Prior(steps, m)).blocks, RequestOf(steps, m).activity.value)
  }

  /** Of two POSTs with one signature, new and otherwise fine, both are dispatched if and only if neither is remembered
      before the other's replay lookup. */
  lemma BothDispatchedExactly(w: World, t: Tables, steps: seq<Step>, m1: int, m2: int)
    requires WellFormed(steps) && Clocked(steps) && Prompt(steps) && OneDate(w, steps)
    requires 0 <= m1 < |steps| && 0 <= m2 < |steps| && m1 != m2
    requires steps[m1].action.Remember? && steps[m2].action.Remember?
    requires FineUpTo(w, t, steps, m1) && FineUpTo(w, t, steps, m2)
    requires HashAt(w, steps, m1) == HashAt(w, steps, m2) && HashAt(w, steps, m1) !in t.replay
    requires forall m :: 0 <= m < |steps| && steps[m].action.Remember? && HashAt(w, steps, m) == HashAt(w, steps, m1)
               ==>
               m == m1 || m == m2
    ensures Dispatched(w, t, steps, m1) && Dispatched(w, t, steps, m2) <==> Overlap(steps, m1, m2)
  {
    hide Play, Passed, Checked, FineUpTo;
    if Dispatched(w, t, steps, m1) && Dispatched(w, t, steps, m2) {
      AtMostOnce(w, t, steps, m1, m2);
    }
    if Overlap(steps, m1, m2) {
      NotSeenIsDispatched(w, t, steps, m1, m2);
      NotSeenIsDispatched(w, t, steps, m2, m1);
    }
  }

  lemma NotSeenIsDispatched(w: World, t: Tables, steps: seq<Step>, m1: int, m2: int)
    requires WellFormed(steps) && Clocked(steps) && Prompt(steps) && OneDate(w, steps)
    requires 0 <= m1 < |steps| && 0 <= m2 < |steps| && steps[m1].action.Remember? && steps[m2].action.Remember?
    requires FineUpTo(w, t, steps, m1) && HashAt(w, steps, m1) !in t.replay && CheckOf(steps, m1) < m2
    requires forall m :: 0 <= m < |steps| && steps[m].action.Remember? && HashAt(w, steps, m) == HashAt(w, steps, m1)
               ==>
               m == m1 || m == m2
    ensures Dispatched(w, t, steps, m1)
  {
    var a := Prior(steps, m1);
    assert Linked(steps, m1) && Linked(steps, a);
    var c := CheckOf(steps, m1);
    assert c == CheckOf(steps, a) == Prior(steps, a) && CheckOf(steps, c) == c;
    ReplayExact(w, t, steps, c);
    assert Passed(w, t, steps, c);
    assert RequestOf(steps, a) == RequestOf(steps, m1);
  }

  // ----- one signature, several spellings -----

  /** Replay identity is the text of a signature, not what it decodes to. Of two new and otherwise fine POSTs that carry
      one raw signature, the second looked up after the first is remembered, both are dispatched if and only if their
      texts hash differently; in particular never when both are spelled as `encode` spells the raw signature. */
  lemma RawSignatureTwiceExactly(w: World, t: Tables, steps: seq<Step>, m1: int, m2: int,
                                 decode: string -> string, encode: string -> string)
    requires WellFormed(steps) && Clocked(steps) && Prompt(steps) && OneDate(w, steps)
    requires 0 <= m1 < |steps| && 0 <= m2 < |steps| && steps[m1].action.Remember? && steps[m2].action.Remember?
    requires FineUpTo(w, t, steps, m1) && FineUpTo(w, t, steps, m2) && m1 < CheckOf(steps, m2)
    requires decode(SignatureAt(steps, m1)) == decode(SignatureAt(steps, m2))
    requires HashAt(w, steps, m1) !in t.replay && HashAt(w, steps, m2) !in t.replay
    requires var hashes := {HashAt(w, steps, m1), HashAt(w, steps, m2)};
             forall m :: 0 <= m < |steps| && steps[m].action.Remember? && HashAt(w, steps, m) in hashes ==>
               m == m1 || m == m2
    ensures Dispatched(w, t, steps, m1) && Dispatched(w, t, steps, m2) <==> HashAt(w, steps, m1) != HashAt(w, steps, m2)
    ensures (forall m | m == m1 || m == m2 :: SignatureAt(steps, m) == encode(decode(SignatureAt(steps, m)))) ==>
              HashAt(w, steps, m1) == HashAt(w, steps, m2)
  {
    hide Play, Passed, Checked, FineUpTo, WellFormed;
    if HashAt(w, steps, m1) == HashAt(w, steps, m2) {
      BothDispatchedExactly(w, t, steps, m1, m2);
    } else {
      NotSeenIsDispatched(w, t, steps, m1, m2);
      AloneIsDispatched(w, t, steps, m2);
    }
  }

  /** A new and otherwise fine POST is dispatched if no other POST with its hash ever is remembered. */
  lemma AloneIsDispatched(w: World, t: Tables, steps: seq<Step>, m: int)
    requires WellFormed(steps) && Clocked(steps) && Prompt(steps) && OneDate(w, steps)
    requires 0 <= m < |steps| && steps[m].action.Remember? && FineUpTo(w, t, steps, m)
    requires HashAt(w, steps, m) !in t.replay
    requires forall k :: 0 <= k < |steps| && steps[k].action.Remember? && HashAt(w, steps, k) == HashAt(w, steps, m) ==>
               k == m
    ensures Dispatched(w, t, steps, m)
  {
    hide Play, Passed, Checked, FineUpTo;
    assert Linked(steps, m);
    assert CheckOf(steps, m) <= Prior(steps, m) < m;
    NotSeenIsDispatched(w, t, steps, m, m);
  }

  /** A request and then the same with its signature spelled otherwise. */
  function SpelledAgain(r: Request, spelling: string, now: int): seq<Step> {
    [Step(Check(r), now, now), Step(Admit(0), now, now), Step(Remember(1), now, now),
     Step(Check(r.(signature := spelling)), now, now), Step(Admit(3), now, now), Step(Remember(4), now, now)]
  }

  lemma SpelledAgainSteps(r: Request, spelling: string, now: int)
    ensures var steps := SpelledAgain(r, spelling, now);
            && |steps| == 6 && OnePost(steps, 0, r, now, now) && OnePost(steps, 3, r.(signature := spelling), now, now)
  {
  }

  /** From step `c` on, one POST goes from check to remembering in three consecutive steps: it reads the clock for its
      Date at `read` and does the rest at `at`. */
  ghost predicate OnePost(steps: seq<Step>, c: nat, r: Request, read: int, at: int) {
    && c + 3 <= |steps| && steps[c] == Step(Check(r), read, at)
    && steps[c + 1] == Step(Admit(c), at, at) && steps[c + 2] == Step(Remember(c + 1), at, at)
  }

  lemma OnePostLinks(steps: seq<Step>, c: nat, r: Request, read: int, at: int)
    requires OnePost(steps, c, r, read, at)
    ensures Linked(steps, c) && Linked(steps, c + 1) && Linked(steps, c + 2)
    ensures Prior(steps, c) == -1 && Prior(steps, c + 1) == c && Prior(steps, c + 2) == c + 1
  {
  }

  lemma OnePostChecks(steps: seq<Step>, c: nat, r: Request, read: int, at: int)
    requires WellFormed(steps) && OnePost(steps, c, r, read, at)
    ensures CheckOf(steps, c) == c && CheckOf(steps, c + 1) == c && CheckOf(steps, c + 2) == c
    ensures RequestOf(steps, c) == r && RequestOf(steps, c + 1) == r && RequestOf(steps, c + 2) == r
  {
    hide WellFormed;
    assert CheckOf(steps, c) == c;
    assert CheckOf(steps, c + 1) == c;
  }

  lemma SpelledAgainLinks(r: Request, spelling: string, now: int)
    ensures var steps := SpelledAgain(r, spelling, now);
            && WellFormed(steps) && Clocked(steps) && Prompt(steps)
  {
    var steps, again := SpelledAgain(r, spelling, now), r.(signature := spelling);
    SpelledAgainSteps(r, spelling, now);
    OnePostLinks(steps, 0, r, now, now);
    OnePostLinks(steps, 3, again, now, now);
    hide SpelledAgain, Linked, Prior;
    forall k | 0 <= k < 6 ensures Linked(steps, k) && steps[k].read == steps[k].at == now && Prior(steps, k) < k {
      assert k == 0 || k == 1 || k == 2 || k == 3 || k == 4 || k == 5;
    }
    forall i, j | 0 <= i < j < 6 && Prior(steps, i) >= 0 ensures steps[i].action != steps[j].action {
      assert i == 1 || i == 2 || i == 4 || i == 5;
      assert j == 1 || j == 2 || j == 3 || j == 4 || j == 5;
    }
  }

  /** Such a POST, if new, otherwise fine and not blocked, is remembered. */
  lemma OnePostPasses(w: World, t: Tables, steps: seq<Step>, c: nat, r: Request, read: int, at: int)
    requires WellFormed(steps) && OnePost(steps, c, r, read, at)
    requires var before := Play(w, t, steps, c);
             && OtherwiseFine(w, r, read) && w.hashOf(r.signature) !in before.replay
             && !Blocked(w, before.blocks, r.activity.value)
    ensures var before := Play(w, t, steps, c);
            && Dispatched(w, t, steps, c + 2)
            && Play(w, t, steps, c + 3) == before.(replay := Remembered(before.replay, w.hashOf(r.signature), at))
  {
    OtherwiseFineMeans(w, Play(w, t, steps, c).replay, r, read);
    OnePostChecks(steps, c, r, read, at);
    hide WellFormed, Checked, Blocked, Remembered, CheckOf;
    assert Passed(w, t, steps, c);
    assert Play(w, t, steps, c + 1) == Play(w, t, steps, c);
    assert Passed(w, t, steps, c + 1);
    assert Play(w, t, steps, c + 2) == Play(w, t, steps, c);
    assert Passed(w, t, steps, c + 2);
  }

  /** So a signature accepted under two spellings is dispatched twice, without overlap and without delay. */
  lemma SpelledAgainTwice(w: World, t: Tables, r: Request, spelling: string, now: int)
    requires OtherwiseFine(w, r, now) && OtherwiseFine(w, r.(signature := spelling), now)
    requires !Blocked(w, t.blocks, r.activity.value) && t.replay == map[]
    requires w.hashOf(spelling) != w.hashOf(r.signature)
    ensures var steps := SpelledAgain(r, spelling, now);
            && WellFormed(steps) && Clocked(steps) && Prompt(steps)
            && Dispatched(w, t, steps, 2) && Dispatched(w, t, steps, 5)
            && steps[2].action.Remember? && steps[5].action.Remember? && !Overlap(steps, 2, 5)
  {
    var steps, again := SpelledAgain(r, spelling, now), r.(signature := spelling);
    SpelledAgainLinks(r, spelling, now);
    SpelledAgainSteps(r, spelling, now);
    OnePostChecks(steps, 0, r, now, now);
    OnePostChecks(steps, 3, again, now, now);
    hide SpelledAgain, WellFormed, CheckOf, Checked, Blocked, Play, Passed, Remembered, Clocked, Prompt;
    PlayNothing(w, t, steps);
    OnePostPasses(w, t, steps, 0, r, now, now);
    RememberedOne(w.hashOf(r.signature), now);
    OnePostPasses(w, t, steps, 3, again, now, now);
  }

  lemma RememberedOne(hash: string, now: int)
    ensures Remembered(map[], hash, now).Keys == {hash}
  {
  }

  /** The object is absent or names `iri`, by itself or by its embedded id, however that is spelt. */
  predicate NamesOrNone(o: Object, iri: string) {
    match o
    case NoObject => true
    case Listed(_) => true
    case Named(name) => TrimSpace(name) == "" || SpeltAlike(name, iri)
    case Embedded(_, id, _) => TrimSpace(id) == "" || SpeltAlike(id, iri)
  }

  lemma NamesExactly(o: Object, iri: string)
    ensures NamesOrNone(o, iri) <==> ObjectID(o) == "" || SameIRI(ObjectID(o), iri)
  {
    hide SpeltAlike, SameIRI, TrimSpace;
    SameIRIExactly(ObjectID(o), iri);
    match o
    case Named(name) => SpeltAlikeTrims(name, iri);
    case Embedded(_, id, _) => SpeltAlikeTrims(id, iri);
    case _ =>
  }

  /** A Follow of this node, or of nobody in particular. */
  predicate FollowsUs(w: World, a: Activity) {
    a.kind.Follow? && NamesOrNone(a.target, w.self)
  }

  lemma FollowAccepted(w: World, t: Tables, a: Activity, signer: Remote)
    requires FollowsUs(w, a) && signer.id != "" && signer.inbox != ""
    ensures var after := Handled(w, t, a, signer).0;
            && signer.id in after.followers && after.followers[signer.id] == signer
            && after.accepts == t.accepts + [(signer.inbox, signer.id)]
  {
    NamesExactly(a.target, w.self);
    hide NamesOrNone, SameIRI, ObjectID;
    assert Handled(w, t, a, signer) == Followed(w, t, a, signer);
  }

  /** Two POSTs of one request whose steps alternate. */
  function TwoAtOnce(r: Request, now: int): seq<Step> {
    [Step(Check(r), now, now), Step(Check(r), now, now), Step(Admit(0), now, now), Step(Admit(1), now, now),
     Step(Remember(2), now, now), Step(Remember(3), now, now), Step(Handle(4), now, now), Step(Handle(5), now, now)]
  }

  lemma TwoAtOnceLinks(r: Request, now: int)
    ensures WellFormed(TwoAtOnce(r, now))
  {
    var steps := TwoAtOnce(r, now);
    assert forall k :: 0 <= k < 8 ==> Linked(steps, k);
  }

  lemma TwoAtOnceIsWellFormed(r: Request, now: int)
    ensures var steps := TwoAtOnce(r, now);
            && WellFormed(steps) && Clocked(steps) && Prompt(steps)
            && (forall k :: 0 <= k < 8 ==> RequestOf(steps, k) == r)
            && CheckOf(steps, 4) == 0 && CheckOf(steps, 5) == 1
  {
    TwoAtOnceLinks(r, now);
    hide WellFormed;
    var steps := TwoAtOnce(r, now);
    assert CheckOf(steps, 0) == 0 && CheckOf(steps, 1) == 1;
    assert CheckOf(steps, 2) == 0 && CheckOf(steps, 3) == 1;
    assert CheckOf(steps, 4) == 0 && CheckOf(steps, 5) == 1;
    assert CheckOf(steps, 6) == 0 && CheckOf(steps, 7) == 1;
  }

  /** So at most once does not hold of every run: two overlapping POSTs of one new and otherwise fine request are both
      dispatched, and if it is a Follow, two Accepts are queued. */
  lemma OverlappingTwice(w: World, t: Tables, r: Request, now: int)
    requires OtherwiseFine(w, r, now) && w.hashOf(r.signature) !in t.replay
    requires !Blocked(w, t.blocks, r.activity.value)
    ensures WellFormed(TwoAtOnce(r, now)) && Clocked(TwoAtOnce(r, now)) && Prompt(TwoAtOnce(r, now))
    ensures Dispatched(w, t, TwoAtOnce(r, now), 4) && Dispatched(w, t, TwoAtOnce(r, now), 5)
    ensures FollowsUs(w, r.activity.value) && r.signer.id != "" && r.signer.inbox != "" ==>
              Play(w, t, TwoAtOnce(r, now), 8).accepts ==
              t.accepts + [(r.signer.inbox, r.signer.id), (r.signer.inbox, r.signer.id)]
  {
    var steps := TwoAtOnce(r, now);
    TwoAtOnceIsWellFormed(r, now);
    OtherwiseFineMeans(w, t.replay, r, now);
    hide Checked, CheckOf, WellFormed, Handled, Remembered, Blocked;
    forall k | 0 <= k <= 4 ensures Play(w, t, steps, k) == t {
      QuietSteps(w, t, steps, k);
    }
    assert Passed(w, t, steps, 0) && Passed(w, t, steps, 1);
    assert Passed(w, t, steps, 2) && Passed(w, t, steps, 3);
    assert Passed(w, t, steps, 4) && Passed(w, t, steps, 5) && Passed(w, t, steps, 6) && Passed(w, t, steps, 7);
    var t6 := Play(w, t, steps, 6);
    assert t6.accepts == t.accepts by {
      assert Play(w, t, steps, 5).accepts == t.accepts;
    }
    var a := r.activity.value;
    if FollowsUs(w, a) && r.signer.id != "" && r.signer.inbox != "" {
      FollowAccepted(w, t6, a, r.signer);
      FollowAccepted(w, Play(w, t, steps, 7), a, r.signer);
    }
  }

  lemma {:induction false} QuietSteps(w: World, t: Tables, steps: seq<Step>, k: int)
    requires WellFormed(steps) && 0 <= k <= |steps|
    requires forall i :: 0 <= i < k ==> steps[i].action.Check? || steps[i].action.Admit?
    ensures Play(w, t, steps, k) == t
  {
    hide WellFormed, Passed;
    if k > 0 {
      QuietSteps(w, t, steps, k - 1);
    }
  }

  /** One request twice, one after the other, with another request in between. Times count from the first. */
  function OneAfterTheOther(r: Request, other: Request): seq<Step> {
    var late := RETAIN + 1;
    [Step(Check(r), 0, 0), Step(Admit(0), 0, 0), Step(Remember(1), 0, 0),
     Step(Check(other), late, late), Step(Admit(3), late, late), Step(Remember(4), late, late),
     Step(Check(r), MAX_AGE + MAX_SKEW, late), Step(Admit(6), late, late), Step(Remember(7), late, late)]
  }

  lemma OneAfterTheOtherSteps(r: Request, other: Request)
    ensures var steps, late := OneAfterTheOther(r, other), RETAIN + 1;
            && |steps| == 9 && OnePost(steps, 0, r, 0, 0) && OnePost(steps, 3, other, late, late)
            && OnePost(steps, 6, r, MAX_AGE + MAX_SKEW, late)
  {
  }

  lemma OneAfterTheOtherLinks(r: Request, other: Request)
    ensures WellFormed(OneAfterTheOther(r, other)) && Clocked(OneAfterTheOther(r, other))
  {
    var steps, late := OneAfterTheOther(r, other), RETAIN + 1;
    OneAfterTheOtherSteps(r, other);
    OnePostLinks(steps, 0, r, 0, 0);
    OnePostLinks(steps, 3, other, late, late);
    OnePostLinks(steps, 6, r, MAX_AGE + MAX_SKEW, late);
    hide OneAfterTheOther, Linked, Prior;
    forall k | 0 <= k < 9
      ensures Linked(steps, k) && Prior(steps, k) < k && steps[k].read <= steps[k].at
      ensures steps[k].at == if k < 3 then 0 else late
      ensures 0 <= Prior(steps, k) ==> steps[Prior(steps, k)].at <= steps[k].read
    {
      assert k == 0 || k == 1 || k == 2 || k == 3 || k == 4 || k == 5 || k == 6 || k == 7 || k == 8;
    }
    forall i, j | 0 <= i < j < 9 && Prior(steps, i) >= 0 ensures steps[i].action != steps[j].action {
      assert i == 1 || i == 2 || i == 4 || i == 5 || i == 7 || i == 8;
      assert j == 1 || j == 2 || j == 3 || j == 4 || j == 5 || j == 6 || j == 7 || j == 8;
    }
  }

  /** The slack is exact: a POST that takes one second longer from reading the clock to its replay lookup can be a
      second dispatch of a signature whose entry was pruned, with no overlap at all. */
  lemma OneSecondTooSlow(w: World, t: Tables, r: Request, other: Request)
    requires t.replay == map[] && w.hashOf(r.signature) != w.hashOf(other.signature)
    requires OtherwiseFine(w, r, 0) && OtherwiseFine(w, r, MAX_AGE + MAX_SKEW) && OtherwiseFine(w, other, RETAIN + 1)
    requires !Blocked(w, t.blocks, r.activity.value) && !Blocked(w, t.blocks, other.activity.value)
    ensures var steps := OneAfterTheOther(r, other);
            && WellFormed(steps) && Clocked(steps)
            && steps[6].at - steps[6].read == SLACK + 1
            && (forall c :: 0 <= c < 6 && steps[c].action.Check? ==> steps[c].at == steps[c].read)
            && Dispatched(w, t, steps, 2) && Dispatched(w, t, steps, 8)
            && steps[8].action.Remember? && !Overlap(steps, 2, 8)
  {
    var steps, late := OneAfterTheOther(r, other), RETAIN + 1;
    OneAfterTheOtherLinks(r, other);
    OneAfterTheOtherSteps(r, other);
    OnePostChecks(steps, 0, r, 0, 0);
    OnePostChecks(steps, 6, r, MAX_AGE + MAX_SKEW, late);
    hide OneAfterTheOther, WellFormed, CheckOf, Checked, Blocked, Play, Passed, Remembered, Clocked;
    PlayNothing(w, t, steps);
    OnePostPasses(w, t, steps, 0, r, 0, 0);
    RememberedOne(w.hashOf(r.signature), 0);
    OnePostPasses(w, t, steps, 3, other, late, late);
    RememberedLate(w.hashOf(r.signature), w.hashOf(other.signature));
    OnePostPasses(w, t, steps, 6, r, MAX_AGE + MAX_SKEW, late);
  }

  /** An entry made at time 0 is pruned one second after the retention. */
  lemma RememberedLate(h: string, g: string)
    requires h != g
    ensures Remembered(map[], h, 0) == map[h := 0]
    ensures h !in Remembered(map[h := 0], g, RETAIN + 1)
  {
  }
}

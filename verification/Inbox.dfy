/** The signed inbox (internal/federation/inbox.go, internal/httpsig/verify.go): the order of its checks, replay
    rejection, and what each kind of activity does to the follower tables. Times are whole seconds. */
module Inbox {
  import opened Wrappers
  import opened Text

  const MAX_BODY := 1024 * 1024
  const MAX_SKEW := 30
  const MAX_AGE := 12 * 3600
  const RETAIN := 24 * 3600

  /** What the retention leaves over the Date window: how long a POST may take from reading the clock for its Date to
      looking its signature up. Fetching the key in between gives up after seconds. */
  const SLACK := RETAIN - MAX_AGE - MAX_SKEW

  datatype Error = Unauthorized | Replayed | BadActivity | Forbidden | FetchFailed

  datatype Remote = Remote(id: string, inbox: string, sharedInbox: string)

  /** The `object` property of an activity: absent, named by IRI, a list starting with a string, or embedded. */
  datatype Object = NoObject | Named(iri: string) | Listed(head: string)
                  | Embedded(kind: string, id: string, actor: string)

  /** The activity types the inbox tells apart. */
  datatype Kind = Follow | Undo | Accept | Reject | Delete | Other(name: string)

  /** An activity: its `type`, its `actor` with blanks trimmed, and its `object`. */
  datatype Activity = Activity(kind: Kind, actor: string, target: Object)

  /** One POST: its signature and Date header, what the document at the URL of its
      keyId says of an actor, and the decoded body if it decodes. */
  datatype Request = Request(size: nat, signature: string, date: int, signer: Remote, activity: Option<Activity>)

  /** What lies outside: which requests carry a valid signature, the hash of a signature, the host and validity of an
      IRI, actor documents, and this node's own actor. */
  datatype World = World(authentic: Request -> bool, hashOf: string -> string, hostOf: string -> string,
                         isHTTP: string -> bool, fetch: string -> Option<Remote>, self: string)

  datatype Tables = Tables(replay: map<string, int>, followers: map<string, Remote>, following: map<string, bool>,
                           blocks: set<string>, accepts: seq<(string, string)>)

  // ----- comparing IRIs -----

  function Canonical(iri: string): string {
    var t := Lower(TrimSpace(iri));
    if t != "" && t[|t| - 1] == '/' then t[..|t| - 1] else t
  }

  predicate SameIRI(a: string, b: string) {
    Canonical(a) == Canonical(b)
  }

  function ObjectID(o: Object): string {
    match o
    case NoObject => ""
    case Named(iri) => TrimSpace(iri)
    case Listed(_) => ""
    case Embedded(_, id, _) => TrimSpace(id)
  }

  // ----- checks -----

  predicate DateAccepted(date: int, now: int) {
    date <= now + MAX_SKEW && now - date <= MAX_AGE
  }

  /** The checks on the request itself, in their order around the replay lookup: the size, the signature and its Date,
      the signature in the replay table, the document, and its actor against the signer. */
  function Checked(w: World, replay: map<string, int>, r: Request, verifiedAt: int): Result<Activity, Error> {
    if r.size == 0 || r.size > MAX_BODY then Err(BadActivity)
    else if !w.authentic(r) || !DateAccepted(r.date, verifiedAt) then Err(Unauthorized)
    else if w.hashOf(r.signature) in replay then Err(Replayed)
    else if r.activity.None? then Err(BadActivity)
    else
      var a := r.activity.value;
      if a.actor == "" || !w.isHTTP(a.actor) then Err(BadActivity)
      else if r.signer.id != "" && !SameIRI(a.actor, r.signer.id) then Err(Unauthorized)
      else Ok(a)
  }

  /** The block lookup, by the actor as spelled in the document and by its host. */
  predicate Blocked(w: World, blocks: set<string>, a: Activity) {
    a.actor in blocks || w.hostOf(a.actor) in blocks
  }

  /** The replay table after a signature is remembered at `now`: inserted if absent, entries older than a day pruned. */
  function Remembered(replay: map<string, int>, hash: string, now: int): map<string, int> {
    var added := if hash in replay then replay else replay[hash := now];
    map h | h in added && added[h] >= now - RETAIN :: added[h]
  }

  // ----- handlers -----

  /** `strings.EqualFold` on ASCII letters. */
  predicate FoldEquals(a: string, b: string) {
    |a| == |b| && forall i :: 0 <= i < |a| ==> LowerChar(a[i]) == LowerChar(b[i])
  }

  /** The type an Undo is taken to undo: a string object stands for itself. */
  function UndoneType(o: Object): string {
    match o
    case NoObject => ""
    case Named(iri) => iri
    case Listed(head) => head
    case Embedded(kind, _, _) => kind
  }

  function UndoneActor(a: Activity): string {
    if a.target.Embedded? && TrimSpace(a.target.actor) != "" then TrimSpace(a.target.actor) else a.actor
  }

  function Followed(w: World, t: Tables, a: Activity, signer: Remote): (Tables, Option<Error>) {
    if ObjectID(a.target) != "" && !SameIRI(ObjectID(a.target), w.self) then (t, Some(BadActivity))
    else
      var remote := if signer.id == "" || signer.inbox == "" then w.fetch(a.actor) else Some(signer);
      match remote
      case None => (t, Some(FetchFailed))
      case Some(f) => (t.(followers := t.followers[f.id := f], accepts := t.accepts + [(f.inbox, f.id)]), None)
  }

  function Undone(t: Tables, a: Activity): (Tables, Option<Error>) {
    if UndoneType(a.target) != "" && !FoldEquals(UndoneType(a.target), "Follow") then (t, None)
    else if !SameIRI(UndoneActor(a), a.actor) then (t, Some(BadActivity))
    else (t.(followers := t.followers - {a.actor}), None)
  }

  function Answered(t: Tables, a: Activity, accepted: bool): Tables {
    if a.actor in t.following then t.(following := t.following[a.actor := accepted]) else t
  }

  function Deleted(t: Tables, a: Activity): Tables {
    if ObjectID(a.target) == "" || SameIRI(ObjectID(a.target), a.actor)
    then t.(followers := t.followers - {a.actor}) else t
  }

  /** The switch on the activity's type. */
  function Handled(w: World, t: Tables, a: Activity, signer: Remote): (Tables, Option<Error>) {
    match a.kind
    case Follow => Followed(w, t, a, signer)
    case Undo => Undone(t, a)
    case Accept => (Answered(t, a, true), None)
    case Reject => (Answered(t, a, false), None)
    case Delete => (Deleted(t, a), None)
    case Other(_) => (t, None)
  }

  /** What one `Process` answers. */
  datatype Verdict = Rejected(error: Error) | Dispatched(answer: Option<Error>)

  /** One POST as it met the tables: the clock its Date was held against, the tables when its signature was looked up,
      when its actor was looked up among the blocks, before and after its signature was remembered, and when it was
      handled. Other POSTs and the owner may change the tables in between. */
  datatype Meeting = Meeting(verifiedAt: int, seen: Tables, admitted: Tables, remembered: Tables, rememberedAt: int,
                             kept: Tables, handled: Tables)

  function VerdictOf(w: World, r: Request, m: Meeting): Verdict {
    match Checked(w, m.seen.replay, r, m.verifiedAt)
    case Err(e) => Rejected(e)
    case Ok(a) =>
      if Blocked(w, m.admitted.blocks, a) then Rejected(Forbidden)
      else Dispatched(Handled(w, m.handled, a, r.signer).1)
  }

  /** The tables as one POST leaves them. */
  function LeftBy(w: World, r: Request, m: Meeting): Tables {
    match Checked(w, m.seen.replay, r, m.verifiedAt)
    case Err(_) => m.seen
    case Ok(a) => if Blocked(w, m.admitted.blocks, a) then m.admitted else Handled(w, m.handled, a, r.signer).0
  }

  class InboxHandler {
    var replay: map<string, int>
    var followers: map<string, Remote>
    var following: map<string, bool>
    var blocks: set<string>
    var accepts: seq<(string, string)>  // Accept activities queued: inbox, follower
    var clock: int

    function Current(): Tables
      reads this
    {
      Tables(replay, followers, following, blocks, accepts)
    }

    method Now() returns (t: int)
      modifies this`clock
      ensures t == clock && old(clock) <= clock
    {
      t := *;
      if t < clock {
        t := clock;
      }
      clock := t;
    }

    /** Other POSTs and the owner at work: the tables may change in any way, the clock only forward. */
    method Others()
      modifies this
      ensures clock >= old(clock)
    {
      var t := Now();
      replay, followers, following, blocks, accepts := *, *, *, *, *;
    }

    method RememberSignature(hash: string)
      modifies this`replay, this`clock
      ensures clock >= old(clock) && replay == Remembered(old(replay), hash, clock)
    {
      var now := Now();
      if hash !in replay {
        replay := replay[hash := now];
      }
      var cutoff := now - RETAIN;
      replay := map h | h in replay && replay[h] >= cutoff :: replay[h];
    }

    method HandleFollow(w: World, a: Activity, signer: Remote) returns (err: Option<Error>)
      modifies this`followers, this`accepts
      ensures (Current(), err) == Followed(w, old(Current()), a, signer)
    {
      var named := ObjectID(a.target);
      if named != "" && !SameIRI(named, w.self) {
        return Some(BadActivity);
      }
      var remote := signer;
      if signer.id == "" || signer.inbox == "" {
        var fetched := w.fetch(a.actor);
        if fetched.None? {
          return Some(FetchFailed);
        }
        remote := fetched.value;
      }
      followers := followers[remote.id := remote];
      accepts := accepts + [(remote.inbox, remote.id)];
      return None;
    }

    method HandleUndo(a: Activity) returns (err: Option<Error>)
      modifies this`followers
      ensures (Current(), err) == Undone(old(Current()), a)
    {
      var innerType := UndoneType(a.target);
      if !FoldEquals(innerType, "Follow") && innerType != "" {
        return None;
      }
      if !SameIRI(UndoneActor(a), a.actor) {
        return Some(BadActivity);
      }
      followers := followers - {a.actor};
      return None;
    }

    method HandleAnswer(a: Activity, accepted: bool)
      modifies this`following
      ensures Current() == Answered(old(Current()), a, accepted)
    {
      if a.actor in following {
        following := following[a.actor := accepted];
      }
    }

    method HandleDelete(a: Activity)
      modifies this`followers
      ensures Current() == Deleted(old(Current()), a)
    {
      var named := ObjectID(a.target);
      if named == "" || SameIRI(named, a.actor) {
        followers := followers - {a.actor};
      }
    }

    method Dispatch(w: World, a: Activity, signer: Remote) returns (err: Option<Error>)
      modifies this`followers, this`following, this`accepts
      ensures (Current(), err) == Handled(w, old(Current()), a, signer)
    {
      err := None;
      match a.kind {
        case Follow => err := HandleFollow(w, a, signer);
        case Undo => err := HandleUndo(a);
        case Accept => HandleAnswer(a, true);
        case Reject => HandleAnswer(a, false);
        case Delete => HandleDelete(a);
        case Other(_) =>
      }
    }

    /** The part of `Process` up to the block lookup. */
    method CheckRequest(w: World, r: Request) returns (result: Result<Activity, Error>, ghost verifiedAt: int,
                                                       ghost seen: Tables)
      modifies this
      ensures old(clock) <= verifiedAt <= clock
      ensures result == Checked(w, seen.replay, r, verifiedAt) && (result.Err? ==> Current() == seen)
    {
      hide SameIRI;
      verifiedAt, seen := clock, Current();
      if r.size == 0 || r.size > MAX_BODY {
        return Err(BadActivity), verifiedAt, seen;
      }
      var now := Now();
      verifiedAt := now;
      if !w.authentic(r) || !DateAccepted(r.date, now) {
        return Err(Unauthorized), verifiedAt, seen;
      }
      Others();
      seen := Current();
      var hash := w.hashOf(r.signature);
      if hash in replay {
        return Err(Replayed), verifiedAt, seen;
      }
      if r.activity.None? {
        return Err(BadActivity), verifiedAt, seen;
      }
      var a := r.activity.value;
      if a.actor == "" || !w.isHTTP(a.actor) {
        return Err(BadActivity), verifiedAt, seen;
      }
      if r.signer.id != "" && !SameIRI(a.actor, r.signer.id) {
        return Err(Unauthorized), verifiedAt, seen;
      }
      return Ok(a), verifiedAt, seen;
    }

    /** `Process`: nothing keeps its lookups and writes together, so others may work between any two of them. */
    method Process(w: World, r: Request) returns (verdict: Verdict, ghost m: Meeting)
      modifies this
      ensures old(clock) <= m.verifiedAt <= clock
      ensures verdict == VerdictOf(w, r, m) && Current() == LeftBy(w, r, m)
      ensures verdict.Dispatched? ==>
                && m.verifiedAt <= m.rememberedAt <= clock
                && m.kept == m.remembered.(replay := Remembered(m.remembered.replay, w.hashOf(r.signature),
                    m.rememberedAt))
    {
      hide Checked, Handled;
      var result;
      ghost var verifiedAt, seen;
      result, verifiedAt, seen := CheckRequest(w, r);
      m := Meeting(verifiedAt, seen, seen, seen, verifiedAt, seen, seen);
      if result.Err? {
        return Rejected(result.error), m;
      }
      var a := result.value;
      Others();
      m := m.(admitted := Current());
      if a.actor in blocks || w.hostOf(a.actor) in blocks {
        return Rejected(Forbidden), m;
      }
      Others();
      m := m.(remembered := Current());
      RememberSignature(w.hashOf(r.signature));
      m := m.(rememberedAt := clock, kept := Current());
      Others();
      m := m.(handled := Current());
      var err := Dispatch(w, a, r.signer);
      return Dispatched(err), m;
    }
  }
}

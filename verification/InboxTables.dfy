/** What the inbox tables hold over whole runs: who a stored follower is, whether a follow this node sent stands
    accepted, which Accepts are queued, and what each POST is answered. */
module InboxTables {
  import opened Wrappers
  import opened Text
  import opened Letters
  import opened Spelling
  import opened Inbox
  import opened InboxLaws
  import opened InboxFollowers

  // ----- the stored follower -----

  /** Step `j` stores `rec` as the follower `key`: a handled Follow of this node signed by it, or the owner's own
      change. */
  ghost predicate Stores(w: World, t: Tables, steps: seq<Step>, j: int, key: string, rec: Remote)
    requires WellFormed(steps) && 0 <= j < |steps|
  {
    match steps[j].action
    case Handle(_) =>
      && Passed(w, t, steps, j) && FollowsUs(w, RequestOf(steps, j).activity.value)
      && rec == RequestOf(steps, j).signer && key == rec.id
    case Local(followers, _, _, _) => key in followers && followers[key] == rec
    case _ => false
  }

  /** The last step among the first `n` that says anything about `key` stores `rec`, or none says anything and `rec` was
      stored before. */
  ghost predicate LastStored(w: World, t: Tables, steps: seq<Step>, n: int, key: string, rec: Remote)
    requires WellFormed(steps) && 0 <= n <= |steps|
  {
    || (exists j :: 0 <= j < n && Stores(w, t, steps, j, key, rec)
          && forall i :: j < i < n ==> Silent(w, t, steps, i, key))
    || (key in t.followers && t.followers[key] == rec && forall i :: 0 <= i < n ==> Silent(w, t, steps, i, key))
  }

  /** Step `i` says nothing about `key`. */
  ghost predicate Silent(w: World, t: Tables, steps: seq<Step>, i: int, key: string)
    requires WellFormed(steps) && 0 <= i < |steps|
  {
    !Says(w, t, steps, i, key, true) && !Says(w, t, steps, i, key, false)
  }

  predicate Holds<V(==)>(m: map<string, V>, key: string, v: V) {
    key in m && m[key] == v
  }

  lemma StoredByHandler(w: World, t: Tables, a: Activity, signer: Remote, key: string, rec: Remote)
    requires signer.id != "" && signer.inbox != ""
    ensures Holds(Handled(w, t, a, signer).0.followers, key, rec) <==>
            if FollowsUs(w, a) && key == signer.id then rec == signer
            else Holds(t.followers, key, rec) && !(Leaves(a) && key == a.actor)
  {
    LeavesExactly(a);
    NamesExactly(a.target, w.self);
    hide SameIRI, UndoneActor, FoldEquals, ObjectID, UndoneType, NamesOrNone, UndoesAFollow, ByActor;
    match a.kind {
      case Follow => assert Handled(w, t, a, signer) == Followed(w, t, a, signer);
      case Undo => assert Handled(w, t, a, signer) == Undone(t, a);
      case _ =>
    }
  }

  lemma StoredStep(w: World, t: Tables, steps: seq<Step>, k: int, key: string, rec: Remote)
    requires SignersKnown(w) && WellFormed(steps) && 0 <= k < |steps|
    ensures Holds(Play(w, t, steps, k + 1).followers, key, rec) <==>
            || Stores(w, t, steps, k, key, rec)
            || (Holds(Play(w, t, steps, k).followers, key, rec) && Silent(w, t, steps, k, key))
  {
    hide Checked, CheckOf, WellFormed, Handled, SameIRI, Leaves, FollowsUs;
    if steps[k].action.Handle? && Passed(w, t, steps, k) {
      PassedSigner(w, t, steps, k);
      var r := RequestOf(steps, k);
      StoredByHandler(w, Play(w, t, steps, k), r.activity.value, r.signer, key, rec);
      KindsDiffer(w, r.activity.value);
    }
  }

  lemma KindsDiffer(w: World, a: Activity)
    ensures !(FollowsUs(w, a) && Leaves(a))
  {
  }

  lemma LastStoredStep(w: World, t: Tables, steps: seq<Step>, n: int, key: string, rec: Remote)
    requires WellFormed(steps) && 0 <= n < |steps|
    ensures LastStored(w, t, steps, n + 1, key, rec) <==>
            || Stores(w, t, steps, n, key, rec)
            || (LastStored(w, t, steps, n, key, rec) && Silent(w, t, steps, n, key))
  {
    hide WellFormed, Stores, Silent;
    if LastStored(w, t, steps, n, key, rec) && Silent(w, t, steps, n, key) {
      if j :| 0 <= j < n && Stores(w, t, steps, j, key, rec)
              && forall i :: j < i < n ==> Silent(w, t, steps, i, key) {
        assert forall i :: j < i < n + 1 ==> Silent(w, t, steps, i, key);
      }
    }
  }

  /** After any run a follower is stored as the very actor document its last Follow was signed with, or as the owner
      last left it. */
  lemma {:induction false} StoredOfRun(w: World, t: Tables, steps: seq<Step>, n: int, key: string, rec: Remote)
    requires SignersKnown(w) && WellFormed(steps) && 0 <= n <= |steps|
    ensures Holds(Play(w, t, steps, n).followers, key, rec) <==> LastStored(w, t, steps, n, key, rec)
  {
    hide WellFormed, Passed, Stores, Silent, CheckOf;
    if n == 0 {
      PlayNothing(w, t, steps);
    } else {
      StoredOfRun(w, t, steps, n - 1, key, rec);
      StoredStep(w, t, steps, n - 1, key, rec);
      LastStoredStep(w, t, steps, n - 1, key, rec);
    }
  }

  // ----- answers to the follows this node sent -----

  /** Step `j` says whether the follow of `key` stands accepted: a handled Accept or Reject by an actor spelt so, or the
      owner's own change. */
  ghost predicate Answers(w: World, t: Tables, steps: seq<Step>, j: int, key: string, accepted: bool)
    requires WellFormed(steps) && 0 <= j < |steps|
  {
    match steps[j].action
    case Handle(_) =>
      && Passed(w, t, steps, j)
      && var a := RequestOf(steps, j).activity.value;
      a.actor == key && if accepted then a.kind.Accept? else a.kind.Reject?
    case Local(_, following, _, _) => Holds(following, key, accepted)
    case _ => false
  }

  /** Step `j` says the opposite. */
  ghost predicate Denies(w: World, t: Tables, steps: seq<Step>, j: int, key: string, accepted: bool)
    requires WellFormed(steps) && 0 <= j < |steps|
  {
    Answers(w, t, steps, j, key, !accepted)
  }

  /** The last word on the follow of `key` among the first `n` steps is `accepted`. */
  ghost predicate LastAnswer(w: World, t: Tables, steps: seq<Step>, n: int, key: string, accepted: bool)
    requires WellFormed(steps) && 0 <= n <= |steps|
  {
    || (exists j :: 0 <= j < n && Answers(w, t, steps, j, key, accepted)
          && forall i :: j < i < n ==> !Denies(w, t, steps, i, key, accepted))
    || (Holds(t.following, key, accepted) && forall i :: 0 <= i < n ==> !Denies(w, t, steps, i, key, accepted))
  }

  lemma AnsweredByHandler(w: World, t: Tables, a: Activity, signer: Remote, key: string, accepted: bool)
    requires key in t.following
    ensures Holds(Handled(w, t, a, signer).0.following, key, accepted) <==>
            || (a.actor == key && if accepted then a.kind.Accept? else a.kind.Reject?)
            || (Holds(t.following, key, accepted)
                && !(a.actor == key && if accepted then a.kind.Reject? else a.kind.Accept?))
  {
    hide SameIRI, UndoneActor, FoldEquals, ObjectID, UndoneType;
    match a.kind {
      case Follow => assert Handled(w, t, a, signer) == Followed(w, t, a, signer);
      case Undo => assert Handled(w, t, a, signer) == Undone(t, a);
      case _ =>
    }
  }

  lemma AnswerStep(w: World, t: Tables, steps: seq<Step>, k: int, key: string, accepted: bool)
    requires WellFormed(steps) && 0 <= k < |steps|
    requires key in Play(w, t, steps, k).following && key in Play(w, t, steps, k + 1).following
    ensures Holds(Play(w, t, steps, k + 1).following, key, accepted) <==>
            || Answers(w, t, steps, k, key, accepted)
            || (Holds(Play(w, t, steps, k).following, key, accepted) && !Denies(w, t, steps, k, key, accepted))
  {
    hide Checked, CheckOf, WellFormed, Handled;
    if steps[k].action.Handle? && Passed(w, t, steps, k) {
      var r := RequestOf(steps, k);
      AnsweredByHandler(w, Play(w, t, steps, k), r.activity.value, r.signer, key, accepted);
    } else if steps[k].action.Local? {
      assert Play(w, t, steps, k + 1).following == steps[k].action.following;
      assert Answers(w, t, steps, k, key, accepted) <==> steps[k].action.following[key] == accepted;
    }
  }

  lemma LastAnswerStep(w: World, t: Tables, steps: seq<Step>, n: int, key: string, accepted: bool)
    requires WellFormed(steps) && 0 <= n < |steps|
    ensures LastAnswer(w, t, steps, n + 1, key, accepted) <==>
            || Answers(w, t, steps, n, key, accepted)
            || (LastAnswer(w, t, steps, n, key, accepted) && !Denies(w, t, steps, n, key, accepted))
  {
    hide WellFormed, Answers, Denies;
    if LastAnswer(w, t, steps, n, key, accepted) && !Denies(w, t, steps, n, key, accepted) {
      if j :| 0 <= j < n && Answers(w, t, steps, j, key, accepted)
              && forall i :: j < i < n ==> !Denies(w, t, steps, i, key, accepted) {
        assert forall i :: j < i < n + 1 ==> !Denies(w, t, steps, i, key, accepted);
      }
    }
  }

  /** After any run a follow this node sent, and that the owner did not take back meanwhile, stands accepted exactly
      when the last Accept, Reject or change by the owner about it says so. */
  lemma {:induction false} AnswersOfRun(w: World, t: Tables, steps: seq<Step>, n: int, key: string, accepted: bool)
    requires WellFormed(steps) && 0 <= n <= |steps|
    requires forall k :: 0 <= k <= n ==> key in Play(w, t, steps, k).following
    ensures Holds(Play(w, t, steps, n).following, key, accepted) <==> LastAnswer(w, t, steps, n, key, accepted)
  {
    hide WellFormed, Passed, Answers, Denies, CheckOf, Play;
    if n == 0 {
      PlayNothing(w, t, steps);
    } else {
      AnswersOfRun(w, t, steps, n - 1, key, accepted);
      AnswerStep(w, t, steps, n - 1, key, accepted);
      LastAnswerStep(w, t, steps, n - 1, key, accepted);
    }
  }

  // ----- queued Accepts -----

  /** The Accepts queued after the first `n` steps: one to the signer's inbox for each handled Follow of this node, in
      order, after whatever the owner last left. */
  ghost function Queued(w: World, t: Tables, steps: seq<Step>, n: int): seq<(string, string)>
    requires WellFormed(steps) && 0 <= n <= |steps|
  {
    if n == 0 then t.accepts
    else match steps[n - 1].action
      case Local(_, _, _, accepts) => accepts
      case Handle(_) =>
        var r := RequestOf(steps, n - 1);
        Queued(w, t, steps, n - 1)
        + if Passed(w, t, steps, n - 1) && FollowsUs(w, r.activity.value) then [(r.signer.inbox, r.signer.id)] else []
      case _ => Queued(w, t, steps, n - 1)
  }

  lemma AcceptedByHandler(w: World, t: Tables, a: Activity, signer: Remote)
    requires signer.id != "" && signer.inbox != ""
    ensures Handled(w, t, a, signer).0.accepts
         == t.accepts + if FollowsUs(w, a) then [(signer.inbox, signer.id)] else []
  {
    NamesExactly(a.target, w.self);
    hide SameIRI, UndoneActor, FoldEquals, ObjectID, UndoneType, NamesOrNone;
    assert t.accepts + [] == t.accepts;
    match a.kind {
      case Follow => assert Handled(w, t, a, signer) == Followed(w, t, a, signer);
      case Undo => assert Handled(w, t, a, signer) == Undone(t, a);
      case _ =>
    }
  }

  /** Every handled Follow of this node queues one Accept to the inbox of its signer, and nothing else does. */
  lemma {:induction false} AcceptsOfRun(w: World, t: Tables, steps: seq<Step>, n: int)
    requires SignersKnown(w) && WellFormed(steps) && 0 <= n <= |steps|
    ensures Play(w, t, steps, n).accepts == Queued(w, t, steps, n)
  {
    hide WellFormed, CheckOf, Handled, Checked, FollowsUs;
    if n > 0 {
      AcceptsOfRun(w, t, steps, n - 1);
      if steps[n - 1].action.Handle? && Passed(w, t, steps, n - 1) {
        var r := RequestOf(steps, n - 1);
        PassedSigner(w, t, steps, n - 1);
        AcceptedByHandler(w, Play(w, t, steps, n - 1), r.activity.value, r.signer);
      }
    }
  }

  // ----- what a dispatched POST is answered -----

  /** The handlers' answers: a Follow of someone else and an Undo for another actor are bad activities, a Follow whose
      signer has no id or inbox fails when its actor cannot be fetched, and everything else is taken. */
  lemma AnswerExactly(w: World, t: Tables, a: Activity, signer: Remote)
    ensures var (after, answer) := Handled(w, t, a, signer);
      && (answer == Some(BadActivity) <==>
            || (a.kind.Follow? && !NamesOrNone(a.target, w.self))
            || (a.kind.Undo? && UndoesAFollow(a.target) && !ByActor(a.target, a.actor)))
      && (answer == Some(FetchFailed) <==>
            FollowsUs(w, a) && (signer.id == "" || signer.inbox == "") && w.fetch(a.actor).None?)
      && (answer.None? || answer == Some(BadActivity) || answer == Some(FetchFailed))
      && (answer.Some? ==> after == t)
  {
    LeavesExactly(a);
    NamesExactly(a.target, w.self);
    hide SameIRI, UndoneActor, FoldEquals, ObjectID, UndoneType, NamesOrNone, UndoesAFollow, ByActor;
    match a.kind {
      case Follow => assert Handled(w, t, a, signer) == Followed(w, t, a, signer);
      case Undo => assert Handled(w, t, a, signer) == Undone(t, a);
      case _ =>
    }
  }

  /** A Follow whose signer has no id or inbox is stored as the document fetched for its actor. */
  lemma FetchedIsStored(w: World, t: Tables, a: Activity, signer: Remote)
    requires FollowsUs(w, a) && (signer.id == "" || signer.inbox == "") && w.fetch(a.actor).Some?
    ensures var f := w.fetch(a.actor).value;
      Handled(w, t, a, signer).0
        == t.(followers := t.followers[f.id := f], accepts := t.accepts + [(f.inbox, f.id)])
  {
    NamesExactly(a.target, w.self);
    hide SameIRI, ObjectID, NamesOrNone;
    assert Handled(w, t, a, signer) == Followed(w, t, a, signer);
  }
}

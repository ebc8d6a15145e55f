/** Who follows and who is blocked over whole runs of the inbox, in which the steps of different POSTs interleave. */
module InboxFollowers {
  import opened Text
  import opened Letters
  import opened Spelling
  import opened Inbox
  import opened InboxLaws

  // ----- isolation -----

  predicate SameAt<V(==)>(m: map<string, V>, n: map<string, V>, key: string) {
    (key in m <==> key in n) && (key in m ==> m[key] == n[key])
  }

  /** A verified key comes with an actor document that has an id and an inbox. */
  ghost predicate SignersKnown(w: World) {
    forall r :: w.authentic(r) ==> r.signer.id != "" && r.signer.inbox != ""
  }

  lemma HandlersTouch(w: World, t: Tables, a: Activity, signer: Remote, key: string)
    requires signer.id != "" && signer.inbox != ""
    ensures Handled(w, t, a, signer).0.blocks == t.blocks
    ensures key != a.actor && key != signer.id ==>
              && SameAt(t.followers, Handled(w, t, a, signer).0.followers, key)
              && SameAt(t.following, Handled(w, t, a, signer).0.following, key)
  {
    hide SameIRI, UndoneActor, FoldEquals, ObjectID;
    match a.kind {
      case Follow => assert Handled(w, t, a, signer) == Followed(w, t, a, signer);
      case Undo => assert Handled(w, t, a, signer) == Undone(t, a);
      case _ =>
    }
  }

  lemma CheckedSigner(w: World, replay: map<string, int>, r: Request, now: int)
    requires SignersKnown(w) && Checked(w, replay, r, now).Ok?
    ensures r.signer.id != "" && r.signer.inbox != "" && r.activity.Some?
    ensures SameIRI(r.activity.value.actor, r.signer.id) && SpeltAlike(r.activity.value.actor, r.signer.id)
  {
    hide SameIRI, SpeltAlike;
    assert w.authentic(r);
    SameIRIExactly(r.activity.value.actor, r.signer.id);
  }

  lemma {:induction false} PassedIsChecked(w: World, t: Tables, steps: seq<Step>, k: int)
    requires WellFormed(steps) && 0 <= k < |steps| && !steps[k].action.Local? && Passed(w, t, steps, k)
    ensures exists replay, now :: Checked(w, replay, RequestOf(steps, k), now).Ok?
    decreases k
  {
    hide Checked, Play, Blocked;
    assert Linked(steps, k);
    if steps[k].action.Check? {
      assert Checked(w, Play(w, t, steps, k).replay, RequestOf(steps, k), steps[k].read).Ok?;
    } else {
      PassedIsChecked(w, t, steps, Prior(steps, k));
    }
  }

  lemma PassedSigner(w: World, t: Tables, steps: seq<Step>, k: int)
    requires SignersKnown(w)
    requires WellFormed(steps) && 0 <= k < |steps| && !steps[k].action.Local? && Passed(w, t, steps, k)
    ensures var r := RequestOf(steps, k);
            && r.signer.id != "" && r.signer.inbox != "" && SameIRI(r.activity.value.actor, r.signer.id)
            && SpeltAlike(r.activity.value.actor, r.signer.id)
  {
    hide Checked, Passed, CheckOf, WellFormed, SameIRI, SpeltAlike;
    PassedIsChecked(w, t, steps, k);
    var replay, now :| Checked(w, replay, RequestOf(steps, k), now).Ok?;
    CheckedSigner(w, replay, RequestOf(steps, k), now);
  }

  /** No step of a POST changes the block list, and the follower tables change only at IRIs spelt, letter by letter up
      to case and a trailing slash, like the id claimed by the document at the URL of its keyId. */
  lemma OnlyTheSigner(w: World, t: Tables, steps: seq<Step>, k: int, key: string)
    requires SignersKnown(w) && WellFormed(steps) && 0 <= k < |steps| && !steps[k].action.Local?
    ensures var before, after := Play(w, t, steps, k), Play(w, t, steps, k + 1);
            && after.blocks == before.blocks
            && (!SpeltAlike(key, RequestOf(steps, k).signer.id) ==>
                  SameAt(before.followers, after.followers, key) && SameAt(before.following, after.following, key))
  {
    hide Checked, CheckOf, WellFormed, Handled, TrimSpace;
    if steps[k].action.Handle? && Passed(w, t, steps, k) {
      PassedSigner(w, t, steps, k);
      HandlersTouch(w, Play(w, t, steps, k), RequestOf(steps, k).activity.value, RequestOf(steps, k).signer, key);
    }
  }

  // ----- blocks -----

  /** A POST whose signer is blocked, but not its host, is refused exactly when its document spells the actor as the
      block does: the block list is compared exactly, the signer up to letter case and a trailing slash. */
  lemma BlockedSigner(w: World, t: Tables, steps: seq<Step>, k: int)
    requires SignersKnown(w) && WellFormed(steps) && 0 <= k < |steps| && steps[k].action.Admit?
    requires 0 <= Prior(steps, k) < k && steps[Prior(steps, k)].action.Check? && Passed(w, t, steps, Prior(steps, k))
    requires RequestOf(steps, k).activity.Some?
    requires var blocks, r := Play(w, t, steps, k).blocks, RequestOf(steps, k);
             && r.signer.id in blocks && w.hostOf(r.activity.value.actor) !in blocks
             && forall b <- blocks :: SameIRI(b, r.signer.id) ==> b == r.signer.id
    ensures Passed(w, t, steps, k) <==> RequestOf(steps, k).activity.value.actor != RequestOf(steps, k).signer.id
  {
    hide Checked, Canonical, Play;
    assert Linked(steps, k);
    var c := Prior(steps, k);
    assert RequestOf(steps, c) == RequestOf(steps, k);
    PassedSigner(w, t, steps, c);
  }

  /** A request with its actor spelled with a trailing slash gets past a block of the actor's own id. */
  lemma BlockMissesOtherSpelling(w: World, r: Request, now: int)
    requires 0 < r.size <= MAX_BODY && w.authentic(r) && DateAccepted(r.date, now) && r.activity.Some?
    requires r.signer.id != "" && Trimmed(r.signer.id) && r.signer.id[|r.signer.id| - 1] != '/'
    requires r.activity.value.actor == r.signer.id + ['/'] && w.isHTTP(r.activity.value.actor)
    requires w.hostOf(r.activity.value.actor) != r.signer.id
    ensures OtherwiseFine(w, r, now) && !Blocked(w, {r.signer.id}, r.activity.value)
  {
    SlashIsSame(r.signer.id);
    hide SameIRI, Trimmed, DateAccepted;
    var actor := r.activity.value.actor;
    assert |actor| == |r.signer.id| + 1;
    assert actor !in {r.signer.id};
    assert SameIRI(actor, r.signer.id);
  }

  lemma SlashIsSame(id: string)
    requires id != "" && Trimmed(id) && id[|id| - 1] != '/'
    ensures SameIRI(id + ['/'], id)
  {
    hide Canonical, Trimmed;
    CanonicalSlash(id);
  }

  lemma CanonicalSlash(id: string)
    requires id != "" && Trimmed(id) && id[|id| - 1] != '/'
    ensures Canonical(id + ['/']) == Canonical(id)
  {
    var slashed := id + ['/'];
    TrimSpaceFixes(id);
    TrimSpaceFixes(slashed);
    LowerAt(id);
    LowerAt(slashed);
    assert Lower(slashed)[..|id|] == Lower(id);
    assert LowerChar(id[|id| - 1]) != '/';
  }

  // ----- who follows -----

  /** The undone activity is a Follow, or of no known type: a string object is read as the type. */
  predicate UndoesAFollow(o: Object) {
    match o
    case NoObject => true
    case Named(iri) => iri == "" || SameLetters(iri, "Follow")
    case Listed(head) => head == "" || SameLetters(head, "Follow")
    case Embedded(kind, _, _) => kind == "" || SameLetters(kind, "Follow")
  }

  /** The actor of an embedded object, if it has one, is `actor`. */
  predicate ByActor(o: Object, actor: string) {
    o.Embedded? && TrimSpace(o.actor) != "" ==> SpeltAlike(o.actor, actor)
  }

  /** The activity asks this node to forget its actor: an Undo of its own Follow, or a Delete of itself. */
  predicate Leaves(a: Activity) {
    || (a.kind.Undo? && UndoesAFollow(a.target) && ByActor(a.target, a.actor))
    || (a.kind.Delete? && NamesOrNone(a.target, a.actor))
  }

  lemma LeavesExactly(a: Activity)
    ensures UndoesAFollow(a.target) <==> UndoneType(a.target) == "" || FoldEquals(UndoneType(a.target), "Follow")
    ensures ByActor(a.target, a.actor) <==> SameIRI(UndoneActor(a), a.actor)
    ensures NamesOrNone(a.target, a.actor) <==> ObjectID(a.target) == "" || SameIRI(ObjectID(a.target), a.actor)
  {
    hide SpeltAlike, SameIRI, TrimSpace, ObjectID, SameLetters, FoldEquals, NamesOrNone;
    FoldSame(UndoneType(a.target), "Follow");
    SameIRIExactly(UndoneActor(a), a.actor);
    SameIRIReflexive(a.actor);
    NamesExactly(a.target, a.actor);
    if a.target.Embedded? {
      SpeltAlikeTrims(a.target.actor, a.actor);
    }
  }

  lemma SameIRIReflexive(iri: string)
    ensures SameIRI(iri, iri)
  {
  }

  lemma FollowersExact(w: World, t: Tables, a: Activity, signer: Remote, key: string)
    requires signer.id != "" && signer.inbox != ""
    ensures key in Handled(w, t, a, signer).0.followers <==>
            || (key == signer.id && FollowsUs(w, a))
            || (key in t.followers && !(key == a.actor && Leaves(a)))
  {
    LeavesExactly(a);
    NamesExactly(a.target, w.self);
    hide SameIRI, UndoneActor, FoldEquals, ObjectID, UndoneType, NamesOrNone, UndoesAFollow, ByActor;
    match a.kind {
      case Follow => assert Handled(w, t, a, signer) == Followed(w, t, a, signer);
      case Undo => assert Handled(w, t, a, signer) == Undone(t, a);
      case _ =>
    }
  }

  /** Step `j` says that `key` follows, or that it does not: a handled Follow of this node by the signer with that id, a
      handled Undo or Delete by an actor spelled so, or the owner's own change. */
  ghost predicate Says(w: World, t: Tables, steps: seq<Step>, j: int, key: string, follows: bool)
    requires WellFormed(steps) && 0 <= j < |steps|
  {
    match steps[j].action
    case Handle(_) =>
      && Passed(w, t, steps, j)
      && var r := RequestOf(steps, j);
      if follows then key == r.signer.id && FollowsUs(w, r.activity.value)
      else key == r.activity.value.actor && Leaves(r.activity.value)
    case Local(followers, _, _, _) => (key in followers) == follows
    case _ => false
  }

  /** The last word on `key` among the first `n` steps is that it follows, or nothing was said and it followed
      before. */
  ghost predicate LastWord(w: World, t: Tables, steps: seq<Step>, n: int, key: string)
    requires WellFormed(steps) && 0 <= n <= |steps|
  {
    || (exists j :: 0 <= j < n && Says(w, t, steps, j, key, true)
          && forall i :: j < i < n ==> !Says(w, t, steps, i, key, false))
    || (key in t.followers && forall i :: 0 <= i < n ==> !Says(w, t, steps, i, key, false))
  }

  lemma FollowersStep(w: World, t: Tables, steps: seq<Step>, k: int, key: string)
    requires SignersKnown(w) && WellFormed(steps) && 0 <= k < |steps|
    ensures key in Play(w, t, steps, k + 1).followers <==>
            || Says(w, t, steps, k, key, true)
            || (key in Play(w, t, steps, k).followers && !Says(w, t, steps, k, key, false))
  {
    hide Checked, CheckOf, WellFormed, Handled, SameIRI, Leaves, FollowsUs;
    if steps[k].action.Handle? && Passed(w, t, steps, k) {
      PassedSigner(w, t, steps, k);
      FollowersExact(w, Play(w, t, steps, k), RequestOf(steps, k).activity.value, RequestOf(steps, k).signer, key);
    }
  }

  lemma LastWordStep(w: World, t: Tables, steps: seq<Step>, n: int, key: string)
    requires WellFormed(steps) && 0 <= n < |steps|
    ensures LastWord(w, t, steps, n + 1, key) <==>
            || Says(w, t, steps, n, key, true)
            || (LastWord(w, t, steps, n, key) && !Says(w, t, steps, n, key, false))
  {
    hide WellFormed, Says;
    if LastWord(w, t, steps, n, key) && !Says(w, t, steps, n, key, false) {
      if j :| 0 <= j < n && Says(w, t, steps, j, key, true)
              && forall i :: j < i < n ==> !Says(w, t, steps, i, key, false) {
        assert forall i :: j < i < n + 1 ==> !Says(w, t, steps, i, key, false);
      }
    }
  }

  /** After any run in which POSTs interleave, an IRI follows exactly when the last Follow, Undo, Delete or change by
      the owner about that very spelling says so, or nothing was said about it and it followed at the start. */
  lemma {:induction false} FollowersOfRun(w: World, t: Tables, steps: seq<Step>, n: int, key: string)
    requires SignersKnown(w) && WellFormed(steps) && 0 <= n <= |steps|
    ensures key in Play(w, t, steps, n).followers <==> LastWord(w, t, steps, n, key)
  {
    hide WellFormed, Passed, Says, CheckOf;
    if n == 0 {
      PlayNothing(w, t, steps);
    } else {
      FollowersOfRun(w, t, steps, n - 1, key);
      FollowersStep(w, t, steps, n - 1, key);
      LastWordStep(w, t, steps, n - 1, key);
    }
  }

  lemma FollowingExact(w: World, t: Tables, a: Activity, signer: Remote)
    ensures Handled(w, t, a, signer).0.following.Keys == t.following.Keys
  {
    hide SameIRI, UndoneActor, FoldEquals, ObjectID, UndoneType;
    match a.kind {
      case Follow => assert Handled(w, t, a, signer) == Followed(w, t, a, signer);
      case Undo => assert Handled(w, t, a, signer) == Undone(t, a);
      case _ =>
    }
  }

  /** No run of POSTs makes this node follow anyone or forget whom it follows: only the owner does. */
  lemma {:induction false} FollowingIsTheOwners(w: World, t: Tables, steps: seq<Step>, n: int)
    requires WellFormed(steps) && 0 <= n <= |steps| && forall k :: 0 <= k < n ==> !steps[k].action.Local?
    ensures Play(w, t, steps, n).following.Keys == t.following.Keys
  {
    hide WellFormed, Handled, Checked, CheckOf;
    if n > 0 {
      FollowingIsTheOwners(w, t, steps, n - 1);
      if steps[n - 1].action.Handle? && Passed(w, t, steps, n - 1) {
        var r := RequestOf(steps, n - 1);
        FollowingExact(w, Play(w, t, steps, n - 1), r.activity.value, r.signer);
      }
    }
  }

  // ----- undoing a Follow -----

  /** An Undo whose object is an embedded Follow by the same actor. */
  predicate UndoesFollow(a: Activity) {
    a.kind.Undo? && a.target.Embedded? && UndoesAFollow(a.target) && ByActor(a.target, a.actor)
  }

  /** Such an Undo removes the follower exactly when its actor is spelled as the stored id is. */
  lemma UndoRemovesExactly(w: World, t: Tables, undo: Activity, signer: Remote)
    requires UndoesFollow(undo) && signer.id in t.followers
    ensures signer.id !in Handled(w, t, undo, signer).0.followers <==> undo.actor == signer.id
  {
    LeavesExactly(undo);
    hide SameIRI, UndoneActor, FoldEquals;
    assert Handled(w, t, undo, signer) == Undone(t, undo);
  }

  /** A trailing slash is a spelling the signature check takes for the same actor but the follower table does not: such
      an Undo is answered as done and removes nothing. */
  lemma UndoMissesOtherSpelling(w: World, t: Tables, undo: Activity, signer: Remote)
    requires UndoesFollow(undo) && signer.id in t.followers
    requires signer.id != "" && Trimmed(signer.id) && signer.id[|signer.id| - 1] != '/'
    requires undo.actor == signer.id + ['/']
    ensures SameIRI(undo.actor, signer.id)
    ensures Handled(w, t, undo, signer).1.None? && signer.id in Handled(w, t, undo, signer).0.followers
  {
    LeavesExactly(undo);
    hide UndoneActor, FoldEquals, Canonical;
    CanonicalSlash(signer.id);
    assert Handled(w, t, undo, signer) == Undone(t, undo);
    assert |undo.actor| != |signer.id|;
  }

  /** An Undo that names its Follow by IRI, rather than embedding it, says nothing about anyone following: the code
      reads a string object as the undone type. */
  lemma UndoByIriIsIgnored(w: World, t: Tables, steps: seq<Step>, j: int, key: string, follows: bool)
    requires WellFormed(steps) && 0 <= j < |steps| && steps[j].action.Handle?
    requires RequestOf(steps, j).activity.Some?
    requires var a := RequestOf(steps, j).activity.value;
             a.kind.Undo? && a.target.Named? && a.target.iri != "" && !SameLetters(a.target.iri, "Follow")
    ensures !Says(w, t, steps, j, key, follows)
  {
    hide SameLetters, Passed, CheckOf, WellFormed;
  }
}

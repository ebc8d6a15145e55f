/** Which session answers for a username: the newest attached wins (internal/gateway/server.go, attach and detach). */
module Gateway {
  import opened Wrappers
  import opened Sessions

  datatype Event = Attached(sess: Session) | Detached(sess: Session)

  /** The session that answers for `user` after a history of events. */
  ghost function Owner(history: seq<Event>, user: string): Option<Session> {
    if history == [] then None
    else
      var before, e := Owner(history[..|history| - 1], user), history[|history| - 1];
      if e.sess.username != user then before
      else if e.Attached? then Some(e.sess)
      else if before == Some(e.sess) then None else before
  }

  /** The last attach of `user` happened at `i`, and that very session has not detached since. */
  ghost predicate LastAttach(history: seq<Event>, user: string, i: int) {
    && 0 <= i < |history| && history[i].Attached? && history[i].sess.username == user
    && forall j :: i < j < |history| && history[j].sess.username == user ==>
         history[j].Detached? && history[j].sess != history[i].sess
  }

  /** A username maps to its last attached session unless that one detached; in particular a replaced session's late
      detach never evicts its successor. */
  lemma {:induction false} OwnerIsLastAttached(history: seq<Event>, user: string, sess: Session)
    ensures Owner(history, user) == Some(sess) <==> exists i :: LastAttach(history, user, i) && history[i].sess == sess
  {
    if history != [] {
      var n := |history| - 1;
      var before, e := history[..n], history[n];
      OwnerIsLastAttached(before, user, sess);
      if Owner(history, user) == Some(sess) {
        if e.Attached? && e.sess.username == user {
          assert LastAttach(history, user, n);
        } else {
          var i :| LastAttach(before, user, i) && before[i].sess == sess;
          assert LastAttach(history, user, i);
        }
      }
      if exists i :: LastAttach(history, user, i) && history[i].sess == sess {
        var i :| LastAttach(history, user, i) && history[i].sess == sess;
        if i < n {
          assert LastAttach(before, user, i) && before[i].sess == sess;
        }
      }
    }
  }

  /** The table holds exactly the owner of each username. */
  ghost predicate Tabled(history: seq<Event>, sessions: map<string, Session>) {
    && (forall user :: Owner(history, user) == if user in sessions then Some(sessions[user]) else None)
    && forall user <- sessions :: sessions[user].username == user
  }

  /** The table after one more event. */
  function After(sessions: map<string, Session>, e: Event): map<string, Session> {
    var user := e.sess.username;
    if e.Attached? then sessions[user := e.sess]
    else if user in sessions && sessions[user] == e.sess then sessions - {user}
    else sessions
  }

  lemma TabledNext(history: seq<Event>, sessions: map<string, Session>, e: Event)
    requires Tabled(history, sessions)
    ensures Tabled(history + [e], After(sessions, e))
  {
    assert (history + [e])[..|history|] == history;
  }

  class Server {
    var sessions: map<string, Session>
    ghost var history: seq<Event>
    ghost var attached: set<Session>  // every session that ever attached

    /** The table holds the owner of each username, and every other session that ever attached is closed. */
    ghost predicate Valid()
      reads this, attached
    {
      && Tabled(history, sessions)
      && (forall user <- sessions :: sessions[user] in attached)
      && (forall sess <- attached :: sess.closed || Holds(sess))
    }

    predicate Holds(sess: Session)
      reads this
    {
      sess.username in sessions && sessions[sess.username] == sess
    }

    /** The session that holds the username, if any. */
    function Holder(user: string): set<Session>
      reads this
    {
      if user in sessions then {sessions[user]} else {}
    }

    constructor ()
      ensures Valid() && history == [] && attached == {}
    {
      sessions, history, attached := map[], [], {};
    }

    /** Closes the session that holds the username, if any. */
    method CloseHolder(user: string)
      requires Valid()
      modifies Holder(user)
      ensures forall s <- attached :: s.closed || (Holds(s) && s.username != user)
      ensures forall s <- Holder(user) :: s.Current() == Next(old(s.Current()), CloseAll)
    {
      if user in sessions {
        sessions[user].Close();
      }
    }

    /** `attach`: closes the session it replaces. A session attaches once, when its handshake succeeds. */
    method Attach(sess: Session)
      requires Valid() && sess !in attached
      modifies this, Holder(sess.username)
      ensures Valid() && history == old(history) + [Attached(sess)] && attached == old(attached) + {sess}
      ensures sessions == After(old(sessions), Attached(sess))
      ensures forall s <- old(Holder(sess.username)) :: s.Current() == Next(old(s.Current()), CloseAll)
    {
      hide Tabled;
      TabledNext(history, sessions, Attached(sess));
      CloseHolder(sess.username);
      sessions := sessions[sess.username := sess];
      history := history + [Attached(sess)];
      attached := attached + {sess};
    }

    /** `detach`: gives up the username only if this session still holds it, and closes the session either way. */
    method Detach(sess: Session)
      requires Valid() && sess in attached
      modifies this, sess
      ensures Valid() && history == old(history) + [Detached(sess)] && attached == old(attached)
      ensures sessions == After(old(sessions), Detached(sess))
      ensures sess.Current() == Next(old(sess.Current()), CloseAll)
    {
      hide Tabled;
      TabledNext(history, sessions, Detached(sess));
      if sess.username in sessions && sessions[sess.username] == sess {
        sessions := sessions - {sess.username};
      }
      sess.Close();
      history := history + [Detached(sess)];
    }
  }
}

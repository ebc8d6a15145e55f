/** Which requests a tunnel session admits and holds pending, and what it reports of them, told from the run alone. */
module SessionRuns {
  import opened Wrappers
  import opened Responses
  import opened Sessions

  function Before(steps: seq<Step>, i: nat): State
    requires i <= |steps|
  {
    Run(START, steps[..i])
  }

  lemma BeforeNext(steps: seq<Step>, i: nat)
    requires i < |steps|
    ensures Before(steps, i + 1) == Next(Before(steps, i), steps[i])
  {
    assert steps[..i + 1][..i] == steps[..i];
  }

  /** At step `i` request `id` asks to be admitted, and is: the session is open, fewer than 32 requests are pending, and
      its id is new. */
  ghost predicate Admitted(steps: seq<Step>, i: int, id: ReqID) {
    && 0 <= i < |steps| && steps[i] == Admit(id)
    && (forall j :: 0 <= j < i ==> !steps[j].CloseAll?)
    && |Before(steps, i).pending| < 32
    && forall j :: 0 <= j < i ==> !Admitted(steps, j, id)
  }

  /** Nothing after step `i` and before step `n` takes request `id` away. */
  ghost predicate Stays(steps: seq<Step>, i: int, n: int, id: ReqID)
    requires 0 <= i < n <= |steps|
  {
    forall j :: i < j < n ==> steps[j] != Release(id) && !steps[j].CloseAll?
  }

  lemma NextExactly(s: State, step: Step, id: ReqID)
    requires Valid(s)
    ensures Next(s, step).closed <==> s.closed || step.CloseAll?
    ensures id in Next(s, step).slots <==> id in s.slots || (step == Admit(id) && CanAdmit(s, id))
    ensures id in Next(s, step).pending <==>
      (step == Admit(id) && CanAdmit(s, id)) || (id in s.pending && step != Release(id) && !step.CloseAll?)
  {
  }

  lemma StepExactly(steps: seq<Step>, n: nat, id: ReqID)
    requires n < |steps|
    ensures var s, s' := Before(steps, n), Before(steps, n + 1);
      && (s'.closed <==> s.closed || steps[n].CloseAll?)
      && (id in s'.slots <==> id in s.slots || (steps[n] == Admit(id) && CanAdmit(s, id)))
      && (id in s'.pending <==>
            || (steps[n] == Admit(id) && CanAdmit(s, id))
            || (id in s.pending && steps[n] != Release(id) && !steps[n].CloseAll?))
  {
    RunKeeps(steps[..n]);
    BeforeNext(steps, n);
    NextExactly(Before(steps, n), steps[n], id);
  }

  lemma {:induction false} ClosedExactly(steps: seq<Step>, n: nat)
    requires n <= |steps|
    ensures Before(steps, n).closed <==> exists i :: 0 <= i < n && steps[i].CloseAll?
  {
    if n > 0 {
      hide Before;
      ClosedExactly(steps, n - 1);
      StepExactly(steps, n - 1, []);
    } else {
      NothingYet(steps);
    }
  }

  lemma NothingYet(steps: seq<Step>)
    ensures Before(steps, 0) == START
  {
  }

  lemma {:induction false} SeenExactly(steps: seq<Step>, n: nat, id: ReqID)
    requires n <= |steps|
    ensures id in Before(steps, n).slots <==> exists i :: 0 <= i < n && Admitted(steps, i, id)
    decreases n, 0
  {
    if n > 0 {
      hide Before, CanAdmit;
      SeenExactly(steps, n - 1, id);
      StepExactly(steps, n - 1, id);
      AdmittedExactly(steps, n - 1, id);
      hide Admitted;
    } else {
      NothingYet(steps);
    }
  }

  /** A request that asks is admitted exactly when no close came before, fewer than 32 are pending, and its id was never
      admitted before. */
  lemma {:induction false} AdmittedExactly(steps: seq<Step>, n: nat, id: ReqID)
    requires n < |steps|
    ensures Admitted(steps, n, id) <==> steps[n] == Admit(id) && CanAdmit(Before(steps, n), id)
    decreases n, 1
  {
    hide Before;
    ClosedExactly(steps, n);
    SeenExactly(steps, n, id);
    assert id !in Before(steps, n).slots <==> forall j :: 0 <= j < n ==> !Admitted(steps, j, id);
    assert Before(steps, n).closed <==> !forall j :: 0 <= j < n ==> !steps[j].CloseAll?;
  }

  /** A request is pending exactly when it was admitted and neither released nor cut off by a close since. */
  lemma {:induction false} PendingExactly(steps: seq<Step>, n: nat, id: ReqID)
    requires n <= |steps|
    ensures id in Before(steps, n).pending <==>
            exists i :: 0 <= i < n && Admitted(steps, i, id) && Stays(steps, i, n, id)
  {
    hide Before, Admitted, CanAdmit, Stays;
    if n > 0 {
      PendingExactly(steps, n - 1, id);
      StepExactly(steps, n - 1, id);
      AdmittedExactly(steps, n - 1, id);
      forall i | 0 <= i < n - 1
        ensures Stays(steps, i, n, id) <==>
          Stays(steps, i, n - 1, id) && steps[n - 1] != Release(id) && !steps[n - 1].CloseAll?
      {
        StaysNext(steps, i, n - 1, id);
      }
      StaysNow(steps, n, id);
    } else {
      NothingYet(steps);
    }
  }

  lemma StaysNow(steps: seq<Step>, n: nat, id: ReqID)
    requires 0 < n <= |steps|
    ensures Stays(steps, n - 1, n, id)
  {
  }

  lemma StaysNext(steps: seq<Step>, i: nat, n: nat, id: ReqID)
    requires i < n < |steps|
    ensures Stays(steps, i, n + 1, id) <==> Stays(steps, i, n, id) && steps[n] != Release(id) && !steps[n].CloseAll?
  {
  }

  /** What is reported of a request: nothing before its result was taken; then a success if the first result offered was
      an End, or if its client has a status; and that the node is offline only if a close came first and the client has
      nothing yet. */
  lemma ReportedExactly(steps: seq<Step>, id: ReqID)
    requires id in Run(START, steps).slots
    ensures var slot := Run(START, steps).slots[id];
      && (slot.taken.Some? ==> slot.offers != [])
      && (Report(slot) == Some(Done) <==> slot.taken.Some? && (slot.offers[0] == Done || slot.out.status.Some?))
      && (Report(slot) == Some(Offline) <==>
            slot.taken.Some? && slot.offers[0] == Offline && slot.out.status.None? && slot.out.body == [])
      && (Report(slot) == None <==> slot.taken.None?)
  {
    RunKeeps(steps);
    assert SlotOk(Run(START, steps).slots[id]);
  }
}

/** The download limiter (internal/files/limiter.go): slots overall and per client host, each given back once. */
module DownloadLimiter {

  datatype Limits = Limits(maxConcurrent: int, perClient: int)

  datatype Slots = Slots(active: int, perHost: map<string, int>)

  /** `NewLimiter` replaces limits that are not positive. */
  function Effective(l: Limits): (r: Limits)
    ensures r.maxConcurrent > 0 && r.perClient > 0
    ensures r.maxConcurrent == l.maxConcurrent || (l.maxConcurrent <= 0 && r.maxConcurrent == 8)
    ensures r.perClient == l.perClient || (l.perClient <= 0 && r.perClient == 4)
  {
    Limits(if l.maxConcurrent <= 0 then 8 else l.maxConcurrent, if l.perClient <= 0 then 4 else l.perClient)
  }

  /** A Go map reads 0 for a key it does not hold. */
  function Count(m: map<string, int>, host: string): int {
    if host in m then m[host] else 0
  }

  predicate Grants(l: Limits, s: Slots, host: string) {
    s.active < l.maxConcurrent && Count(s.perHost, host) < l.perClient
  }

  function Acquired(s: Slots, host: string): Slots {
    Slots(s.active + 1, s.perHost[host := Count(s.perHost, host) + 1])
  }

  function Released(s: Slots, host: string): Slots {
    var left := Count(s.perHost, host) - 1;
    Slots(s.active - 1, if left <= 0 then s.perHost - {host} else s.perHost[host := left])
  }

  class Limiter {
    const limits: Limits
    var active: int
    var perHost: map<string, int>

    function Current(): Slots
      reads this
    {
      Slots(active, perHost)
    }

    constructor (l: Limits)
      ensures limits == Effective(l) && Current() == Slots(0, map[])
    {
      limits := Limits(if l.maxConcurrent <= 0 then 8 else l.maxConcurrent,
                       if l.perClient <= 0 then 4 else l.perClient);
      active := 0;
      perHost := map[];
    }

    method Acquire(host: string) returns (ok: bool)
      modifies this
      ensures ok == Grants(limits, old(Current()), host)
      ensures Current() == if ok then Acquired(old(Current()), host) else old(Current())
    {
      if active >= limits.maxConcurrent {
        return false;
      }
      if Count(perHost, host) >= limits.perClient {
        return false;
      }
      active := active + 1;
      perHost := perHost[host := Count(perHost, host) + 1];
      return true;
    }

    /** The closure a successful Acquire returns. */
    method Release(host: string)
      modifies this
      ensures Current() == Released(old(Current()), host)
    {
      active := active - 1;
      perHost := perHost[host := Count(perHost, host) - 1];
      if perHost[host] <= 0 {
        perHost := perHost - {host};
      }
    }
  }

  // ----- runs -----

  datatype Event = Acquire(host: string) | Release(host: string)

  /** The slots with the hosts whose release has not been called yet, one copy for each. */
  datatype System = System(slots: Slots, outstanding: multiset<string>)

  /** Each release is called once: only a host with an outstanding slot can release. */
  predicate Enabled(y: System, e: Event) {
    e.Release? ==> e.host in y.outstanding
  }

  function Step(l: Limits, y: System, e: Event): System {
    match e
    case Acquire(host) =>
      if Grants(l, y.slots, host) then System(Acquired(y.slots, host), y.outstanding + multiset{host}) else y
    case Release(host) => System(Released(y.slots, host), y.outstanding - multiset{host})
  }

  const EMPTY := System(Slots(0, map[]), multiset{})

  function Play(l: Limits, events: seq<Event>): System {
    if events == [] then EMPTY else Step(l, Play(l, events[..|events| - 1]), events[|events| - 1])
  }

  predicate IsRun(l: Limits, events: seq<Event>) {
    forall i :: 0 <= i < |events| ==> Enabled(Play(l, events[..i]), events[i])
  }

  /** The table counts the outstanding slots, and no limit is passed. */
  ghost predicate Sound(l: Limits, y: System) {
    && y.slots.active == |y.outstanding| <= l.maxConcurrent
    && (forall h :: Count(y.slots.perHost, h) == y.outstanding[h] <= l.perClient)
    && (forall h <- y.slots.perHost :: y.slots.perHost[h] >= 1)
  }

  lemma AcquireKeepsSound(l: Limits, y: System, host: string)
    requires Sound(l, y) && Grants(l, y.slots, host)
    ensures Sound(l, System(Acquired(y.slots, host), y.outstanding + multiset{host}))
  {
    assert Count(y.slots.perHost, host) == y.outstanding[host];
  }

  lemma ReleaseKeepsSound(l: Limits, y: System, host: string)
    requires Sound(l, y) && host in y.outstanding
    ensures Sound(l, System(Released(y.slots, host), y.outstanding - multiset{host}))
  {
    var after := System(Released(y.slots, host), y.outstanding - multiset{host});
    assert Count(y.slots.perHost, host) == y.outstanding[host] >= 1;
    forall h ensures Count(after.slots.perHost, h) == after.outstanding[h] <= l.perClient {
      assert Count(y.slots.perHost, h) == y.outstanding[h];
    }
  }

  lemma StepKeepsSound(l: Limits, y: System, e: Event)
    requires Sound(l, y) && Enabled(y, e)
    ensures Sound(l, Step(l, y, e))
  {
    hide Sound, Acquired, Released, Grants;
    match e {
      case Acquire(host) =>
        if Grants(l, y.slots, host) {
          AcquireKeepsSound(l, y, host);
        }
      case Release(host) => ReleaseKeepsSound(l, y, host);
    }
  }

  lemma {:induction false} RunIsSound(l: Limits, events: seq<Event>)
    requires l.maxConcurrent > 0 && l.perClient > 0 && IsRun(l, events)
    ensures Sound(l, Play(l, events))
  {
    if events != [] {
      var init := events[..|events| - 1];
      forall i | 0 <= i < |init| ensures Enabled(Play(l, init[..i]), init[i]) {
        assert init[..i] == events[..i];
        assert Enabled(Play(l, events[..i]), events[i]);
      }
      RunIsSound(l, init);
      StepKeepsSound(l, Play(l, init), events[|events| - 1]);
    }
  }

  ghost function Sum(m: map<string, int>): int {
    if m == map[] then 0 else var h :| h in m; m[h] + Sum(m - {h})
  }

  lemma {:induction false} SumIsOutstanding(m: map<string, int>, outstanding: multiset<string>)
    requires forall h :: Count(m, h) == outstanding[h]
    ensures Sum(m) == |outstanding|
    decreases |m|
  {
    if m == map[] {
      assert outstanding == multiset{} by {
        forall h ensures outstanding[h] == 0 {
          assert Count(m, h) == outstanding[h];
        }
      }
    } else {
      var h :| h in m && Sum(m) == m[h] + Sum(m - {h});
      var rest := outstanding[h := 0];
      forall k ensures Count(m - {h}, k) == rest[k] {
        assert Count(m, k) == outstanding[k];
      }
      SumIsOutstanding(m - {h}, rest);
      assert Count(m, h) == outstanding[h];
      assert outstanding == rest[h := outstanding[h]];
    }
  }

  /** In every run, `active` is the sum of the per-host counts and the number of releases still to come, every entry is
      between 1 and the per-client limit, `active` never passes the overall limit, the next Acquire is granted exactly
      when neither its host nor the whole has used up its slots, and once everything is released nothing is left. */
  lemma SlotsAreConserved(l: Limits, events: seq<Event>, host: string)
    requires l.maxConcurrent > 0 && l.perClient > 0 && IsRun(l, events)
    ensures var y := Play(l, events);
            && y.slots.active == Sum(y.slots.perHost) == |y.outstanding| <= l.maxConcurrent
            && (host in y.slots.perHost ==> 1 <= y.slots.perHost[host] <= l.perClient)
            && (Grants(l, y.slots, host) <==> |y.outstanding| < l.maxConcurrent && y.outstanding[host] < l.perClient)
            && (y.outstanding == multiset{} ==> y.slots == Slots(0, map[]))
  {
    var y := Play(l, events);
    RunIsSound(l, events);
    SumIsOutstanding(y.slots.perHost, y.outstanding);
    assert Count(y.slots.perHost, host) == y.outstanding[host];
    if y.outstanding == multiset{} {
      forall h ensures h !in y.slots.perHost {
        assert Count(y.slots.perHost, h) == y.outstanding[h];
      }
      assert y.slots.perHost == map[];
    }
  }
}

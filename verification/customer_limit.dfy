// The per-credential half-open breaker of internal/customerlimit/customerlimit.go.

module CustomerLimit {
  import opened Base

  const SECOND := 1_000_000_000
  const DEFAULT_THROTTLE_COOLDOWN := 5 * SECOND
  const REJECTED_COOLDOWN := 15 * 60 * SECOND
  const STALE_ENTRY_AGE := 3600 * SECOND

  /** The exact signed selector a registry is keyed by. */
  datatype Scope = Scope(
    provider: string, ownerAccountId: string, connectionId: string, environment: string,
    credentialHandle: string, revision: int)

  datatype Reason = NoReason | ThrottledReason | RejectedReason

  /** Instants and durations are nanoseconds on one clock. */
  datatype Entry = Entry(reason: Reason, probesAt: int, trialInFlight: bool, lastSeen: int)

  type Entries = map<Scope, Entry>

  datatype Outcome = Succeeded | Rejected | Throttled(retryAfter: int) | NotAttributable

  /** What Admit answers: a permit, or why not and for how long. */
  datatype Answer = Admitted | Refused(reason: Reason, retryAfter: int)

  // ----- the registry's operations on its entries -----

  predicate Stale(e: Entry, now: int)
  {
    !e.trialInFlight && e.probesAt <= now && now - e.lastSeen > STALE_ENTRY_AGE
  }

  function Sweep(entries: Entries, now: int): Entries
  {
    map scope | scope in entries && !Stale(entries[scope], now) :: entries[scope]
  }

  function AnswerTo(entries: Entries, scope: Scope, now: int): Answer
  {
    var swept := Sweep(entries, now);
    if scope !in swept then Admitted
    else
      var e := swept[scope];
      if now < e.probesAt then Refused(e.reason, e.probesAt - now)
      else if e.trialInFlight then Refused(e.reason, 0)
      else Admitted
  }

  function AfterAdmit(entries: Entries, scope: Scope, now: int): Entries
  {
    var swept := Sweep(entries, now);
    if scope !in swept then swept
    else
      var seen := swept[scope].(lastSeen := now);
      if AnswerTo(entries, scope, now).Admitted? then swept[scope := seen.(trialInFlight := true)]
      else swept[scope := seen]
  }

  function Cooldown(retryAfter: int): int
  {
    if retryAfter <= 0 then DEFAULT_THROTTLE_COOLDOWN else retryAfter
  }

  function AfterReport(entries: Entries, scope: Scope, outcome: Outcome, now: int): Entries
  {
    match outcome
    case Succeeded => entries - {scope}
    case Rejected => entries[scope := Entry(RejectedReason, now + REJECTED_COOLDOWN, false, now)]
    case Throttled(retryAfter) => entries[scope := Entry(ThrottledReason, now + Cooldown(retryAfter), false, now)]
    case NotAttributable =>
      if scope in entries then entries[scope := entries[scope].(trialInFlight := false, lastSeen := now)] else entries
  }

  // ----- the registry and its permits -----

  class Registry {
    var entries: Entries

    constructor ()
      ensures entries == map[]
    {
      entries := map[];
    }

    method RemoveStale(now: int)
      modifies this
      ensures entries == Sweep(old(entries), now)
    {
      var pending := entries.Keys;
      while pending != {}
        invariant pending <= old(entries).Keys
        invariant entries == map scope | scope in old(entries) &&
                                         (scope in pending || !Stale(old(entries)[scope], now)) :: old(entries)[scope]
        decreases pending
      {
        var scope :| scope in pending;
        if Stale(entries[scope], now) {
          entries := entries - {scope};
        }
        pending := pending - {scope};
      }
    }

    method Admit(scope: Scope, now: int) returns (permit: Permit?, refusal: Answer)
      modifies this
      ensures entries == AfterAdmit(old(entries), scope, now)
      ensures refusal == AnswerTo(old(entries), scope, now)
      ensures permit != null <==> refusal.Admitted?
      ensures permit != null ==> fresh(permit) && permit.registry == this && permit.scope == scope && !permit.reported
    {
      RemoveStale(now);
      if scope !in entries {
        permit := new Permit(this, scope);
        return permit, Admitted;
      }
      entries := entries[scope := entries[scope].(lastSeen := now)];
      var entry := entries[scope];
      if now < entry.probesAt {
        return null, Refused(entry.reason, entry.probesAt - now);
      }
      if entry.trialInFlight {
        return null, Refused(entry.reason, 0);
      }
      entries := entries[scope := entry.(trialInFlight := true)];
      permit := new Permit(this, scope);
      return permit, Admitted;
    }
  }

  class Permit {
    const registry: Registry
    const scope: Scope
    var reported: bool

    constructor (registry: Registry, scope: Scope)
      ensures this.registry == registry && this.scope == scope && !reported
    {
      this.registry, this.scope, this.reported := registry, scope, false;
    }

    /** Each outcome's report; only the first has an effect. */
    method Tell(outcome: Outcome, now: int)
      modifies this, registry
      ensures reported
      ensures registry.entries ==
              if old(reported) then old(registry.entries) else AfterReport(old(registry.entries), scope, outcome, now)
    {
      match outcome {
        case Succeeded => Report(NoReason, 0, true, now);
        case Rejected => Report(RejectedReason, REJECTED_COOLDOWN, false, now);
        case Throttled(retryAfter) =>
          var cooldown := if retryAfter <= 0 then DEFAULT_THROTTLE_COOLDOWN else retryAfter;
          Report(ThrottledReason, cooldown, false, now);
        case NotAttributable => Report(NoReason, 0, false, now);
      }
    }

    method Report(reason: Reason, cooldown: int, success: bool, now: int)
      modifies this, registry
      ensures reported
      ensures registry.entries ==
              if old(reported) then old(registry.entries)
              else if success then old(registry.entries) - {scope}
              else if reason != NoReason then old(registry.entries)[scope := Entry(reason, now + cooldown, false, now)]
              else AfterReport(old(registry.entries), scope, NotAttributable, now)
    {
      if reported {
        return;
      }
      reported := true;
      if success {
        registry.entries := registry.entries - {scope};
        return;
      }
      if reason != NoReason {
        registry.entries := registry.entries[scope := Entry(reason, now + cooldown, false, now)];
        return;
      }
      if scope in registry.entries {
        registry.entries := registry.entries[scope := registry.entries[scope].(trialInFlight := false, lastSeen := now)];
      }
    }
  }
}

/** Whole runs: many scopes, many outstanding permits, one clock that never runs back. */
module CustomerLimitRuns {
  import opened Base
  import opened CustomerLimit

  /** A call: an admission, or a report by the scope's nth permit. */
  datatype Event =
    | AdmitCall(scope: Scope, now: int)
    | ReportCall(scope: Scope, permit: nat, outcome: Outcome, now: int)

  /** The registry, and whether each permit it issued has reported: per scope, in the order of issue. */
  datatype System = System(entries: Entries, permits: map<Scope, seq<bool>>)

  const EMPTY_SYSTEM := System(map[], map[])

  function PermitsOf(sys: System, scope: Scope): seq<bool>
  {
    if scope in sys.permits then sys.permits[scope] else []
  }

  /** A report that has an effect: its permit was issued and has not reported. */
  predicate Effective(sys: System, e: Event)
  {
    e.ReportCall? && e.permit < |PermitsOf(sys, e.scope)| && !PermitsOf(sys, e.scope)[e.permit]
  }

  function Step(sys: System, e: Event): System
  {
    match e
    case AdmitCall(scope, now) =>
      System(AfterAdmit(sys.entries, scope, now),
             if AnswerTo(sys.entries, scope, now).Admitted? then sys.permits[scope := PermitsOf(sys, scope) + [false]]
             else sys.permits)
    case ReportCall(scope, permit, outcome, now) =>
      if Effective(sys, e) then
        System(AfterReport(sys.entries, scope, outcome, now), sys.permits[scope := PermitsOf(sys, scope)[permit := true]])
      else sys
  }

  function Run(sys: System, events: seq<Event>): System
    decreases |events|
  {
    if events == [] then sys else Run(Step(sys, events[0]), events[1..])
  }

  /** What the admissions of one scope were answered, in order. */
  function Answers(sys: System, events: seq<Event>, scope: Scope): seq<Answer>
    decreases |events|
  {
    if events == [] then []
    else
      var e := events[0];
      (if e.AdmitCall? && e.scope == scope then [AnswerTo(sys.entries, scope, e.now)] else [])
      + Answers(Step(sys, e), events[1..], scope)
  }

  /** The calls on one scope alone. */
  function Project(events: seq<Event>, scope: Scope): seq<Event>
  {
    if events == [] then []
    else (if events[0].scope == scope then [events[0]] else []) + Project(events[1..], scope)
  }

  /** The clock never runs back. */
  predicate Ordered(events: seq<Event>, since: int)
  {
    if events == [] then true else since <= events[0].now && Ordered(events[1..], events[0].now)
  }

  // ----- isolation -----

  /**
   * Two registries that answer one scope alike: equal entries, or an entry
   * evicted from the first that the second could evict by now; equal permits.
   */
  predicate Alike(full: System, own: System, scope: Scope, now: int)
  {
    && (scope in full.entries ==> scope in own.entries && full.entries[scope] == own.entries[scope])
    && (scope in own.entries && scope !in full.entries ==> Stale(own.entries[scope], now))
    && PermitsOf(full, scope) == PermitsOf(own, scope)
  }

  /** No effective NotAttributable report revives an entry that is already evictable. */
  predicate NoRevival(own: System, events: seq<Event>)
    decreases |events|
  {
    if events == [] then true
    else
      var e := events[0];
      && (Effective(own, e) && e.outcome.NotAttributable? && e.scope in own.entries ==>
            !Stale(own.entries[e.scope], e.now))
      && NoRevival(Step(own, e), events[1..])
  }

  lemma OtherScopeStep(full: System, own: System, scope: Scope, e: Event)
    requires Alike(full, own, scope, e.now) && e.scope != scope
    ensures Alike(Step(full, e), own, scope, e.now)
  {
  }

  lemma SameScopeStep(full: System, own: System, scope: Scope, e: Event)
    requires Alike(full, own, scope, e.now) && e.scope == scope && NoRevival(own, [e])
    ensures Alike(Step(full, e), Step(own, e), scope, e.now)
    ensures e.AdmitCall? ==> AnswerTo(full.entries, scope, e.now) == AnswerTo(own.entries, scope, e.now)
    ensures Effective(full, e) == Effective(own, e)
  {
  }

  lemma {:induction false} IsolatedFrom(full: System, own: System, events: seq<Event>, scope: Scope, since: int)
    requires Alike(full, own, scope, since) && Ordered(events, since)
    requires NoRevival(own, Project(events, scope))
    ensures Answers(full, events, scope) == Answers(own, Project(events, scope), scope)
    decreases |events|
  {
    hide Step;
    hide Alike;
    hide AnswerTo;
    if events != [] {
      var e := events[0];
      AlikeLater(full, own, scope, since, e.now);
      if e.scope == scope {
        var projected := Project(events, scope);
        assert projected[0] == e && projected[1..] == Project(events[1..], scope);
        assert NoRevival(own, [e]) by { assert [e][1..] == []; }
        SameScopeStep(full, own, scope, e);
        IsolatedFrom(Step(full, e), Step(own, e), events[1..], scope, e.now);
      } else {
        assert Project(events, scope) == Project(events[1..], scope);
        OtherScopeStep(full, own, scope, e);
        IsolatedFrom(Step(full, e), own, events[1..], scope, e.now);
      }
    }
  }

  lemma AlikeLater(full: System, own: System, scope: Scope, since: int, now: int)
    requires Alike(full, own, scope, since) && since <= now
    ensures Alike(full, own, scope, now)
  {
  }

  /**
   * Deleting every call on other scopes changes no answer for this one, although
   * any Admit evicts stale entries of all scopes.
   */
  lemma Isolation(sys: System, events: seq<Event>, scope: Scope, since: int)
    requires Ordered(events, since) && NoRevival(sys, Project(events, scope))
    ensures Answers(sys, events, scope) == Answers(sys, Project(events, scope), scope)
  {
    IsolatedFrom(sys, sys, events, scope, since);
  }

  /**
   * The exclusion is needed, wherever it applies: a NotAttributable report on an
   * evictable entry makes two later admissions differ by whether another
   * scope's Admit came between.
   */
  lemma RevivalBreaksIsolation(sys: System, scope: Scope, other: Scope, permit: nat, now: int)
    requires other != scope && Effective(sys, ReportCall(scope, permit, NotAttributable, now))
    requires scope in sys.entries && Stale(sys.entries[scope], now)
    ensures var elsewhere := AdmitCall(other, now);
            var report := ReportCall(scope, permit, NotAttributable, now);
            var admissions := [AdmitCall(scope, now), AdmitCall(scope, now)];
            && Answers(sys, [report] + admissions, scope)
               == [Admitted, Refused(sys.entries[scope].reason, 0)]
            && Answers(sys, [elsewhere, report] + admissions, scope) == [Admitted, Admitted]
            && Project([elsewhere, report] + admissions, scope) == [report] + admissions
  {
    var elsewhere := AdmitCall(other, now);
    var report := ReportCall(scope, permit, NotAttributable, now);
    var a := AdmitCall(scope, now);
    var own := [report] + [a, a];
    assert own[1..] == [a, a] && [a, a][1..] == [a] && [a][1..] == [];
    var full := [elsewhere, report] + [a, a];
    assert full[1..] == own;
    var revived := Step(sys, report);
    assert revived.entries[scope] == sys.entries[scope].(trialInFlight := false, lastSeen := now);
    var trial := Step(revived, a);
    assert trial.entries[scope].trialInFlight;
    AnswersOfTwo(revived, a, a);
    var evicted := Step(sys, elsewhere);
    assert scope !in evicted.entries;
    var still := Step(evicted, report);
    assert still.entries == evicted.entries;
    AnswersOfTwo(still, a, a);
    assert Project([a, a], scope) == [a, a] by { assert Project([a], scope) == [a]; }
    assert Project(own, scope) == own;
  }

  /**
   * An empty registry reaches such a state: two permits are issued, one reports a
   * throttle, and the other is still out more than an hour later.
   */
  lemma RevivalIsReachable(scope: Scope, now: int)
    requires now > STALE_ENTRY_AGE
    ensures var events := [AdmitCall(scope, 0), AdmitCall(scope, 0), ReportCall(scope, 0, Throttled(1), 0)];
            var sys := Run(EMPTY_SYSTEM, events);
            && Ordered(events, 0)
            && Effective(sys, ReportCall(scope, 1, NotAttributable, now))
            && scope in sys.entries && Stale(sys.entries[scope], now)
  {
    var a, throttled := AdmitCall(scope, 0), ReportCall(scope, 0, Throttled(1), 0);
    var events := [a, a, throttled];
    assert events[1..] == [a, throttled] && [a, throttled][1..] == [throttled] && [throttled][1..] == [];
    var one := Step(EMPTY_SYSTEM, a);
    assert one == System(map[], map[scope := [false]]) by { assert [] + [false] == [false]; }
    var two := Step(one, a);
    assert two == System(map[], map[scope := [false, false]]) by { assert [false] + [false] == [false, false]; }
    assert Effective(two, throttled);
    var three := Step(two, throttled);
    assert Run(two, [throttled]) == three by { assert Run(three, []) == three; }
    assert Run(one, [a, throttled]) == three;
    assert Run(EMPTY_SYSTEM, events) == Run(one, events[1..]);
    assert Ordered(events, 0) by {
      assert Ordered([throttled], 0) && Ordered([a, throttled], 0);
    }
    assert PermitsOf(three, scope) == [true, false];
    assert three.entries[scope] == Entry(ThrottledReason, 1, false, 0);
  }

  lemma AnswersOfTwo(sys: System, a: Event, b: Event)
    requires a.AdmitCall? && b.AdmitCall? && a.scope == b.scope
    ensures Answers(sys, [a, b], a.scope) ==
            [AnswerTo(sys.entries, a.scope, a.now), AnswerTo(Step(sys, a).entries, b.scope, b.now)]
  {
    hide Step;
    assert [a, b][1..] == [b] && [b][1..] == [];
    assert Answers(Step(sys, a), [b], a.scope) == [AnswerTo(Step(sys, a).entries, b.scope, b.now)] + [];
  }

  // ----- exactly when a scope is isolated -----

  /**
   * No prefix of a run of one scope's calls, with two admissions after it, is
   * answered differently by any run with a sound clock that holds these calls among
   * others'.
   */
  ghost predicate Isolated(sys: System, own: seq<Event>, scope: Scope, since: int)
  {
    forall full: seq<Event>, k, now | 0 <= k <= |own| && Ordered(full, since) &&
        Project(full, scope) == own[..k] + [AdmitCall(scope, now), AdmitCall(scope, now)] ::
      Answers(sys, full, scope) == Answers(sys, Project(full, scope), scope)
  }

  lemma {:induction false} RevivalSplit(sys: System, a: seq<Event>, b: seq<Event>)
    ensures NoRevival(sys, a + b) <==> NoRevival(sys, a) && NoRevival(Run(sys, a), b)
    decreases |a|
  {
    hide Step;
    hide Effective;
    if a == [] {
      assert a + b == b;
    } else {
      assert (a + b)[1..] == a[1..] + b;
      RevivalSplit(Step(sys, a[0]), a[1..], b);
    }
  }

  lemma AdmissionsReviveNothing(sys: System, a: Event, b: Event)
    requires a.AdmitCall? && b.AdmitCall?
    ensures NoRevival(sys, [a, b])
  {
    hide Step;
    assert [a, b][1..] == [b] && [b][1..] == [];
    assert NoRevival(Step(Step(sys, a), b), []);
    assert NoRevival(Step(sys, a), [b]);
  }

  /** An effective NotAttributable report on an evictable entry. */
  predicate Revives(sys: System, e: Event)
  {
    Effective(sys, e) && e.outcome.NotAttributable? && e.scope in sys.entries && Stale(sys.entries[e.scope], e.now)
  }

  lemma {:induction false} FirstRevival(sys: System, own: seq<Event>) returns (k: nat)
    requires !NoRevival(sys, own)
    ensures k < |own| && Revives(Run(sys, own[..k]), own[k])
    decreases |own|
  {
    hide Step;
    hide Effective;
    var e := own[0];
    if Revives(sys, e) {
      assert own[..0] == [];
      return 0;
    }
    var j := FirstRevival(Step(sys, e), own[1..]);
    assert own[..j + 1][1..] == own[1..][..j];
    return j + 1;
  }

  lemma {:induction false} ProjectAppend(a: seq<Event>, b: seq<Event>, scope: Scope)
    ensures Project(a + b, scope) == Project(a, scope) + Project(b, scope)
    decreases |a|
  {
    if a == [] {
      assert a + b == b;
    } else {
      assert (a + b)[1..] == a[1..] + b;
      ProjectAppend(a[1..], b, scope);
    }
  }

  lemma {:induction false} ProjectOwn(own: seq<Event>, scope: Scope)
    requires forall e | e in own :: e.scope == scope
    ensures Project(own, scope) == own
    decreases |own|
  {
    if own != [] {
      assert own[0] in own && forall e | e in own[1..] :: e in own;
      ProjectOwn(own[1..], scope);
    }
  }

  /** A run stays ordered when what follows one of its calls is made at that call's instant. */
  lemma {:induction false} OrderedAfter(own: seq<Event>, k: nat, more: seq<Event>, since: int)
    requires Ordered(own, since) && k < |own| && forall e | e in more :: e.now == own[k].now
    ensures Ordered(own[..k] + more, since)
    decreases k
  {
    if k == 0 {
      assert own[..0] + more == more;
      SameInstant(more, own[0].now, since);
    } else {
      OrderedAfter(own[1..], k - 1, more, own[0].now);
      assert (own[..k] + more)[1..] == own[1..][..k - 1] + more;
    }
  }

  lemma {:induction false} SameInstant(more: seq<Event>, now: int, since: int)
    requires since <= now && forall e | e in more :: e.now == now
    ensures Ordered(more, since)
    decreases |more|
  {
    if more != [] {
      assert more[0] in more && forall e | e in more[1..] :: e in more;
      SameInstant(more[1..], now, now);
    }
  }

  /** A revival, two admissions after it, and another scope's admission before it or not. */
  lemma RevivalIsAnswered(sys: System, front: seq<Event>, e: Event, other: Scope)
    requires Revives(Run(sys, front), e) && other != e.scope
    ensures var elsewhere, a := AdmitCall(other, e.now), AdmitCall(e.scope, e.now);
            && Answers(sys, front + ([elsewhere, e] + [a, a]), e.scope) != Answers(sys, front + ([e] + [a, a]), e.scope)
            && Project([elsewhere, e] + [a, a], e.scope) == [e] + [a, a]
  {
    hide Step;
    hide Revives;
    hide Answers;
    var mid := Run(sys, front);
    ReviverIs(mid, e);
    var elsewhere, a := AdmitCall(other, e.now), AdmitCall(e.scope, e.now);
    RevivalBreaksIsolation(mid, e.scope, other, e.permit, e.now);
    AnswersAppend(sys, front, [elsewhere, e] + [a, a], e.scope);
    AnswersAppend(sys, front, [e] + [a, a], e.scope);
    var seen, alone := [Admitted, Admitted], [Admitted, Refused(mid.entries[e.scope].reason, 0)];
    assert seen[1] != alone[1];
    LastDiffers(Answers(sys, front, e.scope), seen, alone);
  }

  /** A run that answers otherwise, when an evictable entry is revived. */
  lemma RevivalIsSeen(sys: System, own: seq<Event>, scope: Scope, since: int)
    requires Ordered(own, since) && (forall e | e in own :: e.scope == scope) && !NoRevival(sys, own)
    ensures !Isolated(sys, own, scope, since)
  {
    hide Step;
    hide Revives;
    hide Answers;
    hide Ordered;
    hide NoRevival;
    hide Project;
    var k := FirstRevival(sys, own);
    var e, front := own[k], own[..k];
    assert e in own && forall x | x in front :: x in own;
    var other := scope.(revision := scope.revision + 1);
    var elsewhere, a := AdmitCall(other, e.now), AdmitCall(scope, e.now);
    var tail := [elsewhere, e] + [a, a];
    RevivalIsAnswered(sys, front, e, other);
    OrderedAfter(own, k, tail, since);
    ProjectOwn(front, scope);
    ProjectAppend(front, tail, scope);
    assert front + ([e] + [a, a]) == own[..k + 1] + [a, a];
    assert Project(front + tail, scope) == own[..k + 1] + [a, a];
  }

  lemma ReviverIs(sys: System, e: Event)
    requires Revives(sys, e)
    ensures e.ReportCall? && e == ReportCall(e.scope, e.permit, NotAttributable, e.now)
    ensures Effective(sys, e) && e.scope in sys.entries && Stale(sys.entries[e.scope], e.now)
  {
  }

  lemma LastDiffers<T>(front: seq<T>, a: seq<T>, b: seq<T>)
    requires a != b
    ensures front + a != front + b
  {
    assert (front + a)[|front|..] == a && (front + b)[|front|..] == b;
  }

  /** One scope's calls are answered alike whatever is called between them if and only if none revives an evictable entry. */
  lemma IsolationExactly(sys: System, own: seq<Event>, scope: Scope, since: int)
    requires Ordered(own, since) && forall e | e in own :: e.scope == scope
    ensures NoRevival(sys, own) <==> Isolated(sys, own, scope, since)
  {
    hide Step;
    hide Effective;
    if NoRevival(sys, own) {
      forall full: seq<Event>, k, now | 0 <= k <= |own| && Ordered(full, since) &&
          Project(full, scope) == own[..k] + [AdmitCall(scope, now), AdmitCall(scope, now)]
        ensures Answers(sys, full, scope) == Answers(sys, Project(full, scope), scope)
      {
        assert own == own[..k] + own[k..];
        RevivalSplit(sys, own[..k], own[k..]);
        RevivalSplit(sys, own[..k], [AdmitCall(scope, now), AdmitCall(scope, now)]);
        AdmissionsReviveNothing(Run(sys, own[..k]), AdmitCall(scope, now), AdmitCall(scope, now));
        Isolation(sys, full, scope, since);
      }
    } else {
      RevivalIsSeen(sys, own, scope, since);
    }
  }

  // ----- cooldown and trial -----

  function GrantsOf(answers: seq<Answer>): nat
  {
    if answers == [] then 0 else (if answers[0].Admitted? then 1 else 0) + GrantsOf(answers[1..])
  }

  /** No call in the run is an effective report on the scope. */
  predicate NoReportsOn(sys: System, events: seq<Event>, scope: Scope)
    decreases |events|
  {
    if events == [] then true
    else !(Effective(sys, events[0]) && events[0].scope == scope) && NoReportsOn(Step(sys, events[0]), events[1..], scope)
  }

  /** Every admission of the scope before an instant is refused, with the time left. */
  predicate RefusedUntil(sys: System, events: seq<Event>, scope: Scope, until: int, reason: Reason)
    decreases |events|
  {
    if events == [] then true
    else
      var e := events[0];
      && (e.AdmitCall? && e.scope == scope && e.now < until ==>
            AnswerTo(sys.entries, scope, e.now) == Refused(reason, until - e.now))
      && RefusedUntil(Step(sys, e), events[1..], scope, until, reason)
  }

  /** One call between reports: the entry stays as it was, takes its one trial, or is evicted idle. */
  lemma GuardedStep(sys: System, e: Event, scope: Scope)
    requires scope in sys.entries && !(Effective(sys, e) && e.scope == scope)
    ensures var before, after := sys.entries[scope], Step(sys, e).entries;
            var grants := e.AdmitCall? && e.scope == scope && AnswerTo(sys.entries, scope, e.now).Admitted?;
            && (scope !in after ==> Stale(before, e.now))
            && (scope in after ==>
                  && after[scope].reason == before.reason && after[scope].probesAt == before.probesAt
                  && (after[scope].trialInFlight <==> before.trialInFlight || grants)
                  && !(before.trialInFlight && grants))
            && (grants && scope in after ==> before.probesAt <= e.now)
  {
  }

  /** Between reports an absent entry stays absent. */
  lemma AbsentStep(sys: System, e: Event, scope: Scope)
    requires scope !in sys.entries && !(Effective(sys, e) && e.scope == scope)
    ensures scope !in Step(sys, e).entries
  {
  }

  lemma {:induction false} AbsentRun(sys: System, events: seq<Event>, scope: Scope)
    requires scope !in sys.entries && NoReportsOn(sys, events, scope)
    ensures scope !in Run(sys, events).entries
    decreases |events|
  {
    hide Step;
    if events != [] {
      AbsentStep(sys, events[0], scope);
      AbsentRun(Step(sys, events[0]), events[1..], scope);
    }
  }

  /**
   * From a guarded entry to the next report on its scope: while the entry
   * survives, at most one admission is granted, and exactly when a trial is in
   * flight at the end; an entry with a trial in flight does survive.
   */
  lemma {:induction false} AtMostOneTrial(sys: System, events: seq<Event>, scope: Scope)
    requires scope in sys.entries && NoReportsOn(sys, events, scope)
    ensures var before, after := sys.entries[scope], Run(sys, events).entries;
            var grants := GrantsOf(Answers(sys, events, scope));
            && (scope in after ==>
                  grants + (if before.trialInFlight then 1 else 0) == (if after[scope].trialInFlight then 1 else 0))
            && (before.trialInFlight ==> scope in after && grants == 0)
    decreases |events|
  {
    hide Step;
    hide AnswerTo;
    if events != [] {
      var e := events[0];
      GuardedStep(sys, e, scope);
      var next := Step(sys, e);
      var rest := Answers(next, events[1..], scope);
      if e.AdmitCall? && e.scope == scope {
        assert Answers(sys, events, scope)[1..] == rest;
      } else {
        assert Answers(sys, events, scope) == rest;
      }
      if scope in next.entries {
        AtMostOneTrial(next, events[1..], scope);
      } else {
        AbsentRun(next, events[1..], scope);
      }
    }
  }

  /** No effective report on the scope is anything but a release. */
  predicate OnlyReleases(sys: System, events: seq<Event>, scope: Scope)
    decreases |events|
  {
    if events == [] then true
    else
      && (Effective(sys, events[0]) && events[0].scope == scope ==> events[0].outcome.NotAttributable?)
      && OnlyReleases(Step(sys, events[0]), events[1..], scope)
  }

  /** A release leaves the window as it was. */
  lemma ReleasedStep(sys: System, e: Event, scope: Scope)
    requires scope in sys.entries && Effective(sys, e) && e.scope == scope && e.outcome.NotAttributable?
    ensures scope in Step(sys, e).entries
    ensures Step(sys, e).entries[scope] == sys.entries[scope].(trialInFlight := false, lastSeen := e.now)
  {
  }

  /** While reports only release, every admission before the window's end is refused, with the reason and the time left. */
  lemma {:induction false} CooldownHolds(sys: System, events: seq<Event>, scope: Scope, since: int)
    requires scope in sys.entries && OnlyReleases(sys, events, scope) && Ordered(events, since)
    ensures RefusedUntil(sys, events, scope, sys.entries[scope].probesAt, sys.entries[scope].reason)
    decreases |events|
  {
    hide Step;
    hide Effective;
    if events != [] {
      var e := events[0];
      var next := Step(sys, e);
      if Effective(sys, e) && e.scope == scope {
        ReleasedStep(sys, e, scope);
        NotAnAdmission(sys, e);
        CooldownHolds(next, events[1..], scope, e.now);
      } else {
        GuardedStep(sys, e, scope);
        GuardedAnswer(sys, e.now, scope);
        if scope in next.entries {
          CooldownHolds(next, events[1..], scope, e.now);
        } else {
          PastCooldown(next, events[1..], scope, e.now, sys.entries[scope].probesAt, sys.entries[scope].reason);
        }
      }
    }
  }

  lemma NotAnAdmission(sys: System, e: Event)
    requires Effective(sys, e)
    ensures e.ReportCall?
  {
  }

  /** An entry refuses until its window ends. */
  lemma GuardedAnswer(sys: System, now: int, scope: Scope)
    requires scope in sys.entries
    ensures now < sys.entries[scope].probesAt ==>
              AnswerTo(sys.entries, scope, now) == Refused(sys.entries[scope].reason, sys.entries[scope].probesAt - now)
  {
  }

  lemma {:induction false} PastCooldown(sys: System, events: seq<Event>, scope: Scope, since: int, until: int, reason: Reason)
    requires until <= since && Ordered(events, since)
    ensures RefusedUntil(sys, events, scope, until, reason)
    decreases |events|
  {
    if events != [] {
      PastCooldown(Step(sys, events[0]), events[1..], scope, events[0].now, until, reason);
    }
  }

  // ----- exactly when a window holds -----

  function CooldownOf(outcome: Outcome): (cooldown: int)
    requires outcome.Throttled? || outcome.Rejected?
    ensures cooldown > 0
  {
    if outcome.Rejected? then REJECTED_COOLDOWN else Cooldown(outcome.retryAfter)
  }

  /**
   * A report before an instant that keeps the window up to it: it only releases a
   * trial, or it opens a window that ends no earlier. Any permit of the scope may
   * make it, whenever that was issued.
   */
  predicate Keeps(report: Event, until: int)
    requires report.ReportCall?
  {
    match report.outcome
    case NotAttributable => true
    case Succeeded => false
    case _ => report.now + CooldownOf(report.outcome) >= until
  }

  /** An effective report on the scope, before the instant, that does not. */
  predicate Lifts(sys: System, e: Event, scope: Scope, until: int)
  {
    Effective(sys, e) && e.scope == scope && e.now < until && !Keeps(e, until)
  }

  predicate NothingLifts(sys: System, events: seq<Event>, scope: Scope, until: int)
    decreases |events|
  {
    if events == [] then true
    else !Lifts(sys, events[0], scope, until) && NothingLifts(Step(sys, events[0]), events[1..], scope, until)
  }

  /** At no instant before the end of the window, and after no prefix of the run, would the scope be admitted. */
  ghost predicate AlwaysRefused(sys: System, events: seq<Event>, scope: Scope, until: int, since: int)
    decreases |events|
  {
    && (forall now | since <= now < until :: AnswerTo(sys.entries, scope, now).Refused?)
    && (events != [] ==> AlwaysRefused(Step(sys, events[0]), events[1..], scope, until, events[0].now))
  }

  /** Each admission of the run before an instant is refused until then or longer. */
  predicate RefusedBefore(sys: System, events: seq<Event>, scope: Scope, until: int)
    decreases |events|
  {
    if events == [] then true
    else
      var e := events[0];
      && (e.AdmitCall? && e.scope == scope && e.now < until ==>
            AnswerTo(sys.entries, scope, e.now).Refused? &&
            AnswerTo(sys.entries, scope, e.now).retryAfter >= until - e.now)
      && RefusedBefore(Step(sys, e), events[1..], scope, until)
  }

  /** An entry whose window reaches the instant. */
  predicate Holds(sys: System, scope: Scope, until: int)
  {
    scope in sys.entries && sys.entries[scope].probesAt >= until
  }

  lemma LateIsHarmless(sys: System, e: Event, scope: Scope, until: int)
    requires e.now >= until
    ensures !Lifts(sys, e, scope, until)
  {
  }

  /** One call before the end, unless it lifts the window, leaves it reaching that far. */
  lemma HeldStep(sys: System, e: Event, scope: Scope, until: int)
    requires Holds(sys, scope, until) && e.now < until
    requires !Lifts(sys, e, scope, until)
    ensures Holds(Step(sys, e), scope, until)
  {
  }

  /** A report that does not keep the window lets some instant before its end be admitted. */
  lemma LiftedStep(sys: System, e: Event, scope: Scope, until: int) returns (now: int)
    requires Lifts(sys, e, scope, until)
    ensures e.now <= now < until && AnswerTo(Step(sys, e).entries, scope, now).Admitted?
  {
    now := if e.outcome.Succeeded? then e.now else e.now + CooldownOf(e.outcome);
  }

  lemma {:induction false} PastWindow(sys: System, events: seq<Event>, scope: Scope, until: int, since: int)
    requires until <= since && Ordered(events, since)
    ensures NothingLifts(sys, events, scope, until) && AlwaysRefused(sys, events, scope, until, since)
    ensures RefusedBefore(sys, events, scope, until)
    decreases |events|
  {
    hide Step;
    if events != [] {
      PastWindow(Step(sys, events[0]), events[1..], scope, until, events[0].now);
    }
  }

  /**
   * Over any run, the scope would be refused at every instant before the window's
   * end if and only if each effective report before it keeps the window.
   */
  lemma {:induction false} WindowExactly(sys: System, events: seq<Event>, scope: Scope, until: int, since: int)
    requires Holds(sys, scope, until) && Ordered(events, since)
    ensures AlwaysRefused(sys, events, scope, until, since) <==> NothingLifts(sys, events, scope, until)
    ensures NothingLifts(sys, events, scope, until) ==> RefusedBefore(sys, events, scope, until)
    decreases |events|
  {
    hide Step;
    hide Lifts;
    forall now | since <= now < until
      ensures AnswerTo(sys.entries, scope, now).Refused?
    {
      GuardedAnswer(sys, now, scope);
    }
    if events != [] {
      var e := events[0];
      GuardedAnswer(sys, e.now, scope);
      if e.now >= until {
        LateIsHarmless(sys, e, scope, until);
        PastWindow(Step(sys, e), events[1..], scope, until, e.now);
      } else if Lifts(sys, e, scope, until) {
        var now := LiftedStep(sys, e, scope, until);
      } else {
        HeldStep(sys, e, scope, until);
        WindowExactly(Step(sys, e), events[1..], scope, until, e.now);
      }
    }
  }

  // ----- a trip, its window and its trial -----

  /** An effective report that opens a window. */
  predicate Trips(sys: System, e: Event)
  {
    Effective(sys, e) && (e.outcome.Throttled? || e.outcome.Rejected?)
  }

  lemma TrippedStep(sys: System, e: Event)
    requires Trips(sys, e)
    ensures var after := Step(sys, e).entries;
            && e.scope in after && after[e.scope].probesAt == e.now + CooldownOf(e.outcome) && !after[e.scope].trialInFlight
            && after[e.scope].lastSeen == e.now
            && after[e.scope].reason == (if e.outcome.Rejected? then RejectedReason else ThrottledReason)
    ensures e.outcome.Rejected? ==> CooldownOf(e.outcome) == 900_000_000_000
    ensures e.outcome.Throttled? ==>
              CooldownOf(e.outcome) == if e.outcome.retryAfter <= 0 then 5_000_000_000 else e.outcome.retryAfter
  {
  }

  /** A window that is kept grants nothing and has no trial in flight. */
  lemma {:induction false} KeptWindow(sys: System, events: seq<Event>, scope: Scope, until: int)
    requires Holds(sys, scope, until) && !sys.entries[scope].trialInFlight && NothingLifts(sys, events, scope, until)
    requires forall e | e in events :: e.now < until
    ensures Holds(Run(sys, events), scope, until) && !Run(sys, events).entries[scope].trialInFlight
    ensures GrantsOf(Answers(sys, events, scope)) == 0
    decreases |events|
  {
    hide Step;
    hide Lifts;
    hide AnswerTo;
    if events != [] {
      var e := events[0];
      assert e in events && forall x | x in events[1..] :: x in events;
      KeptStep(sys, e, scope, until);
      KeptWindow(Step(sys, e), events[1..], scope, until);
      var rest := Answers(Step(sys, e), events[1..], scope);
      if e.AdmitCall? && e.scope == scope {
        assert Answers(sys, events, scope)[1..] == rest;
      } else {
        assert Answers(sys, events, scope) == rest;
      }
    }
  }

  lemma KeptStep(sys: System, e: Event, scope: Scope, until: int)
    requires Holds(sys, scope, until) && !sys.entries[scope].trialInFlight && e.now < until
    requires !Lifts(sys, e, scope, until)
    ensures Holds(Step(sys, e), scope, until) && !Step(sys, e).entries[scope].trialInFlight
    ensures AnswerTo(sys.entries, scope, e.now).Refused?
  {
  }

  /**
   * After an effective Throttled or Rejected report at t with cooldown d, whatever
   * other scopes do and whatever permits are out: the scope is refused at every
   * instant before t + d exactly when each report on it before then keeps the
   * window, and so is then every admission made. From then to the next report, at
   * most one admission is granted while the entry lasts.
   */
  lemma HalfOpen(sys: System, trip: Event, before: seq<Event>, after: seq<Event>)
    requires Trips(sys, trip) && Ordered(before, trip.now)
    ensures var tripped, until := Step(sys, trip), trip.now + CooldownOf(trip.outcome);
            && until > trip.now
            && (AlwaysRefused(tripped, before, trip.scope, until, trip.now) <==> NothingLifts(tripped, before, trip.scope, until))
            && (NothingLifts(tripped, before, trip.scope, until) ==> RefusedBefore(tripped, before, trip.scope, until))
    ensures var tripped, until := Step(sys, trip), trip.now + CooldownOf(trip.outcome);
            NothingLifts(tripped, before, trip.scope, until) && (forall e | e in before :: e.now < until) ==>
              && GrantsOf(Answers(tripped, before, trip.scope)) == 0
              && (NoReportsOn(Run(tripped, before), after, trip.scope) && trip.scope in Run(Run(tripped, before), after).entries ==>
                    GrantsOf(Answers(Run(tripped, before), after, trip.scope)) <= 1)
  {
    hide Step;
    hide Run;
    hide Answers;
    hide NothingLifts;
    hide AlwaysRefused;
    hide RefusedBefore;
    hide NoReportsOn;
    var tripped, until := Step(sys, trip), trip.now + CooldownOf(trip.outcome);
    TrippedStep(sys, trip);
    WindowExactly(tripped, before, trip.scope, until, trip.now);
    if NothingLifts(tripped, before, trip.scope, until) && forall e | e in before :: e.now < until {
      KeptWindow(tripped, before, trip.scope, until);
      if NoReportsOn(Run(tripped, before), after, trip.scope) {
        AtMostOneTrial(Run(tripped, before), after, trip.scope);
      }
    }
  }

  /**
   * The window is lifted by a permit that was out before it: fifteen minutes after
   * a rejection were to be refused, and a nanosecond later the scope is admitted.
   */
  lemma EarlierPermitLifts(scope: Scope)
    ensures var a := AdmitCall(scope, 0);
            var rejected, succeeded := ReportCall(scope, 0, Rejected, 0), ReportCall(scope, 1, Succeeded, 1);
            Answers(EMPTY_SYSTEM, [a, a, rejected, succeeded, AdmitCall(scope, 1)], scope) == [Admitted, Admitted, Admitted]
  {
    var a, b := AdmitCall(scope, 0), AdmitCall(scope, 1);
    var rejected, succeeded := ReportCall(scope, 0, Rejected, 0), ReportCall(scope, 1, Succeeded, 1);
    var two := TwoPermits(scope);
    var tripped := Step(two, rejected);
    assert [false, false][0 := true] == [true, false];
    assert tripped.permits == map[scope := [true, false]];
    assert [a, a, rejected, succeeded, b] == [a, a] + [rejected, succeeded, b];
    AnswersAppend(EMPTY_SYSTEM, [a, a], [rejected, succeeded, b], scope);
    AnswersAppend(two, [rejected, succeeded], [b], scope);
    assert [rejected, succeeded] + [b] == [rejected, succeeded, b];
    assert [rejected, succeeded][1..] == [succeeded] && [succeeded][1..] == [] && [b][1..] == [];
    var lifted := Step(tripped, succeeded);
    assert Run(tripped, [succeeded]) == Run(lifted, []) && Run(lifted, []) == lifted;
    assert Run(two, [rejected, succeeded]) == lifted;
    assert Answers(tripped, [succeeded], scope) == [] + Answers(lifted, [], scope);
    assert Answers(two, [rejected, succeeded], scope) == [] + Answers(tripped, [succeeded], scope);
    assert Answers(lifted, [b], scope) == [Admitted] + Answers(Step(lifted, b), [], scope);
  }

  /** Two permits issued by an empty registry. */
  lemma TwoPermits(scope: Scope) returns (two: System)
    ensures var a := AdmitCall(scope, 0);
            && two == System(map[], map[scope := [false, false]]) && Run(EMPTY_SYSTEM, [a, a]) == two
            && Answers(EMPTY_SYSTEM, [a, a], scope) == [Admitted, Admitted]
  {
    var a := AdmitCall(scope, 0);
    var one := Step(EMPTY_SYSTEM, a);
    assert one == System(map[], map[scope := [false]]) by { assert [] + [false] == [false]; }
    two := Step(one, a);
    assert two == System(map[], map[scope := [false, false]]) by { assert [false] + [false] == [false, false]; }
    assert [a, a][1..] == [a] && [a][1..] == [];
    assert Run(one, [a]) == Run(two, []) && Run(two, []) == two;
    AnswersOfTwo(EMPTY_SYSTEM, a, a);
  }

  lemma {:induction false} AnswersAppend(sys: System, a: seq<Event>, b: seq<Event>, scope: Scope)
    ensures Answers(sys, a + b, scope) == Answers(sys, a, scope) + Answers(Run(sys, a), b, scope)
    ensures Run(sys, a + b) == Run(Run(sys, a), b)
    decreases |a|
  {
    hide Step;
    hide AnswerTo;
    if a == [] {
      assert a + b == b;
    } else {
      assert (a + b)[1..] == a[1..] + b;
      AnswersAppend(Step(sys, a[0]), a[1..], b, scope);
    }
  }

  // ----- exactly when a trial is alone -----

  /**
   * Of the permits issued since a trip, those from `base` on, at most one is
   * outstanding: the last, exactly when the entry has a trial in flight.
   */
  predicate OneTrial(sys: System, scope: Scope, base: nat)
  {
    var permits := PermitsOf(sys, scope);
    && scope in sys.entries && base <= |permits|
    && (forall i | base <= i < |permits| - 1 :: permits[i])
    && (sys.entries[scope].trialInFlight <==> base < |permits| && !permits[|permits| - 1])
  }

  /** A permit from before the trip releases a trial that another permit is. */
  predicate ReleasesAnother(sys: System, e: Event, scope: Scope, base: nat)
  {
    && Effective(sys, e) && e.scope == scope && e.outcome.NotAttributable? && e.permit < base
    && scope in sys.entries && sys.entries[scope].trialInFlight
  }

  predicate OwnReleases(sys: System, events: seq<Event>, scope: Scope, base: nat)
    decreases |events|
  {
    if events == [] then true
    else !ReleasesAnother(sys, events[0], scope, base) && OwnReleases(Step(sys, events[0]), events[1..], scope, base)
  }

  /** After every prefix of the run, while the entry lasts. */
  predicate AlwaysOneTrial(sys: System, events: seq<Event>, scope: Scope, base: nat)
    decreases |events|
  {
    && (scope in sys.entries ==> OneTrial(sys, scope, base))
    && (events != [] ==> AlwaysOneTrial(Step(sys, events[0]), events[1..], scope, base))
  }

  lemma TripStartsTrials(sys: System, trip: Event)
    requires Trips(sys, trip)
    ensures OneTrial(Step(sys, trip), trip.scope, |PermitsOf(sys, trip.scope)|)
  {
  }

  lemma OneTrialStep(sys: System, e: Event, scope: Scope, base: nat)
    requires OneTrial(sys, scope, base)
    requires Effective(sys, e) && e.scope == scope ==> e.outcome.NotAttributable?
    ensures scope in Step(sys, e).entries ==> (OneTrial(Step(sys, e), scope, base) <==> !ReleasesAnother(sys, e, scope, base))
    ensures scope !in Step(sys, e).entries ==> !ReleasesAnother(sys, e, scope, base)
  {
    if e.ReportCall? {
      OneTrialReport(sys, e, scope, base);
    } else {
      OneTrialAdmission(sys, e, scope, base);
    }
  }

  lemma OneTrialReport(sys: System, e: Event, scope: Scope, base: nat)
    requires OneTrial(sys, scope, base) && e.ReportCall?
    requires Effective(sys, e) && e.scope == scope ==> e.outcome.NotAttributable?
    ensures scope in Step(sys, e).entries
    ensures OneTrial(Step(sys, e), scope, base) <==> !ReleasesAnother(sys, e, scope, base)
  {
    if Effective(sys, e) && e.scope == scope {
      var permits := PermitsOf(sys, scope);
      assert PermitsOf(Step(sys, e), scope) == permits[e.permit := true];
    } else {
      assert PermitsOf(Step(sys, e), scope) == PermitsOf(sys, scope);
    }
  }

  lemma OneTrialAdmission(sys: System, e: Event, scope: Scope, base: nat)
    requires OneTrial(sys, scope, base) && e.AdmitCall?
    ensures scope in Step(sys, e).entries ==> OneTrial(Step(sys, e), scope, base)
  {
    var permits := PermitsOf(sys, scope);
    if e.scope == scope && AnswerTo(sys.entries, scope, e.now).Admitted? {
      assert PermitsOf(Step(sys, e), scope) == permits + [false];
    } else {
      assert PermitsOf(Step(sys, e), scope) == permits;
    }
  }

  lemma {:induction false} NoTrials(sys: System, events: seq<Event>, scope: Scope, base: nat)
    requires scope !in sys.entries && OnlyReleases(sys, events, scope)
    ensures AlwaysOneTrial(sys, events, scope, base) && OwnReleases(sys, events, scope, base)
    decreases |events|
  {
    hide Step;
    hide Effective;
    if events != [] {
      AbsentRelease(sys, events[0], scope, base);
      NoTrials(Step(sys, events[0]), events[1..], scope, base);
    }
  }

  lemma AbsentRelease(sys: System, e: Event, scope: Scope, base: nat)
    requires scope !in sys.entries && (Effective(sys, e) && e.scope == scope ==> e.outcome.NotAttributable?)
    ensures scope !in Step(sys, e).entries && !ReleasesAnother(sys, e, scope, base)
  {
  }

  /**
   * From a trip on, while reports only release and the entry lasts, at most one of
   * the permits issued since is outstanding at any time if and only if no permit
   * from before the trip releases a trial in flight.
   */
  lemma {:induction false} OneTrialExactly(sys: System, events: seq<Event>, scope: Scope, base: nat)
    requires OneTrial(sys, scope, base) && OnlyReleases(sys, events, scope)
    ensures AlwaysOneTrial(sys, events, scope, base) <==> OwnReleases(sys, events, scope, base)
    decreases |events|
  {
    hide Step;
    hide Effective;
    hide OneTrial;
    hide ReleasesAnother;
    if events != [] {
      var e := events[0];
      var next := Step(sys, e);
      OneTrialStep(sys, e, scope, base);
      if scope !in next.entries {
        NoTrials(next, events[1..], scope, base);
      } else if OneTrial(next, scope, base) {
        OneTrialExactly(next, events[1..], scope, base);
      }
    }
    TrialNow(sys, scope, base);
  }

  lemma TrialNow(sys: System, scope: Scope, base: nat)
    requires OneTrial(sys, scope, base)
    ensures scope in sys.entries
  {
  }

  /** After such a release, past the window, the scope is admitted while the other trial is still out. */
  lemma SecondTrial(sys: System, e: Event, scope: Scope, base: nat)
    requires OneTrial(sys, scope, base) && ReleasesAnother(sys, e, scope, base) && sys.entries[scope].probesAt <= e.now
    ensures var released := Step(sys, e);
            var permits := PermitsOf(Step(released, AdmitCall(scope, e.now)), scope);
            && AnswerTo(released.entries, scope, e.now).Admitted?
            && |permits| >= base + 2 && !permits[|permits| - 2] && !permits[|permits| - 1]
  {
    var permits := PermitsOf(sys, scope);
    assert PermitsOf(Step(sys, e), scope) == permits[e.permit := true];
    assert PermitsOf(Step(Step(sys, e), AdmitCall(scope, e.now)), scope) == permits[e.permit := true] + [false];
  }

  /** From an empty registry: two trials are out at once after one throttle. */
  lemma TwoTrialsAtOnce(scope: Scope)
    ensures var a, b := AdmitCall(scope, 0), AdmitCall(scope, 1);
            var throttled, released := ReportCall(scope, 0, Throttled(1), 0), ReportCall(scope, 1, NotAttributable, 1);
            var events := [a, a, throttled, b, released, b];
            && Answers(EMPTY_SYSTEM, events, scope) == [Admitted, Admitted, Admitted, Admitted]
            && PermitsOf(Run(EMPTY_SYSTEM, events), scope) == [true, true, false, false]
  {
    hide Step;
    hide Answers;
    hide Run;
    var a, b := AdmitCall(scope, 0), AdmitCall(scope, 1);
    var throttled, released := ReportCall(scope, 0, Throttled(1), 0), ReportCall(scope, 1, NotAttributable, 1);
    var two := TwoPermits(scope);
    assert [a, a, throttled, b, released, b] == [a, a] + [throttled, b, released, b];
    AnswersAppend(EMPTY_SYSTEM, [a, a], [throttled, b, released, b], scope);
    FourCalls(two, throttled, b, released, b, scope);
    TwoTrialSteps(scope);
    assert [Admitted, Admitted] + ([] + ([Admitted] + ([] + ([Admitted] + [])))) == [Admitted, Admitted, Admitted, Admitted];
  }

  lemma TwoTrialSteps(scope: Scope)
    ensures var b := AdmitCall(scope, 1);
            var tripped := Step(System(map[], map[scope := [false, false]]), ReportCall(scope, 0, Throttled(1), 0));
            var trial := Step(tripped, b);
            var freed := Step(trial, ReportCall(scope, 1, NotAttributable, 1));
            && AnswerTo(tripped.entries, scope, 1) == Admitted && AnswerTo(freed.entries, scope, 1) == Admitted
            && PermitsOf(Step(freed, b), scope) == [true, true, false, false]
  {
    var b := AdmitCall(scope, 1);
    var tripped := Step(System(map[], map[scope := [false, false]]), ReportCall(scope, 0, Throttled(1), 0));
    assert [false, false][0 := true] == [true, false];
    assert tripped == System(map[scope := Entry(ThrottledReason, 1, false, 0)], map[scope := [true, false]]);
    var trial := Step(tripped, b);
    assert [true, false] + [false] == [true, false, false];
    assert trial == System(map[scope := Entry(ThrottledReason, 1, true, 1)], map[scope := [true, false, false]]);
    var freed := Step(trial, ReportCall(scope, 1, NotAttributable, 1));
    assert [true, false, false][1 := true] == [true, true, false];
    assert freed == System(map[scope := Entry(ThrottledReason, 1, false, 1)], map[scope := [true, true, false]]);
    assert [true, true, false] + [false] == [true, true, false, false];
  }

  /** A run of four calls, one at a time. */
  lemma FourCalls(sys: System, a: Event, b: Event, c: Event, d: Event, scope: Scope)
    ensures var one := Step(sys, a);
            var two := Step(one, b);
            var three := Step(two, c);
            && Run(sys, [a, b, c, d]) == Step(three, d)
            && Answers(sys, [a, b, c, d], scope)
               == AnswerOf(sys, a, scope) + (AnswerOf(one, b, scope) + (AnswerOf(two, c, scope) + (AnswerOf(three, d, scope) + [])))
  {
    hide Step;
    hide Run;
    hide Answers;
    hide AnswerOf;
    var one := Step(sys, a);
    var two := Step(one, b);
    var three := Step(two, c);
    OneCall(sys, a, [b, c, d], scope);
    OneCall(one, b, [c, d], scope);
    OneCall(two, c, [d], scope);
    OneCall(three, d, [], scope);
    NoCall(Step(three, d), scope);
    assert [a] + [b, c, d] == [a, b, c, d] && [b] + [c, d] == [b, c, d] && [c] + [d] == [c, d] && [d] + [] == [d];
  }

  function AnswerOf(sys: System, e: Event, scope: Scope): seq<Answer>
  {
    if e.AdmitCall? && e.scope == scope then [AnswerTo(sys.entries, scope, e.now)] else []
  }

  lemma OneCall(sys: System, e: Event, rest: seq<Event>, scope: Scope)
    ensures Run(sys, [e] + rest) == Run(Step(sys, e), rest)
    ensures Answers(sys, [e] + rest, scope) == AnswerOf(sys, e, scope) + Answers(Step(sys, e), rest, scope)
  {
    hide Step;
    hide AnswerTo;
    assert ([e] + rest)[1..] == rest;
  }

  lemma NoCall(sys: System, scope: Scope)
    ensures Run(sys, []) == sys && Answers(sys, [], scope) == []
  {
  }

  // ----- when an entry is evicted -----

  const HOUR := 3_600_000_000_000  // in nanoseconds

  /** A call that reaches the scope's entry: an admission, granted or refused, or an effective report. */
  predicate Reaches(sys: System, e: Event, scope: Scope)
  {
    e.scope == scope && (e.AdmitCall? || Effective(sys, e))
  }

  /** The instant of the last call of a run that reaches the scope. */
  function LastReached(sys: System, events: seq<Event>, scope: Scope, before: int): int
    decreases |events|
  {
    if events == [] then before
    else LastReached(Step(sys, events[0]), events[1..], scope, if Reaches(sys, events[0], scope) then events[0].now else before)
  }

  /** A call keeps the instant an entry was last reached, or sets it to its own. */
  lemma ReachedStep(sys: System, e: Event, scope: Scope)
    requires scope in sys.entries && (Effective(sys, e) && e.scope == scope ==> e.outcome.NotAttributable?)
    ensures scope in Step(sys, e).entries ==>
              Step(sys, e).entries[scope].lastSeen == if Reaches(sys, e, scope) then e.now else sys.entries[scope].lastSeen
  {
  }

  /** An admission, on whatever scope, evicts an entry exactly when its window is over, no trial is out and no call reached it for an hour. */
  lemma EvictedExactly(sys: System, e: Event, scope: Scope)
    requires scope in sys.entries && e.AdmitCall?
    ensures scope !in Step(sys, e).entries <==>
              && sys.entries[scope].probesAt <= e.now && !sys.entries[scope].trialInFlight
              && e.now - sys.entries[scope].lastSeen > HOUR
  {
  }

  /** While reports only release, a surviving entry was last seen when the last call reached it. */
  lemma {:induction false} LastSeenIsLastReached(sys: System, events: seq<Event>, scope: Scope)
    requires scope in sys.entries && OnlyReleases(sys, events, scope)
    ensures scope in Run(sys, events).entries ==>
              Run(sys, events).entries[scope].lastSeen == LastReached(sys, events, scope, sys.entries[scope].lastSeen)
    decreases |events|
  {
    hide Step;
    hide Effective;
    hide Reaches;
    if events != [] {
      var next := Step(sys, events[0]);
      ReachedStep(sys, events[0], scope);
      if scope in next.entries {
        LastSeenIsLastReached(next, events[1..], scope);
      } else {
        AbsentReleases(next, events[1..], scope);
      }
    }
  }

  lemma {:induction false} AbsentReleases(sys: System, events: seq<Event>, scope: Scope)
    requires scope !in sys.entries && OnlyReleases(sys, events, scope)
    ensures scope !in Run(sys, events).entries
    decreases |events|
  {
    hide Step;
    hide Effective;
    if events != [] {
      AbsentRelease(sys, events[0], scope, 0);
      AbsentReleases(Step(sys, events[0]), events[1..], scope);
    }
  }

  /**
   * From any state with an entry, while reports only release: if the entry is gone
   * after one more admission on any scope, no call had reached it for an hour.
   */
  lemma EvictedOnlyIdle(sys: System, events: seq<Event>, last: Event, scope: Scope)
    requires scope in sys.entries && OnlyReleases(sys, events, scope) && last.AdmitCall?
    requires scope in Run(sys, events).entries && scope !in Step(Run(sys, events), last).entries
    ensures last.now - LastReached(sys, events, scope, sys.entries[scope].lastSeen) > HOUR
  {
    hide Step;
    hide Run;
    hide LastReached;
    LastSeenIsLastReached(sys, events, scope);
    EvictedExactly(Run(sys, events), last, scope);
  }

  /** Each admission of the scope comes an hour or less after the one before it. */
  predicate Spaced(events: seq<Event>, scope: Scope, before: int)
    decreases |events|
  {
    if events == [] then true
    else
      var e := events[0];
      if e.AdmitCall? && e.scope == scope then e.now - before <= HOUR && Spaced(events[1..], scope, e.now)
      else Spaced(events[1..], scope, before)
  }

  /** Once an hour has passed, spaced admissions are over. */
  lemma {:induction false} NoneLeft(sys: System, events: seq<Event>, scope: Scope, before: int, since: int)
    requires Ordered(events, since) && Spaced(events, scope, before) && since - before > HOUR
    ensures Answers(sys, events, scope) == []
    decreases |events|
  {
    hide Step;
    if events != [] {
      NoneLeft(Step(sys, events[0]), events[1..], scope, before, events[0].now);
    }
  }

  /** A granted admission puts a trial in flight unless the entry was evicted for it. */
  lemma UnreportedStep(sys: System, e: Event, scope: Scope)
    requires scope in sys.entries && !(Effective(sys, e) && e.scope == scope)
    requires e.AdmitCall? && e.scope == scope ==> e.now - sys.entries[scope].lastSeen <= HOUR
    ensures var grants := e.AdmitCall? && e.scope == scope && AnswerTo(sys.entries, scope, e.now).Admitted?;
            && (e.scope == scope ==> scope in Step(sys, e).entries)
            && (scope in Step(sys, e).entries ==>
                  && (Step(sys, e).entries[scope].trialInFlight <==> sys.entries[scope].trialInFlight || grants)
                  && !(sys.entries[scope].trialInFlight && grants)
                  && Step(sys, e).entries[scope].lastSeen
                     == if e.AdmitCall? && e.scope == scope then e.now else sys.entries[scope].lastSeen)
            && (scope !in Step(sys, e).entries ==> e.now - sys.entries[scope].lastSeen > HOUR && !sys.entries[scope].trialInFlight)
  {
  }

  /**
   * Until the next report on a scope with an entry, at most one of any admissions
   * an hour or less apart is granted, and none while a trial is in flight.
   */
  lemma {:induction false} OneOfSpacedAdmissions(sys: System, events: seq<Event>, scope: Scope, since: int)
    requires scope in sys.entries && NoReportsOn(sys, events, scope) && Ordered(events, since)
    requires Spaced(events, scope, sys.entries[scope].lastSeen)
    ensures GrantsOf(Answers(sys, events, scope)) <= if sys.entries[scope].trialInFlight then 0 else 1
    decreases |events|
  {
    hide Step;
    hide Effective;
    hide AnswerTo;
    if events != [] {
      var e := events[0];
      var next := Step(sys, e);
      UnreportedStep(sys, e, scope);
      var rest := Answers(next, events[1..], scope);
      if e.AdmitCall? && e.scope == scope {
        assert Answers(sys, events, scope)[1..] == rest;
      } else {
        assert Answers(sys, events, scope) == rest;
      }
      if scope in next.entries {
        OneOfSpacedAdmissions(next, events[1..], scope, e.now);
      } else {
        NoneLeft(next, events[1..], scope, sys.entries[scope].lastSeen, e.now);
      }
    }
  }

  /** From an empty registry: a refused admission keeps the entry for another hour. */
  lemma RefusalKeepsEntry(scope: Scope)
    ensures var minute := 60_000_000_000;
            var a, refused, late := AdmitCall(scope, 0), AdmitCall(scope, 14 * minute), AdmitCall(scope, 65 * minute);
            Answers(EMPTY_SYSTEM, [a, a] + [ReportCall(scope, 0, Rejected, 0), refused, late, late], scope)
            == [Admitted, Admitted, Refused(RejectedReason, minute), Admitted, Refused(RejectedReason, 0)]
  {
    hide Step;
    hide Answers;
    hide Run;
    var minute := 60_000_000_000;
    var a, refused, late := AdmitCall(scope, 0), AdmitCall(scope, 14 * minute), AdmitCall(scope, 65 * minute);
    var rejected := ReportCall(scope, 0, Rejected, 0);
    var two := TwoPermits(scope);
    AnswersAppend(EMPTY_SYSTEM, [a, a], [rejected, refused, late, late], scope);
    FourCalls(two, rejected, refused, late, late, scope);
    RefusalSteps(scope);
    assert [Admitted, Admitted] + ([] + ([Refused(RejectedReason, minute)] + ([Admitted] + ([Refused(RejectedReason, 0)] + []))))
        == [Admitted, Admitted, Refused(RejectedReason, minute), Admitted, Refused(RejectedReason, 0)];
  }

  lemma RefusalSteps(scope: Scope)
    ensures var minute := 60_000_000_000;
            var tripped := Step(System(map[], map[scope := [false, false]]), ReportCall(scope, 0, Rejected, 0));
            var once := Step(tripped, AdmitCall(scope, 14 * minute));
            var trial := Step(once, AdmitCall(scope, 65 * minute));
            && AnswerTo(tripped.entries, scope, 14 * minute) == Refused(RejectedReason, minute)
            && AnswerTo(once.entries, scope, 65 * minute) == Admitted
            && AnswerTo(trial.entries, scope, 65 * minute) == Refused(RejectedReason, 0)
  {
    var minute := 60_000_000_000;
    var tripped := Step(System(map[], map[scope := [false, false]]), ReportCall(scope, 0, Rejected, 0));
    assert tripped.entries == map[scope := Entry(RejectedReason, 15 * minute, false, 0)];
    var once := Step(tripped, AdmitCall(scope, 14 * minute));
    assert once.entries == map[scope := Entry(RejectedReason, 15 * minute, false, 14 * minute)];
    var trial := Step(once, AdmitCall(scope, 65 * minute));
    assert trial.entries == map[scope := Entry(RejectedReason, 15 * minute, true, 65 * minute)];
  }

  // ----- after a success -----

  /** No effective report on the scope opens a window. */
  predicate NoTrips(sys: System, events: seq<Event>, scope: Scope)
    decreases |events|
  {
    if events == [] then true
    else !(Trips(sys, events[0]) && events[0].scope == scope) && NoTrips(Step(sys, events[0]), events[1..], scope)
  }

  /** At every instant, after every prefix of the run, the scope would be admitted. */
  ghost predicate AlwaysAdmitted(sys: System, events: seq<Event>, scope: Scope, since: int)
    decreases |events|
  {
    && (forall now | since <= now :: AnswerTo(sys.entries, scope, now).Admitted?)
    && (events != [] ==> AlwaysAdmitted(Step(sys, events[0]), events[1..], scope, events[0].now))
  }

  lemma OpenStep(sys: System, e: Event, scope: Scope)
    requires scope !in sys.entries
    ensures scope !in Step(sys, e).entries <==> !(Trips(sys, e) && e.scope == scope)
    ensures Trips(sys, e) && e.scope == scope ==> AnswerTo(Step(sys, e).entries, scope, e.now).Refused?
  {
  }

  /** A scope without an entry is always admitted exactly when no report on it opens a window. */
  lemma {:induction false} OpenExactly(sys: System, events: seq<Event>, scope: Scope, since: int)
    requires scope !in sys.entries && Ordered(events, since)
    ensures AlwaysAdmitted(sys, events, scope, since) <==> NoTrips(sys, events, scope)
    decreases |events|
  {
    hide Step;
    hide Trips;
    if events != [] {
      OpenStep(sys, events[0], scope);
      if scope !in Step(sys, events[0]).entries {
        OpenExactly(Step(sys, events[0]), events[1..], scope, events[0].now);
      }
    }
  }

  /**
   * A success closes the lane: the scope is admitted at every instant from then on
   * exactly when no report on it opens a window again, and no other scope's entry
   * is touched.
   */
  lemma SuccessCloses(sys: System, report: Event, events: seq<Event>)
    requires Effective(sys, report) && report.outcome.Succeeded? && Ordered(events, report.now)
    ensures AlwaysAdmitted(Step(sys, report), events, report.scope, report.now) <==> NoTrips(Step(sys, report), events, report.scope)
    ensures forall other | other != report.scope ::
              (other in Step(sys, report).entries <==> other in sys.entries) &&
              (other in sys.entries ==> Step(sys, report).entries[other] == sys.entries[other])
  {
    hide NoTrips;
    hide AlwaysAdmitted;
    OpenExactly(Step(sys, report), events, report.scope, report.now);
  }

  // ----- a permit reports once -----

  predicate HasReported(sys: System, scope: Scope, permit: nat)
  {
    permit < |PermitsOf(sys, scope)| && PermitsOf(sys, scope)[permit]
  }

  /** No call, an admission included, makes a permit that has reported able to report again. */
  lemma ReportedStep(sys: System, e: Event, scope: Scope, permit: nat)
    requires HasReported(sys, scope, permit)
    ensures HasReported(Step(sys, e), scope, permit)
  {
    hide AfterAdmit;
    hide AfterReport;
    hide AnswerTo;
  }

  lemma {:induction false} ReportedRun(sys: System, events: seq<Event>, scope: Scope, permit: nat)
    requires HasReported(sys, scope, permit)
    ensures HasReported(Run(sys, events), scope, permit)
    decreases |events|
  {
    hide Step;
    hide HasReported;
    if events != [] {
      ReportedStep(sys, events[0], scope, permit);
      ReportedRun(Step(sys, events[0]), events[1..], scope, permit);
    }
  }

  /** The calls left when one permit's reports are dropped. */
  function WithoutReports(events: seq<Event>, scope: Scope, permit: nat): seq<Event>
  {
    if events == [] then []
    else
      var e := events[0];
      (if e.ReportCall? && e.scope == scope && e.permit == permit then [] else [e])
      + WithoutReports(events[1..], scope, permit)
  }

  /**
   * After a permit's first effective report, and whatever is called in any order
   * since, each further report of it changes nothing: the run ends as it would
   * without them all, and every admission is answered alike.
   */
  lemma LaterReportsAreIdle(sys: System, report: Event, events: seq<Event>, scope: Scope)
    requires Effective(sys, report)
    ensures var reported := Step(sys, report);
            var fewer := WithoutReports(events, report.scope, report.permit);
            && Run(reported, events) == Run(reported, fewer)
            && Answers(reported, events, scope) == Answers(reported, fewer, scope)
  {
    hide AfterReport;
    assert HasReported(Step(sys, report), report.scope, report.permit);
    DroppedReports(Step(sys, report), events, report.scope, report.permit, scope);
  }

  lemma {:induction false} DroppedReports(sys: System, events: seq<Event>, of: Scope, permit: nat, scope: Scope)
    requires HasReported(sys, of, permit)
    ensures var fewer := WithoutReports(events, of, permit);
            Run(sys, events) == Run(sys, fewer) && Answers(sys, events, scope) == Answers(sys, fewer, scope)
    decreases |events|
  {
    hide AfterReport;
    hide AfterAdmit;
    hide AnswerTo;
    if events != [] {
      var e := events[0];
      var fewer := WithoutReports(events[1..], of, permit);
      ReportedStep(sys, e, of, permit);
      DroppedReports(Step(sys, e), events[1..], of, permit, scope);
      if e.ReportCall? && e.scope == of && e.permit == permit {
        assert Step(sys, e) == sys;
        assert [] + fewer == fewer;
        assert Answers(sys, events, scope) == Answers(sys, events[1..], scope);
      } else {
        assert ([e] + fewer)[1..] == fewer;
      }
    }
  }
}

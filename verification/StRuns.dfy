/**
 * The subscription table with its expiry timers, as a state machine over whole histories. A timer that
 * fires puts its completion in the event queue; destroying a timer aborts its wait only until then, so
 * a completion that is already queued still runs, even when its next hop has been replaced.
 */
module StRuns {
  import opened Descriptors
  import opened HopTable

  type TimerId = nat

  datatype Deadline = At(t: nat) | Never

  /** A wait, with the descriptor and face bound into its callback. */
  datatype Wait = Wait(pair: Pair, deadline: Deadline)

  /**
   * The subscriptions, each with its timer; every wait ever started; the timers still armed and those
   * whose completion is queued; and the clock.
   */
  datatype State = State(
    hops: map<Pair, TimerId>, waits: seq<Wait>, armed: set<TimerId>, fired: set<TimerId>, now: nat)

  const INITIAL := State(map[], [], {}, {}, 0)

  datatype Event =
    | Add(pair: Pair)
    | Remove(pair: Pair)
    | RemoveCd(cd: Cd)
    | RemoveFace(face: FaceId)
    | Clear
    | Advance(seconds: nat)
    | Fire(timer: TimerId)      // the deadline has passed: the completion is queued
    | Handle(timer: TimerId)    // the queued completion runs onExpired

  function Due(now: nat, expireTime: Deadline): Deadline {
    if expireTime.At? then At(now + expireTime.t) else Never
  }

  function TimersOf(hops: map<Pair, TimerId>, pairs: set<Pair>): set<TimerId> {
    set p | p in pairs && p in hops :: hops[p]
  }

  /** Remove the pairs, destroying their timers. */
  function Drop(s: State, dead: set<Pair>): State {
    s.(hops := s.hops - dead, armed := s.armed - TimersOf(s.hops, dead))
  }

  function Step(s: State, e: Event, expireTime: Deadline): State {
    match e
    case Add(p) =>
      var t := |s.waits|;
      s.(hops := s.hops[p := t],
         waits := s.waits + [Wait(p, Due(s.now, expireTime))],
         armed := s.armed + {t} - TimersOf(s.hops, {p}))
    case Remove(p) => Drop(s, {p})
    case RemoveCd(cd) => Drop(s, OfCd(s.hops, cd))
    case RemoveFace(f) => Drop(s, OfFace(s.hops.Keys, f))
    case Clear => Drop(s, s.hops.Keys)
    case Advance(seconds) => s.(now := s.now + seconds)
    case Fire(t) => s.(armed := s.armed - {t}, fired := s.fired + {t})
    case Handle(t) =>
      if t < |s.waits| then Drop(s.(fired := s.fired - {t}), {s.waits[t].pair}) else s
  }

  /** What an event does to the set of pairs, whatever their timers. */
  lemma StepOnPairs(s: State, e: Event, x: Deadline)
    ensures e.Add? ==> Step(s, e, x).hops.Keys == s.hops.Keys + {e.pair}
    ensures e.Remove? ==> Step(s, e, x).hops.Keys == s.hops.Keys - {e.pair}
    ensures e.RemoveCd? ==> forall p :: p in Step(s, e, x).hops <==> p in s.hops && p.0 != e.cd
    ensures e.RemoveFace? ==> Step(s, e, x).hops.Keys == s.hops.Keys - OfFace(s.hops.Keys, e.face)
    ensures e.RemoveFace? ==> forall p :: p in Step(s, e, x).hops <==> p in s.hops && p.1 != e.face
    ensures e.Clear? ==> Step(s, e, x).hops.Keys == {}
    ensures e.Handle? && e.timer < |s.waits| ==> Step(s, e, x).hops.Keys == s.hops.Keys - {s.waits[e.timer].pair}
  {
  }

  ghost predicate Enabled(s: State, e: Event) {
    match e
    case Fire(t) => t in s.armed && t < |s.waits| && s.waits[t].deadline.At? && s.waits[t].deadline.t <= s.now
    case Handle(t) => t in s.fired
    case _ => true
  }

  function Run(h: seq<Event>, expireTime: Deadline): State {
    if h == [] then INITIAL else Step(Run(h[..|h| - 1], expireTime), h[|h| - 1], expireTime)
  }

  ghost predicate Legal(h: seq<Event>, x: Deadline) {
    forall k :: 0 <= k < |h| ==> Enabled(Run(h[..k], x), h[k])
  }

  // ---- Next hops and timers correspond

  /**
   * Every next hop has its own timer, armed or with its completion queued; every armed timer belongs to
   * a next hop; and a completion is queued only after its deadline.
   */
  ghost predicate Inv(s: State) {
    && (forall p :: p in s.hops ==> s.hops[p] < |s.waits| && s.waits[s.hops[p]].pair == p)
    && (forall p :: p in s.hops ==> s.hops[p] in s.armed || s.hops[p] in s.fired)
    && (forall t :: t in s.armed ==> t < |s.waits| && s.waits[t].pair in s.hops && s.hops[s.waits[t].pair] == t)
    && (forall t :: t in s.fired ==> t < |s.waits| && s.waits[t].deadline.At? && s.waits[t].deadline.t <= s.now)
    && s.armed !! s.fired
  }

  lemma StepKeepsInv(s: State, e: Event, x: Deadline)
    requires Inv(s) && Enabled(s, e)
    ensures Inv(Step(s, e, x))
  {
    match e {
      case Add(p) => AddKeepsInv(s, p, x);
      case Remove(p) => DropKeepsInv(s, {p});
      case RemoveCd(cd) => DropKeepsInv(s, OfCd(s.hops, cd));
      case RemoveFace(f) => DropKeepsInv(s, OfFace(s.hops.Keys, f));
      case Clear => DropKeepsInv(s, s.hops.Keys);
      case Advance(_) =>
      case Fire(_) =>
      case Handle(t) =>
        DropKeepsInv(s, {s.waits[t].pair});
    }
  }

  lemma AddKeepsInv(s: State, p: Pair, x: Deadline)
    requires Inv(s)
    ensures Inv(Step(s, Add(p), x))
  {
  }

  lemma DropKeepsInv(s: State, dead: set<Pair>)
    requires Inv(s)
    ensures Inv(Drop(s, dead))
  {
  }

  lemma {:induction false} RunsKeepInv(h: seq<Event>, x: Deadline)
    requires Legal(h, x)
    ensures Inv(Run(h, x))
  {
    if h == [] {
      RunNothing(x);
    } else {
      hide Run, Legal, Inv, Step, Enabled;
      var n := |h| - 1;
      LegalPrefix(h, n, x);
      LegalAt(h, n, x);
      RunsKeepInv(h[..n], x);
      StepKeepsInv(Run(h[..n], x), h[n], x);
      assert h == h[..n] + [h[n]];
      RunSnoc(h[..n], h[n], x);
    }
  }

  lemma LegalPrefix(h: seq<Event>, n: nat, x: Deadline)
    requires Legal(h, x) && n <= |h|
    ensures Legal(h[..n], x)
  {
    forall k | 0 <= k < n ensures Enabled(Run(h[..n][..k], x), h[..n][k]) {
      assert h[..n][..k] == h[..k];
    }
  }

  // ---- Presence

  /** The timer an `Add` at position `i` starts. */
  function TimerOf(h: seq<Event>, i: nat, x: Deadline): TimerId
    requires i <= |h|
  {
    |Run(h[..i], x).waits|
  }

  /** The event replaces or ends the subscription `p` whose timer is `t`. */
  predicate Ends(e: Event, p: Pair, t: TimerId) {
    match e
    case Add(q) => q == p
    case Remove(q) => q == p
    case RemoveCd(cd) => cd == p.0
    case RemoveFace(f) => f == p.1
    case Clear => true
    case Advance(_) => false
    case Fire(_) => false
    case Handle(t') => t' == t
  }

  /** The last add of `p` is at `i`, and neither a removal nor the expiry of its own timer followed. */
  ghost predicate StandsSince(h: seq<Event>, p: Pair, i: nat, x: Deadline) {
    && i < |h| && h[i] == Add(p)
    && forall k :: i < k < |h| ==> !Ends(h[k], p, TimerOf(h, i, x))
  }

  ghost predicate Stands(h: seq<Event>, p: Pair, x: Deadline) { exists i :: StandsSince(h, p, i, x) }

  /** A completion runs for the pair `p`, whose present next hop has another timer. */
  ghost predicate Stale(s: State, e: Event, p: Pair) {
    && e.Handle? && e.timer < |s.waits| && s.waits[e.timer].pair == p
    && p in s.hops && s.hops[p] != e.timer
  }

  ghost predicate NeverStale(h: seq<Event>, p: Pair, x: Deadline) {
    forall k :: 0 <= k < |h| ==> !Stale(Run(h[..k], x), h[k], p)
  }

  /** The pair's presence is right after `h`, with the right timer. */
  ghost predicate Tracks(h: seq<Event>, p: Pair, x: Deadline) {
    && (p in Run(h, x).hops ==> Stands(h, p, x))
    && (forall i :: StandsSince(h, p, i, x) ==> p in Run(h, x).hops && Run(h, x).hops[p] == TimerOf(h, i, x))
  }

  lemma StandsStep(h: seq<Event>, e: Event, p: Pair, i: nat, x: Deadline)
    ensures i < |h| ==> (StandsSince(h + [e], p, i, x) <==> StandsSince(h, p, i, x) && !Ends(e, p, TimerOf(h, i, x)))
    ensures StandsSince(h + [e], p, |h|, x) <==> e == Add(p)
    ensures i <= |h| ==> TimerOf(h + [e], i, x) == TimerOf(h, i, x)
  {
    var g := h + [e];
    if i <= |h| {
      assert g[..i] == h[..i];
      assert i < |h| && StandsSince(g, p, i, x) ==> g[|h|] == e && forall k :: i < k < |h| ==> h[k] == g[k];
    }
  }

  /** What one event does to one pair. A stale completion ends a subscription whose timer still runs. */
  lemma StepOnPair(s: State, e: Event, p: Pair, x: Deadline)
    requires Inv(s) && Enabled(s, e)
    ensures e == Add(p) ==> p in Step(s, e, x).hops && Step(s, e, x).hops[p] == |s.waits|
    ensures e != Add(p) && !Stale(s, e, p) ==>
              (p in Step(s, e, x).hops <==> p in s.hops && !Ends(e, p, s.hops[p]))
    ensures e != Add(p) && p in Step(s, e, x).hops ==>
              p in s.hops && Step(s, e, x).hops[p] == s.hops[p] && !Ends(e, p, s.hops[p])
  {
  }

  lemma TracksStep(h: seq<Event>, e: Event, p: Pair, x: Deadline)
    requires Tracks(h, p, x) && Inv(Run(h, x)) && Enabled(Run(h, x), e) && !Stale(Run(h, x), e, p)
    ensures Tracks(h + [e], p, x)
  {
    var g := h + [e];
    hide Run, StandsSince, TimerOf, Step, Inv, Enabled, Stale;
    RunSnoc(h, e, x);
    TimerAfter(h, x);
    StepOnPair(Run(h, x), e, p, x);
    if p in Run(g, x).hops {
      var i: nat := |h|;
      if e != Add(p) {
        i :| StandsSince(h, p, i, x);
        StandsWithin(h, p, i, x);
      }
      StandsStep(h, e, p, i, x);
    }
    forall i: nat | StandsSince(g, p, i, x)
      ensures i <= |g| && p in Run(g, x).hops && Run(g, x).hops[p] == TimerOf(g, i, x)
    {
      StandsWithin(g, p, i, x);
      StandsStep(h, e, p, i, x);
    }
  }

  lemma TimerAfter(h: seq<Event>, x: Deadline)
    ensures TimerOf(h, |h|, x) == |Run(h, x).waits|
  {
    assert h[..|h|] == h;
  }

  lemma StandsWithin(h: seq<Event>, p: Pair, i: nat, x: Deadline)
    requires StandsSince(h, p, i, x)
    ensures i < |h| && h[i] == Add(p)
  {
  }

  lemma RunSnoc(h: seq<Event>, e: Event, x: Deadline)
    ensures Run(h + [e], x) == Step(Run(h, x), e, x)
  {
    assert (h + [e])[..|h|] == h;
  }

  /**
   * In every history, stale completions or not: what is present stands. Its last add was not followed by
   * a removal, a clear or its own timer's expiry, and its timer is the one that add started.
   */
  lemma {:induction false} PresentMeansStanding(h: seq<Event>, p: Pair, x: Deadline) returns (i: nat)
    requires Legal(h, x) && p in Run(h, x).hops
    ensures StandsSince(h, p, i, x) && Run(h, x).hops[p] == TimerOf(h, i, x)
  {
    hide Run, StandsSince, TimerOf, Step, Inv, Enabled, Legal, Ends, Stale;
    RunNothing(x);
    var n := |h| - 1;
    var g, e := h[..n], h[n];
    assert h == g + [e] && g[..n] == g;
    TimerAfter(g, x);
    LegalPrefix(h, n, x);
    LegalAt(h, n, x);
    RunsKeepInv(g, x);
    RunSnoc(g, e, x);
    StepOnPair(Run(g, x), e, p, x);
    if e == Add(p) {
      i := n;
    } else {
      i := PresentMeansStanding(g, p, x);
      StandsWithin(g, p, i, x);
    }
    StandsStep(g, e, p, i, x);
  }

  /** The pair's presence agrees with its history after every prefix. */
  ghost predicate PresenceIsHistory(h: seq<Event>, p: Pair, x: Deadline) {
    forall k :: 0 <= k <= |h| ==> (p in Run(h[..k], x).hops <==> Stands(h[..k], p, x))
  }

  lemma {:induction false} NeverStaleTracks(h: seq<Event>, p: Pair, x: Deadline)
    requires Legal(h, x) && NeverStale(h, p, x)
    ensures Tracks(h, p, x)
  {
    if h != [] {
      hide Stale, Tracks, Run, Legal, Inv, Enabled;
      var n := |h| - 1;
      assert h == h[..n] + [h[n]];
      LegalPrefix(h, n, x);
      LegalAt(h, n, x);
      NeverStalePrefix(h, n, p, x);
      RunsKeepInv(h[..n], x);
      NeverStaleTracks(h[..n], p, x);
      TracksStep(h[..n], h[n], p, x);
    }
  }

  lemma NeverStalePrefix(h: seq<Event>, n: nat, p: Pair, x: Deadline)
    requires NeverStale(h, p, x) && n <= |h|
    ensures NeverStale(h[..n], p, x)
  {
    forall k | 0 <= k < n ensures !Stale(Run(h[..n][..k], x), h[..n][k], p) {
      assert h[..n][..k] == h[..k];
    }
  }

  /**
   * In every history and for every pair: the subscription is present exactly when its last add was not
   * followed by a removal, a clear or the expiry of that add's own timer, at every moment, if and only if
   * no completion ever runs for this pair after it was renewed since that completion was queued.
   */
  lemma PresenceIff(h: seq<Event>, p: Pair, x: Deadline)
    requires Legal(h, x)
    ensures PresenceIsHistory(h, p, x) <==> NeverStale(h, p, x)
  {
    hide Run, Stands, Legal, Stale;
    if NeverStale(h, p, x) {
      forall k | 0 <= k <= |h| ensures p in Run(h[..k], x).hops <==> Stands(h[..k], p, x) {
        LegalPrefix(h, k, x);
        NeverStalePrefix(h, k, p, x);
        NeverStaleTracks(h[..k], p, x);
        TracksPresence(h[..k], p, x);
      }
    }
    if PresenceIsHistory(h, p, x) {
      PresenceIsNeverStale(h, |h|, p, x);
      assert h[..|h|] == h;
    }
  }

  lemma TracksPresence(h: seq<Event>, p: Pair, x: Deadline)
    requires Tracks(h, p, x)
    ensures p in Run(h, x).hops <==> Stands(h, p, x)
  {
    hide Run, StandsSince;
  }

  lemma {:induction false} PresenceIsNeverStale(h: seq<Event>, n: nat, p: Pair, x: Deadline)
    requires Legal(h, x) && PresenceIsHistory(h, p, x) && n <= |h|
    ensures NeverStale(h[..n], p, x)
  {
    hide Run, Legal, Stands, Tracks, Inv, Stale;
    if n == 0 {
      assert h[..n] == [];
    } else {
      var m := n - 1;
      var g := h[..m];
      PresenceIsNeverStale(h, m, p, x);
      LegalPrefix(h, m, x);
      NeverStaleTracks(g, p, x);
      RunsKeepInv(g, x);
      LegalAt(h, m, x);
      assert h[..n] == g + [h[m]];
      if Stale(Run(g, x), h[m], p) {
        StaleLosesSubscription(g, h[m], p, x);
        assert false;
      }
      NeverStaleSnoc(g, h[m], p, x);
    }
  }

  lemma LegalAt(h: seq<Event>, k: nat, x: Deadline)
    requires Legal(h, x) && k < |h|
    ensures Enabled(Run(h[..k], x), h[k])
  {
  }

  lemma NeverStaleSnoc(h: seq<Event>, e: Event, p: Pair, x: Deadline)
    requires NeverStale(h, p, x) && !Stale(Run(h, x), e, p)
    ensures NeverStale(h + [e], p, x)
  {
    hide Run, Stale;
    var g := h + [e];
    forall k | 0 <= k < |g| ensures !Stale(Run(g[..k], x), g[k], p) {
      assert g[..k] == h[..k];
      assert k == |h| ==> h[..k] == h;
    }
  }

  /** A stale completion removes a subscription that still stands. */
  lemma StaleLosesSubscription(h: seq<Event>, e: Event, p: Pair, x: Deadline)
    requires Tracks(h, p, x) && Inv(Run(h, x)) && Enabled(Run(h, x), e) && Stale(Run(h, x), e, p)
    ensures p !in Run(h + [e], x).hops && Stands(h + [e], p, x)
  {
    RunSnoc(h, e, x);
    var i :| StandsSince(h, p, i, x);
    StandsStep(h, e, p, i, x);
    assert StandsSince(h + [e], p, i, x);
  }

  /** Such a history exists: renewed after its timer fired, a subscription is lost at once. */
  lemma StaleExample(p: Pair)
    ensures var h := [Add(p), Advance(5), Fire(0), Add(p), Handle(0)];
            Legal(h, At(5)) && p !in Run(h, At(5)).hops && Stands(h, p, At(5))
  {
    hide Run;
    var x, w, v := At(5), Wait(p, At(5)), Wait(p, At(10));
    var h0: seq<Event> := [];
    var h4: seq<Event> := [Add(p), Advance(5), Fire(0), Add(p)];
    var h := h4 + [Handle(0)];
    assert h == [Add(p), Advance(5), Fire(0), Add(p), Handle(0)];
    RunNothing(x);
    assert h[..0] == h0 && h[..1] == h0 + [Add(p)] && h[..2] == h[..1] + [Advance(5)];
    assert h[..3] == h[..2] + [Fire(0)] && h[..4] == h[..3] + [Add(p)] == h4 && h[..5] == h4 + [Handle(0)] == h;
    RunTo(h0, Add(p), x, State(map[p := 0], [w], {0}, {}, 0));
    RunTo(h[..1], Advance(5), x, State(map[p := 0], [w], {0}, {}, 5));
    RunTo(h[..2], Fire(0), x, State(map[p := 0], [w], {}, {0}, 5));
    RunTo(h[..3], Add(p), x, State(map[p := 1], [w, v], {1}, {0}, 5));
    RunTo(h4, Handle(0), x, State(map[], [w, v], {}, {}, 5));
    assert StandsSince(h, p, 3, x);
  }

  lemma RunTo(h: seq<Event>, e: Event, x: Deadline, s: State)
    requires Step(Run(h, x), e, x) == s
    ensures Run(h + [e], x) == s
  {
    RunSnoc(h, e, x);
  }

  lemma RunNothing(x: Deadline)
    ensures Run([], x) == INITIAL
  {
  }

  // ---- Deadlines

  /** The wait `t` was started by the add at `i`, with the deadline that add's time gives. */
  ghost predicate StartsWait(h: seq<Event>, i: nat, t: TimerId, x: Deadline) {
    && i < |h| && t < |Run(h, x).waits| && TimerOf(h, i, x) == t
    && h[i] == Add(Run(h, x).waits[t].pair)
    && Run(h, x).waits[t].deadline == Due(Run(h[..i], x).now, x)
  }

  /** Waits are only added, by `Add`. */
  lemma StepOnWaits(s: State, e: Event, x: Deadline)
    ensures Step(s, e, x).waits == s.waits + if e.Add? then [Wait(e.pair, Due(s.now, x))] else []
  {
  }

  lemma {:induction false} WaitWasStarted(h: seq<Event>, t: TimerId, x: Deadline) returns (i: nat)
    requires t < |Run(h, x).waits|
    ensures StartsWait(h, i, t, x)
  {
    hide Run, Step;
    RunNothing(x);
    var n := |h| - 1;
    var g := h[..n];
    assert h == g + [h[n]];
    RunSnoc(g, h[n], x);
    StepOnWaits(Run(g, x), h[n], x);
    if t < |Run(g, x).waits| {
      i := WaitWasStarted(g, t, x);
      assert g[..i] == h[..i];
    } else {
      i := n;
    }
  }

  /**
   * No subscription is ended by its own timer early: when a timer's completion runs, the add that
   * started it lies at least the expiry time back. A renewal therefore starts a whole new period.
   */
  lemma {:induction false} NeverExpiresEarly(h: seq<Event>, k: nat, x: Deadline) returns (i: nat)
    requires Legal(h, x) && k < |h| && h[k].Handle?
    ensures x.At? && i < k && h[i].Add? && TimerOf(h, i, x) == h[k].timer
    ensures Run(h[..i], x).now + x.t <= Run(h[..k], x).now
  {
    var g, t := h[..k], h[k].timer;
    LegalPrefix(h, k, x);
    RunsKeepInv(g, x);
    LegalAt(h, k, x);
    hide Run, Legal;
    i := WaitWasStarted(g, t, x);
    assert g[..i] == h[..i];
  }

  /** Once every due timer was handled, each subscription present was added less than the expiry time ago. */
  lemma NothingOverdue(h: seq<Event>, p: Pair, x: Deadline) returns (i: nat)
    requires Legal(h, x) && p in Run(h, x).hops
    requires Run(h, x).fired == {} && forall t :: t in Run(h, x).armed ==> !Enabled(Run(h, x), Fire(t))
    ensures i < |h| && h[i] == Add(p) && TimerOf(h, i, x) == Run(h, x).hops[p]
    ensures x.At? ==> Run(h, x).now < Run(h[..i], x).now + x.t
  {
    RunsKeepInv(h, x);
    hide Run, Legal;
    i := WaitWasStarted(h, Run(h, x).hops[p], x);
  }
}

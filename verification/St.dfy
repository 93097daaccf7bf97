/** The subscription table: a list of entries whose next hops each hold an expiry timer. */
module St {
  import opened Descriptors
  import opened Matcher
  import opened HopTable
  import opened StRuns

  /** Matching `cd` ends for every subscription. `Matcher.Safe` entries are those for which it always does. */
  ghost predicate AllHalt(subs: set<Pair>, cd: Cd) { forall p :: p in subs ==> Halts(p.0, cd) }

  /** The faces with a subscription that matches `cd`. */
  ghost function Subscribers(subs: set<Pair>, cd: Cd): set<FaceId> {
    set p | p in subs && Matches(p.0, cd) :: p.1
  }

  class St {
    const expireTime: Deadline
    var entries: seq<Entry<TimerId>>

    // the deadline timers, as the event loop holds them
    var waits: seq<Wait>       // every wait ever started
    var armed: set<TimerId>    // timers still pending
    var fired: set<TimerId>    // timers whose completion is queued
    var now: nat

    /** The table as a relation, together with its timers. */
    ghost function State(): State
      reads this
      requires TableValid(entries)
    {
      StRuns.State(Rel(entries), waits, armed, fired, now)
    }

    ghost predicate Valid()
      reads this
    {
      TableValid(entries) && Inv(State())
    }

    ghost function Subs(): set<Pair>
      reads this
      requires Valid()
    {
      State().hops.Keys
    }

    constructor (expireTime: Deadline)
      ensures Valid() && State() == INITIAL && this.expireTime == expireTime
    {
      this.expireTime := expireTime;
      entries, waits, armed, fired, now := [], [], {}, {}, 0;
    }

    /** Insert the pair with a new timer; a timer it had before is destroyed. */
    method Add(cd: Cd, face: FaceId) returns (doForward: bool, out: Cd)
      requires Valid()
      modifies this
      ensures Valid() && State() == Step(old(State()), Event.Add((cd, face)), expireTime)
      ensures doForward && out == cd
    {
      hide TableValid, Rel, Inv, Step, Inserted, TimerAt;
      ghost var after := Step(State(), Event.Add((cd, face)), expireTime);
      AddAbstracts(entries, cd, face, State(), expireTime);
      var t := |waits|;
      waits, armed := waits + [Wait((cd, face), Due(now, expireTime))], armed + {t};
      InsertHop(cd, face, t);
      assert State() == after;
      return true, cd;
    }

    /** Put the hop in the entry of its descriptor, in place of an older one, or in a new entry. */
    method InsertHop(cd: Cd, face: FaceId, t: TimerId)
      modifies this`entries, this`armed
      ensures entries == Inserted(old(entries), cd, face, t)
      ensures armed == old(armed) - TimerAt(old(entries), cd, face)
    {
      hide IndexOf;
      var i := FindEntry(entries, cd);
      if i < |entries| {
        if face in entries[i].hops {
          armed := armed - {entries[i].hops[face]};
        }
        var hops := (entries[i].hops - {face})[face := t];
        entries := entries[i := Entry(entries[i].cd, hops)];
      } else {
        entries := entries + [Entry(cd, map[face := t])];
      }
    }

    /** Erase one next hop, and its entry when it was the last one. */
    method RemovePair(cd: Cd, face: FaceId)
      requires Valid()
      modifies this`entries, this`armed
      ensures Valid() && State() == Step(old(State()), Remove((cd, face)), expireTime)
    {
      DropKeepsInv(State(), {(cd, face)});
      hide Inv, TableValid, Rel, Drop;
      ErasePair(cd, face);
    }

    method ErasePair(cd: Cd, face: FaceId)
      requires TableValid(entries)
      modifies this`entries, this`armed
      ensures TableValid(entries) && State() == Drop(old(State()), {(cd, face)})
    {
      ghost var after := Drop(State(), {(cd, face)});
      EraseAbstracts(entries, cd, face, State());
      hide TableValid, IndexOf, Rel, Drop;
      var i := FindEntry(entries, cd);
      if i < |entries| {
        if face in entries[i].hops {
          armed := armed - {entries[i].hops[face]};
        }
        var hops := entries[i].hops - {face};
        if hops == map[] {
          entries := entries[..i] + entries[i + 1..];
        } else {
          entries := entries[i := Entry(entries[i].cd, hops)];
        }
      }
      assert State() == after;
    }

    method RemoveCd(cd: Cd)
      requires Valid()
      modifies this`entries, this`armed
      ensures Valid() && State() == Step(old(State()), Event.RemoveCd(cd), expireTime)
    {
      ghost var after := Step(State(), Event.RemoveCd(cd), expireTime);
      DeleteAbstracts(entries, cd, State(), expireTime);
      hide TableValid, IndexOf, Rel, Inv, Step;
      var i := FindEntry(entries, cd);
      if i < |entries| {
        armed := armed - entries[i].hops.Values;
        entries := entries[..i] + entries[i + 1..];
      }
      assert State() == after;
    }

    /** Erase a face from every entry, erasing entries while walking the list. */
    method RemoveFace(face: FaceId)
      requires Valid()
      modifies this`entries, this`armed
      ensures Valid() && State() == Step(old(State()), Event.RemoveFace(face), expireTime)
    {
      ghost var after := Step(State(), Event.RemoveFace(face), expireTime);
      SweepAbstracts(entries, face, State(), expireTime);
      hide TableValid, Inv, Rel, Step;
      Sweep(face);
      assert State() == after;
    }

    method Sweep(face: FaceId)
      modifies this`entries, this`armed
      ensures entries == WithoutFace(old(entries), face)
      ensures armed == old(armed) - FaceTimers(old(entries), face)
    {
      ghost var was := entries;
      ghost var k := 0;
      var i := 0;
      SweepStart(entries, face);
      FaceTimersNone(face);
      hide WithoutFace, Swept, FaceTimers;
      assert was[..0] == [];
      while i < |entries|
        invariant i <= |entries| && k <= |was| && Swept(was, k, face, entries, i)
        invariant armed == old(armed) - FaceTimers(was[..k], face)
        modifies this`entries, this`armed
        decreases |was| - k
      {
        SweepStep(was, k, face, entries, i);
        FaceTimersSnoc(was, k, face);
        if face in entries[i].hops {
          armed := armed - {entries[i].hops[face]};
        }
        var hops := entries[i].hops - {face};
        if hops == map[] {
          entries := entries[..i] + entries[i + 1..];
        } else {
          entries := entries[i := Entry(entries[i].cd, hops)];
          i := i + 1;
        }
        k := k + 1;
      }
      SweepEnd(was, k, face, entries, i);
      assert was[..k] == was;
    }

    method Clear()
      requires Valid()
      modifies this`entries, this`armed
      ensures Valid() && State() == Step(old(State()), Event.Clear, expireTime)
    {
      ghost var before := State();
      DropKeepsInv(before, before.hops.Keys);
      entries, armed := [], {};
      RelIs(entries, map[]);
      forall t | t in before.armed ensures t in TimersOf(before.hops, before.hops.Keys) {
        assert before.waits[t].pair in before.hops;
      }
    }

    /** The faces of every entry that matches. */
    method Match(cd: Cd) returns (faceIds: set<FaceId>)
      requires Valid() && AllHalt(Subs(), cd)
      ensures faceIds == Subscribers(Subs(), cd)
    {
      hide Halts, Matches;
      forall i | 0 <= i < |entries| ensures Halts(entries[i].cd, cd) { EntryHasPair(entries, i); }
      ReachedAreSubscribers(entries, cd);
      hide TableValid, Inv, Rel, Reached;
      ReachedNone(entries, cd);
      faceIds := {};
      for i := 0 to |entries|
        invariant faceIds == Reached(entries, i, cd)
      {
        ReachedStep(entries, i, cd);
        var matches := MatchRegex(entries[i].cd, cd);
        if matches {
          faceIds := faceIds + entries[i].hops.Keys;
        }
      }
    }

    /** Time passes. */
    method Advance(seconds: nat)
      requires Valid()
      modifies this`now
      ensures Valid() && State() == Step(old(State()), Event.Advance(seconds), expireTime)
    {
      now := now + seconds;
    }

    /** A timer's deadline has passed: its completion is queued. */
    method Fire(t: TimerId)
      requires Valid() && Enabled(State(), Event.Fire(t))
      modifies this`armed, this`fired
      ensures Valid() && State() == Step(old(State()), Event.Fire(t), expireTime)
    {
      armed, fired := armed - {t}, fired + {t};
    }

    /** The completion of a wait runs: unless it was aborted, the pair bound into it is removed. */
    method OnExpired(t: TimerId, aborted: bool)
      requires Valid()
      requires !aborted ==> Enabled(State(), Handle(t))
      modifies this`entries, this`armed, this`fired
      ensures Valid()
      ensures State() == if aborted then old(State()) else Step(old(State()), Handle(t), expireTime)
    {
      if !aborted {
        ghost var before := State();
        StepKeepsInv(before, Handle(t), expireTime);
        var (cd, id) := waits[t].pair;
        fired := fired - {t};
        hide Inv;
        ErasePair(cd, id);
      }
    }
  }

  // ---- Matching the list is taking the image of the relation

  /** The faces of the matching entries among the first `n`. */
  ghost function Reached<V>(es: seq<Entry<V>>, n: nat, cd: Cd): set<FaceId>
    requires n <= |es|
  {
    set i, f | 0 <= i < n && Matches(es[i].cd, cd) && f in es[i].hops :: f
  }

  lemma ReachedNone<V>(es: seq<Entry<V>>, cd: Cd)
    ensures Reached(es, 0, cd) == {}
  {
  }

  lemma ReachedStep<V>(es: seq<Entry<V>>, n: nat, cd: Cd)
    requires n < |es|
    ensures Reached(es, n + 1, cd) == Reached(es, n, cd) + if Matches(es[n].cd, cd) then es[n].hops.Keys else {}
  {
    hide Matches;
    forall f
      ensures f in Reached(es, n + 1, cd) <==> f in Reached(es, n, cd) || (Matches(es[n].cd, cd) && f in es[n].hops)
    {
      if f in Reached(es, n + 1, cd) {
        var i :| 0 <= i < n + 1 && Matches(es[i].cd, cd) && f in es[i].hops;
        assert i < n ==> f in Reached(es, n, cd);
      }
    }
  }

  lemma ReachedAreSubscribers<V>(es: seq<Entry<V>>, cd: Cd)
    requires TableValid(es)
    ensures Reached(es, |es|, cd) == Subscribers(Rel(es).Keys, cd)
  {
    hide TableValid, Matches, Rel;
    forall f ensures f in Reached(es, |es|, cd) <==> f in Subscribers(Rel(es).Keys, cd) {
      if f in Reached(es, |es|, cd) {
        var i :| 0 <= i < |es| && Matches(es[i].cd, cd) && f in es[i].hops;
        RelAt(es, i);
        assert (es[i].cd, f) in Rel(es).Keys;
      }
      if f in Subscribers(Rel(es).Keys, cd) {
        var p :| p in Rel(es).Keys && Matches(p.0, cd) && p.1 == f;
        var i := EntryOf(es, p);
      }
    }
  }

  // ---- What the list operations do to the relation and its timers

  /** The timer set holding the face's timer, if the entry has one. */
  function TimerAt(es: seq<Entry<TimerId>>, cd: Cd, f: FaceId): set<TimerId> {
    var i := IndexOf(es, cd);
    if i < |es| && f in es[i].hops then {es[i].hops[f]} else {}
  }

  lemma TimerAtIs(es: seq<Entry<TimerId>>, cd: Cd, f: FaceId)
    requires TableValid(es)
    ensures TimerAt(es, cd, f) == TimersOf(Rel(es), {(cd, f)})
  {
    var i := IndexOf(es, cd);
    if i < |es| { RelAt(es, i); } else { RelAbsent(es, cd); }
  }

  lemma AddAbstracts(es: seq<Entry<TimerId>>, cd: Cd, f: FaceId, s: State, x: Deadline)
    requires TableValid(es) && Inv(s) && s.hops == Rel(es)
    ensures var t := |s.waits|;
            var es' := Inserted(es, cd, f, t);
            && TableValid(es') && Inv(Step(s, Add((cd, f)), x))
            && StRuns.State(Rel(es'), s.waits + [Wait((cd, f), Due(s.now, x))], s.armed + {t} - TimerAt(es, cd, f),
                            s.fired, s.now)
               == Step(s, Add((cd, f)), x)
  {
    InsertedRel(es, cd, f, |s.waits|);
    AddKeepsInv(s, (cd, f), x);
    TimersAreOld(s);
    TimerAtIs(es, cd, f);
    hide TableValid, IndexOf, Rel, Inv, TimerAt;
  }

  lemma EraseAbstracts(es: seq<Entry<TimerId>>, cd: Cd, f: FaceId, s: State)
    requires TableValid(es) && s.hops == Rel(es)
    ensures var es' := Erased(es, cd, f);
            && TableValid(es')
            && s.(hops := Rel(es'), armed := s.armed - TimerAt(es, cd, f)) == Drop(s, {(cd, f)})
  {
    ErasedRel(es, cd, f);
    TimerAtIs(es, cd, f);
  }

  lemma DeleteAbstracts(es: seq<Entry<TimerId>>, cd: Cd, s: State, x: Deadline)
    requires TableValid(es) && Inv(s) && s.hops == Rel(es)
    ensures var es' := Deleted(es, cd);
            var timers := if IndexOf(es, cd) < |es| then es[IndexOf(es, cd)].hops.Values else {};
            && TableValid(es') && Inv(Step(s, RemoveCd(cd), x))
            && s.(hops := Rel(es'), armed := s.armed - timers) == Step(s, RemoveCd(cd), x)
  {
    StepKeepsInv(s, RemoveCd(cd), x);
    DeletedRel(es, cd);
    DescriptorTimersAre(es, cd);
    hide TableValid, IndexOf, Rel, Inv, TimersOf, Deleted;
  }

  lemma SweepAbstracts(es: seq<Entry<TimerId>>, f: FaceId, s: State, x: Deadline)
    requires TableValid(es) && Inv(s) && s.hops == Rel(es)
    ensures var es' := WithoutFace(es, f);
            && TableValid(es') && Inv(Step(s, RemoveFace(f), x))
            && s.(hops := Rel(es'), armed := s.armed - FaceTimers(es, f)) == Step(s, RemoveFace(f), x)
  {
    StepKeepsInv(s, RemoveFace(f), x);
    WithoutFaceRel(es, f);
    FaceTimersAre(es, f);
    hide TableValid, Rel, Inv, FaceTimers, TimersOf, WithoutFace;
  }

  lemma TimersAreOld(s: State)
    requires Inv(s)
    ensures forall p :: p in s.hops ==> s.hops[p] < |s.waits|
    ensures |s.waits| !in s.armed
  {
  }

  /** The timers that the face's next hops hold. */
  ghost function FaceTimers(es: seq<Entry<TimerId>>, f: FaceId): set<TimerId> {
    set i | 0 <= i < |es| && f in es[i].hops :: es[i].hops[f]
  }

  lemma FaceTimersSnoc(es: seq<Entry<TimerId>>, k: nat, f: FaceId)
    requires k < |es|
    ensures FaceTimers(es[..k + 1], f) == FaceTimers(es[..k], f) + if f in es[k].hops then {es[k].hops[f]} else {}
  {
    var a, b := es[..k], es[..k + 1];
    assert b == a + [es[k]];
    forall t ensures t in FaceTimers(b, f) <==> t in FaceTimers(a, f) || (f in es[k].hops && t == es[k].hops[f]) {
      if t in FaceTimers(a, f) {
        var i :| 0 <= i < |a| && f in a[i].hops && a[i].hops[f] == t;
        assert b[i] == a[i];
      }
      if f in es[k].hops { assert b[k] == es[k]; }
    }
  }

  lemma FaceTimersNone(f: FaceId)
    ensures FaceTimers([], f) == {}
  {
  }

  lemma FaceTimersAre(es: seq<Entry<TimerId>>, f: FaceId)
    requires TableValid(es)
    ensures FaceTimers(es, f) == TimersOf(Rel(es), OfFace(Rel(es).Keys, f))
  {
    hide TableValid, Rel;
    forall t ensures t in FaceTimers(es, f) <==> exists p :: p in Rel(es) && p.1 == f && Rel(es)[p] == t {
      if t in FaceTimers(es, f) {
        var i :| 0 <= i < |es| && f in es[i].hops && es[i].hops[f] == t;
        RelAt(es, i);
        assert (es[i].cd, f) in Rel(es);
      }
      if p :| p in Rel(es) && p.1 == f && Rel(es)[p] == t {
        var i := EntryOf(es, p);
      }
    }
  }

  /** The timers that the descriptor's next hops hold. */
  lemma DescriptorTimersAre(es: seq<Entry<TimerId>>, cd: Cd)
    requires TableValid(es)
    ensures TimersOf(Rel(es), OfCd(Rel(es), cd))
            == if IndexOf(es, cd) < |es| then es[IndexOf(es, cd)].hops.Values else {}
  {
    var i := IndexOf(es, cd);
    var pairs := OfCd(Rel(es), cd);
    if i < |es| {
      RelAt(es, i);
      forall t ensures t in TimersOf(Rel(es), pairs) <==> t in es[i].hops.Values {
        if t in es[i].hops.Values {
          var f :| f in es[i].hops && es[i].hops[f] == t;
          assert (cd, f) in pairs;
        }
      }
    } else {
      RelAbsent(es, cd);
    }
  }

  /** An entry's descriptor occurs in some pair. */
  lemma EntryHasPair<V>(es: seq<Entry<V>>, i: nat)
    requires TableValid(es) && i < |es|
    ensures exists p :: p in Rel(es) && p.0 == es[i].cd
  {
    HopsAt(es, i);
    var f :| f in es[i].hops;
    assert (es[i].cd, f) in Rel(es);
  }
}

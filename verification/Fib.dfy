/** The forwarding table: longest prefix, then least cost, then smallest face id. */
module Fib {
  import opened Bytes
  import opened Descriptors
  import opened HopTable
  import opened CdUri

  type Cost = nat

  // ---- What a lookup means

  /** The pair whose descriptor is the longest prefix of `cd`, and whose face is the cheapest there. */
  ghost predicate IsBest(r: map<Pair, Cost>, cd: Cd, p: Pair) {
    && p in r && p.0 <= cd
    && (forall q :: q in r && q.0 <= cd ==> |q.0| <= |p.0|)
    && (forall q :: q in r && q.0 == p.0 ==> r[p] < r[q] || (r[p] == r[q] && p.1 <= q.1))
  }

  /** The answer, as a function of the abstract map alone. */
  ghost function Answer(r: map<Pair, Cost>, cd: Cd): set<FaceId> {
    set p | p in r && IsBest(r, cd, p) :: p.1
  }

  lemma BestIsUnique(r: map<Pair, Cost>, cd: Cd, p: Pair, q: Pair)
    requires IsBest(r, cd, p) && IsBest(r, cd, q)
    ensures p == q
  {
    assert p.0 == cd[..|p.0|] && q.0 == cd[..|q.0|];
  }

  ghost predicate Covers(r: map<Pair, Cost>, cd: Cd) { exists p :: p in r && p.0 <= cd }

  /** A lookup gives one face when some entry is a prefix, and none otherwise. */
  lemma AnswerIsOneFace(r: map<Pair, Cost>, cd: Cd)
    ensures Covers(r, cd) ==> exists p :: IsBest(r, cd, p) && Answer(r, cd) == {p.1}
    ensures !Covers(r, cd) ==> Answer(r, cd) == {}
  {
    if Covers(r, cd) {
      var candidates := set p | p in r && p.0 <= cd;
      var w :| w in r && w.0 <= cd;
      assert w in candidates;
      var p := BestOf(r, cd, candidates);
      BestCandidate(r, cd, p);
      forall q | q in r && IsBest(r, cd, q) ensures q == p { BestIsUnique(r, cd, p, q); }
      assert Answer(r, cd) == {p.1};
    }
  }

  lemma BestCandidate(r: map<Pair, Cost>, cd: Cd, p: Pair)
    requires p in r && p.0 <= cd
    requires forall q :: q in r && q.0 <= cd ==> Beats(r, p, q)
    ensures IsBest(r, cd, p)
  {
    forall q | q in r && q.0 <= cd ensures |q.0| <= |p.0| { assert Beats(r, p, q); }
    forall q | q in r && q.0 == p.0 ensures r[p] < r[q] || (r[p] == r[q] && p.1 <= q.1) { assert Beats(r, p, q); }
  }

  ghost predicate Beats(r: map<Pair, Cost>, p: Pair, q: Pair)
    requires p in r && q in r
  {
    |q.0| < |p.0| || (|q.0| == |p.0| && (r[p] < r[q] || (r[p] == r[q] && p.1 <= q.1)))
  }

  lemma {:induction false} BestOf(r: map<Pair, Cost>, cd: Cd, s: set<Pair>) returns (p: Pair)
    requires s != {} && forall q :: q in s ==> q in r && q.0 <= cd
    ensures p in s && forall q :: q in s ==> Beats(r, p, q)
    decreases |s|
  {
    var first :| first in s;
    var rest := s - {first};
    p := first;
    if rest != {} {
      var best := BestOf(r, cd, rest);
      if !Beats(r, first, best) { p := best; }
    }
    assert forall q :: q in s ==> q == first || q in rest;
  }

  // ---- Least elements of sets, as ordered containers visit them

  lemma {:induction false} LeastExists(s: set<nat>) returns (m: nat)
    requires s != {}
    ensures m in s && forall x :: x in s ==> m <= x
    decreases |s|
  {
    var first :| first in s;
    var rest := s - {first};
    m := first;
    if rest != {} {
      var n := LeastExists(rest);
      if n < first { m := n; }
    }
    assert forall x :: x in s ==> x == first || x in rest;
  }

  function Least(s: set<nat>): (m: nat)
    requires s != {}
    ensures m in s && forall x :: x in s ==> m <= x
  {
    LeastExistsAtAll(s);
    var m :| m in s && forall x :: x in s ==> m <= x;
    m
  }

  lemma LeastExistsAtAll(s: set<nat>)
    requires s != {}
    ensures exists m :: m in s && forall x :: x in s ==> m <= x
  {
    var m := LeastExists(s);
  }

  /** `std::min_element` by cost over hops visited by ascending face id: the first cheapest one. */
  method CheapestHop(hops: map<FaceId, Cost>) returns (best: FaceId)
    requires hops != map[]
    ensures best in hops
    ensures forall f :: f in hops ==> hops[best] < hops[f] || (hops[best] == hops[f] && best <= f)
  {
    var rest := hops.Keys;
    assert rest != {} by { var f :| f in hops; assert f in rest; }
    best := Least(rest);
    rest := rest - {best};
    while rest != {}
      invariant rest <= hops.Keys && best in hops && best !in rest
      invariant forall f, g :: f in hops && f !in rest && g in rest ==> f < g
      invariant forall f :: f in hops && f !in rest ==> hops[best] < hops[f] || (hops[best] == hops[f] && best <= f)
      decreases |rest|
    {
      var id := Least(rest);
      rest := rest - {id};
      if hops[id] < hops[best] {
        best := id;
      }
    }
  }

  class Fib {
    var entries: seq<Entry<Cost>>

    ghost predicate Valid()
      reads this
    {
      TableValid(entries)
    }

    /** The table as a map from (descriptor, face) to cost. */
    ghost function Costs(): map<Pair, Cost>
      reads this
      requires Valid()
    {
      Rel(entries)
    }

    constructor ()
      ensures Valid() && Costs() == map[]
    {
      entries := [];
    }

    /** Add or replace a hop. A name that is no descriptor throws before the table is touched. */
    method Add(name: seq<Byte>, face: FaceId, cost: Cost) returns (ok: bool)
      requires Valid()
      modifies this
      ensures Valid() && ok == UriMeaning(name).Some?
      ensures Costs() == if ok then old(Costs())[(UriMeaning(name).value, face) := cost] else old(Costs())
    {
      hide UriMeaning, TableValid, IndexOf, Rel;
      var parsed := ParseUri(name);
      if parsed.None? {
        return false;
      }
      var cd := parsed.value;
      InsertedRel(entries, cd, face, cost);
      var i := FindEntry(entries, cd);
      if i < |entries| {
        var hops := entries[i].hops - {face};
        hops := hops[face := cost];
        entries := entries[i := Entry(entries[i].cd, hops)];
      } else {
        entries := entries + [Entry(cd, map[face := cost])];
      }
      return true;
    }

    method RemovePair(name: seq<Byte>, face: FaceId) returns (ok: bool)
      requires Valid()
      modifies this
      ensures Valid() && ok == UriMeaning(name).Some?
      ensures Costs() == if ok then old(Costs()) - {(UriMeaning(name).value, face)} else old(Costs())
    {
      hide UriMeaning, TableValid, IndexOf, Rel;
      var parsed := ParseUri(name);
      if parsed.None? {
        return false;
      }
      var cd := parsed.value;
      ErasedRel(entries, cd, face);
      var i := FindEntry(entries, cd);
      if i < |entries| {
        var hops := entries[i].hops - {face};
        if hops == map[] {
          entries := entries[..i] + entries[i + 1..];
        } else {
          entries := entries[i := Entry(entries[i].cd, hops)];
        }
      }
      return true;
    }

    method RemoveName(name: seq<Byte>) returns (ok: bool)
      requires Valid()
      modifies this
      ensures Valid() && ok == UriMeaning(name).Some?
      ensures Costs() == if ok then old(Costs()) - OfCd(old(Costs()), UriMeaning(name).value) else old(Costs())
    {
      hide UriMeaning, TableValid, IndexOf, Rel;
      var parsed := ParseUri(name);
      if parsed.None? {
        return false;
      }
      var cd := parsed.value;
      DeletedRel(entries, cd);
      var i := FindEntry(entries, cd);
      if i < |entries| {
        entries := entries[..i] + entries[i + 1..];
      }
      return true;
    }

    /** Remove a face from every entry, erasing entries while walking the list. */
    method RemoveFace(face: FaceId)
      requires Valid()
      modifies this
      ensures Valid()
      ensures Costs() == old(Costs()) - OfFace(old(Costs()).Keys, face)
    {
      ghost var before := entries;
      ghost var k := 0;
      var i := 0;
      hide TableValid, WithoutFace, Swept, Rel;
      WithoutFaceRel(entries, face);
      SweepStart(entries, face);
      while i < |entries|
        invariant i <= |entries| && Swept(before, k, face, entries, i)
        decreases |before| - k
      {
        SweepStep(before, k, face, entries, i);
        var hops := entries[i].hops - {face};
        if hops == map[] {
          entries := entries[..i] + entries[i + 1..];
        } else {
          entries := entries[i := Entry(entries[i].cd, hops)];
          i := i + 1;
        }
        k := k + 1;
      }
      SweepEnd(before, k, face, entries, i);
    }

    method Clear()
      modifies this
      ensures Valid() && Costs() == map[]
    {
      entries := [];
    }

    /** Scan the list for the longest prefix, then its hops for the least cost. */
    method Match(cd: Cd) returns (faceIds: set<FaceId>)
      requires Valid()
      ensures faceIds == Answer(Costs(), cd)
    {
      hide HopsOf, TableValid, Rel;
      faceIds := {};
      var size := -1;
      var longest: nat := |entries|;
      for i := 0 to |entries|
        invariant size == -1 <==> longest == |entries|
        invariant longest <= |entries|
        invariant longest < |entries| ==> entries[longest].cd <= cd && size == |entries[longest].cd|
        invariant forall j :: 0 <= j < i && entries[j].cd <= cd ==> |entries[j].cd| <= size
      {
        var isPrefix := IsPrefixOf(entries[i].cd, cd);
        if isPrefix {
          if size < |entries[i].cd| {
            size, longest := |entries[i].cd|, i;
          }
        }
      }
      if longest < |entries| {
        HopsAt(entries, longest);
        assert entries[longest].hops != map[] by { HopsNotEmpty(entries, longest); }
        var best := CheapestHop(entries[longest].hops);
        faceIds := {best};
        LookupIs(entries, cd, longest, best);
      } else {
        NoPrefix(entries, cd);
      }
    }
  }

  lemma LookupIs(es: seq<Entry<Cost>>, cd: Cd, longest: nat, best: FaceId)
    requires TableValid(es) && longest < |es| && es[longest].cd <= cd && best in es[longest].hops
    requires forall j :: 0 <= j < |es| && es[j].cd <= cd ==> |es[j].cd| <= |es[longest].cd|
    requires forall f :: f in es[longest].hops ==>
               || es[longest].hops[best] < es[longest].hops[f]
               || (es[longest].hops[best] == es[longest].hops[f] && best <= f)
    ensures Answer(Rel(es), cd) == {best}
  {
    hide TableValid, HopsOf;
    var p := (es[longest].cd, best);
    HopsAt(es, longest);
    forall q | q in Rel(es)
      ensures q.0 <= cd ==> |q.0| <= |p.0|
      ensures q.0 == p.0 ==> q.1 in es[longest].hops && Rel(es)[q] == es[longest].hops[q.1]
    {
      var j := EntryOf(es, q);
      HopsAt(es, j);
    }
    assert IsBest(Rel(es), cd, p);
    forall q | q in Rel(es) && IsBest(Rel(es), cd, q) ensures q == p { BestIsUnique(Rel(es), cd, p, q); }
  }

  lemma NoPrefix(es: seq<Entry<Cost>>, cd: Cd)
    requires TableValid(es) && forall j :: 0 <= j < |es| ==> !(es[j].cd <= cd)
    ensures Answer(Rel(es), cd) == {}
  {
    forall q | q in Rel(es) ensures !(q.0 <= cd) { var j := EntryOf(es, q); }
  }
}

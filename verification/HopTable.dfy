/**
 * What the subscription table and the FIB share: a list of entries, each a descriptor with a set of
 * next hops kept by face id. Such a list stands for a map from (descriptor, face) pairs.
 */
module HopTable {
  import opened Bytes
  import opened Descriptors

  type FaceId = nat
  type Pair = (Cd, FaceId)

  datatype Entry<V> = Entry(cd: Cd, hops: map<FaceId, V>)

  /** No two entries for one descriptor, and none without a next hop. */
  ghost predicate TableValid<V>(es: seq<Entry<V>>) {
    && (forall i, j :: 0 <= i < j < |es| ==> es[i].cd != es[j].cd)
    && (forall i :: 0 <= i < |es| ==> es[i].hops != map[])
  }

  /** Where the entry for `cd` is, or the length of the list. */
  function IndexOf<V>(es: seq<Entry<V>>, cd: Cd): (i: nat)
    ensures i <= |es| && (i < |es| ==> es[i].cd == cd)
  {
    if es == [] || es[0].cd == cd then 0 else 1 + IndexOf(es[1..], cd)
  }

  lemma {:induction false} IndexOfIsFirst<V>(es: seq<Entry<V>>, cd: Cd)
    ensures forall j :: 0 <= j < IndexOf(es, cd) ==> es[j].cd != cd
  {
    if es != [] && es[0].cd != cd { IndexOfIsFirst(es[1..], cd); }
  }

  /** The next hops of `cd`. */
  function HopsOf<V>(es: seq<Entry<V>>, cd: Cd): map<FaceId, V> {
    var i := IndexOf(es, cd);
    if i < |es| then es[i].hops else map[]
  }

  /** `std::find_if` for the entry of a descriptor. */
  method FindEntry<V>(es: seq<Entry<V>>, cd: Cd) returns (i: nat)
    ensures i == IndexOf(es, cd)
  {
    i := 0;
    IndexOfIsFirst(es, cd);
    while i < |es|
      invariant i <= |es| && i <= IndexOf(es, cd)
    {
      var same := Equals(es[i].cd, cd);
      if same {
        return;
      }
      i := i + 1;
    }
  }

  ghost function Pairs<V>(es: seq<Entry<V>>): set<Pair> {
    set i, f | 0 <= i < |es| && f in es[i].hops :: (es[i].cd, f)
  }

  /** The pairs in the table, with what each next hop carries. */
  ghost function Rel<V>(es: seq<Entry<V>>): map<Pair, V>
    requires TableValid(es)
  {
    forall p: Pair ensures p in Pairs(es) <==> p.1 in HopsOf(es, p.0) { PairIn(es, p); }
    map p: Pair | p in Pairs(es) :: HopsOf(es, p.0)[p.1]
  }

  function OfCd<V>(r: map<Pair, V>, cd: Cd): set<Pair> { set p | p in r && p.0 == cd }

  function OfFace(pairs: set<Pair>, f: FaceId): set<Pair> { set p | p in pairs && p.1 == f }

  lemma RelMembers<V>(es: seq<Entry<V>>)
    requires TableValid(es)
    ensures forall p: Pair :: p in Rel(es) <==> p.1 in HopsOf(es, p.0)
    ensures forall p: Pair :: p in Rel(es) ==> Rel(es)[p] == HopsOf(es, p.0)[p.1]
  {
    hide HopsOf, TableValid, Pairs;
    forall p: Pair ensures p in Pairs(es) <==> p.1 in HopsOf(es, p.0) { PairIn(es, p); }
  }

  lemma PairIn<V>(es: seq<Entry<V>>, p: Pair)
    requires TableValid(es)
    ensures p in Pairs(es) <==> p.1 in HopsOf(es, p.0)
  {
    hide TableValid;
    if p in Pairs(es) {
      var i, f :| 0 <= i < |es| && f in es[i].hops && (es[i].cd, f) == p;
      HopsAt(es, i);
    }
  }

  lemma HopsAt<V>(es: seq<Entry<V>>, i: nat)
    requires TableValid(es) && i < |es|
    ensures IndexOf(es, es[i].cd) == i && HopsOf(es, es[i].cd) == es[i].hops
  {
    IndexOfIsFirst(es, es[i].cd);
  }

  /** A list with given hops for every descriptor is one map only. */
  lemma RelIs<V>(es: seq<Entry<V>>, r: map<Pair, V>)
    requires TableValid(es)
    requires forall p: Pair :: p in r <==> p.1 in HopsOf(es, p.0)
    requires forall p: Pair :: p in r ==> r[p] == HopsOf(es, p.0)[p.1]
    ensures Rel(es) == r
  {
    hide HopsOf, TableValid, Rel;
    RelMembers(es);
    assert forall p: Pair :: p in Rel(es) <==> p in r;
  }

  // ---- The three ways the list changes

  lemma SetEntry<V>(es: seq<Entry<V>>, i: nat, hops: map<FaceId, V>)
    requires TableValid(es) && i < |es| && hops != map[]
    ensures TableValid(es[i := Entry(es[i].cd, hops)])
    ensures forall c :: HopsOf(es[i := Entry(es[i].cd, hops)], c) == if c == es[i].cd then hops else HopsOf(es, c)
  {
    var updated := es[i := Entry(es[i].cd, hops)];
    forall c ensures HopsOf(updated, c) == if c == es[i].cd then hops else HopsOf(es, c) {
      SameIndex(es, updated, c);
      if c == es[i].cd { HopsAt(updated, i); }
    }
  }

  lemma {:induction false} SameIndex<V>(a: seq<Entry<V>>, b: seq<Entry<V>>, cd: Cd)
    requires |a| == |b| && forall j :: 0 <= j < |a| ==> a[j].cd == b[j].cd
    ensures IndexOf(a, cd) == IndexOf(b, cd)
  {
    if a != [] { SameIndex(a[1..], b[1..], cd); }
  }

  lemma AppendEntry<V>(es: seq<Entry<V>>, e: Entry<V>)
    requires TableValid(es) && IndexOf(es, e.cd) == |es| && e.hops != map[]
    ensures TableValid(es + [e])
    ensures forall c :: HopsOf(es + [e], c) == if c == e.cd then e.hops else HopsOf(es, c)
  {
    IndexOfIsFirst(es, e.cd);
    forall c ensures HopsOf(es + [e], c) == if c == e.cd then e.hops else HopsOf(es, c) {
      AppendIndex(es, e, c);
    }
  }

  lemma {:induction false} AppendIndex<V>(es: seq<Entry<V>>, e: Entry<V>, c: Cd)
    ensures IndexOf(es + [e], c) == if IndexOf(es, c) < |es| || c == e.cd then IndexOf(es, c) else |es| + 1
  {
    if es != [] {
      AppendIndex(es[1..], e, c);
      assert (es + [e])[1..] == es[1..] + [e];
    }
  }

  lemma DeleteEntry<V>(es: seq<Entry<V>>, i: nat)
    requires TableValid(es) && i < |es|
    ensures TableValid(es[..i] + es[i + 1..])
    ensures forall c :: HopsOf(es[..i] + es[i + 1..], c) == if c == es[i].cd then map[] else HopsOf(es, c)
  {
    DeleteKeepsValid(es, i);
    hide HopsOf, IndexOf, TableValid;
    forall c ensures HopsOf(es[..i] + es[i + 1..], c) == if c == es[i].cd then map[] else HopsOf(es, c) {
      DeleteHops(es, i, c);
    }
  }

  lemma DeleteKeepsValid<V>(es: seq<Entry<V>>, i: nat)
    requires TableValid(es) && i < |es|
    ensures TableValid(es[..i] + es[i + 1..])
  {
    var rest := es[..i] + es[i + 1..];
    assert forall j :: 0 <= j < |rest| ==> rest[j] == es[if j < i then j else j + 1];
  }

  lemma DeleteHops<V>(es: seq<Entry<V>>, i: nat, c: Cd)
    requires TableValid(es) && i < |es| && TableValid(es[..i] + es[i + 1..])
    ensures HopsOf(es[..i] + es[i + 1..], c) == if c == es[i].cd then map[] else HopsOf(es, c)
  {
    var rest := es[..i] + es[i + 1..];
    var k := IndexOf(es, c);
    if k < |es| && k != i {
      HopsAt(rest, if k < i then k else k - 1);
    } else {
      var j := IndexOf(rest, c);
      IndexOfIsFirst(es, c);
      if j < |rest| { HopsAt(es, if j < i then j else j + 1); }
    }
  }

  // ---- The same changes, as changes of the map

  /** The pairs of one entry. */
  lemma RelAt<V>(es: seq<Entry<V>>, i: nat)
    requires TableValid(es) && i < |es|
    ensures forall f :: f in es[i].hops <==> (es[i].cd, f) in Rel(es)
    ensures forall f :: f in es[i].hops ==> Rel(es)[(es[i].cd, f)] == es[i].hops[f]
  {
    HopsAt(es, i);
    RelMembers(es);
    hide HopsOf, TableValid, Rel;
  }

  lemma RelAbsent<V>(es: seq<Entry<V>>, cd: Cd)
    requires TableValid(es) && IndexOf(es, cd) == |es|
    ensures forall f :: (cd, f) !in Rel(es)
  {
    AbsentHops(es, cd);
    RelMembers(es);
    hide HopsOf, TableValid, Rel;
  }

  /** The list after `add`: a hop erased and inserted again, or a new entry at the end. */
  function Inserted<V>(es: seq<Entry<V>>, cd: Cd, f: FaceId, v: V): seq<Entry<V>> {
    var i := IndexOf(es, cd);
    if i < |es| then es[i := Entry(es[i].cd, (es[i].hops - {f})[f := v])] else es + [Entry(cd, map[f := v])]
  }

  lemma InsertedRel<V>(es: seq<Entry<V>>, cd: Cd, f: FaceId, v: V)
    requires TableValid(es)
    ensures TableValid(Inserted(es, cd, f, v)) && Rel(Inserted(es, cd, f, v)) == Rel(es)[(cd, f) := v]
  {
    hide HopsOf, TableValid;
    var i := IndexOf(es, cd);
    if i < |es| {
      var hops := (es[i].hops - {f})[f := v];
      HopsAt(es, i);
      assert f in hops;
      SetEntry(es, i, hops);
    } else {
      assert f in map[f := v];
      AbsentHops(es, cd);
      AppendEntry(es, Entry(cd, map[f := v]));
    }
    RelMembers(es);
    RelIs(Inserted(es, cd, f, v), Rel(es)[(cd, f) := v]);
  }

  /** The list after `remove` of one hop: its entry goes with its last hop. */
  function Erased<V>(es: seq<Entry<V>>, cd: Cd, f: FaceId): seq<Entry<V>> {
    var i := IndexOf(es, cd);
    if i == |es| then es
    else
      var hops := es[i].hops - {f};
      if hops == map[] then es[..i] + es[i + 1..] else es[i := Entry(es[i].cd, hops)]
  }

  lemma ErasedRel<V>(es: seq<Entry<V>>, cd: Cd, f: FaceId)
    requires TableValid(es)
    ensures TableValid(Erased(es, cd, f)) && Rel(Erased(es, cd, f)) == Rel(es) - {(cd, f)}
  {
    hide HopsOf, TableValid;
    var i := IndexOf(es, cd);
    if i < |es| {
      var hops := es[i].hops - {f};
      HopsAt(es, i);
      if hops == map[] { DeleteEntry(es, i); } else { SetEntry(es, i, hops); }
    } else {
      AbsentHops(es, cd);
    }
    RelMembers(es);
    RelIs(Erased(es, cd, f), Rel(es) - {(cd, f)});
  }

  /** The list after `remove` of a descriptor. */
  function Deleted<V>(es: seq<Entry<V>>, cd: Cd): seq<Entry<V>> {
    var i := IndexOf(es, cd);
    if i == |es| then es else es[..i] + es[i + 1..]
  }

  lemma DeletedRel<V>(es: seq<Entry<V>>, cd: Cd)
    requires TableValid(es)
    ensures TableValid(Deleted(es, cd))
    ensures Rel(Deleted(es, cd)) == Rel(es) - OfCd(Rel(es), cd)
    ensures forall p :: p in Rel(Deleted(es, cd)) <==> p in Rel(es) && p.0 != cd
  {
    hide HopsOf, TableValid;
    var i := IndexOf(es, cd);
    if i < |es| { DeleteEntry(es, i); } else { AbsentHops(es, cd); }
    RelMembers(es);
    RelIs(Deleted(es, cd), Rel(es) - OfCd(Rel(es), cd));
  }

  // ---- Removing a face everywhere

  /** Every entry without the face, and no entry left without a hop. */
  function WithoutFace<V>(es: seq<Entry<V>>, f: FaceId): seq<Entry<V>> {
    if es == [] then []
    else
      var hops := es[0].hops - {f};
      (if hops == map[] then [] else [Entry(es[0].cd, hops)]) + WithoutFace(es[1..], f)
  }

  lemma {:induction false} WithoutFaceConcat<V>(a: seq<Entry<V>>, b: seq<Entry<V>>, f: FaceId)
    ensures WithoutFace(a + b, f) == WithoutFace(a, f) + WithoutFace(b, f)
  {
    if a == [] {
      assert a + b == b;
    } else {
      WithoutFaceConcat(a[1..], b, f);
      assert (a + b)[1..] == a[1..] + b;
      var head := if a[0].hops - {f} == map[] then [] else [Entry(a[0].cd, a[0].hops - {f})];
      ConcatAssociative(head, WithoutFace(a[1..], f), WithoutFace(b, f));
    }
  }

  lemma {:induction false} WithoutFaceHops<V>(es: seq<Entry<V>>, f: FaceId)
    requires TableValid(es)
    ensures TableValid(WithoutFace(es, f))
    ensures forall c :: HopsOf(WithoutFace(es, f), c) == HopsOf(es, c) - {f}
  {
    if es != [] {
      hide HopsOf, IndexOf, TableValid;
      var e, tail := es[0], es[1..];
      HeadAbsent(es);
      WithoutFaceHops(tail, f);
      var rest := WithoutFace(tail, f);
      var hops := e.hops - {f};
      assert HopsOf(rest, e.cd) == map[];
      if hops == map[] {
        assert [] + rest == rest;
      } else {
        PrependEntry(Entry(e.cd, hops), rest);
      }
      assert es == [e] + tail;
      forall c ensures HopsOf(WithoutFace(es, f), c) == HopsOf(es, c) - {f} {
        ConsHops(e, tail, c);
        ConsHops(Entry(e.cd, hops), rest, c);
      }
    }
  }

  lemma HeadAbsent<V>(es: seq<Entry<V>>)
    requires TableValid(es) && es != []
    ensures TableValid(es[1..]) && HopsOf(es[1..], es[0].cd) == map[]
  {
    forall j | 0 <= j < |es[1..]| ensures es[1..][j].cd != es[0].cd {}
  }

  lemma PrependEntry<V>(e: Entry<V>, es: seq<Entry<V>>)
    requires TableValid(es) && HopsOf(es, e.cd) == map[] && e.hops != map[]
    ensures TableValid([e] + es)
  {
    forall j | 0 <= j < |es| ensures es[j].cd != e.cd { HopsAt(es, j); }
  }

  lemma WithoutFaceRel<V>(es: seq<Entry<V>>, f: FaceId)
    requires TableValid(es)
    ensures TableValid(WithoutFace(es, f))
    ensures Rel(WithoutFace(es, f)) == Rel(es) - OfFace(Rel(es).Keys, f)
    ensures forall p :: p in Rel(WithoutFace(es, f)) <==> p in Rel(es) && p.1 != f
  {
    hide HopsOf, TableValid, WithoutFace;
    WithoutFaceHops(es, f);
    RelMembers(es);
    RelIs(WithoutFace(es, f), Rel(es) - OfFace(Rel(es).Keys, f));
  }

  lemma ConsHops<V>(e: Entry<V>, es: seq<Entry<V>>, c: Cd)
    ensures HopsOf([e] + es, c) == if e.cd == c then e.hops else HopsOf(es, c)
  {
    assert ([e] + es)[1..] == es;
  }

  lemma HopsNotEmpty<V>(es: seq<Entry<V>>, i: nat)
    requires TableValid(es) && i < |es|
    ensures es[i].hops != map[]
  {
  }

  lemma AbsentHops<V>(es: seq<Entry<V>>, cd: Cd)
    requires IndexOf(es, cd) == |es|
    ensures HopsOf(es, cd) == map[]
  {
  }

  /** The erase-while-iterating loop has dealt with `k` of the original entries and stands at index `i`. */
  ghost predicate Swept<V>(before: seq<Entry<V>>, k: nat, f: FaceId, es: seq<Entry<V>>, i: nat) {
    k <= |before| && es == WithoutFace(before[..k], f) + before[k..] && i == |WithoutFace(before[..k], f)|
  }

  lemma SweepStart<V>(es: seq<Entry<V>>, f: FaceId)
    ensures Swept(es, 0, f, es, 0)
  {
    assert es[..0] == [] && [] + es[0..] == es;
  }

  lemma SweepStep<V>(before: seq<Entry<V>>, k: nat, f: FaceId, es: seq<Entry<V>>, i: nat)
    requires Swept(before, k, f, es, i) && i < |es|
    ensures k < |before| && es[i] == before[k]
    ensures var hops := es[i].hops - {f};
            if hops == map[] then Swept(before, k + 1, f, es[..i] + es[i + 1..], i)
            else Swept(before, k + 1, f, es[i := Entry(es[i].cd, hops)], i + 1)
  {
    hide WithoutFace;
    var done := WithoutFace(before[..k], f);
    assert before[..k + 1] == before[..k] + [before[k]];
    WithoutFaceConcat(before[..k], [before[k]], f);
    WithoutFaceOne(before[k], f);
    assert es[i + 1..] == before[k + 1..] && es[..i] == done;
  }

  lemma SweepEnd<V>(before: seq<Entry<V>>, k: nat, f: FaceId, es: seq<Entry<V>>, i: nat)
    requires Swept(before, k, f, es, i) && |es| <= i
    ensures es == WithoutFace(before, f) && k == |before|
  {
    hide WithoutFace;
    assert before[..k] == before;
  }

  lemma WithoutFaceOne<V>(e: Entry<V>, f: FaceId)
    ensures WithoutFace([e], f) == if e.hops - {f} == map[] then [] else [Entry(e.cd, e.hops - {f})]
  {
    assert [e][1..] == [];
  }

  /** A pair of the table belongs to some entry of the list. */
  lemma EntryOf<V>(es: seq<Entry<V>>, p: Pair) returns (i: nat)
    requires TableValid(es) && p in Rel(es)
    ensures i < |es| && es[i].cd == p.0 && p.1 in es[i].hops && Rel(es)[p] == es[i].hops[p.1]
  {
    RelMembers(es);
    i := IndexOf(es, p.0);
  }
}

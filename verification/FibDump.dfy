/** The router writes FIB entries and faces as text; the control tool reads face ids back out of it. */
module FibDump {
  import opened Bytes
  import opened Tlv
  import opened Descriptors
  import opened HopTable
  import opened Fib
  import opened Lexical
  import opened CdPrint

  const COMMA: Byte := 0x2C
  const EQUALS: Byte := 0x3D

  // ---- Writing

  function HopString(f: FaceId, c: Cost): seq<Byte> { [OPEN] + Decimal(f) + [COMMA] + Decimal(c) + [CLOSE] }

  /** The hops of a set in the order an ordered set visits them. */
  function HopsString(fs: seq<FaceId>, hops: map<FaceId, Cost>): seq<Byte>
    requires forall f :: f in fs ==> f in hops
  {
    if fs == [] then [] else HopString(fs[0], hops[fs[0]]) + HopsString(fs[1..], hops)
  }

  function Ascending(s: set<nat>): (r: seq<nat>)
    ensures forall x :: x in r <==> x in s
    decreases |s|
  {
    if s == {} then [] else [Least(s)] + Ascending(s - {Least(s)})
  }

  function EntryString(e: Entry<Cost>): seq<Byte> {
    Print(e.cd) + [EQUALS] + HopsString(Ascending(e.hops.Keys), e.hops)
  }

  lemma {:induction false} HopsStringConcat(a: seq<FaceId>, b: seq<FaceId>, hops: map<FaceId, Cost>)
    requires forall f :: f in a + b ==> f in hops
    ensures forall f :: f in a || f in b ==> f in hops
    ensures HopsString(a + b, hops) == HopsString(a, hops) + HopsString(b, hops)
  {
    forall f | f in a || f in b ensures f in hops { assert f in a + b; }
    if a == [] {
      assert a + b == b;
    } else {
      assert (a + b)[1..] == a[1..] + b;
      HopsStringConcat(a[1..], b, hops);
      ConcatAssociative(HopString(a[0], hops[a[0]]), HopsString(a[1..], hops), HopsString(b, hops));
    }
  }

  lemma HopsStringNone(hops: map<FaceId, Cost>)
    ensures HopsString([], hops) == []
  {
  }

  lemma HopsStringOne(f: FaceId, hops: map<FaceId, Cost>)
    requires f in hops
    ensures HopsString([f], hops) == HopString(f, hops[f])
  {
    assert [f][1..] == [];
  }

  /** Writing the least of the hops that are left. */
  lemma WriteStep(done: seq<FaceId>, rest: set<FaceId>, hops: map<FaceId, Cost>)
    requires rest != {} && rest <= hops.Keys && forall f :: f in done ==> f in hops
    ensures forall f :: f in done + [Least(rest)] ==> f in hops
    ensures done + Ascending(rest) == (done + [Least(rest)]) + Ascending(rest - {Least(rest)})
    ensures HopsString(done + [Least(rest)], hops) == HopsString(done, hops) + HopString(Least(rest), hops[Least(rest)])
  {
    hide HopsString, HopString, Ascending;
    AscendingStep(rest);
    ConcatAssociative(done, [Least(rest)], Ascending(rest - {Least(rest)}));
    HopsStringConcat(done, [Least(rest)], hops);
    HopsStringOne(Least(rest), hops);
  }

  lemma AscendingStep(s: set<nat>)
    requires s != {}
    ensures Ascending(s) == [Least(s)] + Ascending(s - {Least(s)})
  {
  }

  /** `FibEntry::toString`: the descriptor, then the hops by ascending face id. */
  method ToString(e: Entry<Cost>) returns (s: seq<Byte>)
    ensures s == EntryString(e)
  {
    hide HopsString, HopString, Ascending, EntryString;
    s := PrintCd(e.cd);
    s := s + [EQUALS];
    ghost var head := s;
    ghost var done: seq<FaceId> := [];
    var rest := e.hops.Keys;
    HopsStringNone(e.hops);
    assert s + [] == s && done + Ascending(rest) == Ascending(rest);
    while rest != {}
      invariant rest <= e.hops.Keys && Ascending(e.hops.Keys) == done + Ascending(rest)
      invariant forall f :: f in done ==> f in e.hops
      invariant s == head + HopsString(done, e.hops)
      decreases |rest|
    {
      var f := Least(rest);
      WriteStep(done, rest, e.hops);
      ConcatAssociative(head, HopsString(done, e.hops), HopString(f, e.hops[f]));
      s := s + HopString(f, e.hops[f]);
      rest, done := rest - {f}, done + [f];
    }
    AscendingNone();
    assert done + [] == done;
    EntryStringIs(e);
  }

  lemma {:induction false} AscendingSorted(s: set<nat>)
    ensures forall i, j :: 0 <= i < j < |Ascending(s)| ==> Ascending(s)[i] < Ascending(s)[j]
    decreases |s|
  {
    hide Ascending;
    AscendingNone();
    if s != {} {
      var m, rest := Least(s), Ascending(s - {Least(s)});
      AscendingSorted(s - {m});
      AscendingStep(s);
      forall i, j | 0 <= i < j < |rest| + 1 ensures ([m] + rest)[i] < ([m] + rest)[j] {
        assert ([m] + rest)[j] == rest[j - 1] && rest[j - 1] in s - {m};
        if 0 < i { assert ([m] + rest)[i] == rest[i - 1]; }
      }
    }
  }

  lemma AscendingNone()
    ensures Ascending({}) == []
  {
  }

  lemma EntryStringIs(e: Entry<Cost>)
    ensures EntryString(e) == Print(e.cd) + [EQUALS] + HopsString(Ascending(e.hops.Keys), e.hops)
  {
  }

  // ---- Reading

  /** `find("=(")`, or the length when it is not there. */
  function FindOpening(s: seq<Byte>): (i: nat)
    ensures i <= |s|
  {
    if |s| < 2 then |s|
    else if s[0] == EQUALS && s[1] == OPEN then 0
    else 1 + FindOpening(s[1..])
  }

  /** Split at every opening parenthesis and comma. */
  function Tokens(s: seq<Byte>): (ts: seq<seq<Byte>>)
    ensures ts != []
  {
    if s == [] then [[]]
    else
      var ts := Tokens(s[1..]);
      if s[0] == OPEN || s[0] == COMMA then [[]] + ts else [[s[0]] + ts[0]] + ts[1..]
  }

  /** What `lexical_cast<uint64_t>` accepts. */
  predicate IsUint64(s: seq<Byte>) { ParseUnsigned(s, TWO64).Some? }

  /** The text behind the equals sign, or all of it when there is no `=(`. */
  function HopsPart(s: seq<Byte>): seq<Byte> {
    if FindOpening(s) < |s| then s[FindOpening(s) + 1..] else s
  }

  function Numbers(ts: seq<seq<Byte>>): set<seq<Byte>> { set t | t in ts && IsUint64(t) }

  /** `getFaceId`: every token that is a number joins the set. */
  method GetFaceId(fib: seq<Byte>, ids: set<seq<Byte>>) returns (r: set<seq<Byte>>)
    ensures r == ids + Numbers(Tokens(HopsPart(fib)))
  {
    hide IsUint64, Tokens;
    r := ids;
    var v := Tokens(HopsPart(fib));
    for i := 0 to |v|
      invariant r == ids + Numbers(v[..i])
    {
      assert v[..i + 1] == v[..i] + [v[i]];
      if IsUint64(v[i]) {
        r := r + {v[i]};
      }
    }
    assert v[..|v|] == v;
  }

  // ---- Reading what was written

  predicate NoEquals(s: seq<Byte>) { EQUALS !in s }

  lemma {:induction false} PrintHasNoEquals(cd: Cd, first: bool)
    ensures NoEquals(PrintFrom(cd, first))
  {
    hide ToUri;
    if cd != [] {
      ToUriPrintable(cd[0].value);
      PrintHasNoEquals(cd[1..], first);
      PrintHasNoEquals(cd[1..], false);
    }
  }

  lemma {:induction false} OpeningIsAfter(head: seq<Byte>, tail: seq<Byte>)
    requires NoEquals(head) && tail != [] && tail[0] == OPEN
    ensures FindOpening(head + [EQUALS] + tail) == |head|
  {
    var s := head + [EQUALS] + tail;
    if head != [] {
      assert head[0] in head && forall c :: c in head[1..] ==> c in head;
      OpeningIsAfter(head[1..], tail);
      assert s[1..] == head[1..] + [EQUALS] + tail;
    }
  }

  predicate NoSeparator(s: seq<Byte>) { forall i :: 0 <= i < |s| ==> s[i] != OPEN && s[i] != COMMA }

  lemma {:induction false} LastToken(w: seq<Byte>)
    requires NoSeparator(w)
    ensures Tokens(w) == [w]
  {
    if w != [] {
      LastToken(w[1..]);
      assert w == [w[0]] + w[1..];
    }
  }

  lemma {:induction false} FirstToken(w: seq<Byte>, sep: Byte, s: seq<Byte>)
    requires NoSeparator(w) && (sep == OPEN || sep == COMMA)
    ensures Tokens(w + ([sep] + s)) == [w] + Tokens(s)
  {
    var t := w + ([sep] + s);
    if w == [] {
      assert t[1..] == s;
    } else {
      FirstToken(w[1..], sep, s);
      assert t[1..] == w[1..] + ([sep] + s);
      assert w == [w[0]] + w[1..];
    }
  }

  /** The tokens of the hops behind the first opening parenthesis: ids, and costs with their parenthesis. */
  function HopTokens(fs: seq<FaceId>, hops: map<FaceId, Cost>): seq<seq<Byte>>
    requires forall f :: f in fs ==> f in hops
  {
    if fs == [] then [] else [Decimal(fs[0]), Decimal(hops[fs[0]]) + [CLOSE]] + HopTokens(fs[1..], hops)
  }

  lemma {:induction false} TokensOfHops(fs: seq<FaceId>, hops: map<FaceId, Cost>)
    requires fs != [] && forall f :: f in fs ==> f in hops
    ensures HopsString(fs, hops) != [] && HopsString(fs, hops)[0] == OPEN
    ensures Tokens(HopsString(fs, hops)[1..]) == HopTokens(fs, hops)
  {
    hide Tokens, Decimal, HopsString, HopTokens;
    var id, cost, rest := Decimal(fs[0]), Decimal(hops[fs[0]]) + [CLOSE], HopsString(fs[1..], hops);
    HopsStringPieces(fs, hops);
    HopTokensPieces(fs, hops);
    FirstToken(id, COMMA, cost + rest);
    if fs[1..] == [] {
      LastToken(cost);
      assert cost + rest == cost;
    } else {
      TokensOfHops(fs[1..], hops);
      assert rest == [OPEN] + rest[1..];
      FirstToken(cost, OPEN, rest[1..]);
    }
  }

  lemma HopsStringPieces(fs: seq<FaceId>, hops: map<FaceId, Cost>)
    requires fs != [] && forall f :: f in fs ==> f in hops
    ensures HopsString(fs, hops) != [] && HopsString(fs, hops)[0] == OPEN
    ensures HopsString(fs, hops)[1..]
            == Decimal(fs[0]) + ([COMMA] + ((Decimal(hops[fs[0]]) + [CLOSE]) + HopsString(fs[1..], hops)))
    ensures fs[1..] == [] ==> HopsString(fs[1..], hops) == []
  {
    hide Decimal;
    Regrouped([OPEN], Decimal(fs[0]), [COMMA], Decimal(hops[fs[0]]), [CLOSE], HopsString(fs[1..], hops));
  }

  lemma Regrouped(a: seq<Byte>, b: seq<Byte>, c: seq<Byte>, d: seq<Byte>, e: seq<Byte>, f: seq<Byte>)
    ensures a + b + c + d + e + f == a + (b + (c + ((d + e) + f)))
    ensures (a + b + c + d + e + f)[|a|..] == b + (c + ((d + e) + f))
  {
    ConcatAssociative(a + b + c, d, e);
    ConcatAssociative(a + b + c, d + e, f);
    ConcatAssociative(a + b, c, (d + e) + f);
    ConcatAssociative(a, b, c + ((d + e) + f));
  }

  lemma HopTokensPieces(fs: seq<FaceId>, hops: map<FaceId, Cost>)
    requires fs != [] && forall f :: f in fs ==> f in hops
    ensures HopTokens(fs, hops) == [Decimal(fs[0])] + ([Decimal(hops[fs[0]]) + [CLOSE]] + HopTokens(fs[1..], hops))
    ensures fs[1..] == [] ==> HopTokens(fs[1..], hops) == []
  {
    hide Decimal;
  }

  lemma {:induction false} NumbersAmongHopTokens(fs: seq<FaceId>, hops: map<FaceId, Cost>)
    requires forall f :: f in fs ==> f in hops && f < TWO64
    ensures forall t :: t in HopTokens(fs, hops) && IsUint64(t) <==> exists f :: f in fs && t == Decimal(f)
  {
    hide Decimal;
    if fs != [] {
      var f0 := fs[0];
      assert f0 in fs && forall f :: f in fs[1..] ==> f in fs;
      NumbersAmongHopTokens(fs[1..], hops);
      IdIsNumber(f0);
      CostIsNoNumber(Decimal(hops[f0]));
      forall t
        ensures t in HopTokens(fs, hops) && IsUint64(t) <==> exists f :: f in fs && t == Decimal(f)
      {
        assert t in HopTokens(fs, hops) <==>
                 t == Decimal(f0) || t == Decimal(hops[f0]) + [CLOSE] || t in HopTokens(fs[1..], hops);
        assert forall f :: f in fs <==> f == f0 || f in fs[1..];
      }
    }
  }

  lemma IdIsNumber(f: FaceId)
    requires f < TWO64
    ensures IsUint64(Decimal(f))
  {
    DecimalParses(f, TWO64);
  }

  lemma CostIsNoNumber(c: seq<Byte>)
    ensures !IsUint64(c + [CLOSE])
  {
    var s := c + [CLOSE];
    assert s[|s| - 1] == CLOSE;
    if c != [] { assert s[1..][|s| - 2] == CLOSE; }
  }

  /** Ids as the tool keeps them. */
  function Decimals(s: set<FaceId>): set<seq<Byte>> { set f | f in s :: Decimal(f) }

  /**
   * Reading inverts writing: from the text of any entry with a hop, whatever its descriptor and costs,
   * the tool extracts exactly the decimal forms of its next-hop face ids.
   */
  lemma ReaderInvertsWriter(e: Entry<Cost>)
    requires e.hops != map[] && forall f :: f in e.hops ==> f < TWO64
    ensures Numbers(Tokens(HopsPart(EntryString(e)))) == Decimals(e.hops.Keys)
  {
    var fs := Ascending(e.hops.Keys);
    assert fs != [] by { var f :| f in e.hops; assert f in fs; }
    hide Tokens, Decimal, IsUint64, HopsString, EntryString, HopsPart, HopTokens, Ascending;
    TokensOfEntry(e);
    NumbersAmongHopTokens(fs, e.hops);
    NothingIsNoNumber();
  }

  /** What the text splits into: an empty token, then ids and costs. */
  lemma TokensOfEntry(e: Entry<Cost>)
    requires Ascending(e.hops.Keys) != []
    ensures Tokens(HopsPart(EntryString(e))) == [[]] + HopTokens(Ascending(e.hops.Keys), e.hops)
  {
    hide Tokens, HopsString, HopTokens, Ascending;
    var fs := Ascending(e.hops.Keys);
    var head, rhs := Print(e.cd), HopsString(fs, e.hops);
    TokensOfHops(fs, e.hops);
    PrintHasNoEquals(e.cd, true);
    OpeningIsAfter(head, rhs);
    assert HopsPart(EntryString(e)) == rhs == [] + ([OPEN] + rhs[1..]);
    FirstToken([], OPEN, rhs[1..]);
  }

  lemma NothingIsNoNumber()
    ensures !IsUint64([])
  {
  }

  /** A face's line: its id, then `=(` and the rest. */
  function FaceString(f: FaceId, rest: seq<Byte>): seq<Byte> { Decimal(f) + [EQUALS] + ([OPEN] + rest) }

  /** `matchFaceId`. */
  predicate MatchFaceId(face: seq<Byte>, ids: set<seq<Byte>>) { face[..FindOpening(face)] in ids }

  lemma DigitsAreNoEquals(s: seq<Byte>)
    requires Digits(s)
    ensures NoEquals(s)
  {
  }

  // ---- A whole dump

  /** The numbers among the tokens of a line. */
  function LineIds(line: seq<Byte>): set<seq<Byte>> { Numbers(Tokens(HopsPart(line))) }

  /** The ids the tool has after all the lines. */
  function DumpIds(lines: seq<seq<Byte>>): set<seq<Byte>> {
    if lines == [] then {} else DumpIds(lines[..|lines| - 1]) + LineIds(lines[|lines| - 1])
  }

  /** The lines of the faces whose ids are among them. */
  function Shown(faces: seq<seq<Byte>>, ids: set<seq<Byte>>): seq<seq<Byte>> {
    if faces == [] then []
    else
      var n := |faces| - 1;
      Shown(faces[..n], ids) + if MatchFaceId(faces[n], ids) then [faces[n]] else []
  }

  /** `show`: how many ids the FIB lines name, and the face lines that are printed. */
  method Show(fibs: seq<seq<Byte>>, faces: seq<seq<Byte>>) returns (count: nat, shown: seq<seq<Byte>>)
    ensures count == |DumpIds(fibs)| && shown == Shown(faces, DumpIds(fibs))
  {
    hide LineIds, MatchFaceId;
    var ids: set<seq<Byte>> := {};
    assert fibs[..0] == [] && faces[..0] == [];
    for i := 0 to |fibs|
      invariant ids == DumpIds(fibs[..i])
    {
      assert fibs[..i + 1][..i] == fibs[..i];
      LineIdsAre(fibs[i]);
      ids := GetFaceId(fibs[i], ids);
    }
    assert fibs[..|fibs|] == fibs;
    count, shown := |ids|, [];
    for i := 0 to |faces|
      invariant shown == Shown(faces[..i], ids)
    {
      assert faces[..i + 1][..i] == faces[..i];
      if MatchFaceId(faces[i], ids) {
        shown := shown + [faces[i]];
      }
    }
    assert faces[..|faces|] == faces;
  }

  lemma LineIdsAre(line: seq<Byte>)
    ensures LineIds(line) == Numbers(Tokens(HopsPart(line)))
  {
  }

  /** `Fib::dump`: one line for each entry. */
  function DumpLines(es: seq<Entry<Cost>>): (lines: seq<seq<Byte>>)
    ensures |lines| == |es| && forall i :: 0 <= i < |es| ==> lines[i] == EntryString(es[i])
  {
    seq(|es|, i requires 0 <= i < |es| => EntryString(es[i]))
  }

  /** All next hops of a table. */
  function AllHops(es: seq<Entry<Cost>>): set<FaceId> {
    if es == [] then {} else AllHops(es[..|es| - 1]) + es[|es| - 1].hops.Keys
  }

  ghost predicate Dumpable(es: seq<Entry<Cost>>) {
    forall i :: 0 <= i < |es| ==> es[i].hops != map[] && forall f :: f in es[i].hops ==> f < TWO64
  }

  /** From the dump of a whole table the tool gets exactly the ids of all its next hops. */
  lemma {:induction false} DumpIdsAreHops(es: seq<Entry<Cost>>)
    requires Dumpable(es)
    ensures DumpIds(DumpLines(es)) == Decimals(AllHops(es))
  {
    hide EntryString, Decimal, LineIds;
    if es != [] {
      var n := |es| - 1;
      DumpIdsAreHops(es[..n]);
      assert DumpLines(es)[..n] == DumpLines(es[..n]);
      LineIdsAre(EntryString(es[n]));
      ReaderInvertsWriter(es[n]);
    }
  }

  /** A face's line is shown exactly when the face is a next hop of some dumped entry. */
  lemma ShownFacesAreHops(es: seq<Entry<Cost>>, f: FaceId, rest: seq<Byte>)
    requires Dumpable(es)
    ensures MatchFaceId(FaceString(f, rest), DumpIds(DumpLines(es))) <==> f in AllHops(es)
  {
    DumpIdsAreHops(es);
    IdOfFace(f, rest);
    hide Decimal, Dumpable, DumpIds;
    if f in AllHops(es) { assert Decimal(f) in Decimals(AllHops(es)); }
    forall g | g in AllHops(es) && Decimal(g) == Decimal(f) ensures g == f { assert NumberOf(Decimal(g)) == g; }
  }

  /** The tool reads a face's own id off the front of its line. */
  lemma IdOfFace(f: FaceId, rest: seq<Byte>)
    ensures FindOpening(FaceString(f, rest)) == |Decimal(f)| && FaceString(f, rest)[..|Decimal(f)|] == Decimal(f)
  {
    DigitsAreNoEquals(Decimal(f));
    hide Decimal;
    OpeningIsAfter(Decimal(f), [OPEN] + rest);
  }

  lemma {:induction false} DecimalsCount(s: set<FaceId>)
    ensures |Decimals(s)| == |s|
    decreases |s|
  {
    if f :| f in s {
      hide Decimal;
      DecimalsCount(s - {f});
      forall g | g in s && Decimal(g) == Decimal(f) ensures g == f { assert NumberOf(Decimal(g)) == g; }
      assert Decimals(s) == Decimals(s - {f}) + {Decimal(f)};
    }
  }

  /** The lines of the faces, in the order of the list. */
  function FaceLines(fs: seq<FaceId>, rests: map<FaceId, seq<Byte>>): (lines: seq<seq<Byte>>)
    requires forall f :: f in fs ==> f in rests
    ensures |lines| == |fs| && forall i :: 0 <= i < |fs| ==> lines[i] == FaceString(fs[i], rests[fs[i]])
  {
    seq(|fs|, i requires 0 <= i < |fs| => FaceString(fs[i], rests[fs[i]]))
  }

  ghost predicate Distinct(fs: seq<FaceId>) { forall i, j :: 0 <= i < j < |fs| ==> fs[i] != fs[j] }

  /** The faces of the list that are among the others. */
  function Among(fs: seq<FaceId>, hops: set<FaceId>): set<FaceId> { set f | f in fs && f in hops }

  lemma AmongSnoc(fs: seq<FaceId>, f: FaceId, hops: set<FaceId>)
    requires f !in fs
    ensures |Among(fs + [f], hops)| == |Among(fs, hops)| + if f in hops then 1 else 0
  {
    assert Among(fs + [f], hops) == Among(fs, hops) + if f in hops then {f} else {};
  }

  lemma ShownSnoc(faces: seq<seq<Byte>>, face: seq<Byte>, ids: set<seq<Byte>>)
    ensures Shown(faces + [face], ids) == Shown(faces, ids) + if MatchFaceId(face, ids) then [face] else []
  {
    assert (faces + [face])[..|faces|] == faces;
  }

  /** As many lines are shown as faces of the list are next hops. */
  lemma {:induction false} ShownCount(es: seq<Entry<Cost>>, fs: seq<FaceId>, rests: map<FaceId, seq<Byte>>)
    requires Dumpable(es) && Distinct(fs) && forall f :: f in fs ==> f in rests
    ensures |Shown(FaceLines(fs, rests), DumpIds(DumpLines(es)))| == |Among(fs, AllHops(es))|
  {
    hide Dumpable, AllHops, DumpIds, MatchFaceId, Shown, Among, FaceString;
    if fs == [] {
      NothingShown(DumpIds(DumpLines(es)), AllHops(es));
      assert FaceLines(fs, rests) == [];
    } else {
      var n := |fs| - 1;
      var before, last := fs[..n], fs[n];
      assert fs == before + [last] && last !in before;
      ShownCount(es, before, rests);
      ShownFacesAreHops(es, last, rests[last]);
      assert FaceLines(fs, rests) == FaceLines(before, rests) + [FaceString(last, rests[last])];
      ShownSnoc(FaceLines(before, rests), FaceString(last, rests[last]), DumpIds(DumpLines(es)));
      AmongSnoc(before, last, AllHops(es));
    }
  }

  lemma NothingShown(ids: set<seq<Byte>>, hops: set<FaceId>)
    ensures Shown([], ids) == [] && Among([], hops) == {}
  {
  }

  /**
   * When the face dump lists every next hop, as it does where no face dangles, the number of faces the
   * tool reports is the number of face lines it shows.
   */
  lemma CountIsShown(es: seq<Entry<Cost>>, fs: seq<FaceId>, rests: map<FaceId, seq<Byte>>)
    requires Dumpable(es) && Distinct(fs) && forall f :: f in fs ==> f in rests
    requires forall f :: f in AllHops(es) ==> f in fs
    ensures |DumpIds(DumpLines(es))| == |Shown(FaceLines(fs, rests), DumpIds(DumpLines(es)))| == |AllHops(es)|
  {
    DumpIdsAreHops(es);
    DecimalsCount(AllHops(es));
    ShownCount(es, fs, rests);
    assert AllHops(es) == Among(fs, AllHops(es));
  }
}

/** Concrete packets byte by byte, texts character by character, and lookups and matches one by one. */
module Examples {
  import opened Bytes
  import opened Tlv
  import opened Descriptors
  import opened Wire
  import opened HopTable
  import opened Network
  import CdParse
  import CdUri
  import CdPrint
  import Fib
  import FibDump
  import Lexical
  import Matcher
  import RouterSpec

  /** The bytes of a text. */
  function Text(s: string): (t: seq<Byte>)
    requires forall i :: 0 <= i < |s| ==> s[i] < 128 as char
    ensures |t| == |s| && forall i :: 0 <= i < |s| ==> t[i] == s[i] as int
  {
    seq(|s|, i requires 0 <= i < |s| => s[i] as int)
  }

  // ---- Packets on the wire

  /** A publication for `/a` with the content `hi`, to the rendezvous point and from it. */
  lemma PublicationBytes()
    ensures EncodeBlock(PacketBlock(PubToRp([Component([97])], [104, 105])))
            == [66, 9, 70, 3, 8, 1, 97, 21, 2, 104, 105]
    ensures EncodeBlock(PacketBlock(PubFromRp([Component([97])], [104, 105])))
            == [67, 9, 70, 3, 8, 1, 97, 21, 2, 104, 105]
  {
    hide EncodeBlock;
    PublicationOf(66);
    PublicationOf(67);
  }

  lemma PublicationOf(typ: nat)
    requires typ < 253
    ensures EncodeBlock(PubBlock(typ, [Component([97])], Block(21, [104, 105])))
            == [typ, 9, 70, 3, 8, 1, 97, 21, 2, 104, 105]
  {
    hide EncodeBlock;
    var cd, content := CdBlock([Component([97])]), Block(21, [104, 105]);
    DescriptorBytes();
    BlockForms(content);
    assert EncodeBlock(content) == [21, 2, 104, 105];
    BlockForms(Block(typ, EncodeBlock(cd) + EncodeBlock(content)));
  }

  lemma DescriptorBytes()
    ensures EncodeBlock(CdBlock([Component([97])])) == [70, 3, 8, 1, 97]
  {
    var a := Component([97]);
    BlockForms(a);
    hide EncodeBlock;
    EncodeAllOne(a);
    BlockForms(CdBlock([a]));
  }

  /** A subscription for `/1(/2)/x`: a component, an optional, the asterisk, a component. */
  lemma SubscriptionBytes()
    ensures EncodeBlock(PacketBlock(Packet.Sub([Component([49]), Optional([50]), ASTERISK, Component([120])])))
            == [65, 13, 70, 11, 8, 1, 49, 81, 1, 50, 82, 0, 8, 1, 120]
  {
    hide EncodeBlock, EncodeAll;
    FourElements();
    var cd := [Component([49]), Optional([50]), ASTERISK, Component([120])];
    BlockForms(CdBlock(cd));
    assert EncodeBlock(CdBlock(cd)) == [70, 11, 8, 1, 49, 81, 1, 50, 82, 0, 8, 1, 120];
    BlockForms(SubBlock(cd));
  }

  lemma FourElements()
    ensures EncodeAll([Component([49]), Optional([50]), ASTERISK, Component([120])])
            == [8, 1, 49, 81, 1, 50, 82, 0, 8, 1, 120]
  {
    hide EncodeBlock, EncodeAll;
    var a, b, c, d := Component([49]), Optional([50]), ASTERISK, Component([120]);
    SmallBytes(8, [49]);
    SmallBytes(81, [50]);
    SmallBytes(82, []);
    SmallBytes(8, [120]);
    EncodeAllTwo(a, b);
    EncodeAllTwo(c, d);
    EncodeAllConcat([a, b], [c, d]);
    assert [a, b, c, d] == [a, b] + [c, d];
    assert [8, 1, 49] + [81, 1, 50] == [8, 1, 49, 81, 1, 50] && [82, 0] + [8, 1, 120] == [82, 0, 8, 1, 120];
  }

  lemma SmallBytes(typ: nat, value: seq<Byte>)
    requires typ < 253 && |value| < 2
    ensures EncodeBlock(Block(typ, value)) == if value == [] then [typ, 0] else [typ, 1, value[0]]
  {
    BlockForms(Block(typ, value));
  }

  /** A content of 2000 bytes has its length in three. */
  lemma LongContentBytes(content: seq<Byte>)
    requires |content| == 2000
    ensures EncodeBlock(Block(CONTENT, content)) == [21, 253, 7, 208] + content
  {
    BlockForms(Block(CONTENT, content));
  }

  // ---- The subscription of the manual

  function Pattern(): Cd {
    [Block(8, Text("1")), Block(81, Text("2")), Block(81, Text("3")), Block(81, Text("0")), Block(82, []),
     Block(8, Text("sports")), Block(8, Text("tennis"))]
  }

  lemma PatternIsGrammatical()
    ensures CdParse.Components([Text("1")]) + CdParse.Optionals([Text("2"), Text("3"), Text("0")]) + [ASTERISK]
              + CdParse.Components([Text("sports"), Text("tennis")]) == Pattern()
    ensures Shaped(Pattern(), 1, 4) && Grammatical(Pattern()) && OpenAt(Pattern()) == 1 && StarAt(Pattern()) == 4
    ensures !Flat(Pattern())
  {
    hide OpenAt, StarAt, Grammatical, Flat;
    ShapeUnique(Pattern(), 1, 4);
  }

  /** `/1(/2/3/0)/sports/tennis` is read as that, and printed as it was written. */
  lemma PatternIsRead()
    ensures CdUri.UriMeaning(Text("/1(/2/3/0)/sports/tennis")) == Some(Pattern())
    ensures CdPrint.Print(Pattern()) == Text("/1(/2/3/0)/sports/tennis")
  {
    hide OpenAt, StarAt, Grammatical, Flat, CdUri.UriMeaning, CdPrint.Print, Pattern, Text;
    PatternIsGrammatical();
    PatternIsSafe();
    CdUri.RoundTripIff(Pattern());
    PatternPrints();
  }

  lemma PatternIsSafe()
    ensures CdUri.SafeCd(Pattern())
    ensures forall i :: 0 <= i < |Pattern()| && i != 4 ==> CdPrint.SafeValue(Pattern()[i].value)
  {
    var cd := Pattern();
    forall i | 0 <= i < |cd| && i != 4 ensures CdPrint.SafeValue(cd[i].value) {
      assert cd[i].value[0] as char != '.';
    }
  }

  lemma ThreeWords(ws: seq<CdParse.Word>)
    requires |ws| == 3
    ensures CdUri.Slashed(ws) == [47] + ws[0] + [47] + ws[1] + [47] + ws[2]
  {
    assert ws[1..][1..][1..] == [];
    assert CdUri.Slashed(ws[1..][1..]) == [47] + ws[2];
    assert CdUri.Slashed(ws[1..]) == [47] + ws[1] + CdUri.Slashed(ws[1..][1..]);
  }

  lemma PatternPrints()
    ensures CdPrint.Print(Pattern()) == Text("/1(/2/3/0)/sports/tennis")
  {
    hide CdPrint.PrintFrom, CdUri.Slashed, CdPrint.ToUri, CdUri.Uris, OpenAt, StarAt, Text, Pattern;
    PatternUris();
    var pre, mid, behind := Pattern()[..1], Pattern()[1..4], Pattern()[5..];
    CdUri.PrintShaped(pre, mid, behind);
    CdUri.SlashedOne(Text("1"));
    ThreeWords([Text("2"), Text("3"), Text("0")]);
    TwoWords([Text("sports"), Text("tennis")]);
    PatternPieces();
  }

  lemma PatternUris()
    ensures |Pattern()| == 7
    ensures var pre, mid, behind := Pattern()[..1], Pattern()[1..4], Pattern()[5..];
            && Pattern() == pre + (mid + ([ASTERISK] + behind))
            && AllOfType(pre, CD_COMPONENT) && AllOfType(mid, CD_OPTIONAL) && AllOfType(behind, CD_COMPONENT)
            && CdUri.Uris(pre) == [Text("1")] && CdUri.Uris(mid) == [Text("2"), Text("3"), Text("0")]
            && CdUri.Uris(behind) == [Text("sports"), Text("tennis")]
  {
    PatternIsSafe();
    hide CdPrint.ToUri, CdPrint.SafeValue, Text;
    forall i | 0 <= i < |Pattern()| && i != 4 ensures CdPrint.ToUri(Pattern()[i].value) == Pattern()[i].value {
      CdPrint.ToUriPrintable(Pattern()[i].value);
    }
  }

  lemma PatternPieces()
    ensures ([47] + Text("1")) + ([40] + (([47] + Text("2") + [47] + Text("3") + [47] + Text("0"))
              + ([41] + ([47] + Text("sports") + [47] + Text("tennis")))))
            == Text("/1(/2/3/0)/sports/tennis")
  {
    hide Text;
    FrontPieces();
    OptionalPieces();
    TrailingPieces();
    BackPieces();
    ConcatAssociative(Text("/1"), [40], Text("/2/3/0)/sports/tennis"));
    WholeText();
  }

  lemma WholeText()
    ensures Text("/1(") + Text("/2/3/0)/sports/tennis") == Text("/1(/2/3/0)/sports/tennis")
  {
    assert "/1(" + "/2/3/0)/sports/tennis" == "/1(/2/3/0)/sports/tennis";
    hide Text;
    TextConcat("/1(", "/2/3/0)/sports/tennis");
  }

  lemma FrontPieces()
    ensures [47] + Text("1") == Text("/1") && Text("/1") + [40] == Text("/1(")
  {
  }

  lemma BackPieces()
    ensures Text("/2/3/0") + ([41] + Text("/sports/tennis")) == Text("/2/3/0)/sports/tennis")
  {
    hide Text;
    Signs();
    TextConcat("/2/3/0", ")");
    ConcatAssociative(Text("/2/3/0"), [41], Text("/sports/tennis"));
    TextConcat("/2/3/0)", "/sports/tennis");
  }

  lemma Signs()
    ensures Text("/") == [47] && Text("(") == [40] && Text(")") == [41]
  {
  }

  lemma OptionalPieces()
    ensures [47] + Text("2") + [47] + Text("3") + [47] + Text("0") == Text("/2/3/0")
  {
    hide Text;
    Signs();
    TextConcat("/", "2");
    TextConcat("/2", "/");
    TextConcat("/2/", "3");
    TextConcat("/2/3", "/");
    TextConcat("/2/3/", "0");
  }

  lemma TrailingPieces()
    ensures [47] + Text("sports") + [47] + Text("tennis") == Text("/sports/tennis")
  {
    hide Text;
    Signs();
    TextConcat("/", "sports");
    TextConcat("/sports", "/");
    TextConcat("/sports/", "tennis");
  }

  lemma TextConcat(s: string, t: string)
    requires forall i :: 0 <= i < |s| ==> s[i] < 128 as char
    requires forall i :: 0 <= i < |t| ==> t[i] < 128 as char
    ensures Text(s + t) == Text(s) + Text(t)
  {
  }

  lemma TwoWords(ws: seq<CdParse.Word>)
    requires |ws| == 2
    ensures CdUri.Slashed(ws) == [47] + ws[0] + [47] + ws[1]
  {
    assert ws[1..][1..] == [];
    assert CdUri.Slashed(ws[1..]) == [47] + ws[1];
  }

  /** It matches `/1/2/sports/tennis` and not `/1/3/sports/tennis`. */
  lemma PatternMatches()
    ensures Matcher.Matches(Pattern(), Input(Text("2"))) && !Matcher.Matches(Pattern(), Input(Text("3")))
  {
    hide OpenAt, StarAt, Grammatical, Flat, Matcher.Matches, Matcher.Taking;
    PatternIsGrammatical();
    Matcher.TakingAt(Pattern(), 1);
    assert Matcher.ValuePrefix(Matcher.Taking(Pattern(), 1), Input(Text("2")));
    Matcher.PossibleIsMatch(Pattern(), Input(Text("2")));
    forall k | 0 <= k <= 3 ensures !Matcher.ValuePrefix(Matcher.Taking(Pattern(), k), Input(Text("3"))) {
      NoChoiceFits(k);
    }
    if Matcher.Matches(Pattern(), Input(Text("3"))) { Matcher.MatchIsPossible(Pattern(), Input(Text("3"))); }
  }

  lemma NoChoiceFits(k: nat)
    requires k <= 3
    ensures Grammatical(Pattern()) && StarAt(Pattern()) - OpenAt(Pattern()) == 3
    ensures !Matcher.ValuePrefix(Matcher.Taking(Pattern(), k), Input(Text("3")))
  {
    hide OpenAt, StarAt, Grammatical, Flat, Matcher.Taking;
    PatternIsGrammatical();
    Matcher.TakingAt(Pattern(), k);
    var taken := Matcher.Taking(Pattern(), k);
    assert taken[1] == if k == 0 then Pattern()[5] else Pattern()[1];
    assert Input(Text("3"))[1].value[0] == 51 && taken[1].value[0] != 51;
  }

  function Input(second: seq<Byte>): Cd {
    [Block(8, Text("1")), Block(8, second), Block(8, Text("sports")), Block(8, Text("tennis"))]
  }

  /** A parenthesis of the other kind inside a word that opens or closes is part of the word. */
  lemma StrayParentheses()
    ensures CdUri.UriMeaning(Text("/a)(/b()/c"))
            == Some([Block(8, Text("a)")), Block(81, Text("b(")), Block(82, []), Block(8, Text("c"))])
  {
    hide CdUri.UriMeaning, CdParse.ReadsGroup, CdUri.Slashed;
    var uri, ws := Text("/a)(/b()/c"), [Text("a)("), Text("b()"), Text("c")];
    var cd := [Block(8, Text("a)")), Block(81, Text("b(")), Block(82, []), Block(8, Text("c"))];
    ThreeWords(ws);
    assert CdUri.Slashed(ws) == uri;
    assert CdUri.Slashes(1) == [47] && CdUri.Slashes(0) == [];
    assert uri == CdUri.Slashes(1) + CdUri.Joined(ws) + CdUri.Slashes(0);
    StrayGroup();
    CdUri.ReadUri(uri, cd, ws, 1, 0);
  }

  lemma StrayGroup()
    ensures CdParse.ReadsGroup(
              [Text("a)("), Text("b()"), Text("c")],
              [Block(8, Text("a)")), Block(81, Text("b(")), Block(82, []), Block(8, Text("c"))],
              0, 1, Text("a)"), Text("b("))
  {
  }

  // ---- Lookups

  /** The longest prefix wins over a lower cost, then the cost, then the smaller face id. */
  lemma Lookups(a: Block, b: Block, c: Block)
    requires a != b && b != c && a != c
    ensures Fib.Answer(Routes(a, b, c), [a, b, c]) == {103}
    ensures Fib.Answer(Routes(a, b, c), [a, c]) == {102}
    ensures Fib.Answer(Routes(a, b, c), [c, a]) == {104}
    ensures Fib.Answer(Routes(a, b, c), [b]) == {}
  {
    hide Fib.Answer, Routes;
    LongestWins(a, b, c);
    CheapestWins(a, b, c);
    SmallestWins(a, b, c);
    NothingFits(a, b, c);
  }

  lemma LongestWins(a: Block, b: Block, c: Block)
    requires a != b && b != c && a != c
    ensures Fib.Answer(Routes(a, b, c), [a, b, c]) == {103}
  {
    hide Fib.Answer;
    Prefixes(a, b, c, [a, b, c]);
    Best(Routes(a, b, c), [a, b, c], ([a, b], 103));
  }

  lemma CheapestWins(a: Block, b: Block, c: Block)
    requires a != b && b != c && a != c
    ensures Fib.Answer(Routes(a, b, c), [a, c]) == {102}
  {
    hide Fib.Answer;
    Prefixes(a, b, c, [a, c]);
    Best(Routes(a, b, c), [a, c], ([a], 102));
  }

  lemma SmallestWins(a: Block, b: Block, c: Block)
    requires a != b && b != c && a != c
    ensures Fib.Answer(Routes(a, b, c), [c, a]) == {104}
  {
    hide Fib.Answer;
    Prefixes(a, b, c, [c, a]);
    Best(Routes(a, b, c), [c, a], ([c], 104));
  }

  lemma NothingFits(a: Block, b: Block, c: Block)
    requires a != b && b != c && a != c
    ensures Fib.Answer(Routes(a, b, c), [b]) == {}
  {
    hide Fib.Answer;
    Prefixes(a, b, c, [b]);
    Fib.AnswerIsOneFace(Routes(a, b, c), [b]);
  }

  function Routes(a: Block, b: Block, c: Block): map<Pair, Fib.Cost> {
    map[([a], 101) := 5, ([a], 102) := 3, ([a, b], 103) := 9, ([c], 105) := 7, ([c], 104) := 7]
  }

  lemma Prefixes(a: Block, b: Block, c: Block, cd: Cd)
    requires cd != []
    ensures [a] <= cd <==> cd[0] == a
    ensures [c] <= cd <==> cd[0] == c
    ensures [a, b] <= cd <==> cd[0] == a && 1 < |cd| && cd[1] == b
  {
    if [a, b] <= cd { assert [a, b][0] == cd[0] && [a, b][1] == cd[1]; }
  }

  lemma Best(costs: map<Pair, Fib.Cost>, cd: Cd, p: Pair)
    requires Fib.IsBest(costs, cd, p)
    ensures Fib.Answer(costs, cd) == {p.1}
  {
    forall q | q in costs && Fib.IsBest(costs, cd, q) ensures q == p { Fib.BestIsUnique(costs, cd, p, q); }
  }

  // ---- The dump

  /** The line of an entry for `/a` with one hop. */
  lemma EntryText()
    ensures FibDump.EntryString(Entry([Component([97])], map[101 := 5])) == Text("/a=(101,5)")
  {
    hide CdPrint.Print, FibDump.HopsString, FibDump.Ascending, FibDump.HopString;
    PrintsA();
    OneHop(101);
    FibDump.HopsStringOne(101, map[101 := 5]);
    HopText();
    assert map[101 := 5].Keys == {101};
    assert Text("/a") + [61] + Text("(101,5)") == Text("/a=(101,5)");
  }

  lemma PrintsA()
    ensures CdPrint.Print([Component([97])]) == Text("/a")
  {
    hide CdPrint.ToUri;
    var cd: Cd := [Component([97])];
    assert CdPrint.SafeValue([97]) by { assert [97][0] as char != '.'; }
    CdPrint.ToUriPrintable([97]);
    assert cd[1..] == [];
  }

  lemma HopText()
    ensures FibDump.HopString(101, 5) == Text("(101,5)")
  {
    assert Lexical.Decimal(5) == [53] && Lexical.Decimal(1) == [49];
    assert Lexical.Decimal(10) == [49, 48];
    assert Lexical.Decimal(101) == [49, 48, 49];
  }

  lemma OneHop(f: FaceId)
    ensures FibDump.Ascending({f}) == [f]
  {
    assert Fib.Least({f}) == f && {f} - {f} == {};
  }

  // ---- Faces

  /** The first face gets the id 101. */
  lemma FirstFace(e: RouterSpec.Endpoint, peer: Peer)
    ensures Next(START, Connect(e, peer)).router.faces == map[101 := e]
  {
  }
}

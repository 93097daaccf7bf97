/** Reading descriptors from URIs: trim, split, and a three-state walk over the words. */
module CdParse {
  import opened Bytes
  import opened Tlv
  import opened Descriptors
  import opened CdPrint

  type Word = seq<Byte>

  datatype Event = Hold | Open | Close
  datatype State = NotOpened | Opened | Closed

  // ---- What the words of an accepted URI look like

  predicate Plain(w: Word) { w != [] && OPEN !in w && CLOSE !in w }

  /** Ends with the word's only opening parenthesis. */
  predicate Opens(w: Word) { w != [] && w[|w| - 1] == OPEN && OPEN !in Init(w) }

  /** Ends with the word's only closing parenthesis. */
  predicate Closes(w: Word) { w != [] && w[|w| - 1] == CLOSE && CLOSE !in Init(w) }

  function Init(w: Word): Word { if w == [] then [] else w[..|w| - 1] }

  function LeadingPlain(ws: seq<Word>): (n: nat)
    ensures n <= |ws|
    ensures forall i :: 0 <= i < n ==> Plain(ws[i])
    ensures n < |ws| ==> !Plain(ws[n])
  {
    if ws == [] || !Plain(ws[0]) then 0 else 1 + LeadingPlain(ws[1..])
  }

  predicate AllPlain(ws: seq<Word>) { forall i :: 0 <= i < |ws| ==> Plain(ws[i]) }

  function Components(ws: seq<Word>): (cd: Cd)
    ensures |cd| == |ws| && forall i :: 0 <= i < |ws| ==> cd[i] == Component(ws[i])
  {
    seq(|ws|, i requires 0 <= i < |ws| => Component(ws[i]))
  }

  function Optionals(ws: seq<Word>): (cd: Cd)
    ensures |cd| == |ws| && forall i :: 0 <= i < |ws| ==> cd[i] == Optional(ws[i])
  {
    seq(|ws|, i requires 0 <= i < |ws| => Optional(ws[i]))
  }

  /**
   * The descriptor a list of words stands for. Plain words alone are components. A word that opens
   * must be followed by plain words up to one that closes, and those by at least one plain word. An
   * opening parenthesis on the very last word is accepted and dropped.
   */
  function Meaning(ws: seq<Word>): Option<Cd> {
    var i := LeadingPlain(ws);
    if i == |ws| then Some(Components(ws))
    else if !Opens(ws[i]) then None
    else
      var pre := Components(ws[..i] + [Init(ws[i])]);
      var rest := ws[i + 1..];
      var j := LeadingPlain(rest);
      if rest == [] then Some(pre)
      else if j == |rest| || !Closes(rest[j]) || j + 1 == |rest| || !AllPlain(rest[j + 1..]) then None
      else Some(pre + Optionals(rest[..j] + [Init(rest[j])]) + [ASTERISK] + Components(rest[j + 1..]))
  }

  /** Every accepted list of words gives a grammatical descriptor. */
  lemma MeaningIsGrammatical(ws: seq<Word>)
    requires Meaning(ws).Some?
    ensures Grammatical(Meaning(ws).value)
  {
    var i := LeadingPlain(ws);
    if i < |ws| && ws[i + 1..] != [] {
      var rest := ws[i + 1..];
      var j := LeadingPlain(rest);
      var cd := Meaning(ws).value;
      var post := Components(rest[j + 1..]);
      assert cd[i + j + 3..] == post;
      ShapeUnique(cd, i + 1, i + j + 2);
    }
  }

  /** `getEventFromString`: the event a word stands for, and the word without its parenthesis. */
  method GetEvent(word: Word) returns (event: Option<Event>, stripped: Word)
    ensures event == (if Plain(word) then Some(Hold) else if Opens(word) then Some(Open)
                      else if Closes(word) then Some(Close) else None)
    ensures event.Some? ==> stripped == if event.value == Hold then word else Init(word)
  {
    stripped := word;
    if word == [] {
      return None, stripped;
    }
    assert word == Init(word) + [word[|word| - 1]];
    if word[|word| - 1] == OPEN {
      stripped := word[..|word| - 1];
      if OPEN in stripped {
        return None, stripped;
      }
      return Some(Open), stripped;
    }
    if word[|word| - 1] == CLOSE {
      stripped := word[..|word| - 1];
      if CLOSE in stripped {
        return None, stripped;
      }
      return Some(Close), stripped;
    }
    if OPEN in word {
      return None, stripped;
    }
    if CLOSE in word {
      return None, stripped;
    }
    return Some(Hold), stripped;
  }

  lemma {:induction false} LeadingPlainIs(ws: seq<Word>, n: nat)
    requires n <= |ws| && (forall i :: 0 <= i < n ==> Plain(ws[i])) && (n < |ws| ==> !Plain(ws[n]))
    ensures LeadingPlain(ws) == n
  {
    if 0 < n { LeadingPlainIs(ws[1..], n - 1); }
  }

  /**
   * How far the walk has come after `k` words: `i` is where the word that opened was, `j` the one that
   * closed, and `block` what has been pushed.
   */
  ghost predicate Walked(ws: seq<Word>, k: nat, state: State, block: Cd, i: nat, j: nat)
    requires k <= |ws|
  {
    match state
    case NotOpened =>
      AllPlain(ws[..k]) && block == Components(ws[..k])
    case Opened =>
      && i < k && AllPlain(ws[..i]) && Opens(ws[i]) && !Plain(ws[i]) && AllPlain(ws[i + 1..k])
      && block == Components(ws[..i] + [Init(ws[i])]) + Optionals(ws[i + 1..k])
    case Closed =>
      && i < j < k && AllPlain(ws[..i]) && Opens(ws[i]) && !Plain(ws[i]) && AllPlain(ws[i + 1..j])
      && Closes(ws[j]) && !Plain(ws[j]) && AllPlain(ws[j + 1..k])
      && block == Components(ws[..i] + [Init(ws[i])]) + Optionals(ws[i + 1..j] + [Init(ws[j])])
                  + [ASTERISK] + Components(ws[j + 1..k])
  }

  /** `parseCdString`: a walk with one state variable, pushing elements as it goes. */
  method ParseCdString(words: seq<Word>) returns (r: Option<Cd>)
    ensures r == Meaning(words)
  {
    var state := NotOpened;
    var block: Cd := [];
    ghost var i, j := 0, 0;
    for k := 0 to |words|
      invariant Walked(words, k, state, block, i, j)
    {
      hide Walked, Meaning, Plain, Opens, Closes;
      var event, word := GetEvent(words[k]);
      if event.None? || (event.value == Open && state != NotOpened) || (event.value == Close && state != Opened) {
        Stuck(words, k, state, block, i, j);
      } else {
        i, j := WalkOn(words, k, state, block, i, j);
      }
      if event.None? {
        return None;
      }
      match state {
        case NotOpened =>
          if event.value == Open {
            block, state := block + [Component(word)], Opened;
          } else if event.value == Close {
            return None;
          } else {
            block := block + [Component(word)];
          }
        case Opened =>
          if event.value == Open {
            return None;
          } else if event.value == Close {
            block, state := block + [Optional(word)] + [ASTERISK], Closed;
          } else {
            block := block + [Optional(word)];
          }
        case Closed =>
          if event.value == Open {
            return None;
          } else if event.value == Close {
            return None;
          } else {
            block := block + [Component(word)];
          }
      }
    }
    WalkEnds(words, state, block, i, j);
    if 0 < |block| {
      if block[|block| - 1].typ != CD_COMPONENT {
        return None;
      }
    }
    return Some(block);
  }

  /** One word further, for each word its state takes. */
  lemma WalkOn(ws: seq<Word>, k: nat, state: State, block: Cd, i: nat, j: nat) returns (i': nat, j': nat)
    requires k < |ws| && Walked(ws, k, state, block, i, j)
    requires Plain(ws[k]) || (state == NotOpened && Opens(ws[k])) || (state == Opened && Closes(ws[k]))
    ensures Plain(ws[k]) ==>
              Walked(ws, k + 1, state, block + [if state == Opened then Optional(ws[k]) else Component(ws[k])], i', j')
    ensures !Plain(ws[k]) && state == NotOpened ==>
              Walked(ws, k + 1, Opened, block + [Component(Init(ws[k]))], i', j')
    ensures !Plain(ws[k]) && state == Opened ==>
              Walked(ws, k + 1, Closed, block + [Optional(Init(ws[k]))] + [ASTERISK], i', j')
  {
    hide Plain, Opens, Closes, Components, Optionals, Init;
    i', j' := i, j;
    var w := ws[k];
    match state {
      case NotOpened =>
        SliceSnoc(ws, 0, k);
        ComponentsSnoc(ws[..k], w);
        ComponentsSnoc(ws[..k], Init(w));
        OptionalsNone();
        if !Plain(w) { i' := k; }
      case Opened =>
        SliceSnoc(ws, i + 1, k);
        OptionalsSnoc(ws[i + 1..k], w);
        OptionalsSnoc(ws[i + 1..k], Init(w));
        ComponentsNone();
        var pre, opts := Components(ws[..i] + [Init(ws[i])]), Optionals(ws[i + 1..k]);
        ConcatAssociative(pre, opts, [Optional(w)]);
        ConcatAssociative(pre, opts, [Optional(Init(w))]);
        if !Plain(w) { j' := k; }
      case Closed =>
        SliceSnoc(ws, j + 1, k);
        ComponentsSnoc(ws[j + 1..k], w);
        ConcatAssociative(
          Components(ws[..i] + [Init(ws[i])]) + Optionals(ws[i + 1..j] + [Init(ws[j])]) + [ASTERISK],
          Components(ws[j + 1..k]), [Component(w)]);
    }
  }

  lemma SliceSnoc<T>(s: seq<T>, a: nat, k: nat)
    requires a <= k < |s|
    ensures s[a..k + 1] == s[a..k] + [s[k]]
  {
  }

  lemma ComponentsSnoc(ws: seq<Word>, w: Word)
    ensures Components(ws + [w]) == Components(ws) + [Component(w)]
  {
  }

  lemma OptionalsSnoc(ws: seq<Word>, w: Word)
    ensures Optionals(ws + [w]) == Optionals(ws) + [Optional(w)]
  {
  }

  lemma ComponentsNone()
    ensures Components([]) == []
  {
  }

  lemma OptionalsNone()
    ensures Optionals([]) == []
  {
  }

  /** After the last word the walk has the meaning, unless it ends on an optional or on the asterisk. */
  lemma WalkEnds(ws: seq<Word>, state: State, block: Cd, i: nat, j: nat)
    requires Walked(ws, |ws|, state, block, i, j)
    ensures Meaning(ws) == if block != [] && block[|block| - 1].typ != CD_COMPONENT then None else Some(block)
  {
    hide Plain, Opens, Closes;
    match state {
      case NotOpened =>
        assert ws[..|ws|] == ws;
        LeadingPlainIs(ws, |ws|);
      case Opened => EndsOpened(ws, block, i);
      case Closed => EndsClosed(ws, block, i, j);
    }
  }

  lemma EndsOpened(ws: seq<Word>, block: Cd, i: nat)
    requires Walked(ws, |ws|, Opened, block, i, 0)
    ensures Meaning(ws) == if block[|block| - 1].typ != CD_COMPONENT then None else Some(block)
  {
    hide Plain, Opens, Closes;
    LeadingPlainAt(ws, i);
    var rest := ws[i + 1..];
    assert ws[i + 1..|ws|] == rest;
    LeadingPlainIs(rest, |rest|);
    if rest == [] { assert block == Components(ws[..i] + [Init(ws[i])]); }
  }

  lemma EndsClosed(ws: seq<Word>, block: Cd, i: nat, j: nat)
    requires Walked(ws, |ws|, Closed, block, i, j)
    ensures Meaning(ws) == if block[|block| - 1].typ != CD_COMPONENT then None else Some(block)
  {
    hide Plain, Opens, Closes, Init, Components, Optionals;
    LeadingPlainAt(ws, i);
    LeadingPlainUpTo(ws, i + 1, j);
    SlicesOfTail(ws, i + 1, j);
    if ws[j + 1..] == [] {
      assert block[|block| - 1] == ASTERISK;
    }
  }

  lemma SlicesOfTail<T>(s: seq<T>, from: nat, j: nat)
    requires from <= j < |s|
    ensures var rest, n := s[from..], j - from;
            rest[..n] == s[from..j] && rest[n] == s[j] && rest[n + 1..] == s[j + 1..] == s[j + 1..|s|]
  {
  }

  lemma LeadingPlainAt(ws: seq<Word>, i: nat)
    requires i < |ws| && AllPlain(ws[..i]) && !Plain(ws[i])
    ensures LeadingPlain(ws) == i
  {
    forall x | 0 <= x < i ensures Plain(ws[x]) { assert ws[x] == ws[..i][x]; }
    LeadingPlainIs(ws, i);
  }

  lemma LeadingPlainUpTo(ws: seq<Word>, from: nat, j: nat)
    requires from <= j < |ws| && AllPlain(ws[from..j]) && !Plain(ws[j])
    ensures LeadingPlain(ws[from..]) == j - from
  {
    assert ws[from..][..j - from] == ws[from..j];
    LeadingPlainAt(ws[from..], j - from);
  }

  /** No continuation of the walk accepts a word that the state refuses. */
  lemma Stuck(ws: seq<Word>, k: nat, state: State, block: Cd, i: nat, j: nat)
    requires k < |ws| && Walked(ws, k, state, block, i, j)
    requires !Plain(ws[k])
    requires state == NotOpened ==> !Opens(ws[k])
    requires state == Opened ==> !Closes(ws[k])
    ensures Meaning(ws) == None
  {
    hide Plain, Opens, Closes;
    match state {
      case NotOpened =>
        LeadingPlainAt(ws, k);
      case Opened =>
        LeadingPlainAt(ws, i);
        LeadingPlainUpTo(ws, i + 1, k);
      case Closed =>
        LeadingPlainAt(ws, i);
        LeadingPlainUpTo(ws, i + 1, j);
        assert ws[i + 1..][j - i..][k - j - 1] == ws[k];
    }
  }

  // ---- Which words are accepted, and for what

  /** Not empty, and without parentheses. */
  ghost predicate PlainWord(w: Word) {
    w != [] && forall i :: 0 <= i < |w| ==> w[i] as char != '(' && w[i] as char != ')'
  }

  ghost predicate PlainWords(ws: seq<Word>) { forall i :: 0 <= i < |ws| ==> PlainWord(ws[i]) }

  /** `v` with an opening parenthesis behind it. A closing one may be part of `v`, and `v` may be empty. */
  ghost predicate OpeningWord(w: Word, v: Word) {
    |w| == |v| + 1 && w[..|v|] == v && w[|v|] as char == '(' && forall i :: 0 <= i < |v| ==> v[i] as char != '('
  }

  /** `v` with a closing parenthesis behind it. An opening one may be part of `v`, and `v` may be empty. */
  ghost predicate ClosingWord(w: Word, v: Word) {
    |w| == |v| + 1 && w[..|v|] == v && w[|v|] as char == ')' && forall i :: 0 <= i < |v| ==> v[i] as char != ')'
  }

  /** Plain words, and with a group words from the one that opens at `i` to the one that closes at `j`. */
  ghost predicate ReadsOpen(ws: seq<Word>, cd: Cd, v: Word) {
    && ws != [] && PlainWords(ws[..|ws| - 1]) && OpeningWord(ws[|ws| - 1], v)
    && cd == Components(ws[..|ws| - 1] + [v])
  }

  ghost predicate ReadsGroup(ws: seq<Word>, cd: Cd, i: nat, j: nat, v: Word, u: Word) {
    && i < j < |ws| - 1
    && PlainWords(ws[..i]) && OpeningWord(ws[i], v) && PlainWords(ws[i + 1..j]) && ClosingWord(ws[j], u)
    && PlainWords(ws[j + 1..])
    && cd == Components(ws[..i] + [v]) + Optionals(ws[i + 1..j] + [u]) + [ASTERISK] + Components(ws[j + 1..])
  }

  /**
   * The words stand for `cd`: all plain; or all plain but the last, which opens; or with one group, which
   * opens, closes, and has a plain word behind it.
   */
  ghost predicate Reads(ws: seq<Word>, cd: Cd) {
    || (PlainWords(ws) && cd == Components(ws))
    || (exists v :: ReadsOpen(ws, cd, v))
    || (exists i, j, v, u :: ReadsGroup(ws, cd, i, j, v, u))
  }

  lemma KindOfWord(w: Word)
    ensures Plain(w) <==> PlainWord(w)
    ensures Opens(w) ==> OpeningWord(w, Init(w))
    ensures Closes(w) ==> ClosingWord(w, Init(w))
    ensures forall v :: OpeningWord(w, v) ==> Opens(w) && v == Init(w) && !Plain(w)
    ensures forall v :: ClosingWord(w, v) ==> Closes(w) && v == Init(w) && !Plain(w)
  {
    if w != [] { assert w == Init(w) + [w[|w| - 1]]; }
    forall v | OpeningWord(w, v) ensures Opens(w) && v == Init(w) && !Plain(w) { assert w[|v|] in w; }
    forall v | ClosingWord(w, v) ensures Closes(w) && v == Init(w) && !Plain(w) { assert w[|v|] in w; }
  }

  lemma KindsOfWords(ws: seq<Word>)
    ensures AllPlain(ws) <==> PlainWords(ws)
  {
    hide Plain, PlainWord;
    forall w ensures Plain(w) <==> PlainWord(w) { KindOfWord(w); }
  }

  /** A list of words is accepted, as `cd`, exactly if it is one of the three kinds. */
  lemma MeaningIff(ws: seq<Word>, cd: Cd)
    ensures Meaning(ws) == Some(cd) <==> Reads(ws, cd)
  {
    hide Plain, Opens, Closes, PlainWord, OpeningWord, ClosingWord, Init, Meaning, Reads, ReadsOpen, ReadsGroup;
    if Meaning(ws) == Some(cd) { AcceptedReads(ws, cd); }
    if Reads(ws, cd) { ReadsAccepted(ws, cd); }
  }

  lemma AcceptedReads(ws: seq<Word>, cd: Cd)
    requires Meaning(ws) == Some(cd)
    ensures Reads(ws, cd)
  {
    hide Plain, Opens, Closes, PlainWord, OpeningWord, ClosingWord, Init;
    var i := LeadingPlain(ws);
    KindsOfWords(ws[..i]);
    if i == |ws| {
      assert ws[..i] == ws;
    } else {
      KindOfWord(ws[i]);
      var rest := ws[i + 1..];
      if rest == [] {
        assert ReadsOpen(ws, cd, Init(ws[i]));
      } else {
        var j := LeadingPlain(rest);
        KindOfWord(rest[j]);
        KindsOfWords(rest[..j]);
        KindsOfWords(rest[j + 1..]);
        assert rest[..j] == ws[i + 1..i + 1 + j] && rest[j] == ws[i + 1 + j] && rest[j + 1..] == ws[i + j + 2..];
        assert ReadsGroup(ws, cd, i, i + 1 + j, Init(ws[i]), Init(rest[j]));
      }
    }
  }

  lemma ReadsAccepted(ws: seq<Word>, cd: Cd)
    requires Reads(ws, cd)
    ensures Meaning(ws) == Some(cd)
  {
    hide Plain, Opens, Closes, PlainWord, OpeningWord, ClosingWord, Init;
    if PlainWords(ws) && cd == Components(ws) {
      KindsOfWords(ws);
      LeadingPlainIs(ws, |ws|);
    } else if v :| ReadsOpen(ws, cd, v) {
      OpenAccepted(ws, cd, v);
    } else {
      var i, j, v, u :| ReadsGroup(ws, cd, i, j, v, u);
      GroupAccepted(ws, cd, i, j, v, u);
    }
  }

  lemma OpenAccepted(ws: seq<Word>, cd: Cd, v: Word)
    requires ReadsOpen(ws, cd, v)
    ensures Meaning(ws) == Some(cd)
  {
    hide Plain, Opens, Closes, PlainWord, OpeningWord, ClosingWord, Init;
    var i := |ws| - 1;
    KindsOfWords(ws[..i]);
    KindOfWord(ws[i]);
    LeadingPlainAt(ws, i);
  }

  lemma GroupAccepted(ws: seq<Word>, cd: Cd, i: nat, j: nat, v: Word, u: Word)
    requires ReadsGroup(ws, cd, i, j, v, u)
    ensures Meaning(ws) == Some(cd)
  {
    hide Plain, Opens, Closes, PlainWord, OpeningWord, ClosingWord, Init, Components, Optionals;
    KindsOfWords(ws[..i]);
    KindsOfWords(ws[i + 1..j]);
    KindsOfWords(ws[j + 1..]);
    KindOfWord(ws[i]);
    KindOfWord(ws[j]);
    LeadingPlainAt(ws, i);
    LeadingPlainUpTo(ws, i + 1, j);
    SlicesOfTail(ws, i + 1, j);
  }

  /** No accepted list has an empty word. */
  lemma AcceptedWordsNotEmpty(ws: seq<Word>, k: nat)
    requires Meaning(ws).Some? && k < |ws|
    ensures ws[k] != []
  {
    hide Meaning;
    var cd := Meaning(ws).value;
    MeaningIff(ws, cd);
    if PlainWords(ws) && cd == Components(ws) {
      assert PlainWord(ws[k]);
    } else if v :| ReadsOpen(ws, cd, v) {
      if k < |ws| - 1 { assert ws[k] == ws[..|ws| - 1][k]; }
    } else {
      var i, j, v, u :| ReadsGroup(ws, cd, i, j, v, u);
      WordOfGroup(ws, k, cd, i, j, v, u);
    }
  }

  lemma WordOfGroup(ws: seq<Word>, k: nat, cd: Cd, i: nat, j: nat, v: Word, u: Word)
    requires k < |ws| && ReadsGroup(ws, cd, i, j, v, u)
    ensures ws[k] != []
  {
    if k < i {
      assert ws[k] == ws[..i][k];
    } else if i < k < j {
      assert ws[k] == ws[i + 1..j][k - i - 1];
    } else if j < k {
      assert ws[k] == ws[j + 1..][k - j - 1];
    }
  }
}

/**
 * Matching a publication's descriptor against a subscription. The matcher is greedy: it takes as
 * many optionals as the input repeats, and never gives one back.
 */
module Matcher {
  import opened Bytes
  import opened Tlv
  import opened Descriptors

  /** The elements of `p` are, by value, the first elements of `input`. */
  predicate ValuePrefix(p: Cd, input: Cd) {
    |p| <= |input| && forall i :: 0 <= i < |p| ==> p[i].value == input[i].value
  }

  /** The length of the longest common prefix, by value. */
  function Common(a: Cd, b: Cd): (n: nat)
    ensures n <= |a| && n <= |b| && ValuePrefix(a[..n], b)
    ensures n < |a| && n < |b| ==> a[n].value != b[n].value
  {
    if a == [] || b == [] || a[0].value != b[0].value then 0 else 1 + Common(a[1..], b[1..])
  }

  /** The first `k` optionals taken: `pre · opts[..k] · post`. */
  function Taking(entry: Cd, k: nat): Cd
    requires Grammatical(entry) && k <= StarAt(entry) - OpenAt(entry)
  {
    if Flat(entry) then entry
    else entry[..OpenAt(entry)] + entry[OpenAt(entry)..StarAt(entry)][..k] + entry[StarAt(entry) + 1..]
  }

  /** How many optionals the greedy walk takes on an input that repeats the leading components. */
  function Greedy(entry: Cd, input: Cd): (k: nat)
    requires Grammatical(entry)
    ensures k <= StarAt(entry) - OpenAt(entry)
  {
    if |input| < OpenAt(entry) then 0
    else Common(entry[OpenAt(entry)..StarAt(entry)], input[OpenAt(entry)..])
  }

  /** What the greedy choice of optionals makes of the entry is, by value, a prefix of the input. */
  predicate GreedyMatches(entry: Cd, input: Cd)
    requires Grammatical(entry)
  {
    ValuePrefix(Taking(entry, Greedy(entry, input)), input)
  }

  method IsEqualValue(entry: Block, input: Block) returns (r: bool)
    ensures r <==> entry.value == input.value
  {
    if |entry.value| != |input.value| {
      return false;
    }
    if 0 < |entry.value| {
      var c := MemCmp(entry.value, input.value);
      MemCmpZero(entry.value, input.value);
      if c != 0 {
        return false;
      }
    }
    return true;
  }

  // ---- The walk of `matchRegex`, on any entry at all

  /** Where the walk is: at an element of each descriptor, done with its answer, or off the entry's end. */
  datatype Walk = Walking(i: nat, j: nat) | Answered(yes: bool) | OffEnd

  /** The next component from `i` on, or the length of the entry. */
  function NextComponent(entry: Cd, i: nat): (k: nat)
    requires i <= |entry|
    ensures i <= k <= |entry|
    ensures forall x :: i <= x < k ==> entry[x].typ != CD_COMPONENT
    ensures k < |entry| ==> entry[k].typ == CD_COMPONENT
    decreases |entry| - i
  {
    if i == |entry| || entry[i].typ == CD_COMPONENT then i else NextComponent(entry, i + 1)
  }

  /**
   * One round of the loop. An element of no known type that differs from the input leaves the walk where
   * it is, and an optional that differs with no component behind it sends the walk off the end.
   */
  function Round(entry: Cd, input: Cd, w: Walk): Walk {
    match w
    case Walking(i, j) =>
      if |entry| <= i then Answered(true)
      else if |input| <= j then Answered(false)
      else if entry[i].typ == CD_ASTERISK then Walking(i + 1, j)
      else if entry[i].value == input[j].value then Walking(i + 1, j + 1)
      else if entry[i].typ == CD_OPTIONAL then
        var k := NextComponent(entry, i + 1);
        if k < |entry| then Walking(k, j) else OffEnd
      else if entry[i].typ == CD_COMPONENT then Answered(false)
      else w
    case Answered(_) => w
    case OffEnd => w
  }

  function After(entry: Cd, input: Cd, rounds: nat): Walk {
    if rounds == 0 then Walking(0, 0) else Round(entry, input, After(entry, input, rounds - 1))
  }

  /** The walk ends with an answer, without leaving the entry. */
  ghost predicate Halts(entry: Cd, input: Cd) { exists n: nat :: After(entry, input, n).Answered? }

  /** The walk answers yes. */
  ghost predicate Matches(entry: Cd, input: Cd) { exists n: nat :: After(entry, input, n) == Answered(true) }

  lemma AfterNone(entry: Cd, input: Cd)
    ensures After(entry, input, 0) == Walking(0, 0)
  {
  }

  lemma AfterNext(entry: Cd, input: Cd, n: nat)
    ensures After(entry, input, n + 1) == Round(entry, input, After(entry, input, n))
  {
  }

  /** A round that changes nothing is repeated for ever. */
  lemma {:induction false} Stuck(entry: Cd, input: Cd, m: nat, n: nat)
    requires m <= n && After(entry, input, m + 1) == After(entry, input, m)
    ensures After(entry, input, n) == After(entry, input, m)
    decreases n
  {
    if m < n { Stuck(entry, input, m, n - 1); }
  }

  /** Once there is an answer, it is the answer. */
  lemma AnswerStays(entry: Cd, input: Cd, n: nat)
    requires After(entry, input, n).Answered?
    ensures Halts(entry, input) && (Matches(entry, input) <==> After(entry, input, n).yes)
  {
    if m: nat :| After(entry, input, m).Answered? && After(entry, input, m) != After(entry, input, n) {
      if m < n { Stuck(entry, input, m, n); } else { Stuck(entry, input, n, m); }
    }
  }

  /** A walk that stands still short of an answer never gives one. */
  lemma NeverHalts(entry: Cd, input: Cd, n: nat)
    requires !After(entry, input, n).Answered? && After(entry, input, n + 1) == After(entry, input, n)
    ensures !Halts(entry, input)
  {
    hide After;
    forall m: nat ensures !After(entry, input, m).Answered? {
      if m < n {
        if After(entry, input, m).Answered? { AnsweredStays(entry, input, m, n); }
      } else {
        Stuck(entry, input, n, m);
      }
    }
  }

  lemma AnsweredStays(entry: Cd, input: Cd, m: nat, n: nat)
    requires m <= n && After(entry, input, m).Answered?
    ensures After(entry, input, n) == After(entry, input, m)
  {
    Stuck(entry, input, m, n);
  }

  /** The loop of `matchRegex`, on every entry and input for which it ends at all. */
  method MatchRegex(entry: Cd, input: Cd) returns (r: bool)
    requires Halts(entry, input)
    ensures r <==> Matches(entry, input)
  {
    var i, j := 0, 0;
    ghost var last: nat :| After(entry, input, last).Answered?;
    ghost var n := 0;
    hide Halts, Matches;
    while true
      invariant n < last && After(entry, input, n) == Walking(i, j) && i <= |entry| && j <= |input|
      decreases last - n
    {
      if n + 1 == last || After(entry, input, n + 1).Answered? { AnswerStays(entry, input, n + 1); }
      if i == |entry| {
        return true;
      }
      if j == |input| {
        return false;
      }
      var equal := IsEqualValue(entry[i], input[j]);
      ghost var from := i;
      if entry[i].typ == CD_ASTERISK {
        i := i + 1;
      } else if equal {
        i, j := i + 1, j + 1;
      } else if entry[i].typ == CD_OPTIONAL {
        i := i + 1;
        SkipStays(entry, input, n, last);
        while entry[i].typ != CD_COMPONENT
          invariant from < i <= NextComponent(entry, from + 1) < |entry|
          decreases |entry| - i
        {
          i := i + 1;
        }
      } else if entry[i].typ == CD_COMPONENT {
        return false;
      } else {
        Stuck(entry, input, n, last);
      }
      n := n + 1;
    }
  }

  /** A walk that still has an answer ahead does not leave the entry. */
  lemma SkipStays(entry: Cd, input: Cd, n: nat, last: nat)
    requires n < last && After(entry, input, last).Answered? && !After(entry, input, n).Answered?
    ensures After(entry, input, n + 1) != OffEnd && After(entry, input, n + 1) != After(entry, input, n)
  {
    if After(entry, input, n + 1) == OffEnd { Stuck(entry, input, n + 1, last); }
    if After(entry, input, n + 1) == After(entry, input, n) { Stuck(entry, input, n, last); }
  }

  // ---- Which entries are safe to match

  /** Elements of the three known types only, and a component somewhere behind every optional. */
  predicate Safe(entry: Cd) {
    forall i :: 0 <= i < |entry| ==> SafeAt(entry, i)
  }

  predicate SafeAt(entry: Cd, i: nat)
    requires i < |entry|
  {
    || entry[i].typ == CD_COMPONENT
    || entry[i].typ == CD_ASTERISK
    || (entry[i].typ == CD_OPTIONAL && exists k :: i < k < |entry| && entry[k].typ == CD_COMPONENT)
  }

  lemma {:induction false} SafeProgress(entry: Cd, input: Cd, n: nat)
    requires Safe(entry)
    ensures var w := After(entry, input, n);
            w.Answered? || (w.Walking? && n <= w.i <= |entry|)
  {
    if 0 < n {
      SafeProgress(entry, input, n - 1);
      var w := After(entry, input, n - 1);
      if w.Walking? && w.i < |entry| {
        assert SafeAt(entry, w.i);
        if entry[w.i].typ == CD_OPTIONAL {
          var k :| w.i < k < |entry| && entry[k].typ == CD_COMPONENT;
          assert NextComponent(entry, w.i + 1) <= k;
        }
      }
    }
  }

  lemma SafeHalts(entry: Cd, input: Cd)
    requires Safe(entry)
    ensures Halts(entry, input)
  {
    SafeProgress(entry, input, |entry|);
    SafeProgress(entry, input, |entry| + 1);
  }

  /** An input that takes the walk to element `i`: what comes before it, without asterisks. */
  function LeadUp(entry: Cd, i: nat): (input: Cd)
    requires i <= |entry|
  {
    if i == 0 then [] else LeadUp(entry, i - 1) + if entry[i - 1].typ == CD_ASTERISK then [] else [entry[i - 1]]
  }

  lemma {:induction false} Reaches(entry: Cd, i: nat, rest: Cd)
    requires i <= |entry| && rest != []
    ensures After(entry, LeadUp(entry, i) + rest, i) == Walking(i, |LeadUp(entry, i)|)
  {
    hide NextComponent, After;
    if i == 0 {
      AfterNone(entry, LeadUp(entry, i) + rest);
    } else {
      AfterNext(entry, LeadUp(entry, i) + rest, i - 1);
      var before, own := LeadUp(entry, i - 1), if entry[i - 1].typ == CD_ASTERISK then [] else [entry[i - 1]];
      ConcatAssociative(before, own, rest);
      Reaches(entry, i - 1, own + rest);
      assert (before + (own + rest))[|before|] == (own + rest)[0];
    }
  }

  /** At an unsafe element, an input that differs there keeps the walk from ever answering. */
  lemma UnsafeHangs(entry: Cd, i: nat) returns (input: Cd)
    requires i < |entry| && !SafeAt(entry, i)
    ensures !Halts(entry, input)
    ensures input == LeadUp(entry, i) + [Component(entry[i].value + [0])]
  {
    hide After, LeadUp;
    var other := Component(entry[i].value + [0]);
    input := LeadUp(entry, i) + [other];
    Reaches(entry, i, [other]);
    assert After(entry, input, i) == Walking(i, |input| - 1) && input[|input| - 1] == other;
    assert |entry[i].value| != |other.value|;
    AfterNext(entry, input, i);
    AfterNext(entry, input, i + 1);
    if entry[i].typ == CD_OPTIONAL {
      NeverHalts(entry, input, i + 1);
    } else {
      NeverHalts(entry, input, i);
    }
  }

  /** The walk ends with an answer on every input exactly when the entry is safe. */
  lemma SafeIff(entry: Cd)
    ensures Safe(entry) <==> forall input :: Halts(entry, input)
  {
    hide Halts;
    if Safe(entry) {
      forall input ensures Halts(entry, input) { SafeHalts(entry, input); }
    } else {
      var i :| 0 <= i < |entry| && !SafeAt(entry, i);
      var input := UnsafeHangs(entry, i);
    }
  }

  /** More specific publications match too: elements behind a matching input never undo the match. */
  lemma MatchExtends(entry: Cd, input: Cd, more: Cd)
    requires Matches(entry, input)
    ensures Matches(entry, input + more)
  {
    var n: nat :| After(entry, input, n) == Answered(true);
    SameWalk(entry, input, more, n);
  }

  lemma {:induction false} SameWalk(entry: Cd, input: Cd, more: Cd, n: nat)
    requires After(entry, input, n) != Answered(false)
    ensures After(entry, input + more, n) == After(entry, input, n)
  {
    if 0 < n { SameWalk(entry, input, more, n - 1); }
  }

  // ---- The walk on a grammatical entry

  /** `t` is `e` without what lies behind the first `k` elements from `o` on, up to and with element `s`. */
  ghost predicate Spliced(t: Cd, e: Cd, o: nat, s: nat, k: nat)
    requires o + k <= s < |e|
  {
    && |t| == |e| - (s + 1 - o) + k
    && (forall x :: 0 <= x < o + k ==> t[x] == e[x])
    && (forall x :: o + k <= x < |t| ==> t[x] == e[x + s + 1 - o - k])
  }

  lemma SpliceAt(e: Cd, o: nat, s: nat, k: nat)
    requires o + k <= s < |e|
    ensures Spliced(e[..o] + e[o..s][..k] + e[s + 1..], e, o, s, k)
  {
    assert e[..o] + e[o..s][..k] == e[..o + k];
  }

  /** The elements of `Taking(entry, k)`, one by one. */
  lemma TakingAt(entry: Cd, k: nat)
    requires Grammatical(entry) && !Flat(entry) && k <= StarAt(entry) - OpenAt(entry)
    ensures OpenAt(entry) + k <= StarAt(entry) < |entry|
    ensures Spliced(Taking(entry, k), entry, OpenAt(entry), StarAt(entry), k)
  {
    hide Grammatical, OpenAt, StarAt, Flat, Spliced;
    EntryBounds(entry);
    SpliceAt(entry, OpenAt(entry), StarAt(entry), k);
  }

  lemma EntryBounds(entry: Cd)
    requires Grammatical(entry) && !Flat(entry)
    ensures OpenAt(entry) < StarAt(entry) < |entry| - 1
  {
    hide OpenAt, StarAt, AllOfType;
  }

  lemma {:induction false} CommonUnique(a: Cd, b: Cd, n: nat)
    requires n <= |a| && n <= |b| && ValuePrefix(a[..n], b)
    requires n < |a| && n < |b| ==> a[n].value != b[n].value
    ensures Common(a, b) == n
  {
    if 0 < n {
      assert a[..n][0].value == b[0].value;
      TailPrefix(a, b, n);
      CommonUnique(a[1..], b[1..], n - 1);
    }
  }

  /** Where the walk stops repeating optionals is the greedy number of them. */
  lemma GreedyIs(entry: Cd, input: Cd, i: nat)
    requires Grammatical(entry) && !Flat(entry)
    requires OpenAt(entry) <= i <= StarAt(entry) && ValuePrefix(entry[..i], input)
    requires i < StarAt(entry) && i < |input| ==> entry[i].value != input[i].value
    ensures Greedy(entry, input) == i - OpenAt(entry)
  {
    var o := OpenAt(entry);
    var a, b := entry[o..StarAt(entry)], input[o..];
    forall x | 0 <= x < i - o
      ensures a[..i - o][x].value == b[x].value
    {
      assert a[..i - o][x] == entry[..i][o + x];
    }
    CommonUnique(a, b, i - o);
  }

  /**
   * Where the walk can be: at entry element `i` and input element `j`, with everything before
   * matched, and past the optionals only after taking the greedy number of them.
   */
  ghost predicate At(entry: Cd, input: Cd, i: nat, j: nat)
    requires Grammatical(entry) && i <= |entry| && j <= |input|
  {
    if Flat(entry) || i <= StarAt(entry) then
      j == i && ValuePrefix(entry[..i], input)
    else
      var k := Greedy(entry, input);
      j == i - (StarAt(entry) + 1 - OpenAt(entry)) + k && ValuePrefix(Taking(entry, k)[..j], input)
  }

  /** The types of the entry's elements, and its length, around the optionals. */
  lemma EntryTypes(entry: Cd)
    requires Grammatical(entry) && !Flat(entry)
    ensures OpenAt(entry) < StarAt(entry) < |entry| - 1
    ensures forall i :: 0 <= i < |entry| ==>
              entry[i].typ == if i < OpenAt(entry) || StarAt(entry) < i then CD_COMPONENT
                              else if i < StarAt(entry) then CD_OPTIONAL else CD_ASTERISK
  {
    ShapedTypes(entry, OpenAt(entry), StarAt(entry));
  }

  /** Both descriptors agree here: one step on each, except at the asterisk. */
  lemma StepBoth(entry: Cd, input: Cd, i: nat, j: nat)
    requires Grammatical(entry) && i < |entry| && j < |input| && At(entry, input, i, j)
    requires entry[i].typ != CD_ASTERISK && entry[i].value == input[j].value
    ensures At(entry, input, i + 1, j + 1)
  {
    hide OpenAt, StarAt, Greedy, Taking;
    if !Flat(entry) {
      EntryTypes(entry);
      TakingAt(entry, Greedy(entry, input));
    }
  }

  /** At the asterisk all optionals were taken. */
  lemma StepStar(entry: Cd, input: Cd, i: nat, j: nat)
    requires Grammatical(entry) && i < |entry| && j <= |input| && At(entry, input, i, j)
    requires entry[i].typ == CD_ASTERISK
    ensures At(entry, input, i + 1, j)
  {
    hide OpenAt, StarAt, Greedy, Taking;
    EntryTypes(entry);
    GreedyIs(entry, input, i);
    TakingAt(entry, Greedy(entry, input));
  }

  /** An optional that differs ends the greedy run: on to the component behind the asterisk. */
  lemma StepSkip(entry: Cd, input: Cd, i: nat, j: nat)
    requires Grammatical(entry) && i < |entry| && j < |input| && At(entry, input, i, j)
    requires entry[i].typ == CD_OPTIONAL && entry[i].value != input[j].value
    ensures !Flat(entry) && i < StarAt(entry) && At(entry, input, StarAt(entry) + 1, j)
  {
    hide OpenAt, StarAt, Greedy, Taking;
    EntryTypes(entry);
    GreedyIs(entry, input, i);
    TakingAt(entry, Greedy(entry, input));
  }

  lemma EndOfEntry(entry: Cd, input: Cd, j: nat)
    requires Grammatical(entry) && j <= |input| && At(entry, input, |entry|, j)
    ensures GreedyMatches(entry, input)
  {
    hide OpenAt, StarAt, Greedy;
    assert entry[..|entry|] == entry;
    if !Flat(entry) {
      EntryTypes(entry);
      TakingAt(entry, Greedy(entry, input));
      assert Taking(entry, Greedy(entry, input))[..j] == Taking(entry, Greedy(entry, input));
    }
  }

  /** The input ends, or a component differs, before the entry ends. */
  lemma NoMatch(entry: Cd, input: Cd, i: nat, j: nat)
    requires Grammatical(entry) && i < |entry| && j <= |input| && At(entry, input, i, j)
    requires j == |input| || (entry[i].typ == CD_COMPONENT && entry[i].value != input[j].value)
    ensures !GreedyMatches(entry, input)
  {
    hide OpenAt, StarAt, Greedy;
    if !Flat(entry) {
      EntryTypes(entry);
      if OpenAt(entry) <= i <= StarAt(entry) { GreedyIs(entry, input, i); }
      TakingAt(entry, Greedy(entry, input));
    }
  }

  lemma StartWalk(entry: Cd, input: Cd)
    requires Grammatical(entry)
    ensures At(entry, input, 0, 0)
  {
  }

  /** The last branch: an element that is neither optional nor asterisk is a component. */
  lemma OtherwiseComponent(entry: Cd, i: nat)
    requires Grammatical(entry) && i < |entry| && entry[i].typ != CD_ASTERISK && entry[i].typ != CD_OPTIONAL
    ensures entry[i].typ == CD_COMPONENT
  {
    hide OpenAt, StarAt;
    if !Flat(entry) { EntryTypes(entry); }
  }

  /** Every round keeps to the greedy choice, and the answer is its answer. */
  lemma {:induction false} WalkIsGreedy(entry: Cd, input: Cd, n: nat)
    requires Grammatical(entry)
    ensures var w := After(entry, input, n);
            match w
            case Walking(i, j) => i <= |entry| && j <= |input| && At(entry, input, i, j)
            case Answered(yes) => yes <==> GreedyMatches(entry, input)
            case OffEnd => false
  {
    hide OpenAt, StarAt, Greedy, Grammatical, Taking, GreedyMatches, Flat, At;
    if n == 0 {
      StartWalk(entry, input);
    } else {
      WalkIsGreedy(entry, input, n - 1);
      var w := After(entry, input, n - 1);
      if w.Walking? { RoundIsGreedy(entry, input, w.i, w.j); }
    }
  }

  lemma RoundIsGreedy(entry: Cd, input: Cd, i: nat, j: nat)
    requires Grammatical(entry) && i <= |entry| && j <= |input| && At(entry, input, i, j)
    ensures match Round(entry, input, Walking(i, j))
            case Walking(i', j') => i' <= |entry| && j' <= |input| && At(entry, input, i', j')
            case Answered(yes) => yes <==> GreedyMatches(entry, input)
            case OffEnd => false
  {
    hide OpenAt, StarAt, Greedy, Grammatical, Taking, GreedyMatches, Flat, At;
    if i == |entry| {
      EndOfEntry(entry, input, j);
    } else if j == |input| {
      NoMatch(entry, input, i, j);
    } else if entry[i].typ == CD_ASTERISK {
      StepStar(entry, input, i, j);
    } else if entry[i].value == input[j].value {
      StepBoth(entry, input, i, j);
    } else if entry[i].typ == CD_OPTIONAL {
      StepSkip(entry, input, i, j);
      EntryTypes(entry);
      var k := NextComponent(entry, i + 1);
      assert entry[StarAt(entry) + 1].typ == CD_COMPONENT && (k < |entry| ==> entry[k].typ == CD_COMPONENT);
      assert k == StarAt(entry) + 1;
    } else {
      OtherwiseComponent(entry, i);
      NoMatch(entry, input, i, j);
    }
  }

  lemma GrammaticalIsSafe(entry: Cd)
    requires Grammatical(entry)
    ensures Safe(entry)
  {
    if !Flat(entry) {
      EntryTypes(entry);
      hide OpenAt, StarAt, Grammatical;
      assert entry[|entry| - 1].typ == CD_COMPONENT;
    }
  }

  /**
   * On a grammatical entry `pre · opts · * · post` the walk always answers, and answers yes exactly when
   * `pre · opts[..m] · post` is a prefix of the input by value, `m` being the greedy number of optionals.
   */
  lemma MatchesIff(entry: Cd, input: Cd)
    requires Grammatical(entry)
    ensures Halts(entry, input)
    ensures Matches(entry, input) <==> GreedyMatches(entry, input)
  {
    GrammaticalIsSafe(entry);
    SafeHalts(entry, input);
    hide Grammatical, GreedyMatches, After;
    var n: nat :| After(entry, input, n).Answered?;
    AnswerStays(entry, input, n);
    WalkIsGreedy(entry, input, n);
  }

  /** Some number of optionals taken makes the entry a prefix of the input. */
  ghost predicate Possible(entry: Cd, input: Cd)
    requires Grammatical(entry)
  {
    exists k :: 0 <= k <= StarAt(entry) - OpenAt(entry) && ValuePrefix(Taking(entry, k), input)
  }

  /** No optional repeats the component that follows the asterisk. */
  predicate Unambiguous(entry: Cd)
    requires Grammatical(entry)
  {
    Flat(entry) || forall i :: OpenAt(entry) <= i < StarAt(entry) ==> entry[i].value != entry[StarAt(entry) + 1].value
  }

  /** What the greedy walk accepts some choice of optionals accepts. */
  lemma MatchIsPossible(entry: Cd, input: Cd)
    requires Grammatical(entry) && Matches(entry, input)
    ensures Possible(entry, input)
  {
    MatchesIff(entry, input);
    hide Matches;
    assert ValuePrefix(Taking(entry, Greedy(entry, input)), input);
  }

  /** On an unambiguous entry the only choice that can work is the greedy one. */
  lemma PossibleIsMatch(entry: Cd, input: Cd)
    requires Grammatical(entry) && Unambiguous(entry) && Possible(entry, input)
    ensures Matches(entry, input)
  {
    MatchesIff(entry, input);
    hide OpenAt, StarAt, Greedy, Grammatical, Taking, ValuePrefix, Unambiguous, Matches;
    var k :| 0 <= k <= StarAt(entry) - OpenAt(entry) && ValuePrefix(Taking(entry, k), input);
    if Flat(entry) {
      FlatTaking(entry, k, Greedy(entry, input));
    } else {
      FittingIsGreedy(entry, input, k);
    }
  }

  lemma FlatTaking(entry: Cd, j: nat, k: nat)
    requires Grammatical(entry) && Flat(entry)
    requires j <= StarAt(entry) - OpenAt(entry) && k <= StarAt(entry) - OpenAt(entry)
    ensures Taking(entry, j) == Taking(entry, k)
  {
  }

  lemma FittingIsGreedy(entry: Cd, input: Cd, k: nat)
    requires Grammatical(entry) && !Flat(entry) && Unambiguous(entry)
    requires k <= StarAt(entry) - OpenAt(entry) && ValuePrefix(Taking(entry, k), input)
    ensures Greedy(entry, input) == k
  {
    EntryTypes(entry);
    TakingAt(entry, k);
    hide OpenAt, StarAt, Greedy, Grammatical, Taking, Flat;
    var o, t := OpenAt(entry), Taking(entry, k);
    assert t[o + k].value == input[o + k].value;
    forall x | 0 <= x < o + k
      ensures entry[..o + k][x].value == input[x].value
    {
      assert t[x].value == input[x].value;
    }
    GreedyIs(entry, input, o + k);
  }

  /** On an ambiguous entry there is an input, without anything after it, that the greedy walk misses. */
  lemma AmbiguousMisses(entry: Cd, i: nat) returns (input: Cd)
    requires Grammatical(entry) && !Flat(entry)
    requires OpenAt(entry) <= i < StarAt(entry) && entry[i].value == entry[StarAt(entry) + 1].value
    ensures input == Taking(entry, i - OpenAt(entry))
    ensures Possible(entry, input) && !Matches(entry, input)
  {
    hide OpenAt, StarAt, Matches, Halts, Grammatical, GreedyMatches;
    input := Taking(entry, i - OpenAt(entry));
    assert ValuePrefix(input, input);
    GreedyTakesMore(entry, i);
    MatchesIff(entry, input);
  }

  /** On the input that takes the optionals before `i` only, the greedy walk takes `i` too and comes up short. */
  lemma GreedyTakesMore(entry: Cd, i: nat)
    requires Grammatical(entry) && !Flat(entry)
    requires OpenAt(entry) <= i < StarAt(entry) && entry[i].value == entry[StarAt(entry) + 1].value
    ensures !GreedyMatches(entry, Taking(entry, i - OpenAt(entry)))
  {
    hide OpenAt, StarAt, Grammatical, Flat, Taking;
    var o, s := OpenAt(entry), StarAt(entry);
    var k := i - o;
    var input := Taking(entry, k);
    EntryBounds(entry);
    TakingAt(entry, k);
    var a, b := entry[o..s], input[o..];
    forall x | 0 <= x < k + 1
      ensures a[..k + 1][x].value == b[x].value
    {
      assert a[x] == entry[o + x] && b[x] == input[o + x];
    }
    CommonAtLeast(a, b, k + 1);
    TakingAt(entry, Greedy(entry, input));
  }

  lemma {:induction false} CommonAtLeast(a: Cd, b: Cd, n: nat)
    requires n <= |a| && n <= |b| && ValuePrefix(a[..n], b)
    ensures n <= Common(a, b)
  {
    if 0 < n {
      assert a[..n][0].value == b[0].value;
      TailPrefix(a, b, n);
      CommonAtLeast(a[1..], b[1..], n - 1);
    }
  }

  lemma TailPrefix(a: Cd, b: Cd, n: nat)
    requires 0 < n <= |a| && n <= |b| && ValuePrefix(a[..n], b)
    ensures ValuePrefix(a[1..][..n - 1], b[1..])
  {
    forall x | 0 <= x < n - 1
      ensures a[1..][..n - 1][x].value == b[1..][x].value
    {
      assert a[1..][..n - 1][x] == a[..n][x + 1];
    }
  }

  /**
   * The greedy walk decides "some prefix of the optionals was taken" for every input exactly when no
   * optional repeats the first component after the asterisk.
   */
  lemma GreedyCompleteIff(entry: Cd)
    requires Grammatical(entry)
    ensures Unambiguous(entry) <==> forall input :: Matches(entry, input) <==> Possible(entry, input)
  {
    hide Matches;
    forall input
      ensures Matches(entry, input) ==> Possible(entry, input)
      ensures Unambiguous(entry) && Possible(entry, input) ==> Matches(entry, input)
    {
      if Matches(entry, input) { MatchIsPossible(entry, input); }
      if Unambiguous(entry) && Possible(entry, input) { PossibleIsMatch(entry, input); }
    }
    if !Unambiguous(entry) {
      var i :| OpenAt(entry) <= i < StarAt(entry) && entry[i].value == entry[StarAt(entry) + 1].value;
      var input := AmbiguousMisses(entry, i);
    }
  }

  /** `/1(/2)/2/x` does not match `/1/2/x`, although skipping its one optional would. */
  lemma GreedyMissExample()
    ensures var one, two, x := [0x31], [0x32], [0x78];
            var entry := [Component(one), Optional(two), ASTERISK, Component(two), Component(x)];
            var input := [Component(one), Component(two), Component(x)];
            Grammatical(entry) && Possible(entry, input) && !Matches(entry, input)
  {
    hide OpenAt, StarAt, Grammatical, Flat, Taking, Shaped, Matches, Possible, Spliced;
    var one: seq<Byte>, two: seq<Byte>, x: seq<Byte> := [0x31], [0x32], [0x78];
    var entry := [Component(one), Optional(two), ASTERISK, Component(two), Component(x)];
    ExampleShaped(one, two, x);
    ShapeUnique(entry, 1, 2);
    var input := AmbiguousMisses(entry, 1);
    TakingAt(entry, 0);
    SplicedExample(entry, input);
  }

  lemma ExampleShaped(a: seq<Byte>, b: seq<Byte>, c: seq<Byte>)
    ensures Shaped([Component(a), Optional(b), ASTERISK, Component(b), Component(c)], 1, 2)
  {
  }

  lemma SplicedExample(entry: Cd, input: Cd)
    requires |entry| == 5 && Spliced(input, entry, 1, 2, 0)
    ensures input == [entry[0], entry[3], entry[4]]
  {
  }
}

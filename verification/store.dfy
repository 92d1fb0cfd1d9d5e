/** lib/store.py: the alternatives maps, the anchored chat command patterns
    and the stop-word list. */
module Store {
  import opened Chars
  import opened PySets
  import AltMaps
  import Preprocessing

  // ---------------------------------------------------------------------
  // create_alternatives_map(alternatives): keys are the stripped terms

  function Identity(s: string): string { s }

  method CreateAlternativesMap(groups: seq<seq<string>>, setOrder: seq<string> -> seq<string>)
    returns (m: AltMaps.AltMap)
    ensures m == AltMaps.BuildSpec(groups, setOrder, Identity)
  {
    m := AltMaps.Build(groups, setOrder, Identity);
  }

  /** The keys are exactly the stripped terms of all groups, not lower-cased. */
  lemma AlternativesMapKeys(groups: seq<seq<string>>, setOrder: seq<string> -> seq<string>, k: string)
    requires AltMaps.OrdersEnumerate(groups, setOrder)
    ensures k in AltMaps.BuildSpec(groups, setOrder, Identity)
      <==> exists i, t :: 0 <= i < |groups| && t in groups[i] && Strip(t) == k
  {
    AltMaps.BuildSpecKeys(groups, setOrder, Identity, k);
    if exists i :: 0 <= i < |groups| && AltMaps.KeyIn(k, groups[i], Identity) {
      var i :| 0 <= i < |groups| && AltMaps.KeyIn(k, groups[i], Identity);
      var t :| t in groups[i] && Identity(Strip(t)) == k;
      assert Strip(t) == k;
    }
    if exists i, t :: 0 <= i < |groups| && t in groups[i] && Strip(t) == k {
      var i, t :| 0 <= i < |groups| && t in groups[i] && Strip(t) == k;
      assert AltMaps.KeyIn(k, groups[i], Identity);
    }
  }

  /** Each value lists its own key among its group's de-duplicated stripped terms. */
  lemma AlternativesMapValues(groups: seq<seq<string>>, setOrder: seq<string> -> seq<string>, k: string)
    requires AltMaps.OrdersEnumerate(groups, setOrder)
    requires k in AltMaps.BuildSpec(groups, setOrder, Identity)
    ensures var v := AltMaps.BuildSpec(groups, setOrder, Identity)[k];
      && k in v && Distinct(v)
      && exists i :: 0 <= i < |groups| && IsEnumeration(v, AltMaps.StripAll(groups[i]))
  {
    AltMaps.BuildSpecOwnGroup(groups, setOrder, Identity, k);
    var i :| 0 <= i < |groups| && AltMaps.KeyIn(k, groups[i], Identity) &&
      AltMaps.BuildSpec(groups, setOrder, Identity)[k] == AltMaps.Alternatives(groups[i], setOrder);
    var t :| t in groups[i] && Identity(Strip(t)) == k;
    var j :| 0 <= j < |groups[i]| && groups[i][j] == t;
    assert AltMaps.StripAll(groups[i])[j] == k;
    assert IsEnumeration(AltMaps.Alternatives(groups[i], setOrder), AltMaps.StripAll(groups[i]));
  }

  /** When several groups hold a term, the last of them supplies its list. */
  lemma AlternativesMapLastWins(groups: seq<seq<string>>, setOrder: seq<string> -> seq<string>, k: string, i: nat)
    requires AltMaps.OrdersEnumerate(groups, setOrder)
    requires i < |groups| && exists t :: t in groups[i] && Strip(t) == k
    requires forall j, t :: i < j < |groups| && t in groups[j] ==> Strip(t) != k
    ensures k in AltMaps.BuildSpec(groups, setOrder, Identity)
    ensures AltMaps.BuildSpec(groups, setOrder, Identity)[k] == setOrder(AltMaps.StripAll(groups[i]))
  {
    var t :| t in groups[i] && Strip(t) == k;
    assert AltMaps.KeyIn(k, groups[i], Identity);
    AltMaps.BuildSpecLastWins(groups, setOrder, Identity, k, i);
  }

  // ---------------------------------------------------------------------
  // RegexPatterns.Chat: ^(help|h)$, ^(exit|quit|q)$, ^(example(s)?|ex)$,
  // matched with re.match and re.IGNORECASE

  /** One alternative of an anchored pattern: a word and an optional suffix. */
  datatype Branch = Branch(word: string, optional: string)

  /** Where `$` matches: at the end, or just before a final newline. */
  predicate AtEnd(msg: string, pos: nat)
  {
    pos == |msg| || (pos + 1 == |msg| && msg[pos] == '\n')
  }

  predicate BranchMatches(msg: string, b: Branch)
  {
    || (StartsWithIgnoreCase(msg, b.word + b.optional) && AtEnd(msg, |b.word + b.optional|))
    || (StartsWithIgnoreCase(msg, b.word) && AtEnd(msg, |b.word|))
  }

  /** `re.match('^(b1|b2|...)$', msg, re.IGNORECASE)` succeeds. */
  predicate AnchoredMatch(msg: string, pattern: seq<Branch>)
  {
    exists i :: 0 <= i < |pattern| && BranchMatches(msg, pattern[i])
  }

  const HelpPattern: seq<Branch> := [Branch("help", ""), Branch("h", "")]
  const QuitPattern: seq<Branch> := [Branch("exit", ""), Branch("quit", ""), Branch("q", "")]
  const ExamplePattern: seq<Branch> := [Branch("example", "s"), Branch("ex", "")]

  /** The message without one final newline. */
  function Body(msg: string): (b: string)
    ensures msg == b || msg == b + "\n"
  {
    if msg != [] && msg[|msg| - 1] == '\n' then msg[..|msg| - 1] else msg
  }

  /** A branch word matches exactly the messages whose body is that word. */
  lemma WordMatch(msg: string, w: string)
    requires '\n' !in w
    ensures (StartsWithIgnoreCase(msg, w) && AtEnd(msg, |w|)) <==> EqualsIgnoreCase(Body(msg), w)
  {
    if StartsWithIgnoreCase(msg, w) && AtEnd(msg, |w|) {
      if |w| == |msg| {
        assert msg[..|w|] == msg;
        assert msg != [] ==> LowerStr(msg)[|msg| - 1] == LowerStr(w)[|w| - 1];
      } else {
        assert Body(msg) == msg[..|w|];
      }
    }
    if EqualsIgnoreCase(Body(msg), w) {
      assert |Body(msg)| == |LowerStr(Body(msg))| == |w|;
      assert msg[..|w|] == Body(msg);
      if msg != [] && msg[|msg| - 1] == '\n' {
        assert |w| + 1 == |msg| && msg[|w|] == '\n';
      } else {
        assert |w| == |msg|;
      }
      assert AtEnd(msg, |w|);
      assert StartsWithIgnoreCase(msg, w);
    }
  }

  lemma BranchWords(msg: string, b: Branch)
    requires '\n' !in b.word + b.optional
    ensures BranchMatches(msg, b) <==>
      EqualsIgnoreCase(Body(msg), b.word + b.optional) || EqualsIgnoreCase(Body(msg), b.word)
  {
    WordMatch(msg, b.word + b.optional);
    WordMatch(msg, b.word);
  }

  lemma {:induction false} AnchoredMatchBranches(msg: string, pattern: seq<Branch>)
    ensures AnchoredMatch(msg, pattern) <==> pattern != [] && (BranchMatches(msg, pattern[0]) || AnchoredMatch(msg, pattern[1..]))
  {
    if AnchoredMatch(msg, pattern) && !BranchMatches(msg, pattern[0]) {
      var i :| 0 <= i < |pattern| && BranchMatches(msg, pattern[i]);
      assert pattern[1..][i - 1] == pattern[i];
    }
    if pattern != [] && AnchoredMatch(msg, pattern[1..]) {
      var i :| 0 <= i < |pattern[1..]| && BranchMatches(msg, pattern[1..][i]);
      assert BranchMatches(msg, pattern[i + 1]);
    }
  }

  /** Only "help" and "h" match the help command, in any case. */
  lemma HelpMatchesOnly(msg: string)
    ensures AnchoredMatch(msg, HelpPattern) <==>
      EqualsIgnoreCase(Body(msg), "help") || EqualsIgnoreCase(Body(msg), "h")
  {
    var p := HelpPattern;
    AnchoredMatchBranches(msg, p);
    AnchoredMatchBranches(msg, p[1..]);
    AnchoredMatchBranches(msg, p[1..][1..]);
    assert p[1..][1..] == [];
    BranchWords(msg, p[0]);
    BranchWords(msg, p[1..][0]);
    assert p[0].word + p[0].optional == "help";
    assert p[1..][0].word + p[1..][0].optional == "h";
  }

  /** Only "exit", "quit" and "q" match the quit command, in any case. */
  lemma QuitMatchesOnly(msg: string)
    ensures AnchoredMatch(msg, QuitPattern) <==>
      EqualsIgnoreCase(Body(msg), "exit") || EqualsIgnoreCase(Body(msg), "quit") || EqualsIgnoreCase(Body(msg), "q")
  {
    var p := QuitPattern;
    AnchoredMatchBranches(msg, p);
    AnchoredMatchBranches(msg, p[1..]);
    AnchoredMatchBranches(msg, p[1..][1..]);
    AnchoredMatchBranches(msg, p[1..][1..][1..]);
    assert p[1..][1..][1..] == [];
    BranchWords(msg, p[0]);
    BranchWords(msg, p[1..][0]);
    BranchWords(msg, p[1..][1..][0]);
    assert p[0].word + p[0].optional == "exit";
    assert p[1..][0].word + p[1..][0].optional == "quit";
    assert p[1..][1..][0].word + p[1..][1..][0].optional == "q";
  }

  /** Only "example", "examples" and "ex" match the example command, in any case. */
  lemma ExampleMatchesOnly(msg: string)
    ensures AnchoredMatch(msg, ExamplePattern) <==>
      EqualsIgnoreCase(Body(msg), "example") || EqualsIgnoreCase(Body(msg), "examples") || EqualsIgnoreCase(Body(msg), "ex")
  {
    var p := ExamplePattern;
    AnchoredMatchBranches(msg, p);
    AnchoredMatchBranches(msg, p[1..]);
    AnchoredMatchBranches(msg, p[1..][1..]);
    assert p[1..][1..] == [];
    BranchWords(msg, p[0]);
    BranchWords(msg, p[1..][0]);
    assert p[0].word + p[0].optional == "examples";
    assert p[1..][0].word + p[1..][0].optional == "ex";
  }

  // ---------------------------------------------------------------------
  // stop_words

  /** A non-empty run of lower-case ASCII letters. */
  type LowerWord = w: string | w != [] && forall j :: 0 <= j < |w| ==> IsLower(w[j])
    witness "a"

  const StopWords0: seq<LowerWord> := ["i", "me", "my", "myself", "we", "our", "ours", "ourselves"]
  const StopWords1: seq<LowerWord> := ["you", "your", "yours", "yourself", "yourselves", "he", "him", "his"]
  const StopWords2: seq<LowerWord> := ["himself", "she", "her", "hers", "herself", "it", "its", "itself"]
  const StopWords3: seq<LowerWord> := ["they", "them", "their", "theirs", "themselves", "what", "which", "who"]
  const StopWords4: seq<LowerWord> := ["whom", "this", "that", "these", "those", "am", "is", "are"]
  const StopWords5: seq<LowerWord> := ["was", "were", "be", "been", "being", "have", "has", "had"]
  const StopWords6: seq<LowerWord> := ["having", "do", "does", "did", "doing", "a", "an", "the"]
  const StopWords7: seq<LowerWord> := ["and", "but", "if", "or", "because", "as", "until", "while"]
  const StopWords8: seq<LowerWord> := ["of", "at", "by", "for", "with", "about", "against", "between"]
  const StopWords9: seq<LowerWord> := ["into", "through", "during", "before", "after", "above", "below", "to"]
  const StopWords10: seq<LowerWord> := ["from", "up", "down", "in", "out", "on", "off", "over"]
  const StopWords11: seq<LowerWord> := ["under", "again", "further", "then", "once", "here", "there", "when"]
  const StopWords12: seq<LowerWord> := ["where", "why", "how", "all", "any", "both", "each", "few"]
  const StopWords13: seq<LowerWord> := ["more", "most", "other", "some", "such", "no", "nor", "not"]
  const StopWords14: seq<LowerWord> := ["only", "own", "same", "so", "than", "too", "very", "s"]
  const StopWords15: seq<LowerWord> := ["t", "can", "will", "just", "don", "should", "now"]

  /** `stop_words`, in the order of the source list. */
  const StopWords: seq<LowerWord> :=
    StopWords0 + StopWords1 + StopWords2 + StopWords3 + StopWords4 + StopWords5 + StopWords6 + StopWords7
    + StopWords8 + StopWords9 + StopWords10 + StopWords11 + StopWords12 + StopWords13 + StopWords14 + StopWords15

  /** Every stop word is made of word characters, so the list can drive the
      whole-word deletion, and it is already in lower case. */
  lemma StopWordsValid()
    ensures Preprocessing.ValidStopList(StopWords)
    ensures forall k :: 0 <= k < |StopWords| ==> LowerStr(StopWords[k]) == StopWords[k]
  {
    forall k | 0 <= k < |StopWords|
      ensures forall j :: 0 <= j < |StopWords[k]| ==> IsWord(StopWords[k][j])
      ensures LowerStr(StopWords[k]) == StopWords[k]
    {
      var w: LowerWord := StopWords[k];
      assert forall j :: 0 <= j < |w| ==> IsLower(w[j]);
    }
  }
}

/** lib/chat/ChatBot.py: the capability table, first-match dispatch of a
    preprocessed message, and the message pre- and post-processing. */
module Chat {
  import opened Wrappers
  import opened Chars
  import Utils
  import Preprocessing
  import Store
  import opened Responses

  // ---------------------------------------------------------------------
  // RegexPatterns and the capabilities table

  datatype Capability = Quit | Help | Example | FirstMention | WordsAround | WordsCooccur

  /** `self.capabilities`, in insertion order. */
  const Capabilities: seq<Capability> := [Quit, Help, Example, FirstMention, WordsAround, WordsCooccur]

  /** `match.groupdict()`: the named groups, in the order of the pattern. */
  type Kwargs = seq<(string, string)>

  /** Where a `.*` starting at `from` stops: the next newline, or the end. */
  function LineEnd(s: string, from: nat): (e: nat)
    requires from <= |s|
    ensures from <= e <= |s|
    ensures forall i :: from <= i < e ==> s[i] != '\n'
    ensures e == |s| || s[e] == '\n'
    decreases |s| - from
  {
    if from == |s| || s[from] == '\n' then from else LineEnd(s, from + 1)
  }

  /** `" and "`, in any case, starts at `q`. */
  predicate AndAt(s: string, q: nat)
  {
    q + 5 <= |s| && EqualsIgnoreCase(s[q..q + 5], " and ")
  }

  /** The last start `p` in `[lo, hi - 5]` of `" and "`, in any case: where
      the greedy `(?P<entity1>.*)` gives back just enough. */
  function LastAnd(s: string, lo: nat, hi: nat): (p: Option<nat>)
    requires lo <= hi <= |s|
    ensures p.Some? ==> lo <= p.value && p.value + 5 <= hi && AndAt(s, p.value)
    ensures p.Some? ==> forall q :: p.value < q && q + 5 <= hi ==> !AndAt(s, q)
    ensures p.None? ==> forall q :: lo <= q && q + 5 <= hi ==> !AndAt(s, q)
    decreases hi
  {
    if hi < lo + 5 then None
    else if AndAt(s, hi - 5) then Some(hi - 5)
    else LastAnd(s, lo, hi - 1)
  }

  /** `re.match(pattern, msg, re.IGNORECASE)` for each capability's pattern,
      with its named groups. */
  function Match(c: Capability, msg: string): Option<Kwargs>
  {
    match c
    case Quit => if Store.AnchoredMatch(msg, Store.QuitPattern) then Some([]) else None
    case Help => if Store.AnchoredMatch(msg, Store.HelpPattern) then Some([]) else None
    case Example => if Store.AnchoredMatch(msg, Store.ExamplePattern) then Some([]) else None
    case FirstMention =>
      // first (?P<entity>.*)
      if StartsWithIgnoreCase(msg, "first ") then Some([("entity", msg[6..LineEnd(msg, 6)])]) else None
    case WordsAround =>
      // (?P<num_words>\d+) around (?P<entity>.*)
      var n := RunLength(msg, IsDigit);
      if n > 0 && StartsWithIgnoreCase(msg[n..], " around ") then
        Some([("num_words", msg[..n]), ("entity", msg[n + 8..LineEnd(msg, n + 8)])])
      else None
    case WordsCooccur =>
      // cooccur (?P<entity1>.*) and (?P<entity2>.*)
      if StartsWithIgnoreCase(msg, "cooccur ") then
        var e := LineEnd(msg, 8);
        match LastAnd(msg, 8, e)
        case Some(p) => Some([("entity1", msg[8..p]), ("entity2", msg[p + 5..e])])
        case None => None
      else None
  }

  /** What the dispatch picks: an entry with its arguments, or the fallback. */
  datatype Route = Invoke(cap: Capability, args: Kwargs) | Fallback

  /** The `for ... else` over the table: the first entry that matches. */
  function FirstMatch(caps: seq<Capability>, msg: string): Route
    decreases |caps|
  {
    if caps == [] then Fallback
    else match Match(caps[0], msg)
      case Some(kw) => Invoke(caps[0], kw)
      case None => FirstMatch(caps[1..], msg)
  }

  // ---------------------------------------------------------------------
  // preprocess_msg

  function PreprocessMsg(msg: string): string
  {
    Strip(Preprocessing.RemoveExtraWhitespace(Utils.RemovePunctuation(msg)))
  }

  /** One turn of the chat loop up to the choice of handler: `None` is the
      `continue` on an empty preprocessed message. */
  method Dispatch(msg: string) returns (route: Option<Route>)
    ensures var m := PreprocessMsg(msg);
      route == if m == [] then None else Some(FirstMatch(Capabilities, m))
  {
    var m := PreprocessMsg(msg);
    if m == [] {
      return None;
    }
    route := Some(Fallback);
    var i := 0;
    while i < |Capabilities|
      invariant 0 <= i <= |Capabilities|
      invariant FirstMatch(Capabilities, m) == FirstMatch(Capabilities[i..], m)
      invariant route == Some(Fallback)
    {
      var kw := Match(Capabilities[i], m);
      FirstMatchFrom(Capabilities, m, i);
      if kw.Some? {
        route := Some(Invoke(Capabilities[i], kw.value));
        break;
      }
      i := i + 1;
    }
  }

  /** One step of the search from entry `i`. */
  lemma FirstMatchFrom(caps: seq<Capability>, msg: string, i: nat)
    requires i < |caps|
    ensures FirstMatch(caps[i..], msg) ==
      match Match(caps[i], msg)
      case Some(kw) => Invoke(caps[i], kw)
      case None => FirstMatch(caps[i + 1..], msg)
  {
    assert caps[i..][0] == caps[i] && caps[i..][1..] == caps[i + 1..];
  }
  // ---------------------------------------------------------------------
  // What the dispatch promises

  /** The first matching entry wins: no earlier entry matches, and the
      fallback is taken exactly when no entry matches. */
  lemma {:induction false} FirstMatchWins(caps: seq<Capability>, msg: string)
    ensures var r := FirstMatch(caps, msg);
      r.Invoke? ==> exists i :: (0 <= i < |caps| && caps[i] == r.cap && Match(caps[i], msg) == Some(r.args)
                                 && forall j :: 0 <= j < i ==> Match(caps[j], msg).None?)
    ensures FirstMatch(caps, msg).Fallback? <==> forall j :: 0 <= j < |caps| ==> Match(caps[j], msg).None?
    decreases |caps|
  {
    if caps != [] {
      FirstMatchWins(caps[1..], msg);
      forall j | 0 <= j < |caps[1..]| ensures caps[1..][j] == caps[j + 1] { }
      var r := FirstMatch(caps, msg);
      if Match(caps[0], msg).None? {
        if r.Invoke? {
          var i :| 0 <= i < |caps[1..]| && caps[1..][i] == r.cap && Match(caps[1..][i], msg) == Some(r.args)
            && forall j :: 0 <= j < i ==> Match(caps[1..][j], msg).None?;
          assert forall j :: 0 <= j < i + 1 ==> Match(caps[j], msg).None? by {
            forall j | 0 <= j < i + 1 ensures Match(caps[j], msg).None? {
              if j > 0 { assert caps[j] == caps[1..][j - 1]; }
            }
          }
          assert caps[i + 1] == r.cap && Match(caps[i + 1], msg) == Some(r.args);
        }
        if forall j :: 0 <= j < |caps[1..]| ==> Match(caps[1..][j], msg).None? {
          forall j | 0 <= j < |caps| ensures Match(caps[j], msg).None? {
            if j > 0 { assert caps[j] == caps[1..][j - 1]; }
          }
        }
      } else {
        assert caps[0] == r.cap && Match(caps[0], msg) == Some(r.args);
      }
    }
  }

  /** An entry that matches, after entries that do not, is the one invoked. */
  lemma {:induction false} FirstMatchAt(caps: seq<Capability>, msg: string, i: nat)
    requires i < |caps| && Match(caps[i], msg).Some?
    requires forall j :: 0 <= j < i ==> Match(caps[j], msg).None?
    ensures FirstMatch(caps, msg) == Invoke(caps[i], Match(caps[i], msg).value)
    decreases i
  {
    if i > 0 {
      FirstMatchAt(caps[1..], msg, i - 1);
    }
  }

  /** Only messages that begin with "first " (in any case) and are none of
      the three commands reach the first-mention handler, and its entity is
      the rest of the first line. */
  lemma OnlyFirstReachesFirstMention(msg: string)
    requires FirstMatch(Capabilities, msg).Invoke? && FirstMatch(Capabilities, msg).cap == FirstMention
    ensures StartsWithIgnoreCase(msg, "first ")
    ensures FirstMatch(Capabilities, msg).args == [("entity", msg[6..LineEnd(msg, 6)])]
    ensures !Store.AnchoredMatch(msg, Store.QuitPattern) && !Store.AnchoredMatch(msg, Store.HelpPattern)
    ensures !Store.AnchoredMatch(msg, Store.ExamplePattern)
  {
    FirstMatchWins(Capabilities, msg);
    var i :| 0 <= i < |Capabilities| && Capabilities[i] == FirstMention
      && Match(Capabilities[i], msg) == Some(FirstMatch(Capabilities, msg).args)
      && forall j :: 0 <= j < i ==> Match(Capabilities[j], msg).None?;
    assert i == 3;
    assert Match(Capabilities[0], msg).None? && Match(Capabilities[1], msg).None? && Match(Capabilities[2], msg).None?;
  }

  /** For "cooccur", `entity1` runs to the LAST " and " of the first line,
      so `entity2` holds no " and "; neither crosses a newline. */
  lemma CooccurSplitsAtLastAnd(msg: string)
    requires Match(WordsCooccur, msg).Some?
    ensures var kw := Match(WordsCooccur, msg).value;
      var e := LineEnd(msg, 8);
      && |kw| == 2 && kw[0].0 == "entity1" && kw[1].0 == "entity2"
      && var p := 8 + |kw[0].1|;
      && StartsWithIgnoreCase(msg, "cooccur ")
      && p + 5 + |kw[1].1| == e
      && msg[8..p] == kw[0].1 && AndAt(msg, p) && msg[p + 5..e] == kw[1].1
      && (forall q :: p < q && q + 5 <= e ==> !AndAt(msg, q))
      && '\n' !in kw[0].1 && '\n' !in kw[1].1
  {
  }

  /** A message the quit pattern matches always quits: QUIT is tried first. */
  lemma QuitComesFirst(msg: string)
    requires Store.AnchoredMatch(msg, Store.QuitPattern)
    ensures FirstMatch(Capabilities, msg) == Invoke(Quit, [])
  {
  }

  // ---------------------------------------------------------------------
  // What preprocessing promises

  /** The final strip changes nothing, and the message that is matched has
      no punctuation but backslash and normalised whitespace. */
  lemma PreprocessMsgShape(msg: string)
    ensures PreprocessMsg(msg) == Preprocessing.RemoveExtraWhitespace(Utils.RemovePunctuation(msg))
    ensures forall i :: 0 <= i < |PreprocessMsg(msg)| ==> !Utils.DeletedByPunctuationClass(PreprocessMsg(msg)[i])
    ensures var m := PreprocessMsg(msg);
      Preprocessing.SingleSpaced(m) && Preprocessing.NoSpaceAfterNewline(m) && Preprocessing.NoSpaceBeforeNewline(m)
  {
    var t := Utils.RemovePunctuation(msg);
    var r := Preprocessing.RemoveExtraWhitespace(t);
    Preprocessing.RemoveExtraWhitespaceShape(t);
    StripStripped(r);
    Preprocessing.RemoveExtraWhitespaceKeepsText(t);
    SameTextNoPunctuation(t, r);
  }

  /** Moving whitespace around brings in no punctuation. */
  lemma SameTextNoPunctuation(t: string, r: string)
    requires Filter(r, IsNotSpace) == Filter(t, IsNotSpace)
    requires forall c :: c in t ==> !Utils.DeletedByPunctuationClass(c)
    ensures forall i :: 0 <= i < |r| ==> !Utils.DeletedByPunctuationClass(r[i])
  {
    forall i | 0 <= i < |r| ensures !Utils.DeletedByPunctuationClass(r[i]) {
      if IsNotSpace(r[i]) {
        FilterMembers(r, IsNotSpace, r[i]);
        FilterMembers(t, IsNotSpace, r[i]);
      }
    }
  }

  /** A word followed by punctuation is matched as the bare word: "quit!"
      dispatches to QUIT. */
  lemma PunctuationAfterWord(w: string, p: string)
    requires w != [] && forall i :: 0 <= i < |w| ==> IsLetter(w[i])
    requires forall i :: 0 <= i < |p| ==> Utils.DeletedByPunctuationClass(p[i])
    ensures PreprocessMsg(w + p) == w
  {
    PunctuationJoinsWord(w, p, []);
    assert w + p + [] == w + p && w + [] == w;
    assert Utils.RemovePunctuation(w + p) == w;
    Preprocessing.NoSpaceFixedPoint(w);
    StripStripped(w);
  }

  lemma QuitWithPunctuation(p: string)
    requires forall i :: 0 <= i < |p| ==> Utils.DeletedByPunctuationClass(p[i])
    ensures FirstMatch(Capabilities, PreprocessMsg("quit" + p)) == Invoke(Quit, [])
  {
    PunctuationAfterWord("quit", p);
    Store.QuitMatchesOnly("quit");
    assert Store.Body("quit") == "quit";
  }

  /** Punctuation inside a word is deleted and the halves join up: the
      command "co-occur" is matched as "cooccur". */
  lemma PunctuationJoinsWord(a: string, p: string, b: string)
    requires forall i :: 0 <= i < |a| ==> Utils.KeptByPunctuationClass(a[i])
    requires forall i :: 0 <= i < |p| ==> Utils.DeletedByPunctuationClass(p[i])
    requires forall i :: 0 <= i < |b| ==> Utils.KeptByPunctuationClass(b[i])
    ensures Utils.RemovePunctuation(a + p + b) == a + b
  {
    var keep := Utils.KeptByPunctuationClass;
    FilterConcat(a + p, b, keep);
    FilterConcat(a, p, keep);
    FilterAll(a, keep);
    FilterAll(b, keep);
    assert forall i :: 0 <= i < |p| ==> !keep(p[i]);
    FilterNone(p, keep);
    assert Filter(a + p, keep) == a;
  }

  // ---------------------------------------------------------------------
  // postprocess_msg

  /** `[.,!?;:]` */
  predicate IsClosing(c: char)
  {
    c == '.' || c == ',' || c == '!' || c == '?' || c == ';' || c == ':'
  }

  /** `re.sub(r"\s+([.,!?;:])", r"\1", msg)`: each whitespace run right
      before one of `.,!?;:` is deleted. */
  function DropSpaceBeforeClosing(s: string): (r: string)
    ensures |r| <= |s|
    ensures r == [] <==> s == []
    decreases |s|
  {
    if s == [] then []
    else if IsSpace(s[0]) then
      var k := RunLength(s, IsSpace);
      if k < |s| && IsClosing(s[k]) then DropSpaceBeforeClosing(s[k..])
      else s[..k] + DropSpaceBeforeClosing(s[k..])
    else [s[0]] + DropSpaceBeforeClosing(s[1..])
  }

  /** The first character of the result: the input's, unless a deleted run
      starts the input. */
  lemma DropFirst(s: string)
    requires s != []
    ensures !IsSpace(s[0]) ==> DropSpaceBeforeClosing(s)[0] == s[0]
    ensures IsSpace(s[0]) ==>
      var k := RunLength(s, IsSpace);
      DropSpaceBeforeClosing(s)[0] == if k < |s| && IsClosing(s[k]) then s[k] else s[0]
  {
    if IsSpace(s[0]) {
      var k := RunLength(s, IsSpace);
      if k < |s| && IsClosing(s[k]) {
        assert s[k..][0] == s[k] && !IsSpace(s[k]);
      }
    }
  }

  /** Whitespace at `i` directly followed by one of `.,!?;:`. */
  predicate SpaceBeforeClosingAt(s: string, i: nat)
  {
    i + 1 < |s| && IsSpace(s[i]) && IsClosing(s[i + 1])
  }

  /** No whitespace is left right before `.,!?;:`. */
  lemma {:induction false} DropLeavesNoSpaceBeforeClosing(s: string)
    ensures forall i: nat :: !SpaceBeforeClosingAt(DropSpaceBeforeClosing(s), i)
    decreases |s|
  {
    if s != [] {
      var r := DropSpaceBeforeClosing(s);
      if IsSpace(s[0]) {
        var k := RunLength(s, IsSpace);
        DropLeavesNoSpaceBeforeClosing(s[k..]);
        if k < |s| && IsClosing(s[k]) {
          assert r == DropSpaceBeforeClosing(s[k..]);
        } else {
          var d := DropSpaceBeforeClosing(s[k..]);
          assert r == s[..k] + d;
          if d != [] {
            DropFirst(s[k..]);
            assert d[0] == s[k];
          }
          forall i: nat | i + 1 < |r| && IsSpace(r[i]) ensures !IsClosing(r[i + 1]) {
            if i < k - 1 {
              assert r[i + 1] == s[i + 1] && IsSpace(s[i + 1]);
            } else if i == k - 1 {
              assert r[i + 1] == d[0];
            } else {
              assert r[i] == d[i - k] && r[i + 1] == d[i - k + 1];
              assert !SpaceBeforeClosingAt(d, i - k);
            }
          }
        }
      } else {
        DropLeavesNoSpaceBeforeClosing(s[1..]);
        var d := DropSpaceBeforeClosing(s[1..]);
        assert r == [s[0]] + d;
        forall i: nat | i + 1 < |r| && IsSpace(r[i]) ensures !IsClosing(r[i + 1]) {
          assert r[0] == s[0];
          assert i > 0;
          assert r[i] == d[i - 1] && r[i + 1] == d[i];
          assert !SpaceBeforeClosingAt(d, i - 1);
        }
      }
    }
  }

  /** Only whitespace is deleted: the other characters survive, in order. */
  lemma {:induction false} DropKeepsText(s: string)
    ensures Filter(DropSpaceBeforeClosing(s), IsNotSpace) == Filter(s, IsNotSpace)
    decreases |s|
  {
    if s != [] {
      if IsSpace(s[0]) {
        var k := RunLength(s, IsSpace);
        DropKeepsText(s[k..]);
        DropKeepsRun(s, k);
      } else {
        DropKeepsText(s[1..]);
        DropKeepsChar(s);
      }
    }
  }

  /** The step of DropKeepsText for a text that starts with whitespace. */
  lemma DropKeepsRun(s: string, k: nat)
    requires s != [] && IsSpace(s[0]) && k == RunLength(s, IsSpace)
    requires Filter(DropSpaceBeforeClosing(s[k..]), IsNotSpace) == Filter(s[k..], IsNotSpace)
    ensures Filter(DropSpaceBeforeClosing(s), IsNotSpace) == Filter(s, IsNotSpace)
  {
    var h := s[..k];
    assert s == h + s[k..];
    assert forall i :: 0 <= i < |h| ==> !IsNotSpace(h[i]);
    FilterSkipPrefix(h, DropSpaceBeforeClosing(s[k..]), s[k..], IsNotSpace);
  }

  /** The step of DropKeepsText for a text that starts with anything else. */
  lemma DropKeepsChar(s: string)
    requires s != [] && !IsSpace(s[0])
    requires Filter(DropSpaceBeforeClosing(s[1..]), IsNotSpace) == Filter(s[1..], IsNotSpace)
    ensures Filter(DropSpaceBeforeClosing(s), IsNotSpace) == Filter(s, IsNotSpace)
  {
    assert s == [s[0]] + s[1..];
    FilterCons(s[0], DropSpaceBeforeClosing(s[1..]), s[1..], IsNotSpace);
  }

  /** `re.search(f"[{string.punctuation}]$", msg)`: the class leaves out the
      backslash, and `$` also matches before a final newline. */
  predicate EndsInPunctuation(s: string)
  {
    || (|s| >= 1 && Utils.DeletedByPunctuationClass(s[|s| - 1]))
    || (|s| >= 2 && s[|s| - 1] == '\n' && Utils.DeletedByPunctuationClass(s[|s| - 2]))
  }

  /** `postprocess_msg(msg, use_synonyms)`. With synonyms it fails:
      `create_text_variation` reads `store.response_phrase_permutation_map`,
      which lib/store.py does not define. */
  function PostprocessMsg(msg: string, useSynonyms: bool): Result<string>
  {
    if useSynonyms then Err(AttributeError("response_phrase_permutation_map"))
    else
      var m1 := DropSpaceBeforeClosing(msg);
      if m1 == [] then Err(IndexError)
      else Ok(Strip(Punctuated(Capitalised(m1))))
  }

  /** `msg[0].upper() + msg[1:]` */
  function Capitalised(m: string): string
    requires m != []
  {
    [Upper(m[0])] + m[1..]
  }

  /** A period is added unless the text already ends in punctuation. */
  function Punctuated(m: string): string
  {
    if EndsInPunctuation(m) then m else m + "."
  }

  /** Stripping keeps the last non-whitespace character last. */
  lemma StripEndsWith(s: string, j: nat)
    requires j < |s| && !IsSpace(s[j]) && forall i :: j < i < |s| ==> IsSpace(s[i])
    ensures Strip(s) != [] && Strip(s)[|Strip(s)| - 1] == s[j]
  {
    var k := |s| - |TrimStart(s)|;
    var r := Strip(s);
    assert k <= j;
    assert j < k + |r|;
    assert r[|r| - 1] == s[k + |r| - 1];
    assert k + |r| - 1 == j;
  }

  /** Stripping keeps a non-whitespace first character first. */
  lemma StripStartsWith(s: string)
    requires s != [] && !IsSpace(s[0])
    ensures Strip(s) != [] && Strip(s)[0] == s[0]
  {
    assert TrimStart(s) == s;
  }

  /** Only an empty message raises (IndexError), and a successful result
      ends in punctuation other than backslash. */
  lemma PostprocessMsgResult(msg: string)
    ensures PostprocessMsg(msg, false).Err? <==> msg == []
    ensures msg == [] ==> PostprocessMsg(msg, false) == Err(IndexError)
    ensures PostprocessMsg(msg, false).Ok? ==>
      var r := PostprocessMsg(msg, false).value;
      r != [] && Utils.DeletedByPunctuationClass(r[|r| - 1])
  {
    if msg != [] {
      PostprocessMsgNonEmpty(msg);
    }
  }

  lemma PostprocessMsgNonEmpty(msg: string)
    requires msg != []
    ensures PostprocessMsg(msg, false).Ok?
    ensures var r := PostprocessMsg(msg, false).value;
      r != [] && Utils.DeletedByPunctuationClass(r[|r| - 1])
  {
    var m := Capitalised(DropSpaceBeforeClosing(msg));
    PunctuatedEnd(m);
  }

  lemma PeriodDeleted()
    ensures Utils.DeletedByPunctuationClass('.')
  {
  }

  /** The final-punctuation step followed by the strip ends in punctuation. */
  lemma PunctuatedEnd(m: string)
    requires m != []
    ensures var r := Strip(Punctuated(m));
      r != [] && Utils.DeletedByPunctuationClass(r[|r| - 1])
  {
    var p := Punctuated(m);
    var j: nat;
    if EndsInPunctuation(m) {
      j := if Utils.DeletedByPunctuationClass(m[|m| - 1]) then |m| - 1 else |m| - 2;
    } else {
      j := |m|;
      assert p[j] == '.';
      PeriodDeleted();
    }
    assert Utils.DeletedByPunctuationClass(p[j]);
    StripEndsWith(p, j);
  }

  /** A message that starts with a non-whitespace character starts with its
      upper-case form. */
  lemma PostprocessMsgCapitalises(msg: string)
    requires msg != [] && !IsSpace(msg[0])
    ensures PostprocessMsg(msg, false).Ok?
    ensures var r := PostprocessMsg(msg, false).value; r != [] && r[0] == Upper(msg[0])
  {
    DropFirst(msg);
    var m1 := DropSpaceBeforeClosing(msg);
    var m2 := Capitalised(m1);
    var m3 := Punctuated(m2);
    assert m3[0] == Upper(msg[0]);
    assert !IsSpace(Upper(msg[0]));
    StripStartsWith(m3);
  }

  /** Upper-casing neither makes nor removes whitespace. */
  lemma UpperSpace(c: char)
    ensures IsSpace(Upper(c)) <==> IsSpace(c)
  {
  }

  /** Capitalising and appending a period add no whitespace before
      `.,!?;:`, except before that period. */
  lemma PunctuatedNoSpaceBeforeClosing(m1: string)
    requires m1 != [] && forall i: nat :: !SpaceBeforeClosingAt(m1, i)
    ensures var m3 := Punctuated(Capitalised(m1));
      forall i: nat :: i + 2 < |m3| ==> !SpaceBeforeClosingAt(m3, i)
  {
    var m2 := Capitalised(m1);
    var m3 := Punctuated(m2);
    forall i: nat | i + 2 < |m3| && IsSpace(m3[i]) ensures !IsClosing(m3[i + 1]) {
      assert i + 1 < |m1| && m3[i + 1] == m1[i + 1];
      if i == 0 {
        UpperSpace(m1[0]);
      }
      assert IsSpace(m1[i]);
      assert !SpaceBeforeClosingAt(m1, i);
    }
  }

  /** Whitespace before punctuation is gone from the result, except before
      a period the last step appends (see TrailingSpaceBeforePeriod). */
  lemma PostprocessMsgNoSpaceBeforeClosing(msg: string)
    ensures PostprocessMsg(msg, false).Ok? ==>
      var r := PostprocessMsg(msg, false).value;
      forall i: nat :: i + 2 < |r| ==> !SpaceBeforeClosingAt(r, i)
  {
    if msg != [] {
      DropLeavesNoSpaceBeforeClosing(msg);
      var m1 := DropSpaceBeforeClosing(msg);
      PunctuatedNoSpaceBeforeClosing(m1);
      var m3 := Punctuated(Capitalised(m1));
      var r := Strip(m3);
      var k := |m3| - |TrimStart(m3)|;
      forall i: nat | i + 2 < |r| && IsSpace(r[i]) ensures !IsClosing(r[i + 1]) {
        assert r[i] == m3[k + i] && r[i + 1] == m3[k + i + 1];
        assert !SpaceBeforeClosingAt(m3, k + i);
      }
    }
  }

  lemma {:induction false} DropNoClosing(s: string)
    requires forall i :: 0 <= i < |s| ==> !IsClosing(s[i])
    ensures DropSpaceBeforeClosing(s) == s
    decreases |s|
  {
    if s != [] {
      var k := if IsSpace(s[0]) then RunLength(s, IsSpace) else 1;
      NoClosingSuffix(s, k);
      DropNoClosing(s[k..]);
      DropNoClosingStep(s, k);
    }
  }

  lemma NoClosingSuffix(s: string, k: nat)
    requires k <= |s| && forall i :: 0 <= i < |s| ==> !IsClosing(s[i])
    ensures forall i :: 0 <= i < |s[k..]| ==> !IsClosing(s[k..][i])
  {
    forall i | 0 <= i < |s[k..]| ensures s[k..][i] == s[k + i] { }
  }

  /** The step of DropNoClosing: the first run or character is kept. */
  lemma DropNoClosingStep(s: string, k: nat)
    requires s != [] && k == if IsSpace(s[0]) then RunLength(s, IsSpace) else 1
    requires forall i :: 0 <= i < |s| ==> !IsClosing(s[i])
    requires DropSpaceBeforeClosing(s[k..]) == s[k..]
    ensures DropSpaceBeforeClosing(s) == s
  {
    assert s[..k] + s[k..] == s;
    if IsSpace(s[0]) {
      assert !(k < |s| && IsClosing(s[k]));
      assert DropSpaceBeforeClosing(s) == s[..k] + DropSpaceBeforeClosing(s[k..]);
    } else {
      assert s[..k] == [s[0]] && s[k..] == s[1..];
      assert DropSpaceBeforeClosing(s) == [s[0]] + DropSpaceBeforeClosing(s[1..]);
    }
  }

  /** A trailing space defeats the final-punctuation test, so the period is
      added after it: "hi " becomes "Hi .". */
  lemma TrailingSpaceBeforePeriod(w: string)
    requires w != [] && forall i :: 0 <= i < |w| ==> !IsSpace(w[i]) && !IsClosing(w[i])
    ensures PostprocessMsg(w + " ", false) == Ok([Upper(w[0])] + w[1..] + " .")
  {
    var s := w + " ";
    DropNoClosing(s);
    var m2 := Capitalised(s);
    assert !EndsInPunctuation(m2);
    var m3 := m2 + ".";
    assert m3 == [Upper(w[0])] + w[1..] + " .";
    assert !IsSpace(Upper(w[0]));
    StripStripped(m3);
  }

  // ---------------------------------------------------------------------
  // The handlers' replies

  /** What the matched handler returns. */
  datatype Reply =
    | Say(response: AIResponse)
    | Text(text: string)
    | FirstMentionLookup(entity: string)

  function Lookup(kw: Kwargs, key: string): string
  {
    if kw == [] then "" else if kw[0].0 == key then kw[0].1 else Lookup(kw[1..], key)
  }

  /** `__cmd_quit`: the only reply that carries `fn`. */
  const QuitResponse: AIResponse := Init(
    [Choice([AStr("Thank you for choosing ChatRegex!"), AStr("Sad to see you go :("), ANone]), Str("Goodbye!")],
    fn := Some(Exit(0)))

  /** `__cmd_help` */
  const HelpResponse: AIResponse := Init(
    [ Nested(Init([Choice([AStr("Here are some"), ANone]), Str("special commands"), Choice([AStr("you can use"), ANone]), Str(":")])),
      Str("\n  help, h       - Print this help message"),
      Str("\n  exit, quit, q - Exit the program")])

  /** `__cmd_example`, given the three prompts `random.sample` drew; the
      last part is a list, so one of them is shown. */
  function ExampleResponse(samples: seq<string>): (r: AIResponse)
    ensures r.fn.None?
  {
    Init([ Choice([AStr("Here are some"), ANone]), Str("example"),
           Choice([AStr("questions"), AStr("prompts"), AStr("queries")]),
           Choice([AStr("you can ask"), ANone]), Str(":\n"),
           Choice(seq(|samples|, i requires 0 <= i < |samples| => AStr("  - \"" + samples[i] + "\"")))])
  }

  /** `__fallback`: the list's first element is itself a reply. */
  const FallbackResponse: AIResponse := Init(
    [ Choice([AResp(Init([Choice([AStr("Sorry"), AStr("I'm sorry")]), Choice([AStr(","), AStr("!")])], join := "")), ANone]),
      Choice([AStr("I don't understand"), AStr("I don't know how to respond to that")])])

  /** `__greet` */
  const GreetResponse: AIResponse := Init(
    [Str("Hello!"), Choice([AStr("What can I do for you?"), AStr("How can I help you?")])])

  /** `resp(**match.groupdict())`, or `self.__fallback()`. */
  function Respond(route: Route, samples: seq<string>): Reply
  {
    match route
    case Fallback => Say(FallbackResponse)
    case Invoke(cap, kw) =>
      match cap
      case Quit => Say(QuitResponse)
      case Help => Say(HelpResponse)
      case Example => Say(ExampleResponse(samples))
      case FirstMention => FirstMentionLookup(Lookup(kw, "entity"))
      case WordsAround => Text("get_words_around")
      case WordsCooccur => Text("get_cooccur")
  }

  /** Only the quit command leads the loop to call `fn`, which exits. */
  lemma OnlyQuitExits(route: Route, samples: seq<string>)
    ensures var reply := Respond(route, samples);
      (reply.Say? && reply.response.fn.Some?) <==> route.Invoke? && route.cap == Quit
    ensures route.Invoke? && route.cap == Quit ==> Respond(route, samples).response.fn == Some(Exit(0))
  {
  }

  /** The words-around and co-occurrence handlers ignore their arguments. */
  lemma AnalysisStubs(kw1: Kwargs, kw2: Kwargs, samples: seq<string>)
    ensures Respond(Invoke(WordsAround, kw1), samples) == Respond(Invoke(WordsAround, kw2), samples)
    ensures Respond(Invoke(WordsCooccur, kw1), samples) == Respond(Invoke(WordsCooccur, kw2), samples)
  {
  }
}

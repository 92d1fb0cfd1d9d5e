/** lib/preprocessing.py: the normalisers the book text goes through. Each
    `re.sub` is written out as the character-level transformer it performs. */
module Preprocessing {
  import opened Chars
  import Utils

  // ---------------------------------------------------------------------
  // remove_punctuation: `[^[a-zA-Z0-9\s]+` -> " "

  /** The characters the class `[^[a-zA-Z0-9\s]` does not match. */
  predicate KeptByPunctuation(c: char)
  {
    c == '[' || IsLetter(c) || IsDigit(c) || IsSpace(c)
  }

  /** `remove_punctuation`: every maximal run of other characters becomes one space. */
  function RemovePunctuation(s: string): (r: string)
    ensures forall i :: 0 <= i < |r| ==> KeptByPunctuation(r[i])
  {
    RunsToSpace(s, false)
  }

  /** The scan behind `RemovePunctuation`; `inRun` says the previous character
      was already replaced. */
  function RunsToSpace(s: string, inRun: bool): (r: string)
    ensures forall i :: 0 <= i < |r| ==> KeptByPunctuation(r[i])
  {
    if s == [] then []
    else if KeptByPunctuation(s[0]) then [s[0]] + RunsToSpace(s[1..], false)
    else (if inRun then [] else [' ']) + RunsToSpace(s[1..], true)
  }

  /** Text made only of kept characters passes through. */
  lemma {:induction false} RunsToSpaceKept(s: string, inRun: bool)
    requires forall i :: 0 <= i < |s| ==> KeptByPunctuation(s[i])
    ensures RunsToSpace(s, inRun) == s
  {
    if s != [] {
      RunsToSpaceKept(s[1..], false);
    }
  }

  /** `remove_punctuation` is idempotent. */
  lemma RemovePunctuationIdempotent(s: string)
    ensures RemovePunctuation(RemovePunctuation(s)) == RemovePunctuation(s)
  {
    RunsToSpaceKept(RemovePunctuation(s), false);
  }

  lemma {:induction false} RunsToSpaceConcat(a: string, b: string, inRun: bool)
    ensures RunsToSpace(a + b, inRun) ==
      RunsToSpace(a, inRun) + RunsToSpace(b, if a == [] then inRun else !KeptByPunctuation(a[|a| - 1]))
  {
    if a == [] {
      assert a + b == b;
    } else {
      assert (a + b)[1..] == a[1..] + b;
      RunsToSpaceConcat(a[1..], b, !KeptByPunctuation(a[0]));
      if a[1..] != [] {
        assert a[1..][|a[1..]| - 1] == a[|a| - 1];
      }
    }
  }

  lemma {:induction false} RunDropped(run: string, b: string)
    requires forall i :: 0 <= i < |run| ==> !KeptByPunctuation(run[i])
    ensures RunsToSpace(run + b, true) == RunsToSpace(b, true)
  {
    RunsToSpaceConcat(run, b, true);
    if run != [] {
      RunDropped(run[1..], []);
      assert run[1..] + [] == run[1..];
    }
  }

  /** A maximal run of removed characters becomes exactly one space, and the
      text on either side is treated on its own. */
  lemma RemovePunctuationRun(a: string, run: string, b: string)
    requires run != []
    requires forall i :: 0 <= i < |run| ==> !KeptByPunctuation(run[i])
    requires a == [] || KeptByPunctuation(a[|a| - 1])
    requires b == [] || KeptByPunctuation(b[0])
    ensures RemovePunctuation(a + run + b) == RemovePunctuation(a) + [' '] + RemovePunctuation(b)
  {
    var x := run + b;
    assert a + run + b == a + x;
    RunsToSpaceConcat(a, x, false);
    assert (if a == [] then false else !KeptByPunctuation(a[|a| - 1])) == false;
    RunBecomesSpace(run, b);
    JoinSpace(RunsToSpace(a + x, false), RunsToSpace(a, false), RunsToSpace(x, false), RunsToSpace(b, false));
  }

  lemma JoinSpace(whole: string, front: string, tail: string, back: string)
    requires whole == front + tail && tail == [' '] + back
    ensures whole == front + [' '] + back
  {
  }

  /** A run at the front becomes one space before the rest. */
  lemma RunBecomesSpace(run: string, b: string)
    requires run != []
    requires forall i :: 0 <= i < |run| ==> !KeptByPunctuation(run[i])
    requires b == [] || KeptByPunctuation(b[0])
    ensures RunsToSpace(run + b, false) == [' '] + RunsToSpace(b, false)
  {
    assert (run + b)[0] == run[0] && (run + b)[1..] == run[1..] + b;
    RunDropped(run[1..], b);
    if b != [] {
      assert RunsToSpace(b, true) == RunsToSpace(b, false);
    }
  }

  // ---------------------------------------------------------------------
  // remove_extra_whitespace with its default arguments (1 space, 3 newlines)

  /** Every horizontal whitespace character is a plain space and no two are adjacent. */
  predicate SingleSpaced(s: string)
  {
    forall i :: 0 <= i < |s| && IsHSpace(s[i]) ==> s[i] == ' ' && (i + 1 < |s| ==> !IsHSpace(s[i + 1]))
  }

  /** No horizontal whitespace right after a `\n` (inside the text). */
  predicate NoSpaceAfterNewline(s: string)
  {
    forall i :: 0 < i < |s| && IsHSpace(s[i]) ==> s[i - 1] != '\n'
  }

  /** No horizontal whitespace right before a `\n`. */
  predicate NoSpaceBeforeNewline(s: string)
  {
    forall i :: 0 <= i < |s| - 1 && IsHSpace(s[i]) ==> s[i + 1] != '\n'
  }

  predicate Stripped(s: string)
  {
    s == [] || (!IsSpace(s[0]) && !IsSpace(s[|s| - 1]))
  }

  /** `[^\S\r\n]{1,}` -> " " */
  function CollapseHSpace(s: string, inRun: bool): (r: string)
    ensures SingleSpaced(r)
    ensures inRun && r != [] ==> !IsHSpace(r[0])
    ensures !inRun && s != [] ==> r != [] && (IsHSpace(r[0]) <==> IsHSpace(s[0]))
  {
    if s == [] then []
    else if IsHSpace(s[0]) then (if inRun then [] else [' ']) + CollapseHSpace(s[1..], true)
    else [s[0]] + CollapseHSpace(s[1..], false)
  }

  lemma {:induction false} CollapseHSpaceKeepsText(s: string, inRun: bool)
    ensures Filter(CollapseHSpace(s, inRun), IsNotSpace) == Filter(s, IsNotSpace)
  {
    if s != [] {
      if IsHSpace(s[0]) {
        var rest := CollapseHSpace(s[1..], true);
        CollapseHSpaceKeepsText(s[1..], true);
        FilterConcat(if inRun then [] else [' '], rest, IsNotSpace);
      } else {
        CollapseHSpaceKeepsText(s[1..], false);
        KeepsTextChar(s, CollapseHSpace(s[1..], false));
      }
    }
  }

  lemma SingleSpacedConcat(a: string, b: string)
    requires SingleSpaced(a) && SingleSpaced(b)
    requires a == [] || b == [] || !IsHSpace(a[|a| - 1]) || !IsHSpace(b[0])
    ensures SingleSpaced(a + b)
  {
    forall i | 0 <= i < |a + b| && IsHSpace((a + b)[i])
      ensures (a + b)[i] == ' ' && (i + 1 < |a + b| ==> !IsHSpace((a + b)[i + 1]))
    {
      if i < |a| {
        assert (a + b)[i] == a[i];
        if i + 1 < |a| { assert (a + b)[i + 1] == a[i + 1]; }
      } else {
        assert (a + b)[i] == b[i - |a|];
        if i + 1 < |a + b| { assert (a + b)[i + 1] == b[i + 1 - |a|]; }
      }
    }
  }

  lemma NoSpaceAfterNewlineConcat(a: string, b: string)
    requires NoSpaceAfterNewline(a) && NoSpaceAfterNewline(b)
    requires a == [] || b == [] || !IsHSpace(b[0]) || a[|a| - 1] != '\n'
    ensures NoSpaceAfterNewline(a + b)
  {
    forall i | 0 < i < |a + b| && IsHSpace((a + b)[i]) ensures (a + b)[i - 1] != '\n' {
      if i < |a| {
        assert (a + b)[i] == a[i] && (a + b)[i - 1] == a[i - 1];
      } else if i > |a| {
        assert (a + b)[i] == b[i - |a|] && (a + b)[i - 1] == b[i - 1 - |a|];
      }
    }
  }

  lemma NoSpaceBeforeNewlineConcat(a: string, b: string)
    requires NoSpaceBeforeNewline(a) && NoSpaceBeforeNewline(b)
    requires a == [] || b == [] || !IsHSpace(a[|a| - 1]) || b[0] != '\n'
    ensures NoSpaceBeforeNewline(a + b)
  {
    forall i | 0 <= i < |a + b| - 1 && IsHSpace((a + b)[i]) ensures (a + b)[i + 1] != '\n' {
      if i < |a| - 1 {
        assert (a + b)[i] == a[i] && (a + b)[i + 1] == a[i + 1];
      } else if i >= |a| {
        assert (a + b)[i] == b[i - |a|] && (a + b)[i + 1] == b[i + 1 - |a|];
      }
    }
  }

  /** Replacing a run by other characters leaves the non-whitespace text alone
      when both are whitespace. */
  lemma KeepsTextRun(s: string, k: nat, head: string, rest: string, restSource: string)
    requires k <= |s| && restSource == s[k..]
    requires forall i :: 0 <= i < k ==> IsSpace(s[i])
    requires forall i :: 0 <= i < |head| ==> IsSpace(head[i])
    requires Filter(rest, IsNotSpace) == Filter(restSource, IsNotSpace)
    ensures Filter(head + rest, IsNotSpace) == Filter(s, IsNotSpace)
  {
    FilterConcat(head, rest, IsNotSpace);
    FilterNone(head, IsNotSpace);
    FilterConcat(s[..k], s[k..], IsNotSpace);
    FilterNone(s[..k], IsNotSpace);
    assert s[..k] + s[k..] == s;
  }

  lemma KeepsTextChar(s: string, rest: string)
    requires s != []
    requires Filter(rest, IsNotSpace) == Filter(s[1..], IsNotSpace)
    ensures Filter([s[0]] + rest, IsNotSpace) == Filter(s, IsNotSpace)
  {
    assert ([s[0]] + rest)[1..] == rest;
  }

  /** `[\r\n]{3,}` -> "\n\n\n": a run of three or more line breaks becomes three newlines. */
  function CapNewlines(s: string): (r: string)
    ensures s != [] ==> r != [] && (r[0] == s[0] || (IsLineBreak(s[0]) && IsLineBreak(r[0])))
    decreases |s|
  {
    if s == [] then []
    else if IsLineBreak(s[0]) then
      var k := RunLength(s, IsLineBreak);
      (if k >= 3 then "\n\n\n" else s[..k]) + CapNewlines(s[k..])
    else
      [s[0]] + CapNewlines(s[1..])
  }

  lemma {:induction false} CapNewlinesSingleSpaced(s: string)
    requires SingleSpaced(s)
    ensures SingleSpaced(CapNewlines(s))
    decreases |s|
  {
    if s != [] {
      if IsLineBreak(s[0]) {
        var k := RunLength(s, IsLineBreak);
        var head := if k >= 3 then "\n\n\n" else s[..k];
        assert SingleSpaced(s[k..]) by {
          forall i | 0 <= i < |s[k..]| ensures s[k..][i] == s[k + i] { }
        }
        CapNewlinesSingleSpaced(s[k..]);
        assert SingleSpaced(head);
        if head != [] { assert !IsHSpace(head[|head| - 1]); }
        SingleSpacedConcat(head, CapNewlines(s[k..]));
      } else {
        assert SingleSpaced(s[1..]) by {
          forall i | 0 <= i < |s[1..]| ensures s[1..][i] == s[1 + i] { }
        }
        CapNewlinesSingleSpaced(s[1..]);
        SingleSpacedConcat([s[0]], CapNewlines(s[1..]));
      }
    }
  }

  lemma {:induction false} CapNewlinesKeepsText(s: string)
    ensures Filter(CapNewlines(s), IsNotSpace) == Filter(s, IsNotSpace)
    decreases |s|
  {
    if s != [] {
      if IsLineBreak(s[0]) {
        var k := RunLength(s, IsLineBreak);
        CapNewlinesKeepsText(s[k..]);
        KeepsTextRun(s, k, if k >= 3 then "\n\n\n" else s[..k], CapNewlines(s[k..]), s[k..]);
      } else {
        CapNewlinesKeepsText(s[1..]);
        KeepsTextChar(s, CapNewlines(s[1..]));
      }
    }
  }

  /** `^[^\S\r\n]+` -> "" under MULTILINE: horizontal whitespace at the start
      of the text or right after a `\n` goes. */
  function DropLeadingHSpace(s: string, atLineStart: bool): (r: string)
    ensures atLineStart && r != [] ==> !IsHSpace(r[0])
    ensures !atLineStart && s != [] ==> r != [] && r[0] == s[0]
    ensures NoSpaceAfterNewline(r)
    ensures SingleSpaced(s) ==> SingleSpaced(r)
  {
    if s == [] then []
    else if atLineStart && IsHSpace(s[0]) then DropLeadingHSpace(s[1..], true)
    else [s[0]] + DropLeadingHSpace(s[1..], s[0] == '\n')
  }

  lemma {:induction false} DropLeadingKeepsText(s: string, atLineStart: bool)
    ensures Filter(DropLeadingHSpace(s, atLineStart), IsNotSpace) == Filter(s, IsNotSpace)
  {
    if s != [] {
      if atLineStart && IsHSpace(s[0]) {
        DropLeadingKeepsText(s[1..], true);
        assert Filter(s, IsNotSpace) == Filter(s[1..], IsNotSpace);
      } else {
        DropLeadingKeepsText(s[1..], s[0] == '\n');
        KeepsTextChar(s, DropLeadingHSpace(s[1..], s[0] == '\n'));
      }
    }
  }

  /** `[^\S\r\n]+$` -> "" under MULTILINE: a run of horizontal whitespace
      right before a `\n` or at the end of the text goes. */
  function DropTrailingHSpace(s: string): (r: string)
    ensures s != [] && !IsHSpace(s[0]) ==> r != [] && r[0] == s[0]
    ensures r != [] && IsHSpace(r[0]) ==> s != [] && r[0] == s[0]
    decreases |s|
  {
    if s == [] then []
    else if IsHSpace(s[0]) then
      var k := RunLength(s, IsHSpace);
      (if k == |s| || s[k] == '\n' then [] else s[..k]) + DropTrailingHSpace(s[k..])
    else
      [s[0]] + DropTrailingHSpace(s[1..])
  }

  /** The three spacing properties carry over to a suffix. */
  lemma SuffixShape(s: string, k: nat)
    requires k <= |s|
    ensures SingleSpaced(s) ==> SingleSpaced(s[k..])
    ensures NoSpaceAfterNewline(s) ==> NoSpaceAfterNewline(s[k..])
    ensures NoSpaceBeforeNewline(s) ==> NoSpaceBeforeNewline(s[k..])
  {
    forall i | 0 <= i < |s| - k ensures s[k..][i] == s[k + i] { }
  }

  /** The three spacing properties carry over to a prefix. */
  lemma PrefixShape(s: string, k: nat)
    requires k <= |s|
    ensures SingleSpaced(s) ==> SingleSpaced(s[..k])
    ensures NoSpaceAfterNewline(s) ==> NoSpaceAfterNewline(s[..k])
    ensures NoSpaceBeforeNewline(s) ==> NoSpaceBeforeNewline(s[..k])
  {
    forall i | 0 <= i < k ensures s[..k][i] == s[i] { }
  }

  /** What the shape of the rest of the output gives for the output of a
      text that starts with a run of `k` horizontal spaces. */
  lemma DropTrailingRunShape(s: string, k: nat, rest: string)
    requires 0 < k <= |s| && (forall i :: 0 <= i < k ==> IsHSpace(s[i])) && (k == |s| || !IsHSpace(s[k]))
    requires rest == DropTrailingHSpace(s[k..]) && NoSpaceBeforeNewline(rest)
    requires SingleSpaced(s[k..]) ==> SingleSpaced(rest)
    requires NoSpaceAfterNewline(s[k..]) ==> NoSpaceAfterNewline(rest)
    ensures var head := if k == |s| || s[k] == '\n' then [] else s[..k];
      && NoSpaceBeforeNewline(head + rest)
      && (SingleSpaced(s) ==> SingleSpaced(head + rest))
      && (NoSpaceAfterNewline(s) ==> NoSpaceAfterNewline(head + rest))
  {
    var head := if k == |s| || s[k] == '\n' then [] else s[..k];
    SuffixShape(s, k);
    PrefixShape(s, k);
    assert head != [] ==> rest != [] && rest[0] == s[k] && !IsHSpace(rest[0]) && rest[0] != '\n';
    assert NoSpaceBeforeNewline(head);
    NoSpaceBeforeNewlineConcat(head, rest);
    if SingleSpaced(s) {
      SingleSpacedConcat(head, rest);
    }
    if NoSpaceAfterNewline(s) {
      NoSpaceAfterNewlineConcat(head, rest);
    }
  }

  /** The same for a text that starts with any other character. */
  lemma DropTrailingCharShape(s: string, rest: string)
    requires s != [] && !IsHSpace(s[0])
    requires rest == DropTrailingHSpace(s[1..]) && NoSpaceBeforeNewline(rest)
    requires SingleSpaced(s[1..]) ==> SingleSpaced(rest)
    requires NoSpaceAfterNewline(s[1..]) ==> NoSpaceAfterNewline(rest)
    ensures && NoSpaceBeforeNewline([s[0]] + rest)
            && (SingleSpaced(s) ==> SingleSpaced([s[0]] + rest))
            && (NoSpaceAfterNewline(s) ==> NoSpaceAfterNewline([s[0]] + rest))
  {
    SuffixShape(s, 1);
    NoSpaceBeforeNewlineConcat([s[0]], rest);
    if SingleSpaced(s) {
      SingleSpacedConcat([s[0]], rest);
    }
    if NoSpaceAfterNewline(s) {
      assert rest != [] && IsHSpace(rest[0]) ==> s[1] == rest[0] && s[0] != '\n';
      NoSpaceAfterNewlineConcat([s[0]], rest);
    }
  }

  lemma {:induction false} DropTrailingShape(s: string)
    ensures NoSpaceBeforeNewline(DropTrailingHSpace(s))
    ensures SingleSpaced(s) ==> SingleSpaced(DropTrailingHSpace(s))
    ensures NoSpaceAfterNewline(s) ==> NoSpaceAfterNewline(DropTrailingHSpace(s))
    decreases |s|
  {
    if s != [] {
      if IsHSpace(s[0]) {
        var k := RunLength(s, IsHSpace);
        DropTrailingShape(s[k..]);
        DropTrailingRunShape(s, k, DropTrailingHSpace(s[k..]));
      } else {
        DropTrailingShape(s[1..]);
        DropTrailingCharShape(s, DropTrailingHSpace(s[1..]));
      }
    }
  }

  lemma {:induction false} DropTrailingKeepsText(s: string)
    ensures Filter(DropTrailingHSpace(s), IsNotSpace) == Filter(s, IsNotSpace)
    decreases |s|
  {
    if s != [] {
      if IsHSpace(s[0]) {
        var k := RunLength(s, IsHSpace);
        DropTrailingKeepsText(s[k..]);
        KeepsTextRun(s, k, if k == |s| || s[k] == '\n' then [] else s[..k], DropTrailingHSpace(s[k..]), s[k..]);
      } else {
        DropTrailingKeepsText(s[1..]);
        KeepsTextChar(s, DropTrailingHSpace(s[1..]));
      }
    }
  }

  /** The stages before the final `strip()`. */
  function WhitespaceStages(s: string): string
  {
    DropTrailingHSpace(DropLeadingHSpace(CapNewlines(CollapseHSpace(s, false)), true))
  }

  /** `remove_extra_whitespace(text)` with `max_consecutive_spaces=1` and
      `max_consecutive_newlines=3`. */
  function RemoveExtraWhitespace(s: string): (r: string)
  {
    Strip(WhitespaceStages(s))
  }

  lemma StagesShape(s: string)
    ensures var t := WhitespaceStages(s);
      SingleSpaced(t) && NoSpaceAfterNewline(t) && NoSpaceBeforeNewline(t)
  {
    var s1 := CollapseHSpace(s, false);
    CapNewlinesSingleSpaced(s1);
    DropTrailingShape(DropLeadingHSpace(CapNewlines(s1), true));
  }

  lemma StagesKeepText(s: string)
    ensures Filter(WhitespaceStages(s), IsNotSpace) == Filter(s, IsNotSpace)
  {
    var s1 := CollapseHSpace(s, false);
    CollapseHSpaceKeepsText(s, false);
    CapNewlinesKeepsText(s1);
    DropLeadingKeepsText(CapNewlines(s1), true);
    DropTrailingKeepsText(DropLeadingHSpace(CapNewlines(s1), true));
  }

  lemma StripShape(t: string)
    requires SingleSpaced(t) && NoSpaceAfterNewline(t) && NoSpaceBeforeNewline(t)
    ensures var r := Strip(t);
      SingleSpaced(r) && NoSpaceAfterNewline(r) && NoSpaceBeforeNewline(r) && Stripped(r)
  {
    var a, c := StripParts(t);
    MiddleShape(a, Strip(t), c);
  }

  /** The three spacing properties hold of every infix. */
  lemma MiddleShape(a: string, r: string, c: string)
    requires var t := a + r + c;
      SingleSpaced(t) && NoSpaceAfterNewline(t) && NoSpaceBeforeNewline(t)
    ensures SingleSpaced(r) && NoSpaceAfterNewline(r) && NoSpaceBeforeNewline(r)
  {
    var t := a + r + c;
    forall i | 0 <= i < |r| ensures r[i] == t[|a| + i] { }
  }

  lemma StripKeepsText(t: string)
    ensures Filter(Strip(t), IsNotSpace) == Filter(t, IsNotSpace)
  {
    var a, c := StripParts(t);
    FilterAroundNone(a, Strip(t), c, IsNotSpace);
  }

  /** What the result looks like: single spaces, no space at either side of
      a newline, no whitespace at either end. */
  lemma RemoveExtraWhitespaceShape(s: string)
    ensures var r := RemoveExtraWhitespace(s);
      SingleSpaced(r) && NoSpaceAfterNewline(r) && NoSpaceBeforeNewline(r) && Stripped(r)
  {
    StagesShape(s);
    StripShape(WhitespaceStages(s));
  }

  /** Only whitespace changes: the other characters survive, in order. */
  lemma RemoveExtraWhitespaceKeepsText(s: string)
    ensures Filter(RemoveExtraWhitespace(s), IsNotSpace) == Filter(s, IsNotSpace)
  {
    StagesKeepText(s);
    StripKeepsText(WhitespaceStages(s));
  }
  /** Three line breaks in a row start at `i`. */
  predicate BreakTriple(s: string, i: nat)
  {
    i + 2 < |s| && IsLineBreak(s[i]) && IsLineBreak(s[i + 1]) && IsLineBreak(s[i + 2])
  }

  /** No run of three or more line breaks. */
  predicate NoLongBreakRun(s: string)
  {
    forall i :: 0 <= i < |s| ==> !BreakTriple(s, i)
  }

  lemma {:induction false} CollapseFixed(s: string, inRun: bool)
    requires SingleSpaced(s)
    requires inRun ==> s == [] || !IsHSpace(s[0])
    ensures CollapseHSpace(s, inRun) == s
  {
    if s != [] {
      assert SingleSpaced(s[1..]) by {
        forall i | 0 <= i < |s[1..]| ensures s[1..][i] == s[1 + i] { }
      }
      CollapseFixed(s[1..], IsHSpace(s[0]));
    }
  }

  lemma {:induction false} CapNewlinesFixed(s: string)
    requires NoLongBreakRun(s)
    ensures CapNewlines(s) == s
    decreases |s|
  {
    if s != [] {
      var k := CapNewlinesKeepsHead(s);
      var head, rest := s[..k], s[k..];
      NoLongBreakRunTail(s, k);
      CapNewlinesFixed(rest);
      assert head + rest == s;
      JoinFixed(CapNewlines(s), head, CapNewlines(rest), rest, s);
    }
  }

  lemma JoinFixed(whole: string, head: string, x: string, rest: string, s: string)
    requires whole == head + x && x == rest && head + rest == s
    ensures whole == s
  {
  }

  /** Without a run of three breaks, the first step copies its piece. */
  lemma CapNewlinesKeepsHead(s: string) returns (k: nat)
    requires s != [] && NoLongBreakRun(s)
    ensures 1 <= k <= |s| && CapNewlines(s) == s[..k] + CapNewlines(s[k..])
  {
    k := if IsLineBreak(s[0]) then RunLength(s, IsLineBreak) else 1;
    assert !BreakTriple(s, 0);
    if !IsLineBreak(s[0]) {
      assert s[..1] == [s[0]];
    }
  }

  lemma NoLongBreakRunTail(s: string, k: nat)
    requires k <= |s| && NoLongBreakRun(s)
    ensures NoLongBreakRun(s[k..])
  {
    var rest := s[k..];
    forall i | 0 <= i < |rest| ensures !BreakTriple(rest, i) {
      if BreakTriple(rest, i) {
        assert rest[i] == s[k + i] && rest[i + 1] == s[k + i + 1] && rest[i + 2] == s[k + i + 2];
        assert BreakTriple(s, k + i);
      }
    }
  }

  lemma {:induction false} DropLeadingFixed(s: string, atLineStart: bool)
    requires NoSpaceAfterNewline(s)
    requires atLineStart ==> s == [] || !IsHSpace(s[0])
    ensures DropLeadingHSpace(s, atLineStart) == s
  {
    if s != [] {
      assert NoSpaceAfterNewline(s[1..]) by {
        forall i | 0 <= i < |s[1..]| ensures s[1..][i] == s[1 + i] { }
      }
      DropLeadingFixed(s[1..], s[0] == '\n');
    }
  }

  lemma {:induction false} DropTrailingFixed(s: string)
    requires SingleSpaced(s) && NoSpaceBeforeNewline(s)
    requires s == [] || !IsHSpace(s[|s| - 1])
    ensures DropTrailingHSpace(s) == s
  {
    if s != [] {
      assert s[1..] == [] || s[1..][|s[1..]| - 1] == s[|s| - 1];
      assert SingleSpaced(s[1..]) && NoSpaceBeforeNewline(s[1..]) by {
        forall i | 0 <= i < |s[1..]| ensures s[1..][i] == s[1 + i] { }
      }
      DropTrailingFixed(s[1..]);
      if IsHSpace(s[0]) {
        assert |s| > 1 && !IsHSpace(s[1]) && s[1] != '\n';
        assert RunLength(s, IsHSpace) == 1;
        assert s[..1] + s[1..] == s;
      }
    }
  }

  /** Text already in the shape the function produces, and without runs of
      three or more line breaks, is returned unchanged. */
  lemma RemoveExtraWhitespaceFixedPoint(s: string)
    requires SingleSpaced(s) && NoSpaceAfterNewline(s) && NoSpaceBeforeNewline(s) && Stripped(s)
    requires NoLongBreakRun(s)
    ensures RemoveExtraWhitespace(s) == s
  {
    CollapseFixed(s, false);
    CapNewlinesFixed(s);
    DropLeadingFixed(s, true);
    DropTrailingFixed(s);
    StripStripped(s);
  }

  /** Text without whitespace is its own result. */
  lemma NoSpaceFixedPoint(w: string)
    requires forall i :: 0 <= i < |w| ==> !IsSpace(w[i])
    ensures RemoveExtraWhitespace(w) == w
  {
    assert SingleSpaced(w) && NoSpaceAfterNewline(w) && NoSpaceBeforeNewline(w);
    assert Stripped(w) && NoLongBreakRun(w);
    RemoveExtraWhitespaceFixedPoint(w);
  }

  lemma DropLeadingCons(c: char, rest: string, atLineStart: bool)
    ensures DropLeadingHSpace([c] + rest, atLineStart)
      == if atLineStart && IsHSpace(c) then DropLeadingHSpace(rest, true) else [c] + DropLeadingHSpace(rest, c == '\n')
  {
    assert ([c] + rest)[1..] == rest;
  }

  lemma BlankLineDropped(y: char, t: string, a: string, b: string)
    requires !IsSpace(y)
    requires t == ['\n', '\n', y] && a == [' '] + t && b == ['\n'] + a
    ensures DropLeadingHSpace(b, true) == ['\n'] + t
  {
    DropLeadingFixed(t, true);
    DropLeadingCons(' ', t, true);
    DropLeadingCons('\n', a, true);
  }

  lemma LineKept(x: char, b: string, c: string, s: string)
    requires !IsSpace(x)
    requires c == ['\n'] + b && s == [x] + c
    ensures DropLeadingHSpace(s, true) == [x, '\n'] + DropLeadingHSpace(b, true)
  {
    DropLeadingCons('\n', b, false);
    DropLeadingCons(x, c, true);
  }

  lemma StagesCompose(s: string, c: string, d: string, r: string)
    requires CollapseHSpace(s, false) == c && CapNewlines(c) == d
    requires DropLeadingHSpace(d, true) == r && DropTrailingHSpace(r) == r && Stripped(r)
    ensures RemoveExtraWhitespace(s) == r
  {
    StripStripped(r);
  }

  lemma FirstPassInput(x: char, y: char, s: string)
    requires !IsSpace(x) && !IsSpace(y)
    requires s == [x, '\n', '\n', ' ', '\n', '\n', y]
    ensures SingleSpaced(s) && NoLongBreakRun(s)
  {
    forall i | 0 <= i < |s| && IsHSpace(s[i]) ensures s[i] == ' ' && (i + 1 < |s| ==> !IsHSpace(s[i + 1])) {
      assert i == 3;
    }
  }

  lemma FirstStagesFixed(s: string)
    requires SingleSpaced(s) && NoLongBreakRun(s)
    ensures CollapseHSpace(s, false) == s && CapNewlines(s) == s
  {
    CollapseFixed(s, false);
    CapNewlinesFixed(s);
  }

  lemma FirstPassCollapse(x: char, y: char, s: string)
    requires !IsSpace(x) && !IsSpace(y)
    requires s == [x, '\n', '\n', ' ', '\n', '\n', y]
    ensures CollapseHSpace(s, false) == s && CapNewlines(s) == s
  {
    FirstPassInput(x, y, s);
    FirstStagesFixed(s);
  }

  lemma FirstPassLeading(x: char, y: char, s: string)
    requires !IsSpace(x) && !IsSpace(y)
    requires s == [x, '\n', '\n', ' ', '\n', '\n', y]
    ensures DropLeadingHSpace(s, true) == [x, '\n', '\n', '\n', '\n', y]
  {
    var t := ['\n', '\n', y];
    var a := [' '] + t;
    var b := ['\n'] + a;
    BlankLineDropped(y, t, a, b);
    LineKept(x, b, ['\n'] + b, s);
  }

  /** Text without horizontal whitespace and with non-space ends passes the
      last two stages unchanged. */
  lemma TailFixed(r: string)
    requires forall i :: 0 <= i < |r| ==> !IsHSpace(r[i])
    requires Stripped(r)
    ensures DropTrailingHSpace(r) == r
  {
    DropTrailingFixed(r);
  }

  lemma NewlineRunTail(x: char, y: char, r: string)
    requires !IsSpace(x) && !IsSpace(y)
    requires |r| >= 2 && r == [x] + seq(|r| - 2, i => '\n') + [y]
    ensures DropTrailingHSpace(r) == r && DropLeadingHSpace(r, true) == r && Stripped(r)
  {
    assert forall i :: 0 <= i < |r| ==> !IsHSpace(r[i]);
    TailFixed(r);
    DropLeadingFixed(r, true);
  }

  lemma NewlineRunCollapse(x: char, y: char, r: string)
    requires !IsSpace(x) && !IsSpace(y)
    requires |r| >= 2 && r == [x] + seq(|r| - 2, i => '\n') + [y]
    ensures CollapseHSpace(r, false) == r
  {
    assert forall i :: 0 <= i < |r| ==> !IsHSpace(r[i]);
    CollapseFixed(r, false);
  }

  /** First call on `x\n\n \n\ny`: only the blank line's space goes. */
  lemma FirstPass(x: char, y: char, s: string, r: string)
    requires !IsSpace(x) && !IsSpace(y)
    requires s == [x, '\n', '\n', ' ', '\n', '\n', y]
    requires r == [x, '\n', '\n', '\n', '\n', y]
    ensures RemoveExtraWhitespace(s) == r
  {
    FirstPassCollapse(x, y, s);
    FirstPassLeading(x, y, s);
    NewlineRunTail(x, y, r);
    StagesCompose(s, s, s, r);
  }

  lemma SecondPassCap(x: char, y: char, t: string)
    requires !IsSpace(x) && !IsSpace(y)
    requires t == [x, '\n', '\n', '\n', '\n', y]
    ensures CapNewlines(t) == [x, '\n', '\n', '\n', y]
  {
    var v := t[1..];
    assert RunLength(v, IsLineBreak) == 4 by {
      assert RunLength(v[4..], IsLineBreak) == 0;
      assert v[1..][1..] == v[2..] && v[2..][1..] == v[3..] && v[3..][1..] == v[4..];
    }
    assert v[4..] == [y];
    assert CapNewlines([y]) == [y];
    assert CapNewlines(v) == "\n\n\n" + [y];
  }

  /** Second call on `x\n\n\n\ny`: the run of four newlines becomes three. */
  lemma SecondPass(x: char, y: char, t: string, u: string)
    requires !IsSpace(x) && !IsSpace(y)
    requires t == [x, '\n', '\n', '\n', '\n', y]
    requires u == [x, '\n', '\n', '\n', y]
    ensures RemoveExtraWhitespace(t) == u
  {
    NewlineRunCollapse(x, y, t);
    SecondPassCap(x, y, t);
    NewlineRunTail(x, y, u);
    StagesCompose(t, t, u, u);
  }

  /** The function is not idempotent: dropping the space of a blank-looking
      line joins two newline runs into one of four, which a second call
      shortens to three. */
  lemma RemoveExtraWhitespaceNotIdempotent(x: char, y: char, s: string)
    requires !IsSpace(x) && !IsSpace(y)
    requires s == [x, '\n', '\n', ' ', '\n', '\n', y]
    ensures RemoveExtraWhitespace(RemoveExtraWhitespace(s)) != RemoveExtraWhitespace(s)
  {
    var r := [x, '\n', '\n', '\n', '\n', y];
    FirstPass(x, y, s, r);
    SecondPass(x, y, r, [x, '\n', '\n', '\n', y]);
  }

  // ---------------------------------------------------------------------
  // join_paragraph_lines: `([^\s])\n([^\s])` -> `\1 \2`

  /** The regex's match, three characters wide, starts at the front of `s`. */
  predicate JoinableAtFront(s: string)
  {
    |s| >= 3 && !IsSpace(s[0]) && s[1] == '\n' && !IsSpace(s[2])
  }

  function JoinParagraphLines(s: string): (r: string)
    ensures |r| == |s|
  {
    if s == [] then []
    else if JoinableAtFront(s) then [s[0], ' ', s[2]] + JoinParagraphLines(s[3..])
    else [s[0]] + JoinParagraphLines(s[1..])
  }

  /** Reference definition: the newline at `i` lies between two non-space
      characters, and the previous candidate two characters back did not
      take the left one of them (matches do not overlap). */
  predicate JoinedAt(s: string, i: nat)
  {
    && 1 <= i < |s| - 1 && s[i] == '\n' && !IsSpace(s[i - 1]) && !IsSpace(s[i + 1])
    && !(i >= 2 && JoinedAt(s, i - 2))
  }

  lemma {:induction false} JoinedShift1(s: string, i: nat)
    requires s != [] && !JoinableAtFront(s) && i >= 1
    ensures JoinedAt(s, i) <==> JoinedAt(s[1..], i - 1)
  {
    if i >= 3 {
      JoinedShift1(s, i - 2);
    }
    if 1 <= i < |s| - 1 {
      assert s[1..][i - 1] == s[i] && s[1..][i] == s[i + 1];
      if i >= 2 { assert s[1..][i - 2] == s[i - 1]; }
    }
  }

  lemma {:induction false} JoinedShift3(s: string, i: nat)
    requires JoinableAtFront(s) && i >= 3
    ensures JoinedAt(s, i) <==> JoinedAt(s[3..], i - 3)
  {
    if i >= 5 {
      JoinedShift3(s, i - 2);
    }
    if 3 <= i < |s| - 1 {
      assert s[3..][i - 3] == s[i] && s[3..][i - 3 + 1] == s[i + 1];
      if i >= 4 { assert s[3..][i - 4] == s[i - 1]; }
    }
  }

  /** Each newline the reference definition selects becomes a space; every
      other character stays. */
  lemma {:induction false} JoinParagraphLinesPointwise(s: string)
    ensures forall i :: 0 <= i < |s| ==> JoinParagraphLines(s)[i] == if JoinedAt(s, i) then ' ' else s[i]
    decreases |s|
  {
    if s != [] {
      var r := JoinParagraphLines(s);
      if JoinableAtFront(s) {
        JoinParagraphLinesPointwise(s[3..]);
        forall i | 0 <= i < |s| ensures r[i] == if JoinedAt(s, i) then ' ' else s[i] {
          if i >= 3 {
            JoinedShift3(s, i);
            assert r[i] == JoinParagraphLines(s[3..])[i - 3];
          }
        }
      } else {
        JoinParagraphLinesPointwise(s[1..]);
        forall i | 0 <= i < |s| ensures r[i] == if JoinedAt(s, i) then ' ' else s[i] {
          if i >= 1 {
            JoinedShift1(s, i);
            assert r[i] == JoinParagraphLines(s[1..])[i - 1];
          }
        }
      }
    }
  }

  /** Only newlines change, and only into spaces: the non-whitespace text
      is the same. */
  lemma {:induction false} JoinParagraphLinesKeepsText(s: string)
    ensures Filter(JoinParagraphLines(s), IsNotSpace) == Filter(s, IsNotSpace)
    decreases |s|
  {
    if s != [] {
      if JoinableAtFront(s) {
        JoinParagraphLinesKeepsText(s[3..]);
        JoinedTripleKeepsText(s, JoinParagraphLines(s[3..]));
      } else {
        JoinParagraphLinesKeepsText(s[1..]);
        KeepsTextChar(s, JoinParagraphLines(s[1..]));
      }
    }
  }

  lemma JoinedTripleKeepsText(s: string, t: string)
    requires JoinableAtFront(s)
    requires Filter(t, IsNotSpace) == Filter(s[3..], IsNotSpace)
    ensures Filter([s[0], ' ', s[2]] + t, IsNotSpace) == Filter(s, IsNotSpace)
  {
    var u := [s[2]] + t;
    KeepsTextChar(s[2..], t);
    assert Filter([' '] + u, IsNotSpace) == Filter(s[1..], IsNotSpace) by {
      assert ([' '] + u)[1..] == u && s[1..][1..] == s[2..];
    }
    assert [s[0], ' ', s[2]] + t == [s[0]] + ([' '] + u);
    KeepsTextChar(s, [' '] + u);
  }

  /** A text whose newlines all have whitespace on some side is unchanged. */
  lemma {:induction false} JoinParagraphLinesUnchanged(s: string)
    requires forall i :: 1 <= i < |s| - 1 && s[i] == '\n' ==> IsSpace(s[i - 1]) || IsSpace(s[i + 1])
    ensures JoinParagraphLines(s) == s
  {
    if s != [] {
      assert !JoinableAtFront(s);
      JoinParagraphLinesUnchanged(s[1..]);
    }
  }

  // ---------------------------------------------------------------------
  // remove_stopwords: `\b(w1|w2|...)\b` -> "" under IGNORECASE

  /** Stop words are non-empty runs of word characters, so a match of the
      alternation between two `\b` is exactly one whole word. */
  predicate ValidStopList(stops: seq<string>)
  {
    forall k :: 0 <= k < |stops| ==> stops[k] != [] && forall j :: 0 <= j < |stops[k]| ==> IsWord(stops[k][j])
  }

  predicate IsStopWord(w: string, stops: seq<string>)
  {
    exists k :: 0 <= k < |stops| && EqualsIgnoreCase(stops[k], w)
  }

  /** A text's maximal runs of word characters, in order. */
  function Words(s: string): (ws: seq<string>)
    ensures forall k :: 0 <= k < |ws| ==> ws[k] != []
    decreases |s|
  {
    if s == [] then []
    else if IsWord(s[0]) then
      var n := RunLength(s, IsWord);
      [s[..n]] + Words(s[n..])
    else Words(s[1..])
  }

  /** `ws` without the stop words. */
  function KeepWords(ws: seq<string>, stops: seq<string>): (r: seq<string>)
    ensures forall k :: 0 <= k < |r| ==> r[k] in ws && !IsStopWord(r[k], stops)
  {
    if ws == [] then []
    else (if IsStopWord(ws[0], stops) then [] else [ws[0]]) + KeepWords(ws[1..], stops)
  }

  function RemoveStopwords(s: string, stops: seq<string>): (r: string)
    requires ValidStopList(stops)
    ensures s != [] && !IsWord(s[0]) ==> r != [] && r[0] == s[0]
    decreases |s|
  {
    if s == [] then []
    else if IsWord(s[0]) then
      var n := RunLength(s, IsWord);
      (if IsStopWord(s[..n], stops) then [] else s[..n]) + RemoveStopwords(s[n..], stops)
    else [s[0]] + RemoveStopwords(s[1..], stops)
  }

  /** Followed by nothing or by a non-word character, a word is a whole run. */
  predicate WordBoundary(t: string)
  {
    t == [] || !IsWord(t[0])
  }

  lemma {:induction false} WholeWordRun(w: string, t: string)
    requires w != [] && (forall j :: 0 <= j < |w| ==> IsWord(w[j])) && WordBoundary(t)
    ensures RunLength(w + t, IsWord) == |w|
  {
    if |w| > 1 {
      WholeWordRun(w[1..], t);
      assert (w + t)[1..] == w[1..] + t;
    } else {
      assert (w + t)[1..] == t;
    }
  }

  lemma WordsConcatWord(w: string, t: string)
    requires w != [] && (forall j :: 0 <= j < |w| ==> IsWord(w[j])) && WordBoundary(t)
    ensures Words(w + t) == [w] + Words(t)
  {
    WholeWordRun(w, t);
    assert (w + t)[..|w|] == w && (w + t)[|w|..] == t;
  }

  lemma RemoveStopwordsConcatWord(w: string, t: string, stops: seq<string>)
    requires ValidStopList(stops)
    requires w != [] && (forall j :: 0 <= j < |w| ==> IsWord(w[j])) && WordBoundary(t)
    ensures RemoveStopwords(w + t, stops) == (if IsStopWord(w, stops) then [] else w) + RemoveStopwords(t, stops)
  {
    WholeWordRun(w, t);
    assert (w + t)[..|w|] == w && (w + t)[|w|..] == t;
  }

  /** The words of the result are the words of the text that are not stop
      words: a deleted word never joins its neighbours. */
  lemma {:induction false} RemoveStopwordsWords(s: string, stops: seq<string>)
    requires ValidStopList(stops)
    ensures Words(RemoveStopwords(s, stops)) == KeepWords(Words(s), stops)
    decreases |s|
  {
    if s != [] {
      if IsWord(s[0]) {
        var n := RunLength(s, IsWord);
        var w := s[..n];
        var t := RemoveStopwords(s[n..], stops);
        RemoveStopwordsWords(s[n..], stops);
        assert WordBoundary(t);
        assert Words(s) == [w] + Words(s[n..]);
        assert KeepWords(Words(s), stops) == (if IsStopWord(w, stops) then [] else [w]) + KeepWords(Words(s[n..]), stops) by {
          assert ([w] + Words(s[n..]))[1..] == Words(s[n..]);
        }
        if IsStopWord(w, stops) {
          assert RemoveStopwords(s, stops) == t;
        } else {
          assert RemoveStopwords(s, stops) == w + t;
          WordsConcatWord(w, t);
        }
      } else {
        RemoveStopwordsWords(s[1..], stops);
        assert ([s[0]] + RemoveStopwords(s[1..], stops))[1..] == RemoveStopwords(s[1..], stops);
      }
    }
  }

  lemma WordRunKeepsNonWords(s: string, n: nat, head: string, rest: string)
    requires n <= |s| && forall i :: 0 <= i < n ==> IsWord(s[i])
    requires head == [] || head == s[..n]
    requires Filter(rest, IsNotWord) == Filter(s[n..], IsNotWord)
    ensures Filter(head + rest, IsNotWord) == Filter(s, IsNotWord)
  {
    assert s == s[..n] + s[n..];
    FilterDropPrefix(s[..n], s[n..], IsNotWord);
    FilterDropPrefix(head, rest, IsNotWord);
  }

  /** Every non-word character stays, in order. */
  lemma {:induction false} RemoveStopwordsKeepsNonWords(s: string, stops: seq<string>)
    requires ValidStopList(stops)
    ensures Filter(RemoveStopwords(s, stops), IsNotWord) == Filter(s, IsNotWord)
    decreases |s|
  {
    if s != [] {
      if IsWord(s[0]) {
        var n := RunLength(s, IsWord);
        RemoveStopwordsKeepsNonWords(s[n..], stops);
        WordRunKeepsNonWords(s, n, if IsStopWord(s[..n], stops) then [] else s[..n], RemoveStopwords(s[n..], stops));
      } else {
        RemoveStopwordsKeepsNonWords(s[1..], stops);
        assert ([s[0]] + RemoveStopwords(s[1..], stops))[1..] == RemoveStopwords(s[1..], stops);
      }
    }
  }

  /** A second pass finds nothing more to delete. */
  lemma {:induction false} RemoveStopwordsIdempotent(s: string, stops: seq<string>)
    requires ValidStopList(stops)
    ensures RemoveStopwords(RemoveStopwords(s, stops), stops) == RemoveStopwords(s, stops)
    decreases |s|
  {
    if s != [] {
      if IsWord(s[0]) {
        var n := RunLength(s, IsWord);
        var w := s[..n];
        var t := RemoveStopwords(s[n..], stops);
        RemoveStopwordsIdempotent(s[n..], stops);
        assert WordBoundary(t);
        if IsStopWord(w, stops) {
          assert RemoveStopwords(s, stops) == t;
        } else {
          assert RemoveStopwords(s, stops) == w + t;
          RemoveStopwordsConcatWord(w, t, stops);
        }
      } else {
        RemoveStopwordsIdempotent(s[1..], stops);
        assert ([s[0]] + RemoveStopwords(s[1..], stops))[1..] == RemoveStopwords(s[1..], stops);
      }
    }
  }

  // ---------------------------------------------------------------------
  // remove_unicode_diacritics: NFD, then delete the `Mn` characters of the
  // non-ASCII character set. NFD and the category test are parameters.

  /** `t` without the characters of `gone`, in order: what
      `t.replace(c, "")` does for each `c` of `gone`. */
  function DropChars(t: string, gone: set<char>): (r: string)
    ensures |r| <= |t|
    ensures forall c :: c in r <==> c in t && c !in gone
  {
    if t == [] then [] else (if t[0] in gone then [] else [t[0]]) + DropChars(t[1..], gone)
  }

  lemma {:induction false} DropCharsTwice(t: string, a: set<char>, b: set<char>)
    ensures DropChars(DropChars(t, a), b) == DropChars(t, a + b)
  {
    if t != [] {
      DropCharsTwice(t[1..], a, b);
      var rest := DropChars(t[1..], a);
      if t[0] in a {
        assert DropChars(t, a) == rest;
      } else {
        assert DropChars(t, a) == [t[0]] + rest;
        assert ([t[0]] + rest)[1..] == rest;
      }
    }
  }

  lemma {:induction false} DropCharsNone(t: string, gone: set<char>)
    requires forall i :: 0 <= i < |t| ==> t[i] !in gone
    ensures DropChars(t, gone) == t
  {
    if t != [] {
      DropCharsNone(t[1..], gone);
    }
  }

  /** The combining marks among the non-ASCII characters of `t`. */
  function MarksIn(t: string, isMark: char -> bool): set<char>
  {
    set c | c in Utils.ExtractUnicodeCharset(t) && isMark(c)
  }

  function DiacriticsRemoved(t: string, isMark: char -> bool): string
  {
    DropChars(t, MarksIn(t, isMark))
  }

  /** The marks among `cs`. */
  function MarksAmong(cs: set<char>, isMark: char -> bool): (r: set<char>)
    ensures forall c :: c in r <==> c in cs && isMark(c)
  {
    set c | c in cs && isMark(c)
  }

  /** One round of the loop: `c` is deleted when it is a mark. */
  lemma DropMarkStep(t: string, done: set<char>, c: char, isMark: char -> bool)
    ensures var r := DropChars(t, MarksAmong(done, isMark));
      (if isMark(c) then DropChars(r, {c}) else r) == DropChars(t, MarksAmong(done + {c}, isMark))
  {
    var marks := MarksAmong(done, isMark);
    if isMark(c) {
      DropCharsTwice(t, marks, {c});
      assert marks + {c} == MarksAmong(done + {c}, isMark);
    } else {
      assert marks == MarksAmong(done + {c}, isMark);
    }
  }

  method RemoveUnicodeDiacritics(s: string, nfd: string -> string, isMark: char -> bool) returns (r: string)
    ensures r == DiacriticsRemoved(nfd(s), isMark)
  {
    r := nfd(s);
    ghost var t := r;
    var remaining := Utils.ExtractUnicodeCharset(r);
    ghost var done: set<char> := {};
    DropCharsNone(t, {});
    assert MarksAmong(done, isMark) == {};
    while remaining != {}
      invariant remaining + done == Utils.ExtractUnicodeCharset(t) && remaining !! done
      invariant r == DropChars(t, MarksAmong(done, isMark))
      decreases remaining
    {
      var c :| c in remaining;
      DropMarkStep(t, done, c, isMark);
      if isMark(c) {
        r := DropChars(r, {c});
      }
      remaining := remaining - {c};
      done := done + {c};
    }
    assert MarksAmong(done, isMark) == MarksIn(t, isMark);
  }

  /** No non-ASCII combining mark survives, and every other character of the
      decomposed text is kept. */
  lemma DiacriticsRemovedChars(t: string, isMark: char -> bool)
    ensures forall c :: c in DiacriticsRemoved(t, isMark) ==> !(isMark(c) && !IsPrintable(c))
    ensures forall c :: c in t && (IsPrintable(c) || !isMark(c)) ==> c in DiacriticsRemoved(t, isMark)
  {
  }

  // ---------------------------------------------------------------------
  // normalize_character_set: the translation table after the diacritics

  /** The table's keys. */
  predicate InTable(c: char)
  {
    || c == '\U{2019}' || c == '\U{2018}' || c == '\U{201D}' || c == '\U{201C}'
    || c == '\U{2026}' || c == '\U{2022}'
    || c == '\U{2013}' || c == '\U{2014}' || c == '\U{2015}'
    || c == '\U{E6}' || c == '\U{A3}' || c == '\U{153}'
  }

  /** What `str.translate` puts in place of one character. */
  function TranslateChar(c: char): (r: string)
    ensures !InTable(c) ==> r == [c]
    ensures InTable(c) ==> forall i :: 0 <= i < |r| ==> IsPrintable(r[i]) && !InTable(r[i])
  {
    if c == '\U{2019}' || c == '\U{2018}' then "'"             // right and left single quotation marks
    else if c == '\U{201D}' || c == '\U{201C}' then "\""       // right and left double quotation marks
    else if c == '\U{2026}' then "..."                         // horizontal ellipsis
    else if c == '\U{2022}' then "*"                           // bullet
    else if c == '\U{2013}' || c == '\U{2014}' || c == '\U{2015}' then "-"  // en dash, em dash, horizontal bar
    else if c == '\U{E6}' then "ae"
    else if c == '\U{A3}' || c == '\U{153}' then ""            // pound sign, oe ligature
    else [c]
  }

  function Translate(s: string): string
  {
    if s == [] then [] else TranslateChar(s[0]) + Translate(s[1..])
  }

  lemma {:induction false} TranslateConcat(a: string, b: string)
    ensures Translate(a + b) == Translate(a) + Translate(b)
  {
    if a != [] {
      assert (a + b)[1..] == a[1..] + b;
      TranslateConcat(a[1..], b);
    } else {
      assert a + b == b;
    }
  }

  /** No key of the table is left, and the non-ASCII characters that remain
      are exactly the ones the table does not name. */
  lemma {:induction false} TranslateCharset(s: string)
    ensures forall c :: c in Translate(s) ==> !InTable(c)
    ensures Utils.ExtractUnicodeCharset(Translate(s)) == set c | c in Utils.ExtractUnicodeCharset(s) && !InTable(c)
  {
    if s != [] {
      TranslateCharset(s[1..]);
      var head := TranslateChar(s[0]);
      Utils.CharsetConcat(head, Translate(s[1..]));
      Utils.CharsetConcat([s[0]], s[1..]);
      assert [s[0]] + s[1..] == s;
      if InTable(s[0]) {
        assert Utils.ExtractUnicodeCharset(head) == {} by {
          Utils.CharsetEmptyIffPrintable(head);
        }
      }
    }
  }

  /** Text without any of the table's characters is not changed. */
  lemma {:induction false} TranslateUnchanged(s: string)
    requires forall i :: 0 <= i < |s| ==> !InTable(s[i])
    ensures Translate(s) == s
  {
    if s != [] {
      TranslateUnchanged(s[1..]);
    }
  }

  method NormalizeCharacterSet(s: string, nfd: string -> string, isMark: char -> bool) returns (r: string)
    ensures r == Translate(DiacriticsRemoved(nfd(s), isMark))
    ensures forall c :: c in r ==> !InTable(c) && !(isMark(c) && !IsPrintable(c))
  {
    var t := RemoveUnicodeDiacritics(s, nfd, isMark);
    r := Translate(t);
    DiacriticsRemovedChars(nfd(s), isMark);
    TranslateCharset(t);
    forall c | c in r ensures !(isMark(c) && !IsPrintable(c)) {
      if !IsPrintable(c) {
        assert c in Utils.ExtractUnicodeCharset(r);
        assert c in t;
      }
    }
  }

  /** ASCII text, which NFD leaves alone and which holds no combining mark,
      comes back unchanged. */
  lemma NormalizeAsciiUnchanged(s: string, nfd: string -> string, isMark: char -> bool)
    requires forall i :: 0 <= i < |s| ==> s[i] < 128 as char
    requires forall c: char :: c < 128 as char ==> !isMark(c)
    requires nfd(s) == s
    ensures Translate(DiacriticsRemoved(nfd(s), isMark)) == s
  {
    assert MarksIn(s, isMark) == {};
    DropCharsNone(s, {});
    forall i | 0 <= i < |s| ensures !InTable(s[i]) {}
    TranslateUnchanged(s);
  }
}

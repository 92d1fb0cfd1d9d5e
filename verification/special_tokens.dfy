/** lib/special_tokens.py: the structural markers and `remove_special_tokens`,
    which deletes every `<[A-Z]{3,}>` in one left-to-right pass. */
module SpecialTokens {
  import opened Chars
  import opened Wrappers

  const StartOfChapter: string := "<SOC>"
  const EndOfSentence: string := "<EOS>"

  /** A special token: `<`, three or more capitals, `>`. */
  predicate IsToken(t: string)
  {
    && |t| >= 5 && t[0] == '<' && t[|t| - 1] == '>'
    && forall i :: 1 <= i < |t| - 1 ==> IsUpper(t[i])
  }

  /** The marker `<KEY>` that tagging puts after a match (`key.upper()`). */
  function Marker(key: string): (m: string)
    ensures |m| == |key| + 2
  {
    ['<'] + UpperStr(key) + ['>']
  }

  /** A key whose upper-cased form makes a special token. */
  predicate ValidKey(key: string)
  {
    |key| >= 3 && forall i :: 0 <= i < |key| ==> IsLetter(key[i])
  }

  /** The length of the maximal run of capitals at the start of `s`. */
  function UpperRun(s: string): (n: nat)
    ensures n <= |s|
    ensures forall i :: 0 <= i < n ==> IsUpper(s[i])
    ensures n == |s| || !IsUpper(s[n])
  {
    if s != [] && IsUpper(s[0]) then 1 + UpperRun(s[1..]) else 0
  }

  /** The length of the match of `<[A-Z]{3,}>` at the start of `s`, if any.
      The greedy capital run cannot give back a capital to meet the `>`, so
      the token is the whole run. */
  function TokenLength(s: string): (r: Option<nat>)
    ensures r.Some? ==> r.value <= |s| && IsToken(s[..r.value])
  {
    if s != [] && s[0] == '<' then
      var n := UpperRun(s[1..]);
      if n >= 3 && 1 + n < |s| && s[1 + n] == '>' then Some(n + 2) else None
    else None
  }

  /** `remove_special_tokens` */
  function RemoveSpecialTokens(s: string): (r: string)
    ensures |r| <= |s|
    decreases |s|
  {
    if s == [] then []
    else match TokenLength(s)
      case Some(n) => RemoveSpecialTokens(s[n..])
      case None => [s[0]] + RemoveSpecialTokens(s[1..])
  }

  /** `a` is `b` with some characters deleted. */
  predicate IsSubsequence(a: string, b: string)
    decreases |b|
  {
    if b == [] then a == []
    else (a != [] && a[0] == b[0] && IsSubsequence(a[1..], b[1..])) || IsSubsequence(a, b[1..])
  }

  lemma {:induction false} SubsequenceDropPrefix(a: string, b: string, n: nat)
    requires n <= |b|
    requires IsSubsequence(a, b[n..])
    ensures IsSubsequence(a, b)
    decreases n
  {
    if n > 0 {
      assert b[1..][n - 1..] == b[n..];
      SubsequenceDropPrefix(a, b[1..], n - 1);
    }
  }

  /** The output keeps the input's other characters in order. */
  lemma {:induction false} RemoveIsSubsequence(s: string)
    ensures IsSubsequence(RemoveSpecialTokens(s), s)
    decreases |s|
  {
    if s != [] {
      match TokenLength(s)
      case Some(n) =>
        RemoveIsSubsequence(s[n..]);
        SubsequenceDropPrefix(RemoveSpecialTokens(s), s, n);
      case None =>
        RemoveIsSubsequence(s[1..]);
    }
  }

  /** Plain text before a token passes through untouched. */
  lemma {:induction false} RemovePlainPrefix(a: string, b: string)
    requires '<' !in a
    ensures RemoveSpecialTokens(a + b) == a + RemoveSpecialTokens(b)
  {
    if a != [] {
      var s := a + b;
      assert s[0] == a[0] && s[1..] == a[1..] + b;
      assert TokenLength(s) == None;
      RemovePlainPrefix(a[1..], b);
      calc {
        RemoveSpecialTokens(s);
        [a[0]] + RemoveSpecialTokens(a[1..] + b);
        [a[0]] + (a[1..] + RemoveSpecialTokens(b));
        { assert [a[0]] + a[1..] == a; }
        a + RemoveSpecialTokens(b);
      }
    } else {
      assert a + b == b;
    }
  }

  /** A string without `<` is returned unchanged. */
  lemma NoAngleUnchanged(s: string)
    requires '<' !in s
    ensures RemoveSpecialTokens(s) == s
  {
    RemovePlainPrefix(s, []);
    assert s + [] == s;
  }

  /** A marker made from a valid key is deleted, whatever follows it. */
  lemma RemoveMarker(key: string, b: string)
    requires ValidKey(key)
    ensures RemoveSpecialTokens(Marker(key) + b) == RemoveSpecialTokens(b)
  {
    var s := Marker(key) + b;
    assert s[1..][..|key|] == UpperStr(key);
    assert UpperRun(s[1..]) == |key| by {
      UpperRunOfUpper(s[1..], |key|);
    }
    assert TokenLength(s) == Some(|key| + 2);
    assert s[|key| + 2..] == b;
  }

  lemma {:induction false} UpperRunOfUpper(s: string, n: nat)
    requires n < |s|
    requires forall i :: 0 <= i < n ==> IsUpper(s[i])
    requires !IsUpper(s[n])
    ensures UpperRun(s) == n
  {
    if n > 0 {
      UpperRunOfUpper(s[1..], n - 1);
    }
  }

  /** A `<` followed by fewer than three capitals starts no token. */
  lemma ShortRunKept(u: string)
    requires UpperRun(u) < 3
    ensures RemoveSpecialTokens(['<'] + u) == ['<'] + RemoveSpecialTokens(u)
  {
    assert (['<'] + u)[1..] == u;
  }

  lemma MarkerOfUpper(key: string)
    requires forall i :: 0 <= i < |key| ==> IsUpper(key[i])
    ensures Marker(key) == ['<'] + key + ['>']
  {
    assert UpperStr(key) == key;
  }

  /** The structural markers are special tokens too, so the pass deletes them. */
  lemma StructuralMarkersRemoved(b: string)
    ensures RemoveSpecialTokens(StartOfChapter + b) == RemoveSpecialTokens(b)
    ensures RemoveSpecialTokens(EndOfSentence + b) == RemoveSpecialTokens(b)
  {
    assert Marker("SOC") == StartOfChapter;
    assert Marker("EOS") == EndOfSentence;
    RemoveMarker("SOC", b);
    RemoveMarker("EOS", b);
  }
  /** One pass is not idempotent: deleting an inner token can close up a new
      one, as in `<A<BCD>BC>`, which becomes `<ABC>` and only then vanishes. */
  lemma RemoveNotIdempotent(c: char, key: string, b: string, s: string)
    requires IsUpper(c) && |b| >= 2 && |key| >= 3
    requires forall i :: 0 <= i < |b| ==> IsUpper(b[i])
    requires forall i :: 0 <= i < |key| ==> IsUpper(key[i])
    requires s == ['<', c] + Marker(key) + b + ['>']
    ensures RemoveSpecialTokens(RemoveSpecialTokens(s)) != RemoveSpecialTokens(s)
  {
    var tail := b + ['>'];
    assert s == ['<', c] + (Marker(key) + tail);
    NestedMarkerRemoved(c, key, b);
    assert ['<', c] + tail == ['<'] + ([c] + b) + ['>'];
    UpperTokenRemoved([c] + b);
  }

  /** The first pass over `<A<BCD>BC>` leaves `<ABC>`. */
  lemma NestedMarkerRemoved(c: char, key: string, b: string)
    requires IsUpper(c) && |key| >= 3
    requires forall i :: 0 <= i < |b| ==> IsUpper(b[i])
    requires forall i :: 0 <= i < |key| ==> IsUpper(key[i])
    ensures RemoveSpecialTokens(['<', c] + (Marker(key) + (b + ['>']))) == ['<', c] + (b + ['>'])
  {
    var m := Marker(key);
    assert (m + (b + ['>']))[0] == '<';
    InnerMarkerRemoved(c, m + (b + ['>']));
    MarkerThenPlain(key, b);
  }

  /** A `<` and one capital before another `<` start no token. */
  lemma InnerMarkerRemoved(c: char, rest: string)
    requires IsUpper(c) && rest != [] && rest[0] == '<'
    ensures RemoveSpecialTokens(['<', c] + rest) == ['<', c] + RemoveSpecialTokens(rest)
  {
    var u := [c] + rest;
    assert ['<', c] + rest == ['<'] + u;
    assert RemoveSpecialTokens(['<'] + u) == ['<'] + RemoveSpecialTokens(u) by {
      UpperRunOfUpper(u, 1);
      ShortRunKept(u);
    }
    assert RemoveSpecialTokens(u) == [c] + RemoveSpecialTokens(rest) by {
      RemovePlainPrefix([c], rest);
    }
  }

  /** A marker followed by capitals and `>` leaves just those. */
  lemma MarkerThenPlain(key: string, b: string)
    requires |key| >= 3
    requires forall i :: 0 <= i < |b| ==> IsUpper(b[i])
    requires forall i :: 0 <= i < |key| ==> IsUpper(key[i])
    ensures RemoveSpecialTokens(Marker(key) + (b + ['>'])) == b + ['>']
  {
    var tail := b + ['>'];
    RemoveMarker(key, tail);
    assert '<' !in tail by {
      forall i | 0 <= i < |tail| ensures tail[i] != '<' {
        if i < |b| { assert IsUpper(b[i]); }
      }
    }
    NoAngleUnchanged(tail);
  }

  /** `<` + three or more capitals + `>` is one token and vanishes. */
  lemma UpperTokenRemoved(w: string)
    requires |w| >= 3
    requires forall i :: 0 <= i < |w| ==> IsUpper(w[i])
    ensures RemoveSpecialTokens(['<'] + w + ['>']) == []
  {
    MarkerOfUpper(w);
    RemoveMarker(w, []);
    assert Marker(w) + [] == Marker(w);
  }
  /** The positions the left-to-right pass stops at: 0, then after each
      deleted token or kept character. No token straddles a scan point. */
  predicate IsScanPoint(s: string, e: nat)
    decreases |s|
  {
    e == 0 ||
    (s != [] &&
     match TokenLength(s)
     case Some(n) => n <= e && IsScanPoint(s[n..], e - n)
     case None => IsScanPoint(s[1..], e - 1))
  }

  /** How far one step of the pass moves from the front of a non-empty text. */
  function ScanStep(s: string): nat
  {
    match TokenLength(s)
    case Some(n) => n
    case None => 1
  }

  /** A positive scan point lies past the token or character at the front,
      and is a scan point of what follows it. */
  lemma ScanPointNext(s: string, e: nat)
    requires e > 0 && IsScanPoint(s, e)
    ensures 1 <= ScanStep(s) <= e && ScanStep(s) <= |s|
    ensures IsScanPoint(s[ScanStep(s)..], e - ScanStep(s))
  {
  }

  lemma {:induction false} UpperRunPrefix(s: string, k: nat)
    requires k <= |s|
    ensures UpperRun(s[..k]) == if UpperRun(s) < k then UpperRun(s) else k
  {
    if k > 0 && IsUpper(s[0]) {
      assert s[..k][1..] == s[1..][..k - 1];
      UpperRunPrefix(s[1..], k - 1);
    }
  }

  /** Cutting the text after a token keeps the token; cutting inside one loses it. */
  lemma TokenLengthPrefix(s: string, e: nat)
    requires 1 <= e <= |s|
    ensures TokenLength(s[..e]) ==
      if TokenLength(s).Some? && TokenLength(s).value <= e then TokenLength(s) else None
  {
    if s[0] == '<' {
      assert s[..e][1..] == s[1..][..e - 1];
      UpperRunPrefix(s[1..], e - 1);
    }
  }

  lemma {:induction false} UpperRunConcat(a: string, b: string)
    requires b == [] || !IsUpper(b[0])
    ensures UpperRun(a + b) == UpperRun(a)
  {
    if a == [] {
      assert a + b == b;
    } else if IsUpper(a[0]) {
      assert (a + b)[1..] == a[1..] + b;
      UpperRunConcat(a[1..], b);
    }
  }

  /** What follows a text cannot complete a token begun in it when it starts
      with neither a capital nor `>`. */
  lemma TokenLengthConcat(a: string, b: string)
    requires a != []
    requires b == [] || (!IsUpper(b[0]) && b[0] != '>')
    ensures TokenLength(a + b) == TokenLength(a)
  {
    if a[0] == '<' {
      assert (a + b)[1..] == a[1..] + b;
      UpperRunConcat(a[1..], b);
    }
  }

  /** The pass runs through such a text and then through what follows, separately. */
  lemma {:induction false} RemoveConcat(a: string, b: string)
    requires b == [] || (!IsUpper(b[0]) && b[0] != '>')
    ensures RemoveSpecialTokens(a + b) == RemoveSpecialTokens(a) + RemoveSpecialTokens(b)
    decreases |a|
  {
    if a == [] {
      assert a + b == b;
    } else {
      TokenLengthConcat(a, b);
      match TokenLength(a)
      case Some(n) =>
        assert RemoveSpecialTokens(a + b) == RemoveSpecialTokens(a[n..] + b) by {
          assert (a + b)[n..] == a[n..] + b;
        }
        RemoveConcat(a[n..], b);
      case None =>
        assert (a + b)[0] == a[0] && (a + b)[1..] == a[1..] + b;
        RemoveKeepsFirst(a + b);
        RemoveKeepsFirst(a);
        RemoveConcat(a[1..], b);
        ConsSplit(a[0], RemoveSpecialTokens(a[1..]), RemoveSpecialTokens(b),
                  RemoveSpecialTokens(a + b), RemoveSpecialTokens(a), RemoveSpecialTokens(a[1..] + b));
    }
  }

  /** At a scan point the pass splits into the part before and the part after. */
  lemma {:induction false} ScanSplit(s: string, e: nat)
    requires IsScanPoint(s, e)
    ensures e <= |s|
    ensures RemoveSpecialTokens(s) == RemoveSpecialTokens(s[..e]) + RemoveSpecialTokens(s[e..])
    decreases |s|
  {
    if e == 0 {
      assert s[..0] == [] && s[0..] == s;
    } else {
      ScanPointNext(s, e);
      var n := ScanStep(s);
      var rest, e' := s[n..], e - n;
      ScanSplit(rest, e');
      if TokenLength(s).Some? {
        ScanSplitToken(s, e, rest, e');
      } else {
        ScanSplitChar(s, e, rest, e');
      }
    }
  }

  /** The step of `ScanSplit` past a token at the front. */
  lemma ScanSplitToken(s: string, e: nat, rest: string, e': nat)
    requires TokenLength(s).Some? && ScanStep(s) <= e <= |s|
    requires rest == s[ScanStep(s)..] && e' == e - ScanStep(s)
    requires RemoveSpecialTokens(rest) == RemoveSpecialTokens(rest[..e']) + RemoveSpecialTokens(rest[e'..])
    ensures RemoveSpecialTokens(s) == RemoveSpecialTokens(s[..e]) + RemoveSpecialTokens(s[e..])
  {
    var n := ScanStep(s);
    assert TokenLength(s) == Some(n);
    SliceShift(s, n, e);
    TokenLengthPrefix(s, e);
  }

  /** The step of `ScanSplit` past a kept character at the front. */
  lemma ScanSplitChar(s: string, e: nat, rest: string, e': nat)
    requires TokenLength(s) == None && 1 <= e <= |s|
    requires rest == s[ScanStep(s)..] && e' == e - ScanStep(s)
    requires RemoveSpecialTokens(rest) == RemoveSpecialTokens(rest[..e']) + RemoveSpecialTokens(rest[e'..])
    ensures RemoveSpecialTokens(s) == RemoveSpecialTokens(s[..e]) + RemoveSpecialTokens(s[e..])
  {
    assert rest == s[1..] && e' == e - 1;
    RemoveKeepsFirstOfPrefix(s, e);
    RemoveKeepsFirst(s);
    SliceShift(s, 1, e);
    ConsSplit(s[0], RemoveSpecialTokens(rest[..e']), RemoveSpecialTokens(rest[e'..]),
              RemoveSpecialTokens(s), RemoveSpecialTokens(s[..e]), RemoveSpecialTokens(rest));
  }

  lemma RemoveKeepsFirstOfPrefix(s: string, e: nat)
    requires TokenLength(s) == None && 1 <= e <= |s|
    ensures RemoveSpecialTokens(s[..e]) == [s[0]] + RemoveSpecialTokens(s[1..][..e - 1])
  {
    SliceShift(s, 1, e);
    TokenLengthPrefix(s, e);
    assert s[..e][0] == s[0];
    RemoveKeepsFirst(s[..e]);
  }

  lemma ConsSplit(c: char, x: string, y: string, whole: string, front: string, rest: string)
    requires whole == [c] + rest && rest == x + y && front == [c] + x
    ensures whole == front + y
  {
  }

  /** Without a token at the front the pass keeps the first character. */
  lemma RemoveKeepsFirst(s: string)
    requires s != [] && TokenLength(s) == None
    ensures RemoveSpecialTokens(s) == [s[0]] + RemoveSpecialTokens(s[1..])
  {
  }

  /** A scan point of a text is one of any prefix that ends at a later scan point. */
  lemma {:induction false} ScanPointPrefix(s: string, e: nat, x: nat)
    requires e <= |s| && IsScanPoint(s, e) && IsScanPoint(s, x) && x <= e
    ensures IsScanPoint(s[..e], x)
    decreases |s|
  {
    if x > 0 {
      ScanPointNext(s, e);
      ScanPointNext(s, x);
      var n := ScanStep(s);
      var rest, e', x' := s[n..], e - n, x - n;
      ScanPointPrefix(rest, e', x');
      ScanPointPrefixStep(s, e, x, rest[..e'], x');
    }
  }

  /** The step of `ScanPointPrefix` past the token or character at the front. */
  lemma ScanPointPrefixStep(s: string, e: nat, x: nat, t: string, x': nat)
    requires 1 <= ScanStep(s) <= x <= e <= |s|
    requires t == s[ScanStep(s)..][..e - ScanStep(s)] && x' == x - ScanStep(s)
    requires IsScanPoint(t, x')
    ensures IsScanPoint(s[..e], x)
  {
    var n := ScanStep(s);
    TokenLengthPrefix(s, e);
    assert s[..e][n..] == t;
  }

  /** In a text without `<` the pass stops at every position. */
  lemma {:induction false} NoAngleScanPoint(s: string, e: nat)
    requires '<' !in s && e <= |s|
    ensures IsScanPoint(s, e)
    decreases |s|
  {
    if e > 0 {
      assert TokenLength(s) == None;
      NoAngleScanPoint(s[1..], e - 1);
    }
  }
}

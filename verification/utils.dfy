/** The helpers of `lib/utils.py`: the non-ASCII character set of a text,
    regex unions of literal alternatives, the `string.punctuation` remover,
    the casing rule of `create_text_variation` and the `" <KEY>"` search-term
    tagger. The whitespace, paragraph-joining, stop-word and character-set
    functions that `lib/utils.py` repeats are the ones of `Preprocessing`. */
module Utils {
  import opened Chars
  import opened PySets
  import opened SpecialTokens
  import opened Tagging
  import AltMaps

  // ---------------------------------------------------------------------
  // extract_unicode_charset: set(text) - set(string.printable)

  function ExtractUnicodeCharset(t: string): set<char>
  {
    set c | c in t && !IsPrintable(c)
  }

  /** The set is empty exactly when every character is printable ASCII. */
  lemma CharsetEmptyIffPrintable(t: string)
    ensures ExtractUnicodeCharset(t) == {} <==> forall i :: 0 <= i < |t| ==> IsPrintable(t[i])
  {
    if exists i :: 0 <= i < |t| && !IsPrintable(t[i]) {
      var i :| 0 <= i < |t| && !IsPrintable(t[i]);
      assert t[i] in ExtractUnicodeCharset(t);
    }
  }

  lemma CharsetConcat(a: string, b: string)
    ensures ExtractUnicodeCharset(a + b) == ExtractUnicodeCharset(a) + ExtractUnicodeCharset(b)
  {
    assert forall c :: c in a + b <==> c in a || c in b;
  }

  // ---------------------------------------------------------------------
  // re_union: "(" + ")|(".join(list(set(args))) + ")"

  /** `sep.join(parts)` for any separator. */
  function JoinWith(parts: seq<string>, sep: string): string
  {
    if parts == [] then []
    else if |parts| == 1 then parts[0]
    else parts[0] + sep + JoinWith(parts[1..], sep)
  }

  function Parenthesize(x: string): string
  {
    "(" + x + ")"
  }

  function ParenthesizeAll(xs: seq<string>): (ps: seq<string>)
    ensures |ps| == |xs|
    ensures forall i :: 0 <= i < |xs| ==> ps[i] == Parenthesize(xs[i])
  {
    seq(|xs|, i requires 0 <= i < |xs| => Parenthesize(xs[i]))
  }

  /** `order` is the iteration order of `set(args)`. */
  function ReUnion(args: seq<string>, order: seq<string>): (r: string)
    requires IsEnumeration(order, args)
    ensures |r| >= 2 && r[0] == '(' && r[|r| - 1] == ')'
  {
    "(" + JoinWith(order, ")|(") + ")"
  }

  lemma {:induction false} JoinParenthesized(xs: seq<string>)
    requires xs != []
    ensures "(" + JoinWith(xs, ")|(") + ")" == JoinWith(ParenthesizeAll(xs), "|")
  {
    if |xs| > 1 {
      JoinParenthesized(xs[1..]);
      assert ParenthesizeAll(xs)[1..] == ParenthesizeAll(xs[1..]);
      var j := JoinWith(xs[1..], ")|(");
      calc {
        "(" + JoinWith(xs, ")|(") + ")";
        "(" + (xs[0] + ")|(" + j) + ")";
        { assert "(" + (xs[0] + ")|(" + j) + ")" == Parenthesize(xs[0]) + "|" + ("(" + j + ")"); }
        Parenthesize(xs[0]) + "|" + ("(" + j + ")");
        Parenthesize(xs[0]) + "|" + JoinWith(ParenthesizeAll(xs[1..]), "|");
      }
    }
  }

  /** Each distinct argument appears exactly once, parenthesised, as one
      `|`-separated alternative; only their order is left open. */
  lemma ReUnionAlternatives(args: seq<string>, order: seq<string>)
    requires IsEnumeration(order, args) && args != []
    ensures ReUnion(args, order) == JoinWith(ParenthesizeAll(order), "|")
    ensures |order| == |set x | x in args|
    ensures forall x :: x in args <==> Parenthesize(x) in ParenthesizeAll(order)
  {
    assert args[0] in order;
    JoinParenthesized(order);
    EnumerationLength(order, args);
    forall x ensures x in args <==> Parenthesize(x) in ParenthesizeAll(order) {
      if Parenthesize(x) in ParenthesizeAll(order) {
        var i :| 0 <= i < |order| && ParenthesizeAll(order)[i] == Parenthesize(x);
        assert Parenthesize(order[i]) == Parenthesize(x);
        assert order[i] == Parenthesize(x)[1..|Parenthesize(x)| - 1] == x;
      }
      if x in args {
        var i :| 0 <= i < |order| && order[i] == x;
        assert ParenthesizeAll(order)[i] == Parenthesize(x);
      }
    }
  }

  // ---------------------------------------------------------------------
  // remove_punctuation: f"[{string.punctuation}]" -> ""

  /** Inside the class, `\]` escapes the bracket, so the backslash itself is
      not one of the deleted characters. */
  predicate DeletedByPunctuationClass(c: char)
  {
    IsPunctuation(c) && c != '\\'
  }

  predicate KeptByPunctuationClass(c: char)
  {
    !DeletedByPunctuationClass(c)
  }

  function RemovePunctuation(s: string): (r: string)
    ensures forall c :: c in r ==> !DeletedByPunctuationClass(c)
    ensures '\\' in s ==> '\\' in r
  {
    FilterMembersAll(s, KeptByPunctuationClass);
    Filter(s, KeptByPunctuationClass)
  }

  /** A text is returned unchanged exactly when it holds none of the deleted
      characters. */
  lemma RemovePunctuationUnchanged(s: string)
    ensures RemovePunctuation(s) == s <==> forall i :: 0 <= i < |s| ==> !DeletedByPunctuationClass(s[i])
  {
    if forall i :: 0 <= i < |s| ==> !DeletedByPunctuationClass(s[i]) {
      FilterAll(s, KeptByPunctuationClass);
    } else {
      var i :| 0 <= i < |s| && DeletedByPunctuationClass(s[i]);
      assert s[i] in s && s[i] !in RemovePunctuation(s);
    }
  }

  lemma RemovePunctuationIdempotent(s: string)
    ensures RemovePunctuation(RemovePunctuation(s)) == RemovePunctuation(s)
  {
    RemovePunctuationUnchanged(RemovePunctuation(s));
  }

  /** Deletion works character by character, so it distributes over concatenation. */
  lemma RemovePunctuationConcat(a: string, b: string)
    ensures RemovePunctuation(a + b) == RemovePunctuation(a) + RemovePunctuation(b)
  {
    FilterConcat(a, b, KeptByPunctuationClass);
  }

  // ---------------------------------------------------------------------
  // The casing rule of create_text_variation's replacement (ASCII letters)

  predicate HasCased(s: string)
  {
    exists i :: 0 <= i < |s| && IsLetter(s[i])
  }

  /** `str.islower()` */
  predicate IsLowerStr(s: string)
  {
    HasCased(s) && forall i :: 0 <= i < |s| ==> !IsUpper(s[i])
  }

  /** `str.isupper()` */
  predicate IsUpperStr(s: string)
  {
    HasCased(s) && forall i :: 0 <= i < |s| ==> !IsLower(s[i])
  }

  /** `str.istitle()`: upper-case letters only after uncased characters,
      lower-case letters only after cased ones. */
  predicate IsTitleStr(s: string)
  {
    && HasCased(s)
    && (forall i :: 0 <= i < |s| && IsUpper(s[i]) ==> i == 0 || !IsLetter(s[i - 1]))
    && (forall i :: 0 <= i < |s| && IsLower(s[i]) ==> i > 0 && IsLetter(s[i - 1]))
  }

  /** `str.title()`: a letter is upper-cased after an uncased character and
      lower-cased after a cased one. */
  function Title(s: string): (r: string)
    ensures |r| == |s|
    ensures forall i :: 0 <= i < |s| ==> r[i] == if i > 0 && IsLetter(s[i - 1]) then Lower(s[i]) else Upper(s[i])
  {
    seq(|s|, i requires 0 <= i < |s| => if i > 0 && IsLetter(s[i - 1]) then Lower(s[i]) else Upper(s[i]))
  }

  /** The synonym drawn for `original` takes its casing class. */
  function MatchCasing(original: string, synonym: string): string
  {
    if IsLowerStr(original) then LowerStr(synonym)
    else if IsUpperStr(original) then UpperStr(synonym)
    else if IsTitleStr(original) then Title(synonym)
    else synonym
  }

  lemma CasedKept(s: string, r: string)
    requires |r| == |s| && forall i :: 0 <= i < |s| ==> (IsLetter(s[i]) <==> IsLetter(r[i]))
    requires HasCased(s)
    ensures HasCased(r)
  {
    var i :| 0 <= i < |s| && IsLetter(s[i]);
    assert IsLetter(r[i]);
  }

  lemma TitleIsTitle(s: string)
    requires HasCased(s)
    ensures IsTitleStr(Title(s))
  {
    var r := Title(s);
    forall i | 0 <= i < |s| ensures IsLetter(s[i]) <==> IsLetter(r[i]) { }
    CasedKept(s, r);
  }

  /** A lower-case, upper-case or title-case original gives a replacement of
      the same class (when the synonym has a letter); any other original
      leaves the synonym as drawn. */
  lemma MatchCasingKeepsClass(original: string, synonym: string)
    requires HasCased(synonym)
    ensures IsLowerStr(original) ==> IsLowerStr(MatchCasing(original, synonym))
    ensures !IsLowerStr(original) && IsUpperStr(original) ==> IsUpperStr(MatchCasing(original, synonym))
    ensures !IsLowerStr(original) && !IsUpperStr(original) && IsTitleStr(original) ==> IsTitleStr(MatchCasing(original, synonym))
    ensures !IsLowerStr(original) && !IsUpperStr(original) && !IsTitleStr(original) ==> MatchCasing(original, synonym) == synonym
  {
    LowerIsLower(synonym);
    UpperIsUpper(synonym);
    TitleIsTitle(synonym);
  }

  lemma LowerIsLower(s: string)
    requires HasCased(s)
    ensures IsLowerStr(LowerStr(s))
  {
    CasedKept(s, LowerStr(s));
  }

  lemma UpperIsUpper(s: string)
    requires HasCased(s)
    ensures IsUpperStr(UpperStr(s))
  {
    CasedKept(s, UpperStr(s));
  }

  // ---------------------------------------------------------------------
  // add_search_term_tags(text, search_terms_map): one pass per key

  /** `\b(` + union + `)\b`: group 1 spans the whole match. */
  function TermPattern(union: string): string
  {
    "\\b(" + union + ")\\b"
  }

  /** What `r"\1 <{tag}>"` puts after each match. */
  function SpacedMarker(key: string): (m: string)
    ensures |m| == |key| + 3
  {
    [' '] + Marker(key)
  }

  /** The search-term map as the dictionary iterates it, key by key. */
  type TermsMap = seq<(string, seq<string>)>

  /** The injected set order enumerates `[key] + terms` for every entry. */
  predicate OrdersEnumerate(entries: TermsMap, setOrder: seq<string> -> seq<string>)
  {
    forall i :: 0 <= i < |entries| ==>
      IsEnumeration(setOrder([entries[i].0] + entries[i].1), [entries[i].0] + entries[i].1)
  }

  /** The injected matcher reports the ends of non-overlapping matches, left to right. */
  ghost predicate ValidMatcher(find: (string, string) -> seq<nat>)
  {
    forall p, t :: Ascending(find(p, t), |t|)
  }

  function EntryPattern(key: string, terms: seq<string>, setOrder: seq<string> -> seq<string>): string
    requires IsEnumeration(setOrder([key] + terms), [key] + terms)
  {
    TermPattern(ReUnion([key] + terms, setOrder([key] + terms)))
  }

  /** Result of the passes for `entries`, in dictionary order. */
  function TagAll(text: string, entries: TermsMap, setOrder: seq<string> -> seq<string>, find: (string, string) -> seq<nat>): string
    requires OrdersEnumerate(entries, setOrder) && ValidMatcher(find)
    decreases |entries|
  {
    if entries == [] then text
    else
      var prev := TagAll(text, entries[..|entries| - 1], setOrder, find);
      var (key, terms) := entries[|entries| - 1];
      InsertAfter(prev, find(EntryPattern(key, terms, setOrder), prev), SpacedMarker(key))
  }

  method AddSearchTermTags(text: string, entries: TermsMap, setOrder: seq<string> -> seq<string>, find: (string, string) -> seq<nat>)
    returns (r: string)
    requires OrdersEnumerate(entries, setOrder) && ValidMatcher(find)
    ensures r == TagAll(text, entries, setOrder, find)
  {
    r := text;
    var i := 0;
    while i < |entries|
      invariant 0 <= i <= |entries|
      invariant r == TagAll(text, entries[..i], setOrder, find)
    {
      var (key, terms) := entries[i];
      var pattern := EntryPattern(key, terms, setOrder);
      r := InsertAfter(r, find(pattern, r), SpacedMarker(key));
      assert entries[..i + 1][..i] == entries[..i];
      i := i + 1;
    }
    assert entries[..i] == entries;
  }

  /** One pass as a record: where the markers went, how long each is, and
      how long the text was before. */
  datatype Pass = Pass(ends: seq<nat>, markerLength: nat, before: nat)

  /** The passes of `TagAll`, in order. */
  function TagTrace(text: string, entries: TermsMap, setOrder: seq<string> -> seq<string>, find: (string, string) -> seq<nat>): (trace: seq<Pass>)
    requires OrdersEnumerate(entries, setOrder) && ValidMatcher(find)
    ensures |trace| == |entries|
    decreases |entries|
  {
    if entries == [] then []
    else
      var prev := TagAll(text, entries[..|entries| - 1], setOrder, find);
      var (key, terms) := entries[|entries| - 1];
      TagTrace(text, entries[..|entries| - 1], setOrder, find)
        + [Pass(find(EntryPattern(key, terms, setOrder), prev), |SpacedMarker(key)|, |prev|)]
  }

  /** Undoes recorded passes, last first, using nothing but the record. */
  function Untag(t: string, trace: seq<Pass>): string
    decreases |trace|
  {
    if trace == [] then t
    else
      var p := trace[|trace| - 1];
      Untag(Erase(t, p.ends, p.markerLength, p.before), trace[..|trace| - 1])
  }

  /** Deleting the recorded insertions restores the input: the passes add
      markers and change nothing else. */
  lemma {:induction false} UntagTagAll(text: string, entries: TermsMap, setOrder: seq<string> -> seq<string>, find: (string, string) -> seq<nat>)
    requires OrdersEnumerate(entries, setOrder) && ValidMatcher(find)
    ensures Untag(TagAll(text, entries, setOrder, find), TagTrace(text, entries, setOrder, find)) == text
    decreases |entries|
  {
    if entries != [] {
      var init := entries[..|entries| - 1];
      var prev := TagAll(text, init, setOrder, find);
      var (key, terms) := entries[|entries| - 1];
      var ends := find(EntryPattern(key, terms, setOrder), prev);
      var trace := TagTrace(text, entries, setOrder, find);
      assert trace[..|trace| - 1] == TagTrace(text, init, setOrder, find);
      EraseInsert(prev, ends, SpacedMarker(key));
      UntagTagAll(text, init, setOrder, find);
    }
  }

  // ---------------------------------------------------------------------
  // create_permutation_map: keys are the lower-cased stripped terms

  method CreatePermutationMap(groups: seq<seq<string>>, setOrder: seq<string> -> seq<string>)
    returns (m: AltMaps.AltMap)
    ensures m == AltMaps.BuildSpec(groups, setOrder, LowerStr)
  {
    m := AltMaps.Build(groups, setOrder, LowerStr);
  }

  lemma LowerStrIdempotent(s: string)
    ensures LowerStr(LowerStr(s)) == LowerStr(s)
  {
  }

  /** Every key is a lower-cased stripped term of some group, and it holds
      the de-duplicated stripped terms of the last group with that key. */
  lemma PermutationMapKeys(groups: seq<seq<string>>, setOrder: seq<string> -> seq<string>, k: string)
    requires AltMaps.OrdersEnumerate(groups, setOrder)
    requires k in AltMaps.BuildSpec(groups, setOrder, LowerStr)
    ensures LowerStr(k) == k
    ensures exists i :: 0 <= i < |groups| && IsEnumeration(AltMaps.BuildSpec(groups, setOrder, LowerStr)[k], AltMaps.StripAll(groups[i]))
  {
    AltMaps.BuildSpecKeys(groups, setOrder, LowerStr, k);
    var i :| 0 <= i < |groups| && AltMaps.KeyIn(k, groups[i], LowerStr);
    var t :| t in groups[i] && LowerStr(Strip(t)) == k;
    LowerStrIdempotent(Strip(t));
    AltMaps.BuildSpecValues(groups, setOrder, LowerStr, k);
  }
}

/** lib/dataset.py: cutting the Project Gutenberg body out of a book,
    recognising chapter titles, reading the table of contents, rewriting
    headings, marking sentence ends and tagging search terms, and the order
    `preprocess_data` applies them in. */
module Dataset {
  import opened Wrappers
  import opened Chars
  import opened SpecialTokens
  import Tagging
  import Preprocessing
  import Utils
  import SearchTerms

  // ---------------------------------------------------------------------
  // extract_body: re.split on DELIM_PROJ_GUTENBERG (MULTILINE)

  /** `^` under MULTILINE: the start of the text or just after a `\n`. */
  predicate IsLineStart(s: string, p: nat)
  {
    p <= |s| && (p == 0 || s[p - 1] == '\n')
  }

  /** `[\w ]` */
  predicate IsTitleChar(c: char)
  {
    IsWord(c) || c == ' '
  }

  const StartHeader: string := "*** START OF THE PROJECT GUTENBERG EBOOK "
  const EndHeader: string := "*** END OF THE PROJECT GUTENBERG EBOOK "
  const Trailer: string := " ***"

  /** `s` agrees with `p` from position `i` to the end of `p`; from 0 this
      is `s.startswith(p)`, read one character at a time. */
  predicate AgreesFrom(s: string, p: string, i: nat)
    requires i <= |p|
    decreases |p| - i
  {
    i == |p| || (i < |s| && s[i] == p[i] && AgreesFrom(s, p, i + 1))
  }

  lemma {:induction false} AgreesFromLength(s: string, p: string, i: nat)
    requires i < |p| && AgreesFrom(s, p, i)
    ensures |p| <= |s|
    decreases |p| - i
  {
    if i + 1 < |p| {
      AgreesFromLength(s, p, i + 1);
    }
  }

  lemma {:induction false} AgreesFromAt(s: string, p: string, i: nat, k: nat)
    requires i <= k < |p|
    ensures AgreesFrom(s, p, i) ==> k < |s| && s[k] == p[k]
    decreases k - i
  {
    if i < k {
      AgreesFromAt(s, p, i + 1, k);
    }
  }

  /** Only the first `|p|` characters take part. */
  lemma {:induction false} AgreesFromPrefix(t: string, m: nat, p: string, i: nat)
    requires i <= |p| <= m <= |t|
    ensures AgreesFrom(t[..m], p, i) <==> AgreesFrom(t, p, i)
    decreases |p| - i
  {
    if i < |p| {
      AgreesFromPrefix(t, m, p, i + 1);
      assert t[..m][i] == t[i];
    }
  }

  /** The length of the header `s` starts with, or 0. */
  function HeaderLength(s: string): (h: nat)
    ensures h == 0 || (h <= |s| && s[0] == '*')
  {
    if AgreesFrom(s, StartHeader, 0) then
      AgreesFromLength(s, StartHeader, 0);
      |StartHeader|
    else if AgreesFrom(s, EndHeader, 0) then
      AgreesFromLength(s, EndHeader, 0);
      |EndHeader|
    else 0
  }

  /** No text starts with both headers: they differ at index 4. */
  lemma HeadersExclusive(s: string)
    ensures !(AgreesFrom(s, StartHeader, 0) && AgreesFrom(s, EndHeader, 0))
  {
    AgreesFromAt(s, StartHeader, 0, 4);
    AgreesFromAt(s, EndHeader, 0, 4);
    assert StartHeader[4] == 'S' && EndHeader[4] == 'E';
  }

  /** A whole delimiter line: a header, a non-empty title of `[\w ]`, then
      ` ***`. */
  predicate IsDelimiterLine(line: string)
  {
    var h := HeaderLength(line);
    && h > 0 && |line| >= h + 1 + |Trailer|
    && line[|line| - |Trailer|..] == Trailer
    && forall i :: h <= i < |line| - |Trailer| ==> IsTitleChar(line[i])
  }

  /** Where the match that starts its delimiter text at `q` ends. */
  function DelimiterFrom(s: string, q: nat): (e: Option<nat>)
    requires q <= |s|
    ensures e.Some? ==> q < e.value <= |s| && s[q] == '*'
  {
    var h := HeaderLength(s[q..]);
    if h == 0 then None else TitleEnd(s, q + h)
  }

  /** After the header at `b`: the greedy `[\w ]+` stops at the first `*`,
      so it must give back exactly its last character, the space of ` ***`;
      then `$` needs the end of a line. */
  function TitleEnd(s: string, b: nat): (e: Option<nat>)
    requires b <= |s|
    ensures e.Some? ==> b < e.value <= |s|
  {
    var n := RunLength(s[b..], IsTitleChar);
    if n >= 2 && b + n + 3 <= |s| && s[b + n - 1..b + n + 3] == Trailer && (b + n + 3 == |s| || s[b + n + 3] == '\n')
    then Some(b + n + 3)
    else None
  }

  /** The end of the delimiter match starting at `p`, if any: `^`, the
      greedy `\s*` (which may cross blank lines), then the line. */
  function DelimiterAt(s: string, p: nat): (e: Option<nat>)
    ensures e.Some? ==> p < e.value <= |s|
  {
    if IsLineStart(s, p) then DelimiterFrom(s, p + RunLength(s[p..], IsSpace)) else None
  }

  lemma {:induction false} RunLengthExact(s: string, p: char -> bool, n: nat)
    requires n < |s| && !p(s[n])
    requires forall i :: 0 <= i < n ==> p(s[i])
    ensures RunLength(s, p) == n
  {
    if n > 0 {
      RunLengthExact(s[1..], p, n - 1);
    }
  }

  /** The header of a line is the header of the text the line starts. */
  lemma HeaderOfPrefix(t: string, m: nat)
    requires m <= |t| && HeaderLength(t[..m]) > 0
    ensures HeaderLength(t) == HeaderLength(t[..m])
  {
    HeadersExclusive(t);
    HeadersExclusive(t[..m]);
    if AgreesFrom(t[..m], StartHeader, 0) {
      AgreesFromLength(t[..m], StartHeader, 0);
      AgreesFromPrefix(t, m, StartHeader, 0);
    } else {
      AgreesFromLength(t[..m], EndHeader, 0);
      AgreesFromPrefix(t, m, EndHeader, 0);
    }
  }

  /** What `TitleEnd` finds: a title of `[\w ]`, ` ***`, the end of a line. */
  lemma TitleEndSound(s: string, b: nat, e: nat)
    requires b <= |s| && TitleEnd(s, b) == Some(e)
    ensures b + 1 + |Trailer| <= e <= |s| && s[e - |Trailer|..e] == Trailer && (e == |s| || s[e] == '\n')
    ensures forall i :: b <= i < e - |Trailer| ==> IsTitleChar(s[i])
  {
    var n := RunLength(s[b..], IsTitleChar);
    forall i | b <= i < b + n - 1 ensures IsTitleChar(s[i]) {
      assert s[i] == s[b..][i - b];
    }
  }

  /** `TitleEnd` finds every such line end. */
  lemma TitleEndComplete(s: string, b: nat, e: nat)
    requires b + 1 + |Trailer| <= e <= |s| && s[e - |Trailer|..e] == Trailer && (e == |s| || s[e] == '\n')
    requires forall i :: b <= i < e - |Trailer| ==> IsTitleChar(s[i])
    ensures TitleEnd(s, b) == Some(e)
  {
    var m := e - 3 - b;
    assert s[e - 4] == Trailer[0] == ' ';
    assert s[e - 3] == Trailer[1] == '*';
    forall i | 0 <= i < m ensures IsTitleChar(s[b..][i]) {
      assert s[b..][i] == s[b + i];
    }
    RunLengthExact(s[b..], IsTitleChar, m);
  }

  /** A prefix long enough to hold the header has the same header. */
  lemma HeaderOfLongPrefix(t: string, m: nat)
    requires m <= |t| && 0 < HeaderLength(t) <= m
    ensures HeaderLength(t[..m]) == HeaderLength(t)
  {
    HeadersExclusive(t);
    HeadersExclusive(t[..m]);
    if AgreesFrom(t, StartHeader, 0) {
      AgreesFromPrefix(t, m, StartHeader, 0);
    } else {
      AgreesFromPrefix(t, m, EndHeader, 0);
    }
  }

  /** A line read off `s` from its parts is a delimiter line. */
  lemma DelimiterLineFromParts(s: string, q: nat, e: nat, h: nat)
    requires q <= e <= |s| && h == HeaderLength(s[q..e]) > 0
    requires q + h + 1 + |Trailer| <= e && s[e - |Trailer|..e] == Trailer
    requires forall i :: q + h <= i < e - |Trailer| ==> IsTitleChar(s[i])
    ensures IsDelimiterLine(s[q..e])
  {
    var line := s[q..e];
    assert s[e - |Trailer|..e] == line[|line| - |Trailer|..];
    forall i | h <= i < |line| - |Trailer| ensures IsTitleChar(line[i]) {
      assert line[i] == s[q + i];
    }
  }

  /** What `DelimiterFrom` finds is a delimiter line ending a line. */
  lemma DelimiterFromSound(s: string, q: nat)
    requires q <= |s| && DelimiterFrom(s, q).Some?
    ensures var e := DelimiterFrom(s, q).value;
      IsDelimiterLine(s[q..e]) && (e == |s| || s[e] == '\n')
  {
    var h, e := DelimiterFromHeader(s, q);
    TitleEndSound(s, q + h, e);
    DelimiterLineFromParts(s, q, e, h);
  }

  /** The header `DelimiterFrom` reads is the header of the line it finds. */
  lemma DelimiterFromHeader(s: string, q: nat) returns (h: nat, e: nat)
    requires q <= |s| && DelimiterFrom(s, q).Some?
    ensures e == DelimiterFrom(s, q).value && h == HeaderLength(s[q..e]) > 0
    ensures q + h <= |s| && TitleEnd(s, q + h) == Some(e)
  {
    e := DelimiterFrom(s, q).value;
    h := HeaderLength(s[q..]);
    SliceShift(s, q, e);
    HeaderOfLongPrefix(s[q..], e - q);
  }

  /** The parts of a delimiter line `s[q..e]`, read off `s` itself. */
  lemma DelimiterLineParts(s: string, q: nat, e: nat) returns (h: nat)
    requires q <= e <= |s| && IsDelimiterLine(s[q..e])
    ensures h == HeaderLength(s[q..e]) > 0
    ensures q + h + 1 + |Trailer| <= e && s[e - |Trailer|..e] == Trailer
    ensures forall i :: q + h <= i < e - |Trailer| ==> IsTitleChar(s[i])
  {
    var line := s[q..e];
    h := HeaderLength(line);
    assert s[e - |Trailer|..e] == line[|line| - |Trailer|..];
    forall i | q + h <= i < e - |Trailer| ensures IsTitleChar(s[i]) {
      assert s[i] == line[i - q];
    }
  }

  /** Every delimiter line that ends a line is found. */
  lemma DelimiterFromComplete(s: string, q: nat, e: nat)
    requires q <= e <= |s| && IsDelimiterLine(s[q..e]) && (e == |s| || s[e] == '\n')
    ensures DelimiterFrom(s, q) == Some(e)
  {
    var h := DelimiterLineParts(s, q, e);
    HeaderOfLine(s, q, e);
    TitleEndComplete(s, q + h, e);
    DelimiterFromParts(s, q, h, e);
  }

  /** The header of a line is the header of the text from its start on. */
  lemma HeaderOfLine(s: string, q: nat, e: nat)
    requires q <= e <= |s| && HeaderLength(s[q..e]) > 0
    ensures HeaderLength(s[q..]) == HeaderLength(s[q..e])
  {
    assert s[q..][..e - q] == s[q..e];
    HeaderOfPrefix(s[q..], e - q);
  }

  /** `DelimiterFrom` put together from a header and the title end after it. */
  lemma DelimiterFromParts(s: string, q: nat, h: nat, e: nat)
    requires q <= |s| && h == HeaderLength(s[q..]) > 0 && TitleEnd(s, q + h) == Some(e)
    ensures DelimiterFrom(s, q) == Some(e)
  {
  }

  /** A match: where it starts and where it ends. */
  datatype Span = Span(start: nat, end: nat)

  /** `at(p)` is the end of the match that starts at `p`, if any: it lies
      after `p` and inside a text of length `n`. */
  ghost predicate Advances(at: nat -> Option<nat>, n: nat)
  {
    forall p: nat :: at(p).Some? ==> p < at(p).value <= n
  }

  /** The matches `re.split` cuts at: searching from `from`, the leftmost
      match, then on from its end. */
  function SplitSpans(n: nat, at: nat -> Option<nat>, from: nat): (spans: seq<Span>)
    requires Advances(at, n)
    ensures forall i :: 0 <= i < |spans| ==>
      from <= spans[i].start < spans[i].end <= n && at(spans[i].start) == Some(spans[i].end)
    ensures forall i, j :: 0 <= i < j < |spans| ==> spans[i].end <= spans[j].start
    decreases n + 1 - from
  {
    if from > n then []
    else match at(from)
      case Some(e) => [Span(from, e)] + SplitSpans(n, at, e)
      case None => SplitSpans(n, at, from + 1)
  }

  /** The delimiter matches of `s`, in order. */
  function Delimiters(s: string): seq<Span>
  {
    SplitSpans(|s|, (p: nat) => DelimiterAt(s, p), 0)
  }

  /** `extract_body`: the stripped middle part when the split gives three
      parts, otherwise the text itself. */
  function ExtractBody(s: string): (r: string)
    ensures |r| <= |s|
    ensures r == s || r == [] || (!IsSpace(r[0]) && !IsSpace(r[|r| - 1]))
  {
    var d := Delimiters(s);
    if |d| == 2 then Strip(s[d[0].end..d[1].start]) else s
  }

  /** Where nothing matches, the search finds nothing. */
  lemma {:induction false} SplitSpansNone(n: nat, at: nat -> Option<nat>, from: nat)
    requires Advances(at, n)
    requires forall p :: from <= p <= n ==> at(p).None?
    ensures SplitSpans(n, at, from) == []
    decreases n + 1 - from
  {
    if from <= n {
      SplitSpansNone(n, at, from + 1);
    }
  }

  /** A match starts with whitespace up to a `*` and is the match of the
      delimiter text there. */
  lemma DelimiterAtStar(s: string, p: nat) returns (q: nat)
    requires DelimiterAt(s, p).Some?
    ensures p <= q < |s| && s[q] == '*' && (forall i :: p <= i < q ==> IsSpace(s[i]))
    ensures DelimiterAt(s, p) == DelimiterFrom(s, q)
  {
    q := p + RunLength(s[p..], IsSpace);
    forall i | p <= i < q ensures IsSpace(s[i]) {
      assert s[i] == s[p..][i - p];
    }
  }

  /** Only a line start can start a match. */
  lemma NotLineStart(s: string, p: nat)
    requires 0 < p <= |s| && s[p - 1] != '\n'
    ensures DelimiterAt(s, p).None?
  {
  }

  /** A cut that only drops trailing whitespace strips the same. */
  lemma StripCut(body: string, k: nat)
    requires k <= |body| && forall i :: k <= i < |body| ==> IsSpace(body[i])
    ensures Strip("\n" + body[..k]) == Strip(body)
  {
    StripPadded("\n", body[..k], []);
    assert "\n" + body[..k] + [] == "\n" + body[..k];
    StripCutSpaces(body, k);
  }

  /** Stripping the text between the matches gives the stripped body. */
  lemma StripFramedBody(s: string, body: string, n: nat, p: nat, b: nat)
    requires n < p <= b == n + 1 + |body| + 1 <= |s| && s[n..b] == "\n" + body + "\n"
    requires forall i :: p <= i < b ==> IsSpace(s[i])
    ensures Strip(s[n..p]) == Strip(body)
  {
    if p == b {
      StripPadded("\n", body, "\n");
    } else {
      var k := p - n - 1;
      assert s[n..p] == s[n..b][..k + 1];
      assert s[n..p] == "\n" + body[..k];
      forall i | k <= i < |body| ensures IsSpace(body[i]) {
        assert body[i] == s[n..b][i + 1] == s[n + 1 + i];
      }
      StripCut(body, k);
    }
  }

  /** When every match that can start in `from..b` ends at `e`, and one at
      `b` does, the search finds one of them and goes on from `e`. */
  lemma {:induction false} SplitSpansTo(n: nat, at: nat -> Option<nat>, from: nat, b: nat, e: nat) returns (p: nat)
    requires Advances(at, n)
    requires from <= b && at(b) == Some(e)
    requires forall p :: from <= p <= b && at(p).Some? ==> at(p) == Some(e)
    ensures from <= p <= b && at(p) == Some(e) && SplitSpans(n, at, from) == [Span(p, e)] + SplitSpans(n, at, e)
    decreases b - from
  {
    if at(from).None? {
      p := SplitSpansTo(n, at, from + 1, b, e);
    } else {
      p := from;
    }
  }

  /** Two matches, the first ending at `m` and every one starting up to `a`
      ending there too, then every one starting in `m..b` ending at `e`, and
      none from `e` on: the search finds exactly two. */
  lemma SplitSpansPair(n: nat, at: nat -> Option<nat>, a: nat, m: nat, b: nat, e: nat) returns (p1: nat, p2: nat)
    requires Advances(at, n)
    requires at(a) == Some(m) && forall p: nat :: p <= a && at(p).Some? ==> at(p) == Some(m)
    requires m <= b && at(b) == Some(e) && forall p :: m <= p <= b && at(p).Some? ==> at(p) == Some(e)
    requires forall p :: e <= p <= n ==> at(p).None?
    ensures m <= p2 <= b && at(p2) == Some(e)
    ensures SplitSpans(n, at, 0) == [Span(p1, m), Span(p2, e)]
  {
    p1 := SplitSpansTo(n, at, 0, a, m);
    p2 := SplitSpansTo(n, at, m, b, e);
    SplitSpansNone(n, at, e);
  }

  /** The search misses no match: every match at or after `from` either
      starts a span or lies strictly inside one. */
  lemma {:induction false} SplitSpansCover(n: nat, at: nat -> Option<nat>, from: nat, p: nat) returns (i: nat)
    requires Advances(at, n)
    requires from <= p && at(p).Some?
    ensures var spans := SplitSpans(n, at, from);
      && i < |spans| && spans[i].start <= p
      && (spans[i].start == p ==> spans[i].end == at(p).value)
      && (spans[i].start < p ==> p < spans[i].end)
    decreases n + 1 - from
  {
    var spans := SplitSpans(n, at, from);
    if at(from).Some? {
      var e := at(from).value;
      var rest := SplitSpans(n, at, e);
      assert spans == [Span(from, e)] + rest;
      if p < e {
        i := 0;
      } else {
        var k := SplitSpansCover(n, at, e, p);
        i := k + 1;
        assert spans[i] == rest[k];
      }
    } else {
      i := SplitSpansCover(n, at, from + 1, p);
    }
  }

  /** The match at `p` read off the text: `^` at `p`, whitespace up to `q`,
      then a whole delimiter line `s[q..e]` that ends a line. */
  ghost predicate MatchAt(s: string, p: nat, q: nat, e: nat)
  {
    && IsLineStart(s, p) && p <= q < e <= |s|
    && (forall i :: p <= i < q ==> IsSpace(s[i]))
    && !IsSpace(s[q])
    && IsDelimiterLine(s[q..e]) && (e == |s| || s[e] == '\n')
  }

  /** `s` holds no match of the delimiter pattern. */
  ghost predicate NoDelimiterMatch(s: string)
  {
    forall p: nat :: p <= |s| ==> DelimiterAt(s, p).None?
  }

  /** The delimiter texts hold no line break. */
  lemma StartHeaderNoNewline(i: nat)
    requires i < |StartHeader|
    ensures StartHeader[i] != '\n'
  {
  }

  lemma EndHeaderNoNewline(i: nat)
    requires i < |EndHeader|
    ensures EndHeader[i] != '\n'
  {
  }

  /** A delimiter line lies within one line. */
  lemma DelimiterLineNoNewline(line: string, i: nat)
    requires IsDelimiterLine(line) && i < |line|
    ensures line[i] != '\n'
  {
    var h := HeaderLength(line);
    if i < h {
      if AgreesFrom(line, StartHeader, 0) {
        AgreesFromAt(line, StartHeader, 0, i);
        StartHeaderNoNewline(i);
      } else {
        AgreesFromAt(line, EndHeader, 0, i);
        EndHeaderNoNewline(i);
      }
    } else if i >= |line| - |Trailer| {
      var t := line[|line| - |Trailer|..];
      assert line[i] == t[i - (|line| - |Trailer|)];
    }
  }

  lemma MatchNoNewline(s: string, p: nat, q: nat, e: nat)
    requires MatchAt(s, p, q, e)
    ensures forall k :: q <= k < e ==> s[k] != '\n'
  {
    var line := s[q..e];
    forall k | q <= k < e ensures s[k] != '\n' {
      assert s[k] == line[k - q];
      DelimiterLineNoNewline(line, k - q);
    }
  }

  /** Every match is read off the text as `MatchAt` says. */
  lemma MatchOfDelimiterAt(s: string, p: nat) returns (q: nat)
    requires DelimiterAt(s, p).Some?
    ensures MatchAt(s, p, q, DelimiterAt(s, p).value) && s[q] == '*'
  {
    q := DelimiterAtStar(s, p);
    DelimiterFromSound(s, q);
  }

  /** Every `MatchAt` is found. */
  lemma DelimiterAtOfMatch(s: string, p: nat, q: nat, e: nat)
    requires MatchAt(s, p, q, e)
    ensures DelimiterAt(s, p) == Some(e)
  {
    var rest := s[p..];
    forall i | 0 <= i < q - p ensures IsSpace(rest[i]) {
      assert rest[i] == s[p + i];
    }
    assert rest[q - p] == s[q];
    RunLengthExact(rest, IsSpace, q - p);
    DelimiterFromComplete(s, q, e);
  }

  /** The matches of `DELIM_PROJ_GUTENBERG`: a line start, whitespace (which
      may span blank lines), then a whole delimiter line. */
  lemma DelimiterAtIsMatch(s: string, p: nat, e: nat)
    ensures DelimiterAt(s, p) == Some(e) <==> exists q: nat :: MatchAt(s, p, q, e)
  {
    if DelimiterAt(s, p) == Some(e) {
      var q := MatchOfDelimiterAt(s, p);
    }
    if exists q: nat :: MatchAt(s, p, q, e) {
      var q: nat :| MatchAt(s, p, q, e);
      DelimiterAtOfMatch(s, p, q, e);
    }
  }

  /** Two matches either end together or do not overlap. */
  lemma MatchesNest(s: string, p: nat, p': nat)
    requires p < p' && DelimiterAt(s, p).Some? && DelimiterAt(s, p').Some?
    ensures DelimiterAt(s, p) == DelimiterAt(s, p') || DelimiterAt(s, p).value <= p'
  {
    var e := DelimiterAt(s, p).value;
    var q := MatchOfDelimiterAt(s, p);
    MatchNoNewline(s, p, q, e);
    if p' <= q {
      assert MatchAt(s, p', q, e);
      DelimiterAtOfMatch(s, p', q, e);
    }
  }

  /** A match inside the piece `x == s[o..o + |x|]` of `s` that stays
      inside the piece is read off the piece as well. */
  lemma MatchInPiece(s: string, x: string, o: nat, p: nat, q: nat, e: nat)
    requires o + |x| <= |s| && s[o..o + |x|] == x
    requires MatchAt(s, p, q, e) && o <= p && e <= o + |x|
    ensures MatchAt(x, p - o, q - o, e - o)
  {
    assert p - o == 0 || x[p - o - 1] == s[p - 1];
    forall i | p - o <= i < q - o ensures IsSpace(x[i]) {
      assert x[i] == s[o + i];
    }
    assert x[q - o] == s[q];
    forall k | q - o <= k < e - o ensures x[k] == s[o + k] {}
    assert x[q - o..e - o] == s[q..e];
    if e < o + |x| {
      assert x[e - o] == s[e];
    }
  }

  /** A line that starts inside a piece ending a line ends inside it. */
  lemma LineInPiece(s: string, x: string, o: nat, q: nat, e: nat)
    requires o + |x| <= |s| && s[o..o + |x|] == x && o <= q < o + |x| && e <= |s|
    requires forall k :: q <= k < e ==> s[k] != '\n'
    requires x[|x| - 1] == '\n' || o + |x| == |s| || s[o + |x|] == '\n'
    ensures e <= o + |x|
  {
    if x[|x| - 1] == '\n' {
      assert s[o + |x| - 1] == x[|x| - 1];
    }
  }

  /** A match inside the piece `x == s[o..o + |x|]` of `s`, when the piece
      ends a line, is a match of the piece. */
  lemma PieceMatch(s: string, x: string, o: nat, p: nat, q: nat, e: nat)
    requires o + |x| <= |s| && s[o..o + |x|] == x
    requires MatchAt(s, p, q, e) && o <= p
    requires x == [] || x[|x| - 1] == '\n' || o + |x| == |s| || s[o + |x|] == '\n'
    ensures q < o + |x| ==> MatchAt(x, p - o, q - o, e - o)
  {
    if q < o + |x| {
      MatchNoNewline(s, p, q, e);
      LineInPiece(s, x, o, q, e);
      MatchInPiece(s, x, o, p, q, e);
    }
  }

  /** A text without matches has no `MatchAt` either. */
  lemma NoMatchAt(x: string, p: nat, q: nat, e: nat)
    requires NoDelimiterMatch(x)
    ensures !MatchAt(x, p, q, e)
  {
    if MatchAt(x, p, q, e) {
      DelimiterAtOfMatch(x, p, q, e);
    }
  }

  /** A match starting inside a piece without matches that ends a line
      reaches its `*` only past the piece. */
  lemma MatchOutsidePiece(s: string, x: string, o: nat, p: nat, q: nat, e: nat)
    requires o + |x| <= |s| && s[o..o + |x|] == x && NoDelimiterMatch(x)
    requires MatchAt(s, p, q, e) && o <= p
    requires x == [] || x[|x| - 1] == '\n' || o + |x| == |s| || s[o + |x|] == '\n'
    ensures o + |x| <= q
  {
    PieceMatch(s, x, o, p, q, e);
    NoMatchAt(x, p - o, q - o, e - o);
  }

  /** Before a delimiter line `s[d..e]` at a line start, after a piece
      `x == s[o..o + |x|]` without matches and whitespace: every match
      starting in `o..d` is that line's. */
  lemma MatchesBefore(s: string, x: string, o: nat, d: nat, e: nat)
    requires o + |x| <= d < e <= |s| && s[o..o + |x|] == x && NoDelimiterMatch(x)
    requires x == [] || x[|x| - 1] == '\n' || s[o + |x|] == '\n'
    requires forall i :: o + |x| <= i < d ==> IsSpace(s[i])
    requires IsLineStart(s, d) && IsDelimiterLine(s[d..e]) && (e == |s| || s[e] == '\n')
    ensures DelimiterAt(s, d) == Some(e)
    ensures forall p :: o <= p <= d && DelimiterAt(s, p).Some? ==>
      DelimiterAt(s, p) == Some(e) && forall i :: p <= i < d ==> IsSpace(s[i])
  {
    assert s[d] == s[d..e][0] == '*';
    assert MatchAt(s, d, d, e);
    DelimiterAtOfMatch(s, d, d, e);
    forall p | o <= p <= d && DelimiterAt(s, p).Some?
      ensures DelimiterAt(s, p) == Some(e) && forall i :: p <= i < d ==> IsSpace(s[i])
    {
      var q := MatchOfDelimiterAt(s, p);
      MatchOutsidePiece(s, x, o, p, q, DelimiterAt(s, p).value);
      assert q == d;
      DelimiterFromComplete(s, d, e);
      DelimiterAtOfMatch(s, p, d, e);
    }
  }

  /** No match starts inside a line `s[a..c]` without newlines. */
  lemma InsideLineNone(s: string, a: nat, c: nat)
    requires a <= c <= |s| && forall i :: a <= i < c ==> s[i] != '\n'
    ensures forall p :: a < p <= c ==> DelimiterAt(s, p).None?
  {
  }



  /** Each delimiter line of a framed text lies within one line. */
  lemma LineOfNoNewline(s: string, a: nat, c: nat)
    requires a <= c <= |s| && IsDelimiterLine(s[a..c])
    ensures forall i :: a <= i < c ==> s[i] != '\n'
  {
    forall i | a <= i < c ensures s[i] != '\n' {
      assert s[i] == s[a..c][i - a];
      DelimiterLineNoNewline(s[a..c], i - a);
    }
  }

  /** The START line `s[n0..n]` after a preamble `pre` without matches: every
      match up to its end is its own. */
  lemma FramedFirst(s: string, pre: string, n0: nat, n: nat)
    requires n0 <= n < |s| && s[0..n0] == pre && s[n] == '\n'
    requires pre == [] || pre[|pre| - 1] == '\n'
    requires IsDelimiterLine(s[n0..n]) && NoDelimiterMatch(pre)
    ensures DelimiterAt(s, n0) == Some(n)
    ensures forall p: nat :: p <= n && DelimiterAt(s, p).Some? ==> DelimiterAt(s, p) == Some(n)
  {
    LineOfNoNewline(s, n0, n);
    MatchesBefore(s, pre, 0, n0, n);
    InsideLineNone(s, n0, n);
  }

  /** The END line `s[b..e]` after the line break ending the START line at
      `n` and a body without matches: every match from `n` up to the END
      line's start is the END line's, and nothing matches inside it. */
  lemma FramedSecond(s: string, body: string, n: nat, b: nat, e: nat)
    requires n + 2 <= b <= e <= |s| && s[n + 1..b - 1] == body
    requires s[n] == '\n' && s[b - 1] == '\n'
    requires IsDelimiterLine(s[b..e]) && (e == |s| || s[e] == '\n') && NoDelimiterMatch(body)
    ensures DelimiterAt(s, b) == Some(e)
    ensures forall p :: n < p <= b && DelimiterAt(s, p).Some? ==>
      DelimiterAt(s, p) == Some(e) && forall i :: p <= i < b ==> IsSpace(s[i])
    ensures forall p :: b < p <= e ==> DelimiterAt(s, p).None?
  {
    assert |body| == b - n - 2;
    assert IsSpace(s[b - 1]);
    LineOfNoNewline(s, b, e);
    MatchesBefore(s, body, n + 1, b, e);
    InsideLineNone(s, b, e);
  }

  /** Nothing matches inside a tail `post` without matches, once past its
      first character. */
  lemma FramedLast(s: string, post: string, e: nat)
    requires e <= |s| && s[e..|s|] == post && NoDelimiterMatch(post)
    ensures forall p :: e < p <= |s| ==> DelimiterAt(s, p).None?
  {
    forall p | e < p <= |s| ensures DelimiterAt(s, p).None? {
      if DelimiterAt(s, p).Some? {
        var q := MatchOfDelimiterAt(s, p);
        MatchOutsidePiece(s, post, e, p, q, DelimiterAt(s, p).value);
      }
    }
  }

  /** Matches that all end at `n` up to `n`, then all at `e` up to `b`, and
      none after: `Delimiters` lists exactly two. */
  lemma DelimiterPair(s: string, n0: nat, n: nat, b: nat, e: nat) returns (p2: nat)
    requires n <= b && e <= |s|
    requires DelimiterAt(s, n0) == Some(n)
    requires forall p: nat :: p <= n && DelimiterAt(s, p).Some? ==> DelimiterAt(s, p) == Some(n)
    requires DelimiterAt(s, b) == Some(e)
    requires forall p :: n < p <= b && DelimiterAt(s, p).Some? ==>
      DelimiterAt(s, p) == Some(e) && forall i :: p <= i < b ==> IsSpace(s[i])
    requires forall p :: b < p <= |s| ==> DelimiterAt(s, p).None?
    ensures n < p2 <= b && forall i :: p2 <= i < b ==> IsSpace(s[i])
    ensures exists p1 :: Delimiters(s) == [Span(p1, n), Span(p2, e)]
  {
    var at := (p: nat) => DelimiterAt(s, p);
    var p1;
    p1, p2 := SplitSpansPair(|s|, at, n0, n, b, e);
  }

  /** The matches of a text laid out as `pre`, a delimiter line `s[n0..n]`,
      a newline, `body`, a newline, a delimiter line `s[b..e]` and `post`:
      one match ends each delimiter line and nothing else matches. */
  lemma FramedDelimiters(s: string, pre: string, body: string, post: string, n0: nat, n: nat, b: nat, e: nat)
    returns (p2: nat)
    requires n0 <= n && n + 2 <= b <= e == |s| - |post|
    requires s[0..n0] == pre && s[n + 1..b - 1] == body && s[e..|s|] == post
    requires pre == [] || pre[|pre| - 1] == '\n'
    requires post == [] || post[0] == '\n'
    requires s[n] == '\n' && s[b - 1] == '\n'
    requires IsDelimiterLine(s[n0..n]) && IsDelimiterLine(s[b..e])
    requires NoDelimiterMatch(pre) && NoDelimiterMatch(body) && NoDelimiterMatch(post)
    ensures n < p2 <= b && forall i :: p2 <= i < b ==> IsSpace(s[i])
    ensures exists p1 :: Delimiters(s) == [Span(p1, n), Span(p2, e)]
  {
    FramedFirst(s, pre, n0, n);
    assert e == |s| || s[e] == post[0];
    FramedSecond(s, body, n, b, e);
    FramedLast(s, post, e);
    assert forall p :: b < p <= |s| ==> DelimiterAt(s, p).None?;
    p2 := DelimiterPair(s, n0, n, b, e);
  }

  /** `extract_body` on a text laid out as `FramedDelimiters` says. */
  lemma ExtractBodyLaidOut(s: string, pre: string, body: string, post: string, n0: nat, n: nat, b: nat, e: nat)
    requires n0 <= n && n + 2 <= b <= e == |s| - |post|
    requires s[0..n0] == pre && s[n + 1..b - 1] == body && s[e..|s|] == post
    requires s[n..b] == "\n" + body + "\n"
    requires pre == [] || pre[|pre| - 1] == '\n'
    requires post == [] || post[0] == '\n'
    requires s[n] == '\n' && s[b - 1] == '\n'
    requires IsDelimiterLine(s[n0..n]) && IsDelimiterLine(s[b..e])
    requires NoDelimiterMatch(pre) && NoDelimiterMatch(body) && NoDelimiterMatch(post)
    ensures ExtractBody(s) == Strip(body)
  {
    var p2 := FramedDelimiters(s, pre, body, post, n0, n, b, e);
    StripFramedBody(s, body, n, p2, b);
  }

  /** Where the parts of a framed text sit. */
  lemma FramedLayout(pre: string, first: string, body: string, last: string, post: string, s: string,
                     n0: nat, n: nat, b: nat, e: nat)
    requires s == pre + first + "\n" + body + "\n" + last + post
    requires n0 == |pre| && n == n0 + |first| && b == n + 1 + |body| + 1 && e == b + |last|
    ensures n0 <= n && n + 2 <= b <= e == |s| - |post|
    ensures s[0..n0] == pre && s[n + 1..b - 1] == body && s[e..|s|] == post
    ensures s[n0..n] == first && s[b..e] == last
    ensures s[n..b] == "\n" + body + "\n" && s[n] == '\n' && s[b - 1] == '\n'
  {
    var mid := "\n" + body + "\n";
    assert s == pre + first + mid + last + post;
    assert s[n..b] == mid;
    assert mid[1..1 + |body|] == body;
  }

  /** `extract_body` on a Gutenberg file: a preamble `pre`, the START line,
      the body, the END line and the licence `post`, none of `pre`, `body`
      and `post` holding a delimiter line. The result is the stripped body. */
  lemma ExtractBodyFramed(pre: string, first: string, body: string, last: string, post: string)
    requires pre == [] || pre[|pre| - 1] == '\n'
    requires post == [] || post[0] == '\n'
    requires IsDelimiterLine(first) && IsDelimiterLine(last)
    requires NoDelimiterMatch(pre) && NoDelimiterMatch(body) && NoDelimiterMatch(post)
    ensures ExtractBody(pre + first + "\n" + body + "\n" + last + post) == Strip(body)
  {
    var s := pre + first + "\n" + body + "\n" + last + post;
    var n := |pre| + |first|;
    var b := n + 1 + |body| + 1;
    FramedLayout(pre, first, body, last, post, s, |pre|, n, b, b + |last|);
    ExtractBodyLaidOut(s, pre, body, post, |pre|, n, b, b + |last|);
  }

  /** A text without any match is returned unchanged. */
  lemma ExtractBodyNoDelimiter(s: string)
    requires NoDelimiterMatch(s)
    ensures ExtractBody(s) == s
  {
    var at := (p: nat) => DelimiterAt(s, p);
    SplitSpansNone(|s|, at, 0);
  }

  /** A text without a `*` holds no match. */
  lemma NoStarNoDelimiter(s: string)
    requires '*' !in s
    ensures NoDelimiterMatch(s)
  {
    forall p: nat | p <= |s| ensures DelimiterAt(s, p).None? {
      if DelimiterAt(s, p).Some? {
        var q := DelimiterAtStar(s, p);
      }
    }
  }

  /** Every line end a match reaches is the end of a listed span. */
  lemma DelimiterEndListed(s: string, p: nat) returns (i: nat)
    requires DelimiterAt(s, p).Some?
    ensures i < |Delimiters(s)| && Delimiters(s)[i].end == DelimiterAt(s, p).value
  {
    var at := (p: nat) => DelimiterAt(s, p);
    var d := Delimiters(s);
    i := SplitSpansCover(|s|, at, 0, p);
    if d[i].start < p {
      MatchesNest(s, d[i].start, p);
    }
  }

  /** The first two listed matches, when there are two, end apart. */
  lemma FirstTwoDelimiters(s: string)
    ensures var d := Delimiters(s); |d| >= 2 ==>
      && DelimiterAt(s, d[0].start) == Some(d[0].end)
      && DelimiterAt(s, d[1].start) == Some(d[1].end)
      && d[0].end < d[1].end
  {
  }

  /** One delimiter line, however many blank lines lead to it: every match
      ends at the same place, so the split gives two parts and the text is
      returned unchanged. */
  lemma ExtractBodyOneDelimiter(s: string)
    requires forall p: nat, p': nat :: DelimiterAt(s, p).Some? && DelimiterAt(s, p').Some? ==> DelimiterAt(s, p) == DelimiterAt(s, p')
    ensures ExtractBody(s) == s
  {
    FirstTwoDelimiters(s);
  }

  /** Three delimiter lines or more: matches with three different ends make
      the split give four parts or more, and the text is returned unchanged. */
  lemma ExtractBodyThreeDelimiters(s: string, p1: nat, p2: nat, p3: nat)
    requires DelimiterAt(s, p1).Some? && DelimiterAt(s, p2).Some? && DelimiterAt(s, p3).Some?
    requires DelimiterAt(s, p1) != DelimiterAt(s, p2) && DelimiterAt(s, p2) != DelimiterAt(s, p3)
    requires DelimiterAt(s, p1) != DelimiterAt(s, p3)
    ensures ExtractBody(s) == s
  {
    var d := Delimiters(s);
    var i1 := DelimiterEndListed(s, p1);
    var i2 := DelimiterEndListed(s, p2);
    var i3 := DelimiterEndListed(s, p3);
    assert i1 != i2 && i2 != i3 && i1 != i3;
    assert |d| != 2;
  }

  // ---------------------------------------------------------------------
  // matches_chapter_title: re.match(CHAPTER_TITLE, text, IGNORECASE)

  /** `c` and `d` are equal under IGNORECASE. */
  predicate SameLetter(c: char, d: char)
  {
    Lower(c) == Lower(d)
  }

  /** `[MDCLXVI]` under IGNORECASE. */
  predicate IsRomanDigit(c: char)
  {
    Lower(c) in "mdclxvi"
  }

  /** Every character of `w` is `d`, ignoring case. */
  predicate AllOf(w: string, d: char)
  {
    forall i :: 0 <= i < |w| ==> SameLetter(w[i], d)
  }

  /** One group of the numeral, `C[MD]|D?C*` and its like: `one` and then
      one of `two`, or an optional `opt` and then any number of `rep`. */
  predicate RomanGroup(w: string, one: char, two: string, opt: char, rep: char)
  {
    || (|w| == 2 && SameLetter(w[0], one) && Lower(w[1]) in two)
    || (w != [] && SameLetter(w[0], opt) && AllOf(w[1..], rep))
    || AllOf(w, rep)
  }

  /** `M*(?:C[MD]|D?C*)(?:X[CL]|L?X*)(?:I[XV]|V?I*)` cut into its four groups. */
  predicate RomanSplit(w: string, a: nat, b: nat, c: nat)
  {
    && a <= b <= c <= |w|
    && AllOf(w[..a], 'm')
    && RomanGroup(w[a..b], 'c', "md", 'd', 'c')
    && RomanGroup(w[b..c], 'x', "cl", 'l', 'x')
    && RomanGroup(w[c..], 'i', "xv", 'v', 'i')
  }

  /** `w` is in the language of ROMAN_NUMERALS after its look-ahead. */
  ghost predicate RomanNumeral(w: string)
  {
    exists a: nat, b: nat, c: nat :: RomanSplit(w, a, b, c)
  }

  /** `t[k..m]` matches `\d{1,3}|ROMAN_NUMERALS`; the look-ahead may look at
      `t[k]` even when the numeral itself is empty. */
  ghost predicate NumberMatch(t: string, k: nat, m: nat)
  {
    && k <= m <= |t|
    && ((1 <= m - k <= 3 && forall i :: k <= i < m ==> IsDigit(t[i]))
        || (k < |t| && IsRomanDigit(t[k]) && RomanNumeral(t[k..m])))
  }

  /** `(?:\.? .*?)?`, where `.` is anything but a newline. */
  predicate TailMatch(x: string)
  {
    || x == []
    || (x[0] == ' ' && '\n' !in x[1..])
    || (|x| >= 2 && x[0] == '.' && x[1] == ' ' && '\n' !in x[2..])
  }

  /** `(?:chapter|part) ` under IGNORECASE. */
  predicate KeywordMatch(x: string)
  {
    EqualsIgnoreCase(x, "chapter ") || EqualsIgnoreCase(x, "part ")
  }

  /** `t[..j]` matches CHAPTER_TITLE, cut at `k` and `m` into its three parts. */
  ghost predicate TitleSplit(t: string, j: nat, k: nat, m: nat)
  {
    && k <= m <= j <= |t|
    && KeywordMatch(t[..k]) && NumberMatch(t, k, m) && TailMatch(t[m..j])
  }

  /** `re.match` succeeds with a match `t[..j]`. */
  ghost predicate TitleMatch(t: string, j: nat)
  {
    exists k: nat, m: nat :: TitleSplit(t, j, k, m)
  }

  /** What may open the number: `\d` or (the look-ahead of the roman branch)
      one of `MDCLXVI` in either case. */
  predicate IsNumberStart(c: char)
  {
    IsDigit(c) || IsRomanDigit(c)
  }

  /** `matches_chapter_title`: `chapter ` or `part ` in any case, then a
      digit or a roman digit. The roman numeral may match empty after its
      look-ahead and the tail may match nothing, so `re.match` needs no more. */
  predicate MatchesChapterTitle(t: string)
  {
    || (StartsWithIgnoreCase(t, "chapter ") && |t| > 8 && IsNumberStart(t[8]))
    || (StartsWithIgnoreCase(t, "part ") && |t| > 5 && IsNumberStart(t[5]))
  }

  lemma EmptyRoman()
    ensures RomanNumeral([])
  {
    assert RomanSplit([], 0, 0, 0);
  }

  /** Case-insensitive equality fixes the length. */
  lemma IgnoreCaseLength(a: string, b: string)
    requires EqualsIgnoreCase(a, b)
    ensures |a| == |b|
  {
    assert |LowerStr(a)| == |LowerStr(b)|;
  }

  /** The prefix test is exactly whether the regex matches some prefix. */
  lemma ChapterTitleIsRegexMatch(t: string)
    ensures MatchesChapterTitle(t) <==> exists j: nat :: j <= |t| && TitleMatch(t, j)
  {
    if exists j: nat :: j <= |t| && TitleMatch(t, j) {
      var j: nat :| j <= |t| && TitleMatch(t, j);
      TitleMatchSound(t, j);
    }
    if MatchesChapterTitle(t) {
      var j := TitleMatchComplete(t);
    }
  }

  /** A match of the regex passes the prefix test. */
  lemma TitleMatchSound(t: string, j: nat)
    requires j <= |t| && TitleMatch(t, j)
    ensures MatchesChapterTitle(t)
  {
    var k: nat, m: nat :| TitleSplit(t, j, k, m);
    KeywordLength(t, k);
    NumberStartOf(t, k, m);
  }

  /** The keyword part fixes where the number starts. */
  lemma KeywordLength(t: string, k: nat)
    requires k <= |t| && KeywordMatch(t[..k])
    ensures (k == 8 && StartsWithIgnoreCase(t, "chapter ")) || (k == 5 && StartsWithIgnoreCase(t, "part "))
  {
    IgnoreCaseLength(t[..k], if EqualsIgnoreCase(t[..k], "chapter ") then "chapter " else "part ");
  }

  /** A number match opens with a number start. */
  lemma NumberStartOf(t: string, k: nat, m: nat)
    requires NumberMatch(t, k, m)
    ensures k < |t| && IsNumberStart(t[k])
  {
    if 1 <= m - k <= 3 && forall i :: k <= i < m ==> IsDigit(t[i]) {
      assert IsDigit(t[k]);
    }
  }

  /** A text passing the prefix test has a match: the keyword, one digit or
      an empty numeral, and an empty tail. */
  lemma TitleMatchComplete(t: string) returns (j: nat)
    requires MatchesChapterTitle(t)
    ensures j <= |t| && TitleMatch(t, j)
  {
    var k := if StartsWithIgnoreCase(t, "chapter ") && |t| > 8 && IsNumberStart(t[8]) then 8 else 5;
    assert KeywordMatch(t[..k]);
    EmptyRoman();
    if IsDigit(t[k]) {
      j := k + 1;
      assert TitleSplit(t, j, k, k + 1);
    } else {
      j := k;
      assert t[k..k] == [];
      assert TitleSplit(t, j, k, k);
    }
  }

  /** `Chapter ` + `e` is a chapter title exactly when `e` opens with a number. */
  lemma PrefixedChapter(e: string)
    ensures MatchesChapterTitle("Chapter " + e) <==> e != [] && IsNumberStart(e[0])
  {
    var t := "Chapter " + e;
    assert t[..8] == "Chapter ";
    assert LowerStr("Chapter ") == "chapter ";
    assert LowerStr(t[..8]) == LowerStr("chapter ");
    assert Lower(t[0]) != Lower("part "[0]);
    if e != [] {
      assert t[8] == e[0];
    }
  }

  /** Only a prefix is matched, so what follows does not matter. */
  lemma ChapterTitleExtends(t: string, x: string)
    requires MatchesChapterTitle(t)
    ensures MatchesChapterTitle(t + x)
  {
    var k := if StartsWithIgnoreCase(t, "chapter ") && |t| > 8 && IsNumberStart(t[8]) then 8 else 5;
    assert (t + x)[..k] == t[..k];
    assert (t + x)[k] == t[k];
  }

  /** Matching ignores case. */
  lemma ChapterTitleIgnoresCase(t: string, u: string)
    requires EqualsIgnoreCase(t, u)
    ensures MatchesChapterTitle(t) <==> MatchesChapterTitle(u)
  {
    IgnoreCaseLength(t, u);
    forall k | 0 <= k <= |t| ensures EqualsIgnoreCase(t[..k], u[..k]) {
      assert LowerStr(t[..k]) == LowerStr(t)[..k];
      assert LowerStr(u[..k]) == LowerStr(u)[..k];
    }
    forall k | 0 <= k < |t| ensures IsNumberStart(t[k]) <==> IsNumberStart(u[k]) {
      assert Lower(t[k]) == LowerStr(t)[k] == LowerStr(u)[k] == Lower(u[k]);
    }
  }

  // ---------------------------------------------------------------------
  // get_toc: re.search(TABLE_OF_CONTENTS, text, MULTILINE)

  /** The leftmost match at or after `from`, as `re.search` finds it. */
  function Leftmost(n: nat, at: nat -> Option<nat>, from: nat): (r: Option<Span>)
    ensures r.Some? ==> from <= r.value.start <= n && at(r.value.start) == Some(r.value.end)
    ensures r.Some? ==> forall p :: from <= p < r.value.start ==> at(p).None?
    ensures r.None? ==> forall p :: from <= p <= n ==> at(p).None?
    decreases n + 1 - from
  {
    if from > n then None
    else match at(from)
      case Some(e) => Some(Span(from, e))
      case None => Leftmost(n, at, from + 1)
  }

  const ContentsHeading: string := "Contents"

  predicate IsNewline(c: char)
  {
    c == '\n'
  }

  /** Three newlines in a row start at `q`. */
  predicate TripleAt(s: string, q: nat)
  {
    q + 3 <= |s| && s[q] == '\n' && s[q + 1] == '\n' && s[q + 2] == '\n'
  }

  /** The first three newlines in a row at or after `c`. */
  function TripleFrom(s: string, c: nat): (q: Option<nat>)
    ensures q.Some? ==> c <= q.value && TripleAt(s, q.value)
    ensures q.Some? ==> forall i :: c <= i < q.value ==> !TripleAt(s, i)
    ensures q.None? ==> forall i :: c <= i ==> !TripleAt(s, i)
    decreases |s| - c
  {
    if c + 3 > |s| then None
    else if TripleAt(s, c) then Some(c)
    else TripleFrom(s, c + 1)
  }

  /** The end of a TABLE_OF_CONTENTS match starting at `a`, if any.
      `^Contents` and the greedy `\n+` reach `c`; the lazy `(?:.*\n)+?`
      takes whole lines until `$\n\n` holds, which is the first three
      newlines in a row at or after `c`. Failing that, giving back three of
      the newlines (when there are four or more) lets the last three serve. */
  function TocAt(s: string, a: nat): (e: Option<nat>)
    ensures e.Some? ==> a + |ContentsHeading| < e.value <= |s|
  {
    if IsLineStart(s, a) && a + |ContentsHeading| <= |s| && s[a..a + |ContentsHeading|] == ContentsHeading then
      var n := RunLength(s[a + |ContentsHeading|..], IsNewline);
      var c := a + |ContentsHeading| + n;
      if n == 0 then None
      else match TripleFrom(s, c)
        case Some(q) => Some(q + 3)
        case None => if n >= 4 then Some(c) else None
    else None
  }

  /** `re.sub(r"^Contents\n+", "", t)`: the heading and the newlines after it
      go, when they open `t`. */
  function DropContentsHeading(t: string): (r: string)
    ensures |r| <= |t|
  {
    if StartsWith(t, ContentsHeading) then
      var n := RunLength(t[|ContentsHeading|..], IsNewline);
      if n > 0 then t[|ContentsHeading| + n..] else t
    else t
  }

  /** `get_toc`: the block found and its lines. */
  function GetToc(s: string): (Option<string>, seq<string>)
  {
    match Leftmost(|s|, TocMatches(s), 0)
    case None => (None, [])
    case Some(sp) => var t := s[sp.start..sp.end]; (Some(t), Split(Strip(DropContentsHeading(t)), '\n'))
  }

  /** A match ends with three newlines. */
  lemma TocAtEnd(s: string, a: nat)
    requires TocAt(s, a).Some?
    ensures TripleAt(s, TocAt(s, a).value - 3)
  {
    var h := |ContentsHeading|;
    var run := s[a + h..];
    var n := RunLength(run, IsNewline);
    if TripleFrom(s, a + h + n).None? {
      assert IsNewline(run[n - 3]) && IsNewline(run[n - 2]) && IsNewline(run[n - 1]);
      assert run[n - 3] == s[a + h + n - 3];
      assert run[n - 2] == s[a + h + n - 2];
      assert run[n - 1] == s[a + h + n - 1];
    }
  }

  /** What a match at `a` looks like: at a line start, `Contents`, a newline,
      and three newlines at the end. */
  lemma TocAtShape(s: string, a: nat)
    requires TocAt(s, a).Some?
    ensures var t := s[a..TocAt(s, a).value];
      && IsLineStart(s, a) && StartsWith(t, ContentsHeading) && t[|ContentsHeading|] == '\n'
      && TripleAt(t, |t| - 3)
  {
    var e := TocAt(s, a).value;
    TocAtStart(s, a);
    TocAtEnd(s, a);
    TocWindow(s, a, e);
  }

  /** A match starts with the heading and a newline at a line start. */
  lemma TocAtStart(s: string, a: nat)
    requires TocAt(s, a).Some?
    ensures var h := |ContentsHeading|;
      IsLineStart(s, a) && a + h < |s| && s[a..a + h] == ContentsHeading && s[a + h] == '\n'
  {
    var h := |ContentsHeading|;
    var run := s[a + h..];
    assert RunLength(run, IsNewline) > 0;
    assert run[0] == s[a + h];
  }

  /** The window `s[a..e]` seen from inside. */
  lemma TocWindow(s: string, a: nat, e: nat)
    requires var h := |ContentsHeading|;
      a + h < e <= |s| && s[a..a + h] == ContentsHeading && s[a + h] == '\n' && TripleAt(s, e - 3)
    ensures var t := s[a..e];
      StartsWith(t, ContentsHeading) && t[|ContentsHeading|] == '\n' && TripleAt(t, |t| - 3)
  {
    var t := s[a..e];
    var h := |ContentsHeading|;
    assert t[..h] == s[a..a + h];
    assert t[h] == s[a + h];
    assert t[|t| - 3] == s[e - 3];
    assert t[|t| - 2] == s[e - 2];
    assert t[|t| - 1] == s[e - 1];
  }

  /** The matches `re.search` looks through. */
  function TocMatches(s: string): nat -> Option<nat>
  {
    (a: nat) => TocAt(s, a)
  }

  /** Without a `Contents` block the result is `(None, [])`. */
  lemma GetTocNone(s: string)
    ensures GetToc(s).0.None? <==> forall a :: 0 <= a <= |s| ==> TocAt(s, a).None?
    ensures GetToc(s).0.None? ==> GetToc(s).1 == []
  {
    if Leftmost(|s|, TocMatches(s), 0).None? {
      forall a | 0 <= a <= |s| ensures TocAt(s, a).None? {
        assert TocMatches(s)(a).None?;
      }
    } else {
      var sp := Leftmost(|s|, TocMatches(s), 0).value;
      assert TocMatches(s)(sp.start).Some?;
    }
  }

  /** With one, the block is the leftmost match; its lines hold no newline,
      and joined again they give the stripped block without its heading. */
  lemma GetTocSome(s: string)
    requires GetToc(s).0.Some?
    ensures exists a :: (
      && 0 <= a <= |s| && TocAt(s, a).Some? && GetToc(s).0.value == s[a..TocAt(s, a).value]
      && forall p :: 0 <= p < a ==> TocAt(s, p).None?)
    ensures var t := GetToc(s).0.value;
      && StartsWith(t, ContentsHeading) && t[|ContentsHeading|] == '\n' && TripleAt(t, |t| - 3)
      && (forall i :: 0 <= i < |GetToc(s).1| ==> '\n' !in GetToc(s).1[i])
      && Join(GetToc(s).1, '\n') == Strip(DropContentsHeading(t))
  {
    var sp := Leftmost(|s|, TocMatches(s), 0).value;
    assert TocAt(s, sp.start) == Some(sp.end) by {
      assert TocMatches(s)(sp.start) == Some(sp.end);
    }
    forall p | 0 <= p < sp.start ensures TocAt(s, p).None? {
      assert TocMatches(s)(p).None?;
    }
    TocAtShape(s, sp.start);
  }

  // ---------------------------------------------------------------------
  // normalize_chapter_headings

  /** How a heading, used as a pattern, matches one character: `.` matches
      anything but a newline, every other character matches itself. */
  predicate CharMatches(p: char, c: char)
  {
    if p == '.' then c != '\n' else c == p
  }

  /** The pattern `pat` matches `s` at `i`. */
  predicate MatchesAt(s: string, i: nat, pat: string)
  {
    i + |pat| <= |s| && forall k :: 0 <= k < |pat| ==> CharMatches(pat[k], s[i + k])
  }

  /** `re.sub(pat, rep, s)`: every leftmost, non-overlapping match replaced;
      an empty pattern matches before every character and at the end. */
  function ReplaceAll(s: string, pat: string, rep: string): string
    decreases |s|
  {
    if pat == [] then
      if s == [] then rep else rep + [s[0]] + ReplaceAll(s[1..], pat, rep)
    else if s == [] then []
    else if MatchesAt(s, 0, pat) then rep + ReplaceAll(s[|pat|..], pat, rep)
    else [s[0]] + ReplaceAll(s[1..], pat, rep)
  }

  /** The replacement `Chapter <heading>`. */
  function ChapterHeading(e: string): string
  {
    "Chapter " + e
  }

  /** The loop body for one table-of-contents entry. */
  function NormalizeStep(text: string, entry: string): string
  {
    var e := Strip(entry);
    if MatchesChapterTitle(e) then text
    else if !MatchesChapterTitle(ChapterHeading(e)) then text
    else ReplaceAll(text, e, ChapterHeading(e))
  }

  /** The text after the loop has run over `entries`. */
  function NormalizeSpec(text: string, entries: seq<string>): string
    decreases |entries|
  {
    if entries == [] then text
    else NormalizeStep(NormalizeSpec(text, entries[..|entries| - 1]), entries[|entries| - 1])
  }

  /** `normalize_chapter_headings` */
  method NormalizeChapterHeadings(text: string, entries: seq<string>) returns (r: string)
    ensures r == NormalizeSpec(text, entries)
  {
    r := text;
    for i := 0 to |entries|
      invariant r == NormalizeSpec(text, entries[..i])
    {
      assert entries[..i + 1][..i] == entries[..i];
      var e := Strip(entries[i]);
      if MatchesChapterTitle(e) {
        continue;
      }
      var replacement := "Chapter " + e;
      if !MatchesChapterTitle(replacement) {
        continue;
      }
      r := ReplaceAll(r, e, replacement);
    }
    assert entries[..|entries|] == entries;
  }

  /** An entry is left alone when it is already a chapter title or when
      `Chapter ` in front of it would still not be one. */
  predicate Skipped(entry: string)
  {
    var e := Strip(entry);
    MatchesChapterTitle(e) || !(e != [] && IsNumberStart(e[0]))
  }

  /** Which entries are skipped: exactly those of `Skipped`. */
  lemma NormalizeStepSkips(text: string, entry: string)
    ensures Skipped(entry) ==> NormalizeStep(text, entry) == text
    ensures !Skipped(entry) ==> NormalizeStep(text, entry) == ReplaceAll(text, Strip(entry), ChapterHeading(Strip(entry)))
  {
    PrefixedChapter(Strip(entry));
  }

  /** When every entry is skipped the text comes back unchanged. */
  lemma {:induction false} NormalizeAllSkipped(text: string, entries: seq<string>)
    requires forall i :: 0 <= i < |entries| ==> Skipped(entries[i])
    ensures NormalizeSpec(text, entries) == text
    decreases |entries|
  {
    if entries != [] {
      NormalizeAllSkipped(text, entries[..|entries| - 1]);
      NormalizeStepSkips(text, entries[|entries| - 1]);
    }
  }

  /** Without a match the text is unchanged. */
  lemma {:induction false} ReplaceAllNoMatch(s: string, pat: string, rep: string)
    requires pat != [] && forall i :: 0 <= i <= |s| ==> !MatchesAt(s, i, pat)
    ensures ReplaceAll(s, pat, rep) == s
    decreases |s|
  {
    if s != [] {
      forall i | 0 <= i <= |s[1..]| ensures !MatchesAt(s[1..], i, pat) {
        assert !MatchesAt(s, i + 1, pat);
        if MatchesAt(s[1..], i, pat) {
          forall k | 0 <= k < |pat| ensures CharMatches(pat[k], s[i + 1 + k]) {
            assert s[1..][i + k] == s[i + 1 + k];
          }
        }
      }
      ReplaceAllNoMatch(s[1..], pat, rep);
    }
  }

  /** A pattern matches itself, so the entry's own text is replaced whole. */
  lemma ReplaceAllSelf(e: string, rep: string)
    requires e != [] && '\n' !in e
    ensures ReplaceAll(e, e, rep) == rep
  {
    forall k | 0 <= k < |e| ensures CharMatches(e[k], e[k]) {
      assert e[k] in e;
    }
    assert MatchesAt(e, 0, e);
    assert e[|e|..] == [];
  }

  /** A pattern without a newline never matches across one. */
  lemma NoMatchAcrossNewline(a: string, b: string, pat: string)
    requires '\n' !in pat && MatchesAt(a + "\n" + b, 0, pat)
    ensures |pat| <= |a| && MatchesAt(a, 0, pat)
  {
    var s := a + "\n" + b;
    forall k | 0 <= k < |pat| ensures s[k] != '\n' {
      assert pat[k] in pat;
    }
    assert s[|a|] == '\n';
    forall k | 0 <= k < |pat| ensures CharMatches(pat[k], a[k]) {
      assert s[k] == a[k];
    }
  }

  /** A match is still one when more text follows. */
  lemma MatchesAtExtends(a: string, x: string, pat: string)
    requires MatchesAt(a, 0, pat)
    ensures MatchesAt(a + x, 0, pat)
  {
    forall k | 0 <= k < |pat| ensures CharMatches(pat[k], (a + x)[k]) {
      assert (a + x)[k] == a[k];
    }
  }

  /** A newline is never part of a match of a pattern without one. */
  lemma ReplaceAllNewlineFirst(b: string, pat: string, rep: string)
    requires pat != [] && '\n' !in pat
    ensures ReplaceAll("\n" + b, pat, rep) == "\n" + ReplaceAll(b, pat, rep)
  {
    var s := "\n" + b;
    assert s[0] == '\n' && pat[0] in pat;
    assert !MatchesAt(s, 0, pat);
    assert s[1..] == b;
  }

  /** The first step of the scan is the same with or without the lines
      that follow: it consumes `a[..k]` and emits `head`. */
  lemma ReplaceAllFirstStep(a: string, b: string, pat: string, rep: string) returns (k: nat, head: string)
    requires a != [] && pat != [] && '\n' !in pat
    ensures 0 < k <= |a|
    ensures ReplaceAll(a + "\n" + b, pat, rep) == head + ReplaceAll(a[k..] + "\n" + b, pat, rep)
    ensures ReplaceAll(a, pat, rep) == head + ReplaceAll(a[k..], pat, rep)
  {
    var s := a + "\n" + b;
    if MatchesAt(s, 0, pat) {
      NoMatchAcrossNewline(a, b, pat);
      k, head := |pat|, rep;
    } else {
      if MatchesAt(a, 0, pat) {
        MatchesAtExtends(a, "\n" + b, pat);
      }
      k, head := 1, [a[0]];
    }
    assert s[k..] == a[k..] + "\n" + b;
  }

  /** A pattern without a newline is replaced line by line. */
  lemma {:induction false} ReplaceAllLines(a: string, b: string, pat: string, rep: string)
    requires pat != [] && '\n' !in pat
    ensures ReplaceAll(a + "\n" + b, pat, rep) == ReplaceAll(a, pat, rep) + "\n" + ReplaceAll(b, pat, rep)
    decreases |a|
  {
    if a == [] {
      assert a + "\n" + b == "\n" + b;
      ReplaceAllNewlineFirst(b, pat, rep);
    } else {
      var k, head := ReplaceAllFirstStep(a, b, pat, rep);
      ReplaceAllLines(a[k..], b, pat, rep);
      JoinAfterHead(ReplaceAll(a + "\n" + b, pat, rep), ReplaceAll(a, pat, rep), head,
                    ReplaceAll(a[k..], pat, rep), ReplaceAll(b, pat, rep));
    }
  }

  /** The concatenation step of the line-by-line proof. */
  lemma JoinAfterHead(whole: string, first: string, head: string, rest: string, last: string)
    requires whole == head + (rest + "\n" + last)
    requires first == head + rest
    ensures whole == first + "\n" + last
  {
  }

  /** A line that is exactly the pattern is replaced whole. */
  lemma ReplaceAllOwnLine(a: string, e: string, b: string, rep: string)
    requires e != [] && '\n' !in e
    ensures ReplaceAll(a + "\n" + e + "\n" + b, e, rep)
      == ReplaceAll(a, e, rep) + "\n" + rep + "\n" + ReplaceAll(b, e, rep)
  {
    var tail := e + "\n" + b;
    assert a + "\n" + e + "\n" + b == a + "\n" + tail;
    ReplaceAllLines(a, tail, e, rep);
    ReplaceAllLines(e, b, e, rep);
    ReplaceAllSelf(e, rep);
    JoinOwnLine(ReplaceAll(a + "\n" + tail, e, rep), ReplaceAll(a, e, rep),
                ReplaceAll(tail, e, rep), ReplaceAll(e, e, rep), ReplaceAll(b, e, rep));
  }

  /** The concatenation step for a line between two others. */
  lemma JoinOwnLine(whole: string, first: string, tail: string, mid: string, last: string)
    requires whole == first + "\n" + tail
    requires tail == mid + "\n" + last
    ensures whole == first + "\n" + mid + "\n" + last
  {
  }

  /** A heading line standing on its own, not yet a chapter title but one
      once prefixed, becomes `Chapter <heading>`; the lines around it are
      rewritten the same way on their own. */
  lemma NormalizeStepRewritesLine(a: string, entry: string, b: string)
    requires !Skipped(entry)
    requires '\n' !in Strip(entry)
    ensures var e := Strip(entry); var rep := ChapterHeading(e);
      NormalizeStep(a + "\n" + e + "\n" + b, entry)
        == ReplaceAll(a, e, rep) + "\n" + rep + "\n" + ReplaceAll(b, e, rep)
  {
    var e := Strip(entry);
    NormalizeStepSkips(a + "\n" + e + "\n" + b, entry);
    ReplaceAllOwnLine(a, e, b, ChapterHeading(e));
  }

  // ---------------------------------------------------------------------
  // add_sentence_delimiter: re.sub(SENTENCE_SPLITTING, "<EOS>\n", text)

  const TwoLetterAbbreviations: seq<string> := ["Mr", "Ms", "Dr", "Sr", "Jr", "St", "Lt", "Co", "Mt"]
  const ThreeLetterAbbreviations: seq<string> := ["Mrs", "Rev", "Col", "Maj", "Gen", "Sgt"]

  /** `(?<!\w\.\w.)` fails at `p`. */
  predicate WordDotWordBefore(s: string, p: nat)
    requires p <= |s|
  {
    p >= 4 && IsWord(s[p - 4]) && s[p - 3] == '.' && IsWord(s[p - 2]) && s[p - 1] != '\n'
  }

  /** `(?<![A-Z]\.)` fails at `p`. */
  predicate InitialBefore(s: string, p: nat)
    requires p <= |s|
  {
    p >= 2 && IsUpper(s[p - 2]) && s[p - 1] == '.'
  }

  /** One of the two look-behinds for abbreviations fails at `p`. */
  predicate AbbreviationBefore(s: string, p: nat)
    requires p <= |s|
  {
    && p >= 1 && s[p - 1] == '.'
    && ((p >= 3 && s[p - 3..p - 1] in TwoLetterAbbreviations)
        || (p >= 4 && s[p - 4..p - 1] in ThreeLetterAbbreviations))
  }

  /** `(?<!(\,\"))` fails at `p`. */
  predicate CommaQuoteBefore(s: string, p: nat)
    requires p <= |s|
  {
    p >= 2 && s[p - 2] == ',' && s[p - 1] == '"'
  }

  /** One of the three alternatives matches the character at `p`:
      whitespace after `.!?:`, whitespace after `.` or `!` and a quote, or a
      newline after a quote. */
  predicate BoundaryAlternative(s: string, p: nat)
    requires p < |s|
  {
    || (p >= 1 && s[p - 1] in ".!?:" && IsSpace(s[p]))
    || (p >= 2 && s[p - 2] in ".!" && s[p - 1] in "\"'" && IsSpace(s[p]))
    || (p >= 1 && s[p - 1] in "\"'" && s[p] == '\n')
  }

  /** SENTENCE_SPLITTING matches the one character at `p`. Every match is
      one character long and the look-behinds read the original text, so
      `re.sub` replaces the character at every such `p`. */
  predicate Boundary(s: string, p: nat)
    requires p < |s|
  {
    && !WordDotWordBefore(s, p) && !InitialBefore(s, p)
    && !AbbreviationBefore(s, p) && !CommaQuoteBefore(s, p)
    && BoundaryAlternative(s, p)
  }

  /** What `re.sub` emits for the character at `i`. */
  function SentencePiece(s: string, i: nat): string
    requires i < |s|
  {
    if Boundary(s, i) then EndOfSentence + "\n" else [s[i]]
  }

  /** The output for `s[i..]`. */
  function DelimitFrom(s: string, i: nat): string
    requires i <= |s|
    decreases |s| - i
  {
    if i == |s| then [] else SentencePiece(s, i) + DelimitFrom(s, i + 1)
  }

  /** `add_sentence_delimiter` */
  function AddSentenceDelimiter(s: string): string
  {
    DelimitFrom(s, 0)
  }

  /** The text with a newline in place of each boundary character. */
  function NewlineAtBoundaries(s: string): (r: string)
    ensures |r| == |s|
  {
    seq(|s|, i requires 0 <= i < |s| => if Boundary(s, i) then '\n' else s[i])
  }

  /** A boundary is always a whitespace character. */
  lemma BoundaryIsSpace(s: string, p: nat)
    requires p < |s| && Boundary(s, p)
    ensures IsSpace(s[p])
  {
  }

  /** Removing the tokens from one piece and the rest of the output. */
  lemma PieceRemoved(piece: string, rest: string, out: char)
    requires (piece == EndOfSentence + "\n" && out == '\n') || (piece == [out] && out != '<')
    ensures RemoveSpecialTokens(piece + rest) == [out] + RemoveSpecialTokens(rest)
  {
    if piece == [out] {
      RemovePlainPrefix(piece, rest);
    } else {
      assert piece + rest == EndOfSentence + ("\n" + rest);
      StructuralMarkersRemoved("\n" + rest);
      RemovePlainPrefix("\n", rest);
    }
  }

  lemma SentencePieceShape(s: string, i: nat)
    requires i < |s| && '<' !in s
    ensures var out := NewlineAtBoundaries(s)[i];
      (SentencePiece(s, i) == EndOfSentence + "\n" && out == '\n') || (SentencePiece(s, i) == [out] && out != '<')
  {
    assert s[i] in s;
  }

  /** The markers come out again with `remove_special_tokens` and leave the
      newline behind: the pass replaces each boundary character by
      `<EOS>\n` and keeps every other character. */
  lemma {:induction false} RemoveSentenceMarkersFrom(s: string, i: nat)
    requires i <= |s| && '<' !in s
    ensures RemoveSpecialTokens(DelimitFrom(s, i)) == NewlineAtBoundaries(s)[i..]
    decreases |s| - i
  {
    if i < |s| {
      var nab := NewlineAtBoundaries(s);
      RemoveSentenceMarkersFrom(s, i + 1);
      SentencePieceShape(s, i);
      PieceRemoved(SentencePiece(s, i), DelimitFrom(s, i + 1), nab[i]);
      assert nab[i..] == [nab[i]] + nab[i + 1..];
    }
  }

  lemma RemoveSentenceMarkers(s: string)
    requires '<' !in s
    ensures RemoveSpecialTokens(AddSentenceDelimiter(s)) == NewlineAtBoundaries(s)
  {
    RemoveSentenceMarkersFrom(s, 0);
  }

  /** Text with none of `. ! ? : " '` has no boundary and passes unchanged. */
  lemma {:induction false} NoSentenceEndUnchangedFrom(s: string, i: nat)
    requires i <= |s|
    requires forall c :: c in s ==> c !in ".!?:\"'"
    ensures DelimitFrom(s, i) == s[i..]
    decreases |s| - i
  {
    if i < |s| {
      NoSentenceEndUnchangedFrom(s, i + 1);
      if i > 0 {
        assert s[i - 1] in s;
      }
      if i > 1 {
        assert s[i - 2] in s;
      }
      assert !Boundary(s, i);
      assert s[i..] == [s[i]] + s[i + 1..];
    }
  }

  lemma NoSentenceEndUnchanged(s: string)
    requires forall c :: c in s ==> c !in ".!?:\"'"
    ensures AddSentenceDelimiter(s) == s
  {
    NoSentenceEndUnchangedFrom(s, 0);
  }

  /** A full stop after a lower-case word, followed by whitespace, ends a
      sentence. */
  lemma FullStopEndsSentence(s: string, p: nat)
    requires 3 <= p < |s| && s[p - 1] == '.' && IsSpace(s[p])
    requires IsLower(s[p - 2]) && IsLower(s[p - 3])
    requires p == 3 || !IsUpper(s[p - 4])
    ensures Boundary(s, p)
  {
    assert s[p - 3..p - 1] !in TwoLetterAbbreviations by {
      assert s[p - 3..p - 1][0] == s[p - 3];
    }
    if p >= 4 {
      assert s[p - 4..p - 1] !in ThreeLetterAbbreviations by {
        assert s[p - 4..p - 1][0] == s[p - 4];
      }
    }
  }

  lemma AbbreviationLengths(abbr: string)
    requires abbr in TwoLetterAbbreviations || abbr in ThreeLetterAbbreviations
    ensures abbr in TwoLetterAbbreviations ==> |abbr| == 2
    ensures abbr in ThreeLetterAbbreviations ==> |abbr| == 3
  {
    if abbr in TwoLetterAbbreviations {
      var i :| 0 <= i < |TwoLetterAbbreviations| && TwoLetterAbbreviations[i] == abbr;
    }
    if abbr in ThreeLetterAbbreviations {
      var i :| 0 <= i < |ThreeLetterAbbreviations| && ThreeLetterAbbreviations[i] == abbr;
    }
  }

  lemma AbbreviationBeforeAt(s: string, p: nat, abbr: string)
    requires abbr in TwoLetterAbbreviations || abbr in ThreeLetterAbbreviations
    requires |abbr| < p <= |s| && s[p - 1] == '.' && s[p - 1 - |abbr|..p - 1] == abbr
    ensures AbbreviationBefore(s, p)
  {
    AbbreviationLengths(abbr);
  }

  /** A known abbreviation and its full stop do not end a sentence. */
  lemma AbbreviationKeepsSentence(a: string, abbr: string, b: string)
    requires abbr in TwoLetterAbbreviations || abbr in ThreeLetterAbbreviations
    requires b != []
    ensures var s := a + abbr + "." + b;
      !Boundary(s, |a| + |abbr| + 1)
  {
    var s := a + abbr + "." + b;
    var p := |a| + |abbr| + 1;
    assert s[p - 1] == '.';
    assert s[p - 1 - |abbr|..p - 1] == abbr;
    AbbreviationBeforeAt(s, p, abbr);
  }

  /** Whitespace after a comma and a closing quote does not end a sentence. */
  lemma CommaQuoteKeepsSentence(a: string, b: string)
    requires b != []
    ensures var s := a + ",\"" + b;
      !Boundary(s, |a| + 2)
  {
    var s := a + ",\"" + b;
    assert s[|a|] == ',' && s[|a| + 1] == '"';
  }

  /** A single capital letter and a full stop (an initial) do not end a
      sentence. */
  lemma InitialKeepsSentence(a: string, c: char, b: string)
    requires IsUpper(c) && b != []
    ensures var s := a + [c, '.'] + b;
      !Boundary(s, |a| + 2)
  {
    var s := a + [c, '.'] + b;
    assert s[|a|] == c && s[|a| + 1] == '.';
  }

  /** A dotted pair of word characters and one more character on the same
      line, as in `e.g. ` or `i.e.,`, do not end a sentence. */
  lemma WordDotWordKeepsSentence(a: string, w1: char, w2: char, c: char, b: string)
    requires IsWord(w1) && IsWord(w2) && c != '\n' && b != []
    ensures var s := a + [w1, '.', w2, c] + b;
      !Boundary(s, |a| + 4)
  {
    var s := a + [w1, '.', w2, c] + b;
    assert s[|a|] == w1 && s[|a| + 1] == '.' && s[|a| + 2] == w2 && s[|a| + 3] == c;
  }

  // ---------------------------------------------------------------------
  // add_search_term_tags: one pass per entry of the pattern map

  /** The text after the passes for `patterns`, in order: the marker
      `<KEY>` of each pattern's key goes right after each of its matches
      (`r"\1<{tag}>"`, no space). */
  function TagPasses(text: string, patterns: seq<(string, string)>, find: (string, string) -> seq<nat>): string
    requires Utils.ValidMatcher(find)
    decreases |patterns|
  {
    if patterns == [] then text
    else
      var prev := TagPasses(text, patterns[..|patterns| - 1], find);
      var (key, pattern) := patterns[|patterns| - 1];
      Tagging.InsertAfter(prev, find(pattern, prev), Marker(key))
  }

  /** `add_search_term_tags`: the pattern map of the search terms, then one
      `re.sub` per entry. */
  method AddSearchTermTags(text: string, terms: Utils.TermsMap, setOrder: seq<string> -> seq<string>, find: (string, string) -> seq<nat>)
    returns (r: string)
    requires SearchTerms.DistinctKeys(terms) && SearchTerms.OrdersEnumerate(terms, setOrder)
    requires Utils.ValidMatcher(find)
    ensures r == TagPasses(text, SearchTerms.PatternMapSpec(terms, setOrder), find)
  {
    var patterns := SearchTerms.BuildPatternMap(terms, setOrder);
    r := text;
    var i := 0;
    while i < |patterns|
      invariant 0 <= i <= |patterns|
      invariant r == TagPasses(text, patterns[..i], find)
    {
      var (key, pattern) := patterns[i];
      r := Tagging.InsertAfter(r, find(pattern, r), Marker(key));
      assert patterns[..i + 1][..i] == patterns[..i];
      i := i + 1;
    }
    assert patterns[..i] == patterns;
  }

  /** Every key makes a special token, and no match ends inside a token that
      is already in the text (a marker of an earlier pass or a structural
      marker). */
  ghost predicate TagsAtScanPoints(text: string, patterns: seq<(string, string)>, find: (string, string) -> seq<nat>)
    requires Utils.ValidMatcher(find)
  {
    forall n :: 0 <= n < |patterns| ==>
      && ValidKey(patterns[n].0)
      && var prev := TagPasses(text, patterns[..n], find);
         forall i :: 0 <= i < |find(patterns[n].1, prev)| ==> IsScanPoint(prev, find(patterns[n].1, prev)[i])
  }

  /** `remove_special_tokens` takes every inserted marker out again. */
  lemma {:induction false} RemoveSearchTermTags(text: string, patterns: seq<(string, string)>, find: (string, string) -> seq<nat>)
    requires Utils.ValidMatcher(find) && TagsAtScanPoints(text, patterns, find)
    ensures RemoveSpecialTokens(TagPasses(text, patterns, find)) == RemoveSpecialTokens(text)
    decreases |patterns|
  {
    if patterns != [] {
      var n := |patterns| - 1;
      var init := patterns[..n];
      assert TagsAtScanPoints(text, init, find) by {
        forall j | 0 <= j < |init| ensures init[j] == patterns[j] && init[..j] == patterns[..j] { }
      }
      RemoveSearchTermTags(text, init, find);
      var prev := TagPasses(text, init, find);
      var (key, pattern) := patterns[n];
      Tagging.RemoveInsertedMarkers(prev, find(pattern, prev), key);
    }
  }

  /** Text with no match of any pattern passes unchanged. */
  lemma {:induction false} TagPassesNoMatch(text: string, patterns: seq<(string, string)>, find: (string, string) -> seq<nat>)
    requires Utils.ValidMatcher(find)
    requires forall j :: 0 <= j < |patterns| ==> find(patterns[j].1, text) == []
    ensures TagPasses(text, patterns, find) == text
    decreases |patterns|
  {
    if patterns != [] {
      var n := |patterns| - 1;
      TagPassesNoMatch(text, patterns[..n], find);
      assert patterns[..n][..] == patterns[..n];
    }
  }

  // ---------------------------------------------------------------------
  // preprocess_data: the stages in order

  /** The text after each of the stages of `preprocess_data`. The chapter
      delimiter stage is a parameter. */
  function PreprocessStages(text: string, chapterDelimiter: string -> string, nfd: string -> string, isMark: char -> bool): string
  {
    var t1 := Preprocessing.RemoveExtraWhitespace(text);
    var t2 := ExtractBody(t1);
    var t3 := chapterDelimiter(t2);
    var t4 := Preprocessing.JoinParagraphLines(t3);
    Preprocessing.Translate(Preprocessing.DiacriticsRemoved(nfd(t4), isMark))
  }

  function PreprocessSpec(text: string, chapterDelimiter: string -> string, nfd: string -> string, isMark: char -> bool,
                          terms: Utils.TermsMap, setOrder: seq<string> -> seq<string>, find: (string, string) -> seq<nat>): string
    requires SearchTerms.OrdersEnumerate(terms, setOrder) && Utils.ValidMatcher(find)
  {
    var t5 := PreprocessStages(text, chapterDelimiter, nfd, isMark);
    TagPasses(AddSentenceDelimiter(t5), SearchTerms.PatternMapSpec(terms, setOrder), find)
  }

  /** `preprocess_data` */
  method PreprocessData(text: string, chapterDelimiter: string -> string, nfd: string -> string, isMark: char -> bool,
                        terms: Utils.TermsMap, setOrder: seq<string> -> seq<string>, find: (string, string) -> seq<nat>)
    returns (r: string)
    requires SearchTerms.DistinctKeys(terms) && SearchTerms.OrdersEnumerate(terms, setOrder)
    requires Utils.ValidMatcher(find)
    ensures r == PreprocessSpec(text, chapterDelimiter, nfd, isMark, terms, setOrder, find)
    ensures var t5 := PreprocessStages(text, chapterDelimiter, nfd, isMark);
      && (forall c :: c in t5 ==> !Preprocessing.InTable(c))
      && ('<' !in t5 && TagsAtScanPoints(AddSentenceDelimiter(t5), SearchTerms.PatternMapSpec(terms, setOrder), find)
          ==> RemoveSpecialTokens(r) == NewlineAtBoundaries(t5))
  {
    var t := Preprocessing.RemoveExtraWhitespace(text);
    t := ExtractBody(t);
    t := chapterDelimiter(t);
    t := Preprocessing.JoinParagraphLines(t);
    t := Preprocessing.NormalizeCharacterSet(t, nfd, isMark);
    ghost var t5 := t;
    t := AddSentenceDelimiter(t);
    r := AddSearchTermTags(t, terms, setOrder, find);
    if '<' !in t5 && TagsAtScanPoints(t, SearchTerms.PatternMapSpec(terms, setOrder), find) {
      RemoveSearchTermTags(t, SearchTerms.PatternMapSpec(terms, setOrder), find);
      RemoveSentenceMarkers(t5);
    }
  }
}

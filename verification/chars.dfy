/** Character classes and string helpers with Python's meaning: what `\s`,
    `\w`, `str.strip`, `str.split` and `str.lower` do on the characters the
    model covers. Case mapping, `\w` and `\d` are modelled on ASCII. */
module Chars {

  /** Python's whitespace (`str.isspace`, regex `\s`, `str.strip`). */
  predicate IsSpace(c: char)
  {
    || c == ' ' || c == '\t' || c == '\n' || c == '\r'
    || c == '\U{0B}' || c == '\U{0C}'
    || ('\U{1C}' <= c <= '\U{1F}')
    || c == '\U{85}' || c == '\U{A0}' || c == '\U{1680}'
    || ('\U{2000}' <= c <= '\U{200A}')
    || c == '\U{2028}' || c == '\U{2029}' || c == '\U{202F}' || c == '\U{205F}'
    || c == '\U{3000}'
  }

  /** `[\r\n]`: the two line-break characters the regexes name. */
  predicate IsLineBreak(c: char)
  {
    c == '\r' || c == '\n'
  }

  /** `[^\S\r\n]`: whitespace other than a line break ("horizontal" whitespace). */
  predicate IsHSpace(c: char)
  {
    IsSpace(c) && !IsLineBreak(c)
  }

  predicate IsUpper(c: char) { 'A' <= c <= 'Z' }
  predicate IsLower(c: char) { 'a' <= c <= 'z' }
  predicate IsLetter(c: char) { IsUpper(c) || IsLower(c) }
  predicate IsDigit(c: char) { '0' <= c <= '9' }

  /** `\w` */
  predicate IsWord(c: char) { IsLetter(c) || IsDigit(c) || c == '_' }

  /** `string.punctuation` */
  predicate IsPunctuation(c: char)
  {
    ('!' <= c <= '/') || (':' <= c <= '@') || ('[' <= c <= '`') || ('{' <= c <= '~')
  }

  /** `string.printable`: digits, letters, punctuation and ` \t\n\r\x0b\x0c`. */
  predicate IsPrintable(c: char)
  {
    IsDigit(c) || IsLetter(c) || IsPunctuation(c)
    || c == ' ' || c == '\t' || c == '\n' || c == '\r' || c == '\U{0B}' || c == '\U{0C}'
  }

  function Lower(c: char): (r: char)
    ensures !IsUpper(r)
    ensures IsLetter(c) <==> IsLetter(r)
    ensures !IsLetter(c) ==> r == c
  {
    if IsUpper(c) then (c as int + 32) as char else c
  }

  function Upper(c: char): (r: char)
    ensures !IsLower(r)
    ensures IsLetter(c) <==> IsLetter(r)
    ensures !IsLetter(c) ==> r == c
  {
    if IsLower(c) then (c as int - 32) as char else c
  }

  function LowerStr(s: string): (r: string)
    ensures |r| == |s|
    ensures forall i :: 0 <= i < |s| ==> r[i] == Lower(s[i])
  {
    seq(|s|, i requires 0 <= i < |s| => Lower(s[i]))
  }

  function UpperStr(s: string): (r: string)
    ensures |r| == |s|
    ensures forall i :: 0 <= i < |s| ==> r[i] == Upper(s[i])
  {
    seq(|s|, i requires 0 <= i < |s| => Upper(s[i]))
  }

  /** Case-insensitive equality of two strings, as IGNORECASE compares. */
  predicate EqualsIgnoreCase(a: string, b: string)
  {
    LowerStr(a) == LowerStr(b)
  }

  predicate StartsWith(s: string, prefix: string)
  {
    |prefix| <= |s| && s[..|prefix|] == prefix
  }

  predicate StartsWithIgnoreCase(s: string, prefix: string)
  {
    |prefix| <= |s| && EqualsIgnoreCase(s[..|prefix|], prefix)
  }

  /** The characters of `s` that satisfy `keep`, in order. */
  function Filter(s: string, keep: char -> bool): (r: string)
    ensures |r| <= |s|
  {
    if s == [] then [] else (if keep(s[0]) then [s[0]] else []) + Filter(s[1..], keep)
  }

  /** The filter holds exactly the characters of `s` that are kept. */
  lemma {:induction false} FilterMembers(s: string, keep: char -> bool, c: char)
    ensures c in Filter(s, keep) <==> c in s && keep(c)
  {
    if s != [] {
      FilterMembers(s[1..], keep, c);
      assert s == [s[0]] + s[1..];
    }
  }

  lemma FilterMembersAll(s: string, keep: char -> bool)
    ensures forall c :: c in Filter(s, keep) ==> c in s && keep(c)
    ensures forall c :: c in s && keep(c) ==> c in Filter(s, keep)
  {
    forall c ensures c in Filter(s, keep) <==> c in s && keep(c) {
      FilterMembers(s, keep, c);
    }
  }

  /** `str.lstrip()` */
  function TrimStart(s: string): (r: string)
    ensures |r| <= |s| && r == s[|s| - |r|..]
    ensures r == [] || !IsSpace(r[0])
    ensures forall i :: 0 <= i < |s| - |r| ==> IsSpace(s[i])
  {
    if s != [] && IsSpace(s[0]) then TrimStart(s[1..]) else s
  }

  /** `str.rstrip()` */
  function TrimEnd(s: string): (r: string)
    ensures |r| <= |s| && r == s[..|r|]
    ensures r == [] || !IsSpace(r[|r| - 1])
    ensures forall i :: |r| <= i < |s| ==> IsSpace(s[i])
  {
    if s != [] && IsSpace(s[|s| - 1]) then TrimEnd(s[..|s| - 1]) else s
  }

  /** `str.strip()`: the longest infix without whitespace at either end. */
  function Strip(s: string): (r: string)
    ensures r == [] || (!IsSpace(r[0]) && !IsSpace(r[|r| - 1]))
    ensures var k := |s| - |TrimStart(s)|;
      && k + |r| <= |s| && r == s[k..k + |r|]
      && (forall i :: 0 <= i < k ==> IsSpace(s[i]))
      && (forall i :: k + |r| <= i < |s| ==> IsSpace(s[i]))
  {
    TrimEnd(TrimStart(s))
  }

  lemma StripStripped(s: string)
    requires s == [] || (!IsSpace(s[0]) && !IsSpace(s[|s| - 1]))
    ensures Strip(s) == s
  {
  }

  /** `"sep".join(parts)` for a one-character separator. */
  function Join(parts: seq<string>, sep: char): string
  {
    if parts == [] then []
    else if |parts| == 1 then parts[0]
    else parts[0] + [sep] + Join(parts[1..], sep)
  }

  /** `s.split(sep)` for a one-character separator: never empty, no part
      holds the separator, and joining the parts gives `s` back. */
  function Split(s: string, sep: char): (parts: seq<string>)
    ensures |parts| >= 1
    ensures forall i :: 0 <= i < |parts| ==> sep !in parts[i]
    ensures Join(parts, sep) == s
  {
    if s == [] then [[]]
    else
      var rest := Split(s[1..], sep);
      if s[0] == sep then
        [[]] + rest
      else
        [[s[0]] + rest[0]] + rest[1..]
  }

  /** The other direction: splitting a join of separator-free parts gives the parts. */
  lemma {:induction false} SplitJoin(parts: seq<string>, sep: char)
    requires |parts| >= 1
    requires forall i :: 0 <= i < |parts| ==> sep !in parts[i]
    ensures Split(Join(parts, sep), sep) == parts
  {
    if |parts| == 1 {
      SplitNoSep(parts[0], sep);
    } else {
      SplitJoin(parts[1..], sep);
      SplitPrefix(parts[0], Join(parts[1..], sep), sep);
      assert [parts[0]] + parts[1..] == parts;
    }
  }

  lemma {:induction false} SplitNoSep(s: string, sep: char)
    requires sep !in s
    ensures Split(s, sep) == [s]
  {
    if s != [] {
      SplitNoSep(s[1..], sep);
      assert [s[0]] + s[1..] == s;
    }
  }

  lemma {:induction false} SplitPrefix(a: string, b: string, sep: char)
    requires sep !in a
    ensures Split(a + [sep] + b, sep) == [a] + Split(b, sep)
  {
    if a == [] {
      assert (a + [sep] + b)[1..] == b;
    } else {
      assert (a + [sep] + b)[1..] == a[1..] + [sep] + b;
      SplitPrefix(a[1..], b, sep);
      assert [a[0]] + a[1..] == a;
    }
  }
  predicate IsNotSpace(c: char) { !IsSpace(c) }
  predicate IsNotWord(c: char) { !IsWord(c) }

  /** The length of the longest prefix of `s` whose characters satisfy `p`. */
  function RunLength(s: string, p: char -> bool): (n: nat)
    ensures n <= |s|
    ensures forall i :: 0 <= i < n ==> p(s[i])
    ensures n == |s| || !p(s[n])
  {
    if s != [] && p(s[0]) then 1 + RunLength(s[1..], p) else 0
  }

  /** A text that does not start with a run has a run of length 0. */
  lemma NoLeadingRun(s: string, p: char -> bool)
    requires s != [] && !p(s[0])
    ensures RunLength(s, p) == 0
  {
  }

  lemma {:induction false} FilterConcat(a: string, b: string, keep: char -> bool)
    ensures Filter(a + b, keep) == Filter(a, keep) + Filter(b, keep)
  {
    if a != [] {
      assert (a + b)[1..] == a[1..] + b;
      FilterConcat(a[1..], b, keep);
    } else {
      assert a + b == b;
    }
  }

  /** Filtering keeps a string whose characters all pass. */
  lemma {:induction false} FilterAll(s: string, keep: char -> bool)
    requires forall i :: 0 <= i < |s| ==> keep(s[i])
    ensures Filter(s, keep) == s
  {
    if s != [] {
      FilterAll(s[1..], keep);
    }
  }

  /** Filtering drops a string whose characters all fail. */
  lemma {:induction false} FilterNone(s: string, keep: char -> bool)
    requires forall i :: 0 <= i < |s| ==> !keep(s[i])
    ensures Filter(s, keep) == []
  {
    if s != [] {
      FilterNone(s[1..], keep);
    }
  }
  /** Slicing a prefix and a suffix commute. */
  lemma SliceShift(s: string, a: nat, e: nat)
    requires a <= e <= |s|
    ensures s[..e][a..] == s[a..][..e - a] == s[a..e] && s[a..][e - a..] == s[e..]
  {
  }

  /** A prefix with no kept character does not change the filter. */
  lemma {:induction false} FilterDropPrefix(a: string, b: string, keep: char -> bool)
    requires forall i :: 0 <= i < |a| ==> !keep(a[i])
    ensures Filter(a + b, keep) == Filter(b, keep)
  {
    if a != [] {
      assert (a + b)[0] == a[0] && (a + b)[1..] == a[1..] + b;
      FilterDropPrefix(a[1..], b, keep);
    } else {
      assert a + b == b;
    }
  }

  /** Filtering ignores a prefix and a suffix with no kept character. */
  lemma FilterAroundNone(a: string, x: string, c: string, keep: char -> bool)
    requires forall i :: 0 <= i < |a| ==> !keep(a[i])
    requires forall i :: 0 <= i < |c| ==> !keep(c[i])
    ensures Filter(a + x + c, keep) == Filter(x, keep)
  {
    FilterConcat(a + x, c, keep);
    FilterDropPrefix(a, x, keep);
    FilterNone(c, keep);
    assert Filter(x, keep) + [] == Filter(x, keep);
  }

  /** Filtering sees through a common first character. */
  lemma FilterCons(c: char, x: string, y: string, keep: char -> bool)
    requires Filter(x, keep) == Filter(y, keep)
    ensures Filter([c] + x, keep) == Filter([c] + y, keep)
  {
    assert ([c] + x)[0] == c && ([c] + x)[1..] == x;
    assert ([c] + y)[0] == c && ([c] + y)[1..] == y;
  }

  /** Filtering sees through a prefix with no kept character. */
  lemma FilterSkipPrefix(h: string, x: string, y: string, keep: char -> bool)
    requires forall i :: 0 <= i < |h| ==> !keep(h[i])
    requires Filter(x, keep) == Filter(y, keep)
    ensures Filter(x, keep) == Filter(h + y, keep) && Filter(h + x, keep) == Filter(h + y, keep)
  {
    FilterDropPrefix(h, x, keep);
    FilterDropPrefix(h, y, keep);
  }

  lemma ThreeParts(s: string, i: nat, j: nat)
    requires i <= j <= |s|
    ensures s == s[..i] + s[i..j] + s[j..]
  {
  }

  /** `s` is its stripped form with whitespace before and after it. */
  lemma StripParts(s: string) returns (a: string, c: string)
    ensures s == a + Strip(s) + c
    ensures forall i :: 0 <= i < |a| ==> IsSpace(a[i])
    ensures forall i :: 0 <= i < |c| ==> IsSpace(c[i])
  {
    var r := Strip(s);
    var k := |s| - |TrimStart(s)|;
    a, c := s[..k], s[k + |r|..];
    ThreeParts(s, k, k + |r|);
    forall i | 0 <= i < |a| ensures IsSpace(a[i]) {
      assert a[i] == s[i];
    }
    forall i | 0 <= i < |c| ensures IsSpace(c[i]) {
      assert c[i] == s[k + |r| + i];
    }
  }

  /** Leading whitespace does not change `lstrip`. */
  lemma {:induction false} TrimStartSpaces(a: string, y: string)
    requires forall i :: 0 <= i < |a| ==> IsSpace(a[i])
    ensures TrimStart(a + y) == TrimStart(y)
  {
    if a != [] {
      assert (a + y)[1..] == a[1..] + y;
      TrimStartSpaces(a[1..], y);
    } else {
      assert a + y == y;
    }
  }

  /** Trailing whitespace does not change `rstrip`. */
  lemma {:induction false} TrimEndSpaces(y: string, b: string)
    requires forall i :: 0 <= i < |b| ==> IsSpace(b[i])
    ensures TrimEnd(y + b) == TrimEnd(y)
  {
    if b != [] {
      assert (y + b)[..|y + b| - 1] == y + b[..|b| - 1];
      TrimEndSpaces(y, b[..|b| - 1]);
    } else {
      assert y + b == y;
    }
  }

  lemma {:induction false} TrimStartAppend(x: string, b: string)
    ensures TrimStart(x + b) == if TrimStart(x) == [] then TrimStart(b) else TrimStart(x) + b
  {
    if x == [] {
      assert x + b == b;
    } else if IsSpace(x[0]) {
      assert (x + b)[1..] == x[1..] + b;
      TrimStartAppend(x[1..], b);
    }
  }

  /** Whitespace around a string does not change `strip`. */
  lemma StripPadded(a: string, x: string, b: string)
    requires forall i :: 0 <= i < |a| ==> IsSpace(a[i])
    requires forall i :: 0 <= i < |b| ==> IsSpace(b[i])
    ensures Strip(a + x + b) == Strip(x)
  {
    assert a + x + b == a + (x + b);
    TrimStartSpaces(a, x + b);
    TrimStartAppend(x, b);
    if TrimStart(x) == [] {
      TrimStartSpaces(b, []);
      assert b + [] == b;
    } else {
      TrimEndSpaces(TrimStart(x), b);
    }
  }

  /** Cutting off trailing whitespace does not change `strip`. */
  lemma StripCutSpaces(x: string, k: nat)
    requires k <= |x| && forall i :: k <= i < |x| ==> IsSpace(x[i])
    ensures Strip(x[..k]) == Strip(x)
  {
    var head, tail := x[..k], x[k..];
    assert x == head + tail;
    forall i | 0 <= i < |tail| ensures IsSpace(tail[i]) {
      assert tail[i] == x[k + i];
    }
    TrimStartAppend(head, tail);
    if TrimStart(head) == [] {
      TrimStartSpaces(tail, []);
      assert tail + [] == tail;
    } else {
      TrimEndSpaces(TrimStart(head), tail);
    }
  }
}

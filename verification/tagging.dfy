/** What `re.sub(pattern, r"\1" + m, text)` does when group 1 spans the whole
    match, as both `add_search_term_tags` functions use it: `m` goes right
    after every match. The regex engine is abstracted to the match end
    offsets it reports, left to right. */
module Tagging {
  import opened SpecialTokens

  /** End offsets of non-overlapping non-empty matches: strictly increasing
      and inside the text. */
  predicate Ascending(ends: seq<nat>, len: nat)
  {
    && (forall i, j :: 0 <= i < j < |ends| ==> ends[i] < ends[j])
    && (forall i :: 0 <= i < |ends| ==> ends[i] <= len)
  }

  /** `s` with `m` inserted after each offset of `ends`. */
  function InsertAfter(s: string, ends: seq<nat>, m: string): (r: string)
    requires Ascending(ends, |s|)
    ensures |r| == |s| + |ends| * |m|
    decreases |ends|
  {
    if ends == [] then s
    else
      var e := ends[|ends| - 1];
      InsertAfter(s[..e], ends[..|ends| - 1], m) + m + s[e..]
  }

  /** Deletes the `n` characters inserted after each offset of `ends` into a
      text that had `len` characters: the inverse of `InsertAfter`. */
  function Erase(t: string, ends: seq<nat>, n: nat, len: nat): string
    decreases |ends|
  {
    if ends == [] then t
    else
      var e := ends[|ends| - 1];
      if e <= len && (len - e) + n <= |t| then
        var at := |t| - (len - e) - n;
        Erase(t[..at], ends[..|ends| - 1], n, e) + t[at + n..]
      else t
  }

  lemma AscendingInit(ends: seq<nat>, len: nat)
    requires Ascending(ends, len) && ends != []
    ensures Ascending(ends[..|ends| - 1], ends[|ends| - 1])
  {
  }

  /** Deleting the insertions gives the text back. */
  lemma {:induction false} EraseInsert(s: string, ends: seq<nat>, m: string)
    requires Ascending(ends, |s|)
    ensures Erase(InsertAfter(s, ends, m), ends, |m|, |s|) == s
    decreases |ends|
  {
    if ends != [] {
      var e := ends[|ends| - 1];
      var init := ends[..|ends| - 1];
      AscendingInit(ends, |s|);
      var p := InsertAfter(s[..e], init, m);
      var t := p + m + s[e..];
      assert InsertAfter(s, ends, m) == t;
      assert |t| - (|s| - e) - |m| == |p|;
      assert t[..|p|] == p;
      assert t[|p| + |m|..] == s[e..];
      EraseInsert(s[..e], init, m);
      assert s[..e] + s[e..] == s;
    }
  }

  /** Markers put at scan points are exactly what `remove_special_tokens`
      takes out again. */
  lemma {:induction false} RemoveInsertedMarkers(s: string, ends: seq<nat>, key: string)
    requires ValidKey(key)
    requires Ascending(ends, |s|)
    requires forall i :: 0 <= i < |ends| ==> IsScanPoint(s, ends[i])
    ensures RemoveSpecialTokens(InsertAfter(s, ends, Marker(key))) == RemoveSpecialTokens(s)
    decreases |ends|
  {
    if ends != [] {
      var e := ends[|ends| - 1];
      var init := ends[..|ends| - 1];
      var m := Marker(key);
      AscendingInit(ends, |s|);
      forall i | 0 <= i < |init|
        ensures IsScanPoint(s[..e], init[i])
      {
        ScanPointPrefix(s, e, init[i]);
      }
      RemoveInsertedMarkers(s[..e], init, key);
      var p := InsertAfter(s[..e], init, m);
      assert InsertAfter(s, ends, m) == p + (m + s[e..]);
      assert RemoveSpecialTokens(p + (m + s[e..])) == RemoveSpecialTokens(p) + RemoveSpecialTokens(s[e..]) by {
        RemoveConcat(p, m + s[e..]);
        RemoveMarker(key, s[e..]);
      }
      ScanSplit(s, e);
    }
  }
}

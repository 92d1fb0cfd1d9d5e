/** lib/search_terms.py: merging the chat terms into the book terms, and the
    `\b(...)\b` pattern map built from a term table. The concrete name and
    alias regexes are not part of this model; only the keys are. */
module SearchTerms {
  import opened Wrappers
  import opened PySets
  import Utils

  /** A dictionary from keys to term lists, in insertion order. */
  type TermsMap = seq<(string, seq<string>)>

  function Keys<V>(m: seq<(string, V)>): (ks: seq<string>)
    ensures |ks| == |m|
    ensures forall i :: 0 <= i < |m| ==> ks[i] == m[i].0
  {
    seq(|m|, i requires 0 <= i < |m| => m[i].0)
  }

  /** The position of `k` among the keys, if present. */
  function IndexOf<V>(m: seq<(string, V)>, k: string): (r: Option<nat>)
    ensures r.Some? ==> r.value < |m| && m[r.value].0 == k && forall j :: 0 <= j < r.value ==> m[j].0 != k
    ensures r.None? ==> forall j :: 0 <= j < |m| ==> m[j].0 != k
    decreases |m|
  {
    if m == [] then None
    else if m[0].0 == k then Some(0)
    else match IndexOf(m[1..], k)
      case None => None
      case Some(j) => Some(j + 1)
  }

  // ---------------------------------------------------------------------
  // all_query_terms = {k: [*v] for k, v in book_query_terms.items()}
  // for k, v in chat_query_terms.items(): all_query_terms[k].extend(v)

  /** The extension loop from `all` onwards over `chat`. */
  function MergeSpec(all: TermsMap, chat: TermsMap): Result<TermsMap>
    decreases |chat|
  {
    if chat == [] then Ok(all)
    else match IndexOf(all, chat[0].0)
      case None => Err(KeyError(chat[0].0))
      case Some(i) => MergeSpec(all[i := (all[i].0, all[i].1 + chat[0].1)], chat[1..])
  }

  method AllQueryTerms(book: TermsMap, chat: TermsMap) returns (r: Result<TermsMap>)
    ensures r == MergeSpec(book, chat)
  {
    var all := book;
    var n := 0;
    while n < |chat|
      invariant 0 <= n <= |chat|
      invariant MergeSpec(book, chat) == MergeSpec(all, chat[n..])
    {
      var (k, v) := chat[n];
      var idx := IndexOf(all, k);
      if idx.None? {
        return Err(KeyError(k));
      }
      var i := idx.value;
      all := all[i := (all[i].0, all[i].1 + v)];
      assert chat[n..][1..] == chat[n + 1..];
      n := n + 1;
    }
    r := Ok(all);
  }

  /** The terms `chat` adds under key `k`, in order. */
  function Extra(chat: TermsMap, k: string): seq<string>
    decreases |chat|
  {
    if chat == [] then [] else (if chat[0].0 == k then chat[0].1 else []) + Extra(chat[1..], k)
  }

  predicate KeysIn(chat: TermsMap, all: TermsMap)
  {
    forall j :: 0 <= j < |chat| ==> chat[j].0 in Keys(all)
  }

  /** One extension step keeps the keys, so it keeps them distinct. */
  lemma ExtendKeepsKeys(all: TermsMap, i: nat, v: seq<string>)
    requires i < |all| && DistinctKeys(all)
    ensures var next := all[i := (all[i].0, all[i].1 + v)];
      Keys(next) == Keys(all) && DistinctKeys(next)
  {
    var next := all[i := (all[i].0, all[i].1 + v)];
    assert Keys(next) == Keys(all);
    forall a, b | 0 <= a < b < |next| ensures next[a].0 != next[b].0 {
      assert next[a].0 == all[a].0 && next[b].0 == all[b].0;
    }
  }

  lemma KeysInTail(chat: TermsMap, all: TermsMap, next: TermsMap)
    requires chat != [] && Keys(next) == Keys(all)
    ensures KeysIn(chat, all) <==> chat[0].0 in Keys(all) && KeysIn(chat[1..], next)
  {
    forall j | 0 <= j < |chat[1..]| ensures chat[1..][j] == chat[j + 1] { }
    if chat[0].0 in Keys(all) && KeysIn(chat[1..], next) {
      forall j | 0 <= j < |chat| ensures chat[j].0 in Keys(all) {
        if j > 0 { assert chat[j] == chat[1..][j - 1]; }
      }
    }
  }

  /** The merge fails exactly when some chat key is not a book key, and then
      it names the first such key. */
  lemma {:induction false} MergeSpecError(all: TermsMap, chat: TermsMap)
    requires DistinctKeys(all)
    ensures KeysIn(chat, all) <==> MergeSpec(all, chat).Ok?
    ensures MergeSpec(all, chat).Err? ==>
      exists j :: 0 <= j < |chat| && MergeSpec(all, chat).error == KeyError(chat[j].0) && chat[j].0 !in Keys(all)
    decreases |chat|
  {
    if chat != [] {
      var k := chat[0].0;
      match IndexOf(all, k)
      case None => {
        assert k !in Keys(all);
        assert !KeysIn(chat, all);
      }
      case Some(i) => {
        var next := all[i := (all[i].0, all[i].1 + chat[0].1)];
        ExtendKeepsKeys(all, i, chat[0].1);
        MergeSpecError(next, chat[1..]);
        KeysInTail(chat, all, next);
        if MergeSpec(all, chat).Err? {
          var j :| 0 <= j < |chat[1..]| && MergeSpec(next, chat[1..]).error == KeyError(chat[1..][j].0) && chat[1..][j].0 !in Keys(next);
          assert chat[1..][j] == chat[j + 1];
        }
      }
    }
  }

  /** A successful merge keeps the book's keys in order and extends each
      book list by the chat terms under its key. */
  lemma {:induction false} MergeSpecValues(all: TermsMap, chat: TermsMap)
    requires DistinctKeys(all)
    requires MergeSpec(all, chat).Ok?
    ensures var r := MergeSpec(all, chat).value;
      Keys(r) == Keys(all) && forall i :: 0 <= i < |all| ==> r[i].1 == all[i].1 + Extra(chat, all[i].0)
    decreases |chat|
  {
    if chat != [] {
      var k := chat[0].0;
      var i := IndexOf(all, k).value;
      var next := all[i := (all[i].0, all[i].1 + chat[0].1)];
      ExtendKeepsKeys(all, i, chat[0].1);
      assert MergeSpec(all, chat) == MergeSpec(next, chat[1..]);
      MergeSpecValues(next, chat[1..]);
      MergeValuesStep(all, chat, i, next, MergeSpec(next, chat[1..]).value);
    }
  }

  /** The step of `MergeSpecValues`: the first chat entry extends the one
      book list under its key. */
  lemma MergeValuesStep(all: TermsMap, chat: TermsMap, i: nat, next: TermsMap, r: TermsMap)
    requires chat != [] && DistinctKeys(all) && i < |all| && all[i].0 == chat[0].0
    requires next == all[i := (all[i].0, all[i].1 + chat[0].1)]
    requires |r| == |next| && forall x :: 0 <= x < |next| ==> r[x].1 == next[x].1 + Extra(chat[1..], next[x].0)
    ensures forall x :: 0 <= x < |all| ==> r[x].1 == all[x].1 + Extra(chat, all[x].0)
  {
    forall x | 0 <= x < |all| ensures r[x].1 == all[x].1 + Extra(chat, all[x].0) {
      assert next[x].0 == all[x].0;
      if x != i {
        assert all[x].0 != all[i].0;
      }
      MergeValueAt(all, chat, i, x, next[x].1, r[x].1);
    }
  }

  /** `MergeValuesStep` for one entry `x`. */
  lemma MergeValueAt(all: TermsMap, chat: TermsMap, i: nat, x: nat, nx: seq<string>, rx: seq<string>)
    requires chat != [] && i < |all| && x < |all| && all[i].0 == chat[0].0
    requires x != i ==> all[x].0 != all[i].0
    requires nx == (if x == i then all[i].1 + chat[0].1 else all[x].1)
    requires rx == nx + Extra(chat[1..], all[x].0)
    ensures rx == all[x].1 + Extra(chat, all[x].0)
  {
    var k := all[x].0;
    assert Extra(chat, k) == (if chat[0].0 == k then chat[0].1 else []) + Extra(chat[1..], k);
    if x == i {
      assert all[i].1 + chat[0].1 + Extra(chat[1..], k) == all[i].1 + (chat[0].1 + Extra(chat[1..], k));
    } else {
      assert [] + Extra(chat[1..], k) == Extra(chat[1..], k);
    }
  }

  lemma ExtraOfTwo(chat: TermsMap, k: string)
    requires |chat| == 2
    ensures Extra(chat, k) == (if chat[0].0 == k then chat[0].1 else []) + (if chat[1].0 == k then chat[1].1 else [])
  {
    assert chat[1..][0] == chat[1];
    assert chat[1..][1..] == [];
    assert Extra(chat[1..][1..], k) == [];
  }

  /** The keys of `book_query_terms` and of `chat_query_terms`. */
  const BookKeys: seq<string> := ["investigator", "perpetrator", "suspect", "crime"]
  const ChatKeys: seq<string> := ["perpetrator", "crime"]

  /** With the source's keys the merge succeeds: "perpetrator" and "crime"
      gain the chat terms, the other book lists are kept as they are. */
  lemma AllQueryTermsOk(book: TermsMap, chat: TermsMap)
    requires Keys(book) == BookKeys && Keys(chat) == ChatKeys
    ensures MergeSpec(book, chat).Ok?
    ensures var r := MergeSpec(book, chat).value;
      && Keys(r) == BookKeys
      && r[1].1 == book[1].1 + chat[0].1
      && r[3].1 == book[3].1 + chat[1].1
      && r[0].1 == book[0].1 && r[2].1 == book[2].1
  {
    SourceKeys(book, chat);
    MergeSpecError(book, chat);
    MergeSpecValues(book, chat);
    SourceExtras(book, chat);
    assert book[0].1 + [] == book[0].1 && book[2].1 + [] == book[2].1;
  }

  /** Which chat lists each book key gains. */
  lemma SourceExtras(book: TermsMap, chat: TermsMap)
    requires |book| == 4 && |chat| == 2 && DistinctKeys(book)
    requires chat[0].0 == book[1].0 && chat[1].0 == book[3].0
    ensures Extra(chat, book[0].0) == [] && Extra(chat, book[2].0) == []
    ensures Extra(chat, book[1].0) == chat[0].1 && Extra(chat, book[3].0) == chat[1].1
  {
    assert book[0].0 != book[1].0 && book[0].0 != book[3].0;
    assert book[2].0 != book[1].0 && book[2].0 != book[3].0;
    assert book[1].0 != book[3].0;
    ExtraOfTwo(chat, book[0].0);
    ExtraOfTwo(chat, book[1].0);
    ExtraOfTwo(chat, book[2].0);
    ExtraOfTwo(chat, book[3].0);
    assert chat[0].1 + [] == chat[0].1 && [] + chat[1].1 == chat[1].1;
  }

  /** What the merge needs to know about the source's keys. */
  lemma SourceKeys(book: TermsMap, chat: TermsMap)
    requires Keys(book) == BookKeys && Keys(chat) == ChatKeys
    ensures |book| == 4 && |chat| == 2 && DistinctKeys(book) && KeysIn(chat, book)
    ensures chat[0].0 == book[1].0 && chat[1].0 == book[3].0
  {
    assert chat[0].0 == Keys(chat)[0] == Keys(book)[1];
    assert chat[1].0 == Keys(chat)[1] == Keys(book)[3];
    forall a, b | 0 <= a < b < |book| ensures book[a].0 != book[b].0 {
      assert book[a].0 == BookKeys[a] && book[b].0 == BookKeys[b];
    }
    forall j | 0 <= j < |chat| ensures chat[j].0 in Keys(book) {
      assert j == 0 || j == 1;
    }
  }

  // ---------------------------------------------------------------------
  // build_pattern_map: pattern_map[k] = r"\b({rgx})\b".format(rgx=re_union(*v))

  /** The injected set order enumerates every entry's terms. */
  predicate OrdersEnumerate(m: TermsMap, setOrder: seq<string> -> seq<string>)
  {
    forall i :: 0 <= i < |m| ==> IsEnumeration(setOrder(m[i].1), m[i].1)
  }

  function PatternMapSpec(m: TermsMap, setOrder: seq<string> -> seq<string>): (r: seq<(string, string)>)
    requires OrdersEnumerate(m, setOrder)
    decreases |m|
  {
    if m == [] then []
    else
      var n := |m| - 1;
      PatternMapSpec(m[..n], setOrder) + [(m[n].0, Utils.TermPattern(Utils.ReUnion(m[n].1, setOrder(m[n].1))))]
  }

  /** Keys are distinct, as a dictionary's are. */
  predicate DistinctKeys<V>(m: seq<(string, V)>)
  {
    forall i, j :: 0 <= i < j < |m| ==> m[i].0 != m[j].0
  }

  method BuildPatternMap(m: TermsMap, setOrder: seq<string> -> seq<string>) returns (r: seq<(string, string)>)
    requires DistinctKeys(m) && OrdersEnumerate(m, setOrder)
    ensures r == PatternMapSpec(m, setOrder)
  {
    r := [];
    var i := 0;
    while i < |m|
      invariant 0 <= i <= |m|
      invariant r == PatternMapSpec(m[..i], setOrder)
      invariant Keys(r) == Keys(m[..i])
    {
      var (k, v) := m[i];
      var pattern := Utils.TermPattern(Utils.ReUnion(v, setOrder(v)));
      // `pattern_map[k] = pattern` adds a new key: no earlier key equals k.
      assert IndexOf(r, k).None?;
      r := r + [(k, pattern)];
      assert m[..i + 1][..i] == m[..i];
      i := i + 1;
    }
    assert m[..i] == m;
  }

  lemma PatternMapSpecAt(m: TermsMap, setOrder: seq<string> -> seq<string>)
    requires OrdersEnumerate(m, setOrder)
    ensures var r := PatternMapSpec(m, setOrder);
      && |r| == |m|
      && forall i :: 0 <= i < |m| ==>
           r[i] == (m[i].0, Utils.TermPattern(Utils.ReUnion(m[i].1, setOrder(m[i].1))))
  {
    PatternMapSpecLength(m, setOrder);
    forall i | 0 <= i < |m|
      ensures PatternMapSpec(m, setOrder)[i] == (m[i].0, Utils.TermPattern(Utils.ReUnion(m[i].1, setOrder(m[i].1))))
    {
      PatternMapSpecEntry(m, setOrder, i);
    }
  }

  lemma OrdersEnumerateInit(m: TermsMap, setOrder: seq<string> -> seq<string>, init: TermsMap)
    requires m != [] && init == m[..|m| - 1] && OrdersEnumerate(m, setOrder)
    ensures OrdersEnumerate(init, setOrder)
  {
    forall i | 0 <= i < |init| ensures init[i] == m[i] { }
  }

  lemma {:induction false} PatternMapSpecLength(m: TermsMap, setOrder: seq<string> -> seq<string>)
    requires OrdersEnumerate(m, setOrder)
    ensures |PatternMapSpec(m, setOrder)| == |m|
    decreases |m|
  {
    if m != [] {
      var init := m[..|m| - 1];
      OrdersEnumerateInit(m, setOrder, init);
      PatternMapSpecLength(init, setOrder);
    }
  }

  lemma {:induction false} PatternMapSpecEntry(m: TermsMap, setOrder: seq<string> -> seq<string>, i: nat)
    requires OrdersEnumerate(m, setOrder) && i < |m|
    ensures i < |PatternMapSpec(m, setOrder)|
    ensures PatternMapSpec(m, setOrder)[i] == (m[i].0, Utils.TermPattern(Utils.ReUnion(m[i].1, setOrder(m[i].1))))
    decreases |m|
  {
    var n := |m| - 1;
    var init := m[..n];
    OrdersEnumerateInit(m, setOrder, init);
    PatternMapSpecLength(init, setOrder);
    if i < n {
      PatternMapSpecEntry(init, setOrder, i);
      assert init[i] == m[i];
    }
  }

  /** The pattern map has the same keys in the same order, and each pattern
      wraps one parenthesised alternative per distinct term in `\b(...)\b`. */
  lemma PatternMapEntries(m: TermsMap, setOrder: seq<string> -> seq<string>)
    requires OrdersEnumerate(m, setOrder)
    ensures var r := PatternMapSpec(m, setOrder);
      && Keys(r) == Keys(m)
      && forall i :: 0 <= i < |m| && m[i].1 != [] ==>
           var order := setOrder(m[i].1);
           && r[i].1 == "\\b(" + Utils.JoinWith(Utils.ParenthesizeAll(order), "|") + ")\\b"
           && |order| == |set x | x in m[i].1|
           && forall x :: x in m[i].1 <==> Utils.Parenthesize(x) in Utils.ParenthesizeAll(order)
  {
    PatternMapSpecAt(m, setOrder);
    var r := PatternMapSpec(m, setOrder);
    forall i | 0 <= i < |m| && m[i].1 != []
      ensures r[i].1 == "\\b(" + Utils.JoinWith(Utils.ParenthesizeAll(setOrder(m[i].1)), "|") + ")\\b"
      ensures |setOrder(m[i].1)| == |set x | x in m[i].1|
      ensures forall x :: x in m[i].1 <==> Utils.Parenthesize(x) in Utils.ParenthesizeAll(setOrder(m[i].1))
    {
      Utils.ReUnionAlternatives(m[i].1, setOrder(m[i].1));
    }
  }
}

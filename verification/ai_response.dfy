/** lib/chat/AIResponse.py: a reply built from parts, rendered by `__str__`.
    The fields are set once by `__init__` and never reassigned, so a reply is
    a value. `random.choice` is replaced by a draw stream: the k-th choice of
    a rendering picks index `draws(k) % |list|`. */
module Responses {
  import opened Wrappers
  import Utils

  /** What the stored `fn` does when the chat loop calls it; the only one the
      chat bot stores is `sys.exit(0)`. */
  datatype Action = Exit(code: int)

  datatype AIResponse = AIResponse(parts: seq<Part>, join: string, fn: Option<Action>)

  /** A `msg_parts` entry: a `str`, a `list`, a nested reply, or anything else. */
  datatype Part =
    | Str(text: string)
    | Choice(alts: seq<Alt>)
    | Nested(reply: AIResponse)
    | Other

  /** An element of a list part: a `str`, `None`, or a reply. */
  datatype Alt = AStr(text: string) | ANone | AResp(reply: AIResponse)

  /** `AIResponse(*msg_parts, join=" ", fn=None)` */
  function Init(parts: seq<Part>, join: string := " ", fn: Option<Action> := None): (r: AIResponse)
    ensures r.parts == parts && r.join == join && r.fn == fn
  {
    AIResponse(parts, join, fn)
  }

  type Draws = nat -> nat

  /** `str(r)`, starting at draw `k`, with the index of the next unused draw. */
  function Rendering(r: AIResponse, draws: Draws, k: nat): (Result<string>, nat)
    decreases r, 1
  {
    Finish(r.join, RenderFrom(r, 0, draws, k, []))
  }

  /** `self.join.join(parts)`, or the exception. */
  function Finish(join: string, p: (Result<seq<string>>, nat)): (Result<string>, nat)
  {
    (if p.0.Ok? then Ok(Utils.JoinWith(p.0.value, join)) else Err(p.0.error), p.1)
  }

  /** The loop over `msg_parts` from part `i`, with `acc` collected so far. */
  function RenderFrom(r: AIResponse, i: nat, draws: Draws, k: nat, acc: seq<string>): (Result<seq<string>>, nat)
    requires i <= |r.parts|
    decreases r, 0, |r.parts| - i
  {
    if i == |r.parts| then (Ok(acc), k)
    else
      match r.parts[i]
      case Str(s) => RenderFrom(r, i + 1, draws, k, if s == [] then acc else acc + [s])
      case Choice(alts) =>
        if alts == [] then (Err(IndexError), k)
        else
          var a := alts[draws(k) % |alts|];
          (match a
           case ANone => RenderFrom(r, i + 1, draws, k + 1, acc)
           case AStr(s) => RenderFrom(r, i + 1, draws, k + 1, if s == [] then acc else acc + [s])
           case AResp(n) =>
             assert a < r.parts[i];
             var (res, k') := Rendering(n, draws, k + 1);
             if res.Err? then (Err(res.error), k') else RenderFrom(r, i + 1, draws, k', acc + [res.value]))
      case Nested(n) =>
        var (res, k') := Rendering(n, draws, k);
        if res.Err? then (Err(res.error), k') else RenderFrom(r, i + 1, draws, k', acc + [res.value])
      case Other => (Err(TypeError), k)
  }

  /** `__str__`, as the loop that appends to `parts`. */
  method Render(r: AIResponse, draws: Draws, k0: nat) returns (res: Result<string>, k: nat)
    ensures (res, k) == Rendering(r, draws, k0)
    decreases r
  {
    var parts: seq<string> := [];
    k := k0;
    var i := 0;
    while i < |r.parts|
      invariant 0 <= i <= |r.parts|
      invariant Rendering(r, draws, k0) == Finish(r.join, RenderFrom(r, i, draws, k, parts))
    {
      match r.parts[i] {
        case Str(s) =>
          if s != [] {
            parts := parts + [s];
          }
        case Choice(alts) =>
          if alts == [] {
            return Err(IndexError), k;
          }
          var a := alts[draws(k) % |alts|];
          k := k + 1;
          match a {
            case ANone =>
            case AStr(s) =>
              if s != [] {
                parts := parts + [s];
              }
            case AResp(n) =>
              assert a < r.parts[i];
              var sub;
              sub, k := Render(n, draws, k);
              if sub.Err? {
                return Err(sub.error), k;
              }
              parts := parts + [sub.value];
          }
        case Nested(n) =>
          var sub;
          sub, k := Render(n, draws, k);
          if sub.Err? {
            return Err(sub.error), k;
          }
          parts := parts + [sub.value];
        case Other =>
          return Err(TypeError), k;
      }
      i := i + 1;
    }
    res := Ok(Utils.JoinWith(parts, r.join));
  }
  // ---------------------------------------------------------------------
  // What rendering promises

  /** The collected pieces extend `acc` by at most one piece per remaining part. */
  lemma {:induction false} RenderFromBound(r: AIResponse, i: nat, draws: Draws, k: nat, acc: seq<string>)
    requires i <= |r.parts|
    ensures var p := RenderFrom(r, i, draws, k, acc).0;
      p.Ok? ==> |acc| <= |p.value| <= |acc| + |r.parts| - i && p.value[..|acc|] == acc
    decreases |r.parts| - i
  {
    if i < |r.parts| {
      match r.parts[i]
      case Str(s) =>
        var acc' := if s == [] then acc else acc + [s];
        RenderFromBound(r, i + 1, draws, k, acc');
        var p := RenderFrom(r, i + 1, draws, k, acc').0;
        if p.Ok? { assert p.value[..|acc'|][..|acc|] == p.value[..|acc|]; }
      case Choice(alts) =>
        if alts != [] {
          match alts[draws(k) % |alts|]
          case ANone => RenderFromBound(r, i + 1, draws, k + 1, acc);
          case AStr(s) =>
            var acc' := if s == [] then acc else acc + [s];
            RenderFromBound(r, i + 1, draws, k + 1, acc');
            var p := RenderFrom(r, i + 1, draws, k + 1, acc').0;
            if p.Ok? { assert p.value[..|acc'|][..|acc|] == p.value[..|acc|]; }
          case AResp(n) =>
            var (res, k') := Rendering(n, draws, k + 1);
            if res.Ok? {
              RenderFromBound(r, i + 1, draws, k', acc + [res.value]);
              var p := RenderFrom(r, i + 1, draws, k', acc + [res.value]).0;
              if p.Ok? { assert p.value[..|acc| + 1][..|acc|] == p.value[..|acc|]; }
            }
        }
      case Nested(n) =>
        var (res, k') := Rendering(n, draws, k);
        if res.Ok? {
          RenderFromBound(r, i + 1, draws, k', acc + [res.value]);
          var p := RenderFrom(r, i + 1, draws, k', acc + [res.value]).0;
          if p.Ok? { assert p.value[..|acc| + 1][..|acc|] == p.value[..|acc|]; }
        }
      case Other =>
    }
  }

  /** No more pieces are joined than there are parts. */
  lemma PiecesAtMostParts(r: AIResponse, draws: Draws, k: nat)
    ensures var p := RenderFrom(r, 0, draws, k, []).0;
      p.Ok? ==> |p.value| <= |r.parts|
  {
    RenderFromBound(r, 0, draws, k, []);
  }

  /** The non-empty texts of string parts, in order. */
  function Texts(parts: seq<Part>): (ts: seq<string>)
    ensures forall j :: 0 <= j < |ts| ==> ts[j] != []
    ensures |ts| <= |parts|
  {
    if parts == [] then []
    else (if parts[0].Str? && parts[0].text != [] then [parts[0].text] else []) + Texts(parts[1..])
  }

  predicate AllStrings(parts: seq<Part>)
  {
    forall j :: 0 <= j < |parts| ==> parts[j].Str?
  }

  lemma {:induction false} RenderFromStrings(r: AIResponse, i: nat, draws: Draws, k: nat, acc: seq<string>)
    requires i <= |r.parts| && AllStrings(r.parts)
    ensures RenderFrom(r, i, draws, k, acc) == (Ok(acc + Texts(r.parts[i..])), k)
    decreases |r.parts| - i
  {
    if i == |r.parts| {
      assert r.parts[i..] == [];
      assert acc + Texts([]) == acc;
    } else {
      var s := r.parts[i].text;
      var acc' := if s == [] then acc else acc + [s];
      RenderFromStrings(r, i + 1, draws, k, acc');
      assert r.parts[i] == Str(s);
      assert RenderFrom(r, i, draws, k, acc) == RenderFrom(r, i + 1, draws, k, acc');
      assert r.parts[i..][0] == r.parts[i];
      assert r.parts[i..][1..] == r.parts[i + 1..];
      assert Texts(r.parts[i..]) == (if s == [] then [] else [s]) + Texts(r.parts[i + 1..]);
      assert acc' + Texts(r.parts[i + 1..]) == acc + Texts(r.parts[i..]);
    }
  }

  /** Non-empty strings are kept verbatim and empty ones skipped; no draw is used. */
  lemma StringsVerbatim(r: AIResponse, draws: Draws, k: nat)
    requires AllStrings(r.parts)
    ensures Rendering(r, draws, k) == (Ok(Utils.JoinWith(Texts(r.parts), r.join)), k)
  {
    RenderFromStrings(r, 0, draws, k, []);
    assert r.parts[0..] == r.parts;
    assert [] + Texts(r.parts) == Texts(r.parts);
  }

  /** A falsy choice adds nothing, not even a separator, but uses its draw. */
  lemma FalsyChoiceSkipped(a: string, alts: seq<Alt>, b: string, join: string, fn: Option<Action>, draws: Draws, k: nat)
    requires a != [] && b != [] && alts != []
    requires alts[draws(k) % |alts|] == ANone || alts[draws(k) % |alts|] == AStr("")
    ensures Rendering(AIResponse([Str(a), Choice(alts), Str(b)], join, fn), draws, k) == (Ok(a + join + b), k + 1)
  {
    var r := AIResponse([Str(a), Choice(alts), Str(b)], join, fn);
    assert [] + [a] == [a] && [a] + [b] == [a, b];
    assert RenderFrom(r, 0, draws, k, []) == RenderFrom(r, 1, draws, k, [a]);
    assert RenderFrom(r, 1, draws, k, [a]) == RenderFrom(r, 2, draws, k + 1, [a]);
    assert RenderFrom(r, 2, draws, k + 1, [a]) == RenderFrom(r, 3, draws, k + 1, [a, b]);
    assert RenderFrom(r, 3, draws, k + 1, [a, b]) == (Ok([a, b]), k + 1);
    assert [a, b][1..] == [b];
    assert Utils.JoinWith([a, b], join) == a + join + b;
  }

  /** A chosen string or reply is appended as one piece. */
  lemma ChoiceContributesOne(alts: seq<Alt>, join: string, fn: Option<Action>, draws: Draws, k: nat)
    requires alts != []
    ensures var r := AIResponse([Choice(alts)], join, fn);
      match alts[draws(k) % |alts|]
      case ANone => Rendering(r, draws, k) == (Ok(""), k + 1)
      case AStr(s) => Rendering(r, draws, k) == (Ok(s), k + 1)
      case AResp(n) => Rendering(r, draws, k) == Rendering(n, draws, k + 1)
  {
    var r := AIResponse([Choice(alts)], join, fn);
    assert r.parts[0] == Choice(alts);
    match alts[draws(k) % |alts|]
    case ANone =>
      assert RenderFrom(r, 0, draws, k, []) == RenderFrom(r, 1, draws, k + 1, []);
    case AStr(s) =>
      assert RenderFrom(r, 0, draws, k, []) == RenderFrom(r, 1, draws, k + 1, if s == [] then [] else [] + [s]);
      assert [] + [s] == [s];
    case AResp(n) =>
      var (res, k') := Rendering(n, draws, k + 1);
      if res.Ok? {
        assert RenderFrom(r, 0, draws, k, []) == RenderFrom(r, 1, draws, k', [] + [res.value]);
        assert [] + [res.value] == [res.value];
        assert RenderFrom(r, 1, draws, k', [res.value]) == (Ok([res.value]), k');
      } else {
        assert RenderFrom(r, 0, draws, k, []) == (Err(res.error), k');
      }
  }

  /** Nested replies are always appended, even when they render empty, so
      each one adds a separator. */
  lemma NestedAlwaysAppended(n1: AIResponse, n2: AIResponse, join: string, fn: Option<Action>, draws: Draws, k: nat)
    requires Rendering(n1, draws, k).0.Ok?
    requires Rendering(n2, draws, Rendering(n1, draws, k).1).0.Ok?
    ensures var (s1, k1) := Rendering(n1, draws, k);
      var (s2, k2) := Rendering(n2, draws, k1);
      Rendering(AIResponse([Nested(n1), Nested(n2)], join, fn), draws, k) == (Ok(s1.value + join + s2.value), k2)
  {
    var r := AIResponse([Nested(n1), Nested(n2)], join, fn);
    var (s1, k1) := Rendering(n1, draws, k);
    var (s2, k2) := Rendering(n2, draws, k1);
    assert r.parts[0] == Nested(n1) && r.parts[1] == Nested(n2);
    assert [] + [s1.value] == [s1.value] && [s1.value] + [s2.value] == [s1.value, s2.value];
    assert RenderFrom(r, 0, draws, k, []) == RenderFrom(r, 1, draws, k1, [s1.value]);
    assert RenderFrom(r, 1, draws, k1, [s1.value]) == RenderFrom(r, 2, draws, k2, [s1.value, s2.value]);
    assert RenderFrom(r, 2, draws, k2, [s1.value, s2.value]) == (Ok([s1.value, s2.value]), k2);
    assert [s1.value, s2.value][1..] == [s2.value];
    assert Utils.JoinWith([s1.value, s2.value], join) == s1.value + join + s2.value;
  }

  /** Rendering a reply whose parts start with those of `p` runs as
      rendering `p` does, as long as that succeeds, then goes on with the
      parts and the draw `p` leaves it with. */
  lemma {:induction false} RenderFromPrefix(r: AIResponse, p: AIResponse, j: nat, draws: Draws, k: nat, acc: seq<string>)
    requires j <= |p.parts| <= |r.parts| && p.parts == r.parts[..|p.parts|]
    requires RenderFrom(p, j, draws, k, acc).0.Ok?
    ensures var (res, k') := RenderFrom(p, j, draws, k, acc);
      RenderFrom(r, j, draws, k, acc) == RenderFrom(r, |p.parts|, draws, k', res.value)
    decreases |p.parts| - j
  {
    if j < |p.parts| {
      assert p.parts[j] == r.parts[j];
      match r.parts[j]
      case Str(s) =>
        RenderFromPrefix(r, p, j + 1, draws, k, if s == [] then acc else acc + [s]);
      case Choice(alts) =>
        var a := alts[draws(k) % |alts|];
        match a {
          case ANone =>
            RenderFromPrefix(r, p, j + 1, draws, k + 1, acc);
          case AStr(s) =>
            RenderFromPrefix(r, p, j + 1, draws, k + 1, if s == [] then acc else acc + [s]);
          case AResp(n) =>
            var (res, k') := Rendering(n, draws, k + 1);
            RenderFromPrefix(r, p, j + 1, draws, k', acc + [res.value]);
        }
      case Nested(n) =>
        var (res, k') := Rendering(n, draws, k);
        RenderFromPrefix(r, p, j + 1, draws, k', acc + [res.value]);
      case Other =>
    }
  }

  /** A part of another type raises TypeError, and an empty list raises
      IndexError, once the parts before it render without an exception. */
  lemma BadPartRaises(r: AIResponse, i: nat, draws: Draws, k: nat)
    requires i < |r.parts| && Rendering(AIResponse(r.parts[..i], r.join, r.fn), draws, k).0.Ok?
    ensures r.parts[i] == Other ==> Rendering(r, draws, k).0 == Err(TypeError)
    ensures r.parts[i] == Choice([]) ==> Rendering(r, draws, k).0 == Err(IndexError)
  {
    RenderFromPrefix(r, AIResponse(r.parts[..i], r.join, r.fn), 0, draws, k, []);
  }

  /** Replies without list parts, at any depth. */
  predicate NoChoice(r: AIResponse)
    decreases r
  {
    forall j :: 0 <= j < |r.parts| ==>
      match r.parts[j]
      case Choice(_) => false
      case Nested(n) => NoChoice(n)
      case _ => true
  }

  /** Without list parts, rendering uses no draw and does not depend on them. */
  lemma {:induction false} Deterministic(r: AIResponse, d1: Draws, k1: nat, d2: Draws, k2: nat)
    requires NoChoice(r)
    ensures Rendering(r, d1, k1).0 == Rendering(r, d2, k2).0
    ensures Rendering(r, d1, k1).1 == k1
    decreases r, 1
  {
    DeterministicFrom(r, 0, d1, k1, d2, k2, []);
  }

  lemma {:induction false} DeterministicFrom(r: AIResponse, i: nat, d1: Draws, k1: nat, d2: Draws, k2: nat, acc: seq<string>)
    requires NoChoice(r) && i <= |r.parts|
    ensures RenderFrom(r, i, d1, k1, acc).0 == RenderFrom(r, i, d2, k2, acc).0
    ensures RenderFrom(r, i, d1, k1, acc).1 == k1
    decreases r, 0, |r.parts| - i
  {
    if i < |r.parts| {
      match r.parts[i]
      case Str(s) => DeterministicFrom(r, i + 1, d1, k1, d2, k2, if s == [] then acc else acc + [s]);
      case Nested(n) =>
        Deterministic(n, d1, k1, d2, k2);
        var (res, _) := Rendering(n, d1, k1);
        if res.Ok? {
          DeterministicFrom(r, i + 1, d1, k1, d2, Rendering(n, d2, k2).1, acc + [res.value]);
        }
      case Other =>
    }
  }

  lemma {:induction false} RenderFromIgnoresFn(r: AIResponse, f: Option<Action>, i: nat, draws: Draws, k: nat, acc: seq<string>)
    requires i <= |r.parts|
    ensures RenderFrom(r.(fn := f), i, draws, k, acc) == RenderFrom(r, i, draws, k, acc)
    decreases |r.parts| - i
  {
    if i < |r.parts| {
      match r.parts[i]
      case Str(s) => RenderFromIgnoresFn(r, f, i + 1, draws, k, if s == [] then acc else acc + [s]);
      case Choice(alts) =>
        if alts != [] {
          match alts[draws(k) % |alts|]
          case ANone => RenderFromIgnoresFn(r, f, i + 1, draws, k + 1, acc);
          case AStr(s) => RenderFromIgnoresFn(r, f, i + 1, draws, k + 1, if s == [] then acc else acc + [s]);
          case AResp(n) =>
            var (res, k') := Rendering(n, draws, k + 1);
            if res.Ok? { RenderFromIgnoresFn(r, f, i + 1, draws, k', acc + [res.value]); }
        }
      case Nested(n) =>
        var (res, k') := Rendering(n, draws, k);
        if res.Ok? { RenderFromIgnoresFn(r, f, i + 1, draws, k', acc + [res.value]); }
      case Other =>
    }
  }

  /** The stored `fn` plays no part in rendering. */
  lemma RenderingIgnoresFn(r: AIResponse, f: Option<Action>, draws: Draws, k: nat)
    ensures Rendering(r.(fn := f), draws, k) == Rendering(r, draws, k)
  {
    RenderFromIgnoresFn(r, f, 0, draws, k, []);
  }
}

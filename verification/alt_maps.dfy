/** The dictionary fill shared by `create_alternatives_map` (lib/store.py)
    and `create_permutation_map` (lib/utils.py): every group of terms is
    stripped and de-duplicated through `list(set(...))`, and each of its terms
    (under a key function) is mapped to that list, later groups overwriting
    earlier ones. */
module AltMaps {
  import opened Chars
  import opened PySets

  type AltMap = map<string, seq<string>>

  function StripAll(g: seq<string>): (r: seq<string>)
    ensures |r| == |g|
    ensures forall i :: 0 <= i < |g| ==> r[i] == Strip(g[i])
  {
    seq(|g|, i requires 0 <= i < |g| => Strip(g[i]))
  }

  /** The injected set order enumerates every group's stripped terms. */
  predicate OrdersEnumerate(groups: seq<seq<string>>, setOrder: seq<string> -> seq<string>)
  {
    forall i :: 0 <= i < |groups| ==> IsEnumeration(setOrder(StripAll(groups[i])), StripAll(groups[i]))
  }

  /** `list(set(map(str.strip, g)))` */
  function Alternatives(g: seq<string>, setOrder: seq<string> -> seq<string>): seq<string>
  {
    setOrder(StripAll(g))
  }

  function KeysOf(alts: seq<string>, keyOf: string -> string): (ks: seq<string>)
    ensures |ks| == |alts|
    ensures forall i :: 0 <= i < |alts| ==> ks[i] == keyOf(alts[i])
  {
    seq(|alts|, i requires 0 <= i < |alts| => keyOf(alts[i]))
  }

  /** `m` after `m[k] = v` for each `k` of `ks`, in order. */
  function AssignAll(m: AltMap, ks: seq<string>, v: seq<string>): AltMap
    decreases |ks|
  {
    if ks == [] then m else AssignAll(m, ks[..|ks| - 1], v)[ks[|ks| - 1] := v]
  }

  /** The map after the first `|groups|` groups. */
  function BuildSpec(groups: seq<seq<string>>, setOrder: seq<string> -> seq<string>, keyOf: string -> string): AltMap
    decreases |groups|
  {
    if groups == [] then map[]
    else
      var alts := Alternatives(groups[|groups| - 1], setOrder);
      AssignAll(BuildSpec(groups[..|groups| - 1], setOrder, keyOf), KeysOf(alts, keyOf), alts)
  }

  method Build(groups: seq<seq<string>>, setOrder: seq<string> -> seq<string>, keyOf: string -> string)
    returns (m: AltMap)
    ensures m == BuildSpec(groups, setOrder, keyOf)
  {
    m := map[];
    var i := 0;
    while i < |groups|
      invariant 0 <= i <= |groups|
      invariant m == BuildSpec(groups[..i], setOrder, keyOf)
    {
      var alts := setOrder(StripAll(groups[i]));
      ghost var before := m;
      ghost var ks := KeysOf(alts, keyOf);
      var j := 0;
      while j < |alts|
        invariant 0 <= j <= |alts|
        invariant m == AssignAll(before, ks[..j], alts)
      {
        m := m[keyOf(alts[j]) := alts];
        assert ks[..j + 1][..j] == ks[..j];
        j := j + 1;
      }
      assert ks[..j] == ks;
      assert groups[..i + 1][..i] == groups[..i];
      i := i + 1;
    }
    assert groups[..i] == groups;
  }

  lemma {:induction false} AssignAllLookup(m: AltMap, ks: seq<string>, v: seq<string>, k: string)
    ensures k in AssignAll(m, ks, v) <==> k in m || k in ks
    ensures k in ks ==> AssignAll(m, ks, v)[k] == v
    ensures k !in ks && k in m ==> AssignAll(m, ks, v)[k] == m[k]
    decreases |ks|
  {
    if ks != [] {
      AssignAllLookup(m, ks[..|ks| - 1], v, k);
      assert ks == ks[..|ks| - 1] + [ks[|ks| - 1]];
    }
  }

  /** Some term of `g`, once stripped, has key `k`. */
  predicate KeyIn(k: string, g: seq<string>, keyOf: string -> string)
  {
    exists t :: t in g && keyOf(Strip(t)) == k
  }

  lemma KeysOfAlternatives(g: seq<string>, setOrder: seq<string> -> seq<string>, keyOf: string -> string, k: string)
    requires IsEnumeration(setOrder(StripAll(g)), StripAll(g))
    ensures k in KeysOf(Alternatives(g, setOrder), keyOf) <==> KeyIn(k, g, keyOf)
  {
    var alts := Alternatives(g, setOrder);
    var ks := KeysOf(alts, keyOf);
    if k in ks {
      var i :| 0 <= i < |ks| && ks[i] == k;
      assert alts[i] in StripAll(g);
      var j :| 0 <= j < |g| && StripAll(g)[j] == alts[i];
      assert g[j] in g && keyOf(Strip(g[j])) == k;
    }
    if KeyIn(k, g, keyOf) {
      var t :| t in g && keyOf(Strip(t)) == k;
      var j :| 0 <= j < |g| && g[j] == t;
      assert StripAll(g)[j] in alts;
      var i :| 0 <= i < |alts| && alts[i] == Strip(t);
      assert ks[i] == k;
    }
  }

  lemma BuildSpecStep(groups: seq<seq<string>>, setOrder: seq<string> -> seq<string>, keyOf: string -> string, k: string)
    requires groups != [] && OrdersEnumerate(groups, setOrder)
    ensures var n := |groups| - 1;
      var prev := BuildSpec(groups[..n], setOrder, keyOf);
      var m := BuildSpec(groups, setOrder, keyOf);
      && (k in m <==> k in prev || KeyIn(k, groups[n], keyOf))
      && (KeyIn(k, groups[n], keyOf) ==> m[k] == Alternatives(groups[n], setOrder))
      && (!KeyIn(k, groups[n], keyOf) && k in prev ==> m[k] == prev[k])
  {
    var n := |groups| - 1;
    var alts := Alternatives(groups[n], setOrder);
    AssignAllLookup(BuildSpec(groups[..n], setOrder, keyOf), KeysOf(alts, keyOf), alts, k);
    KeysOfAlternatives(groups[n], setOrder, keyOf, k);
  }

  lemma OrdersEnumerateInit(groups: seq<seq<string>>, setOrder: seq<string> -> seq<string>)
    requires groups != [] && OrdersEnumerate(groups, setOrder)
    ensures OrdersEnumerate(groups[..|groups| - 1], setOrder)
  {
    var init := groups[..|groups| - 1];
    forall i | 0 <= i < |init| ensures init[i] == groups[i] { }
  }

  /** The keys are exactly the keys of all stripped terms. */
  lemma {:induction false} BuildSpecKeys(groups: seq<seq<string>>, setOrder: seq<string> -> seq<string>, keyOf: string -> string, k: string)
    requires OrdersEnumerate(groups, setOrder)
    ensures k in BuildSpec(groups, setOrder, keyOf) <==> exists i :: 0 <= i < |groups| && KeyIn(k, groups[i], keyOf)
    decreases |groups|
  {
    if groups != [] {
      var n := |groups| - 1;
      var init := groups[..n];
      OrdersEnumerateInit(groups, setOrder);
      BuildSpecKeys(init, setOrder, keyOf, k);
      BuildSpecStep(groups, setOrder, keyOf, k);
      SomeGroupSplit(groups, keyOf, k);
    }
  }

  /** Some group has the key iff some group before the last, or the last. */
  lemma SomeGroupSplit(groups: seq<seq<string>>, keyOf: string -> string, k: string)
    requires groups != []
    ensures var n := |groups| - 1;
      (exists i :: 0 <= i < |groups| && KeyIn(k, groups[i], keyOf))
      <==> (exists i :: 0 <= i < n && KeyIn(k, groups[..n][i], keyOf)) || KeyIn(k, groups[n], keyOf)
  {
    var n := |groups| - 1;
    var init := groups[..n];
    forall i | 0 <= i < n ensures init[i] == groups[i] { }
  }

  /** Each key holds the alternatives of the LAST group that has it. */
  lemma {:induction false} BuildSpecLastWins(groups: seq<seq<string>>, setOrder: seq<string> -> seq<string>, keyOf: string -> string, k: string, i: nat)
    requires OrdersEnumerate(groups, setOrder)
    requires i < |groups| && KeyIn(k, groups[i], keyOf)
    requires forall j :: i < j < |groups| ==> !KeyIn(k, groups[j], keyOf)
    ensures k in BuildSpec(groups, setOrder, keyOf)
    ensures BuildSpec(groups, setOrder, keyOf)[k] == Alternatives(groups[i], setOrder)
    decreases |groups|
  {
    var n := |groups| - 1;
    BuildSpecStep(groups, setOrder, keyOf, k);
    if i < n {
      var init := groups[..n];
      OrdersEnumerateInit(groups, setOrder);
      assert init[i] == groups[i];
      assert forall j :: i < j < |init| ==> !KeyIn(k, init[j], keyOf) by {
        forall j | i < j < |init| ensures init[j] == groups[j] { }
      }
      BuildSpecLastWins(init, setOrder, keyOf, k, i);
    }
  }

  /** Every stored list is a de-duplicated arrangement of its group's
      stripped terms. */
  lemma {:induction false} BuildSpecValues(groups: seq<seq<string>>, setOrder: seq<string> -> seq<string>, keyOf: string -> string, k: string)
    requires OrdersEnumerate(groups, setOrder)
    requires k in BuildSpec(groups, setOrder, keyOf)
    ensures exists i :: 0 <= i < |groups| && IsEnumeration(BuildSpec(groups, setOrder, keyOf)[k], StripAll(groups[i]))
    decreases |groups|
  {
    var n := |groups| - 1;
    BuildSpecStep(groups, setOrder, keyOf, k);
    if KeyIn(k, groups[n], keyOf) {
      assert IsEnumeration(BuildSpec(groups, setOrder, keyOf)[k], StripAll(groups[n]));
    } else {
      var init := groups[..n];
      OrdersEnumerateInit(groups, setOrder);
      BuildSpecValues(init, setOrder, keyOf, k);
      var i :| 0 <= i < |init| && IsEnumeration(BuildSpec(init, setOrder, keyOf)[k], StripAll(init[i]));
      assert init[i] == groups[i];
    }
  }
  /** Every stored list is the alternatives of a group that holds the key. */
  lemma {:induction false} BuildSpecOwnGroup(groups: seq<seq<string>>, setOrder: seq<string> -> seq<string>, keyOf: string -> string, k: string)
    requires OrdersEnumerate(groups, setOrder)
    requires k in BuildSpec(groups, setOrder, keyOf)
    ensures exists i :: (0 <= i < |groups| && KeyIn(k, groups[i], keyOf) &&
                         BuildSpec(groups, setOrder, keyOf)[k] == Alternatives(groups[i], setOrder))
    decreases |groups|
  {
    var n := |groups| - 1;
    BuildSpecStep(groups, setOrder, keyOf, k);
    if !KeyIn(k, groups[n], keyOf) {
      var init := groups[..n];
      OrdersEnumerateInit(groups, setOrder);
      BuildSpecOwnGroup(init, setOrder, keyOf, k);
      var i :| 0 <= i < |init| && KeyIn(k, init[i], keyOf) &&
        BuildSpec(init, setOrder, keyOf)[k] == Alternatives(init[i], setOrder);
      assert init[i] == groups[i];
    }
  }
}

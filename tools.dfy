/**
 * The tool view: `load_tools` fills a dict from tool identifiers to name and
 * description, the menu lists the dict's names and picks a tool by number,
 * and `display_related_information` writes a kill-chain header before each
 * run of techniques that share a kill chain.
 */
module Tools {
  import opened Wrappers
  import opened Text
  import opened Seqs
  import opened Sorting
  import opened Stix
  import opened Resolver
  import opened Paging

  /** The value `load_tools` stores for a tool. */
  datatype ToolInfo = ToolInfo(name: string, description: string)

  /** A Python dict from tool identifiers: its keys in insertion order, and each key's value. */
  datatype ToolTable = ToolTable(keys: seq<string>, values: map<string, ToolInfo>)

  /** The keys are distinct and are exactly the keys with a value. */
  predicate Valid(t: ToolTable) {
    (forall i, j :: 0 <= i < j < |t.keys| ==> t.keys[i] != t.keys[j])
    && (forall k :: k in t.values ==> k in t.keys)
    && (forall k :: k in t.keys ==> k in t.values)
  }

  /** `{"name": ..., "description": obj.get('description', 'No description available')}` */
  function InfoOf(o: StixObject): ToolInfo {
    ToolInfo(o.name, o.description.GetOr("No description available"))
  }

  /**
   * `tools[id] = info`: the key keeps its place when it is already there and
   * goes last otherwise; either way it now maps to `info`, and every other
   * key keeps its value.
   */
  function Put(t: ToolTable, id: string, info: ToolInfo): (r: ToolTable)
    requires Valid(t)
    ensures Valid(r)
    ensures r.values == t.values[id := info]
    ensures id in t.values ==> r.keys == t.keys
    ensures id !in t.values ==> r.keys == t.keys + [id]
  {
    if id in t.values then ToolTable(t.keys, t.values[id := info])
    else ToolTable(t.keys + [id], t.values[id := info])
  }

  predicate IsTool(o: StixObject) { o.typ == "tool" }

  /** `load_tools`: the dict after the loop over the bundle. */
  function LoadTools(objs: seq<StixObject>): (r: ToolTable)
    ensures Valid(r)
  {
    if objs == [] then ToolTable([], map[])
    else
      var t := LoadTools(objs[..|objs| - 1]);
      var o := objs[|objs| - 1];
      if IsTool(o) then Put(t, o.id, InfoOf(o)) else t
  }

  /** The loop of `load_tools`, filling the dict one object at a time. */
  method LoadToolsLoop(objs: seq<StixObject>) returns (tools: ToolTable)
    ensures tools == LoadTools(objs)
  {
    tools := ToolTable([], map[]);
    for i := 0 to |objs|
      invariant tools == LoadTools(objs[..i])
    {
      assert objs[..i + 1][..i] == objs[..i];
      if objs[i].typ == "tool" {
        tools := Put(tools, objs[i].id, InfoOf(objs[i]));
      }
    }
    assert objs[..|objs|] == objs;
  }

  /** The identifiers of the tool objects, in bundle order, repeats included. */
  function ToolIds(objs: seq<StixObject>): (r: seq<string>)
    ensures |r| <= |objs|
  {
    if objs == [] then []
    else
      var o := objs[|objs| - 1];
      ToolIds(objs[..|objs| - 1]) + (if IsTool(o) then [o.id] else [])
  }

  /** One entry per distinct tool identifier, in the order the identifiers are first met. */
  lemma {:induction false} LoadToolsKeys(objs: seq<StixObject>)
    ensures LoadTools(objs).keys == FirstSeen(ToolIds(objs))
    decreases |objs|
  {
    if objs != [] {
      var init := objs[..|objs| - 1];
      var o := objs[|objs| - 1];
      LoadToolsKeys(init);
      var ids := ToolIds(objs);
      if IsTool(o) {
        var prev := FirstSeen(ToolIds(init));
        assert ids[..|ids| - 1] == ToolIds(init) && ids[|ids| - 1] == o.id;
        assert FirstSeen(ids) == if o.id in prev then prev else prev + [o.id];
        assert (o.id in LoadTools(init).values) == (o.id in prev);
      } else {
        assert ids == ToolIds(init);
      }
    }
  }

  /** `obj.get('type') == 'tool'` with identifier `id`. */
  predicate IsToolWith(o: StixObject, id: string) { IsTool(o) && o.id == id }

  /** Object `i` is the last tool object with identifier `id`. */
  predicate LastToolAt(objs: seq<StixObject>, id: string, i: nat) {
    i < |objs| && IsToolWith(objs[i], id) && forall j :: i < j < |objs| ==> !IsToolWith(objs[j], id)
  }

  /** Exactly the identifiers of tool objects are keys. */
  lemma {:induction false} LoadToolsHas(objs: seq<StixObject>, id: string)
    ensures id in LoadTools(objs).values <==> exists i: nat :: i < |objs| && IsToolWith(objs[i], id)
    decreases |objs|
  {
    if objs != [] {
      var init := objs[..|objs| - 1];
      LoadToolsHas(init, id);
      assert forall i :: 0 <= i < |init| ==> init[i] == objs[i];
    }
  }

  /**
   * A later object with the same identifier overwrites the earlier value:
   * each key maps to the name and description of the LAST tool object with
   * that identifier.
   */
  lemma {:induction false} LoadToolsLastWins(objs: seq<StixObject>, id: string)
    ensures id in LoadTools(objs).values ==>
              exists i: nat :: LastToolAt(objs, id, i) && LoadTools(objs).values[id] == InfoOf(objs[i])
    decreases |objs|
  {
    if objs != [] {
      var init := objs[..|objs| - 1];
      var n := |objs| - 1;
      LoadToolsLastWins(init, id);
      if IsToolWith(objs[n], id) {
        assert LastToolAt(objs, id, n);
      } else if id in LoadTools(init).values {
        var i: nat :| LastToolAt(init, id, i) && LoadTools(init).values[id] == InfoOf(init[i]);
        assert init[i] == objs[i];
        assert forall j :: i < j < |init| ==> init[j] == objs[j];
        assert LastToolAt(objs, id, i);
      }
    }
  }

  /** A tool without a description is listed with "No description available". */
  lemma UndescribedToolFallsBack(o: StixObject)
    requires IsTool(o) && o.description.None?
    ensures LoadTools([o]).values[o.id].description == "No description available"
  {
    assert [o][..0] == [];
  }

  // ---------------------------------------------------------------- selection

  /** `[tool['name'] for tool in tools.values()]`, in key order. */
  function ToolNames(t: ToolTable): (r: seq<string>)
    requires Valid(t)
    ensures |r| == |t.keys|
  {
    seq(|t.keys|, k requires 0 <= k < |t.keys| => t.values[t.keys[k]].name)
  }

  /** The tool the menu picks: its name, identifier and description. */
  datatype Choice = Choice(name: string, id: string, description: string)

  /**
   * The selection in the tool menu: the name from the name list and the
   * identifier from the key list, both at the typed position, and the
   * description stored under that identifier.
   */
  function SelectTool(t: ToolTable, typed: Option<int>): (r: Option<Choice>)
    requires Valid(t)
  {
    match Select(ToolNames(t), typed)
    case None => None
    case Some(name) =>
      var id := t.keys[typed.value - 1];
      Some(Choice(name, id, t.values[id].description))
  }

  /**
   * A number is accepted exactly when it is between 1 and the number of
   * tools, and the name, identifier and description then belong to one and
   * the same dict entry: the name list and the key list are index-aligned.
   */
  lemma SelectToolAligned(t: ToolTable, typed: Option<int>)
    requires Valid(t)
    ensures SelectTool(t, typed).Some? <==> typed.Some? && 1 <= typed.value <= |t.keys|
    ensures SelectTool(t, typed).Some? ==>
              var c := SelectTool(t, typed).value;
              c.id == t.keys[typed.value - 1] && c.id in t.values
              && t.values[c.id] == ToolInfo(c.name, c.description)
  {
  }

  /** Every listed tool of the bundle can be picked, by its position in the menu. */
  lemma EveryToolSelectable(objs: seq<StixObject>, id: string)
    requires exists i: nat :: i < |objs| && IsToolWith(objs[i], id)
    ensures exists n :: 1 <= n <= |LoadTools(objs).keys| && SelectTool(LoadTools(objs), Some(n)).value.id == id
  {
    var t := LoadTools(objs);
    LoadToolsHas(objs, id);
    var k := IndexOf(t.keys, id);
    SelectToolAligned(t, Some(k + 1));
  }

  // ---------------------------------------------------------------- kill-chain headers

  function KillChains(ts: seq<ToolTechnique>): (r: seq<string>)
    ensures |r| == |ts|
  {
    seq(|ts|, k requires 0 <= k < |ts| => ts[k].killChain)
  }

  /** The headers written for a list of kill chains: one each time the kill chain differs from the previous one. */
  function Heads(kcs: seq<string>): (r: seq<string>)
    ensures |r| <= |kcs|
    ensures kcs != [] ==> r != [] && r[|r| - 1] == kcs[|kcs| - 1]
  {
    if kcs == [] then []
    else
      var n := |kcs|;
      Heads(kcs[..n - 1]) + (if n == 1 || kcs[n - 1] != kcs[n - 2] then [kcs[n - 1]] else [])
  }

  /** The header loop of `display_related_information`, with `current_kill_chain` starting at `None`. */
  method EmitHeaders(techniques: seq<ToolTechnique>) returns (headers: seq<string>)
    ensures headers == Heads(KillChains(techniques))
  {
    var kcs := KillChains(techniques);
    headers := [];
    var current: Option<string> := None;
    for i := 0 to |techniques|
      invariant headers == Heads(kcs[..i])
      invariant current == if i == 0 then None else Some(kcs[i - 1])
    {
      HeadsStep(kcs, i);
      if current != Some(techniques[i].killChain) {
        current := Some(techniques[i].killChain);
        headers := headers + [techniques[i].killChain];
      }
    }
    assert kcs[..|kcs|] == kcs;
  }

  /** What one pass of the header loop adds. */
  lemma HeadsStep(kcs: seq<string>, i: nat)
    requires i < |kcs|
    ensures Heads(kcs[..i + 1]) == Heads(kcs[..i]) + (if i == 0 || kcs[i] != kcs[i - 1] then [kcs[i]] else [])
  {
    assert kcs[..i + 1][..i] == kcs[..i];
  }

  /** A header names a kill chain of the list, and every kill chain of the list gets one. */
  lemma {:induction false} HeadsMembers(kcs: seq<string>, x: string)
    ensures x in Heads(kcs) <==> x in kcs
    decreases |kcs|
  {
    if kcs != [] {
      var n := |kcs|;
      var init := kcs[..n - 1];
      HeadsMembers(init, x);
      assert kcs == init + [kcs[n - 1]];
      if n > 1 && kcs[n - 1] == kcs[n - 2] {
        assert kcs[n - 2] == init[|init| - 1];
      }
    }
  }

  predicate Ascending(xs: seq<string>) {
    forall i, j :: 0 <= i < j < |xs| ==> Le(xs[i], xs[j])
  }

  /** On an ascending list the headers come strictly ascending: one per distinct kill chain. */
  lemma {:induction false} HeadsOfAscending(kcs: seq<string>)
    requires Ascending(kcs)
    ensures Ascending(Heads(kcs))
    ensures forall i, j :: 0 <= i < j < |Heads(kcs)| ==> Heads(kcs)[i] != Heads(kcs)[j]
    decreases |kcs|
  {
    if kcs != [] {
      var n := |kcs|;
      var init := kcs[..n - 1];
      var h := Heads(init);
      if n == 1 {
        assert Heads(kcs) == [kcs[0]];
      } else if kcs[n - 1] != kcs[n - 2] {
        assert Heads(kcs) == h + [kcs[n - 1]];
        HeadsOfAscending(init);
        forall x | x in h
          ensures Le(x, kcs[n - 1]) && x != kcs[n - 1]
        {
          EarlierHead(kcs, x);
        }
        AscendingSnoc(h, kcs[n - 1]);
      } else {
        assert Heads(kcs) == h;
        HeadsOfAscending(init);
      }
    }
  }

  /** A strictly ascending list stays strictly ascending when a value above all of it is appended. */
  lemma AscendingSnoc(h: seq<string>, y: string)
    requires Ascending(h) && forall i, j :: 0 <= i < j < |h| ==> h[i] != h[j]
    requires forall x :: x in h ==> Le(x, y) && x != y
    ensures Ascending(h + [y]) && forall i, j :: 0 <= i < j < |h + [y]| ==> (h + [y])[i] != (h + [y])[j]
  {
    assert forall i :: 0 <= i < |h| ==> h[i] in h;
  }

  /** A header written before a change of kill chain is below the new one. */
  lemma EarlierHead(kcs: seq<string>, x: string)
    requires Ascending(kcs) && |kcs| >= 2 && kcs[|kcs| - 1] != kcs[|kcs| - 2]
    requires x in Heads(kcs[..|kcs| - 1])
    ensures Le(x, kcs[|kcs| - 1]) && x != kcs[|kcs| - 1]
  {
    var n := |kcs|;
    var init := kcs[..n - 1];
    HeadsMembers(init, x);
    var k :| 0 <= k < |init| && init[k] == x;
    LeAntisymmetric(kcs[n - 2], kcs[n - 1]);
    assert k < n - 2 ==> Le(kcs[k], kcs[n - 2]);
  }

  /** A list sorted by kill chain has its kill chains ascending. */
  lemma SortedKillChains(ts: seq<ToolTechnique>)
    requires SortedBy(ts, KillChainOf)
    ensures Ascending(KillChains(ts))
  {
  }

  /** The kill chains listed are those of the techniques. */
  lemma KillChainsMembers(ts: seq<ToolTechnique>, kc: string)
    ensures kc in KillChains(ts) <==> exists t :: t in ts && t.killChain == kc
  {
    if kc in KillChains(ts) {
      var k :| 0 <= k < |ts| && KillChains(ts)[k] == kc;
      assert ts[k] in ts;
    }
    if exists t :: t in ts && t.killChain == kc {
      var t :| t in ts && t.killChain == kc;
      var k :| 0 <= k < |ts| && ts[k] == t;
      assert KillChains(ts)[k] == kc;
    }
  }

  /**
   * For the list `get_techniques_for_tool` returns, one header is written
   * per distinct kill chain, in ascending order.
   */
  lemma ToolHeaders(objs: seq<StixObject>, toolId: string, kc: string)
    ensures var hs := Heads(KillChains(TechniquesForTool(objs, toolId)));
            Ascending(hs)
            && (forall i, j :: 0 <= i < j < |hs| ==> hs[i] != hs[j])
            && (kc in hs <==> exists t :: t in TechniquesForTool(objs, toolId) && t.killChain == kc)
  {
    var ts := TechniquesForTool(objs, toolId);
    TechniquesForToolSorted(objs, toolId, kc);
    SortedKillChains(ts);
    HeadsOfAscending(KillChains(ts));
    HeadsMembers(KillChains(ts), kc);
    KillChainsMembers(ts, kc);
  }
}

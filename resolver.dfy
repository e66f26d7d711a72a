/**
 * The relationship resolver behind `get_techniques_for_actor`,
 * `get_techniques_for_tool` and `get_actors_for_tool`: scan the bundle in
 * order for relationship objects anchored at one identifier, test the far
 * end's identifier for a type name by substring, and resolve it to the first
 * object of that type with that identifier. Dangling references are skipped
 * and duplicate relationships give duplicate entries.
 */
module Resolver {
  import opened Wrappers
  import opened Text
  import opened Stix
  import opened Sorting
  import opened Seqs

  /** Which end of the relationship is the anchor. */
  datatype Direction = Outgoing | Incoming

  /** The end of a relationship away from the anchor. */
  function FarRef(o: StixObject, dir: Direction): string {
    if dir == Outgoing then o.targetRef else o.sourceRef
  }

  /**
   * `obj.get('type') == 'relationship' and obj.get('source_ref') == anchor and farType in obj.get('target_ref')`,
   * or the same with the two ends exchanged.
   */
  predicate IsEdge(o: StixObject, anchor: string, dir: Direction, farType: string) {
    o.typ == "relationship"
    && (if dir == Outgoing then o.sourceRef else o.targetRef) == anchor
    && Contains(FarRef(o, dir), farType)
  }

  /** The edges of `scan` anchored at `anchor`, in order. */
  function Edges(scan: seq<StixObject>, anchor: string, dir: Direction, farType: string): (r: seq<StixObject>)
    ensures |r| <= |scan|
  {
    if scan == [] then []
    else
      var e := scan[|scan| - 1];
      Edges(scan[..|scan| - 1], anchor, dir, farType) + (if IsEdge(e, anchor, dir, farType) then [e] else [])
  }

  /** The position in `objs` that `e`'s far end resolves to, if any. */
  function Resolve(objs: seq<StixObject>, e: StixObject, dir: Direction, farType: string): Option<nat> {
    FindFirst(objs, farType, FarRef(e, dir))
  }

  /**
   * The positions in `objs` of the objects the edges of `scan` resolve to,
   * one per resolving edge, in the order of the edges.
   */
  function RelatedIndexes(scan: seq<StixObject>, objs: seq<StixObject>, anchor: string, dir: Direction, farType: string): (r: seq<nat>)
    ensures forall k :: 0 <= k < |r| ==> r[k] < |objs| && objs[r[k]].typ == farType
  {
    if scan == [] then []
    else
      var e := scan[|scan| - 1];
      var rest := RelatedIndexes(scan[..|scan| - 1], objs, anchor, dir, farType);
      if IsEdge(e, anchor, dir, farType) && Resolve(objs, e, dir, farType).Some? then
        rest + [Resolve(objs, e, dir, farType).value]
      else rest
  }

  /** Each edge contributes at most one position. */
  lemma {:induction false} RelatedIndexesAtMostEdges(scan: seq<StixObject>, objs: seq<StixObject>, anchor: string, dir: Direction, farType: string)
    ensures |RelatedIndexes(scan, objs, anchor, dir, farType)| <= |Edges(scan, anchor, dir, farType)|
    decreases |scan|
  {
    if scan != [] {
      RelatedIndexesAtMostEdges(scan[..|scan| - 1], objs, anchor, dir, farType);
    }
  }

  /** The scan visits the bundle in order: scanning two parts one after the other concatenates their results. */
  lemma {:induction false} RelatedIndexesConcat(a: seq<StixObject>, b: seq<StixObject>, objs: seq<StixObject>,
                                                anchor: string, dir: Direction, farType: string)
    ensures RelatedIndexes(a + b, objs, anchor, dir, farType)
         == RelatedIndexes(a, objs, anchor, dir, farType) + RelatedIndexes(b, objs, anchor, dir, farType)
    decreases |b|
  {
    if b == [] {
      assert a + b == a;
    } else {
      var b' := b[..|b| - 1];
      assert (a + b)[..|a + b| - 1] == a + b';
      assert (a + b)[|a + b| - 1] == b[|b| - 1];
      RelatedIndexesConcat(a, b', objs, anchor, dir, farType);
    }
  }

  /** Edge `e` resolves to position `i` of `objs`. */
  predicate Yields(e: StixObject, objs: seq<StixObject>, anchor: string, dir: Direction, farType: string, i: nat) {
    IsEdge(e, anchor, dir, farType) && Resolve(objs, e, dir, farType) == Some(i)
  }

  /** One more object of the scan adds the position its edge resolves to, if it is a resolving edge. */
  lemma RelatedIndexesStep(scan: seq<StixObject>, objs: seq<StixObject>, anchor: string, dir: Direction, farType: string, e: StixObject)
    ensures RelatedIndexes(scan + [e], objs, anchor, dir, farType)
         == RelatedIndexes(scan, objs, anchor, dir, farType)
            + (if IsEdge(e, anchor, dir, farType) && Resolve(objs, e, dir, farType).Some? then [Resolve(objs, e, dir, farType).value] else [])
  {
    assert (scan + [e])[..|scan + [e]| - 1] == scan;
  }

  /**
   * A position is listed exactly when some edge of the scan resolves to it;
   * an edge whose far end names no object of the far type contributes nothing.
   */
  lemma {:induction false} RelatedIndexesMembers(scan: seq<StixObject>, objs: seq<StixObject>, anchor: string, dir: Direction, farType: string, i: nat)
    ensures i in RelatedIndexes(scan, objs, anchor, dir, farType)
        <==> exists j :: 0 <= j < |scan| && Yields(scan[j], objs, anchor, dir, farType, i)
    decreases |scan|
  {
    if scan != [] {
      var init := scan[..|scan| - 1];
      var e := scan[|scan| - 1];
      assert scan == init + [e];
      RelatedIndexesStep(init, objs, anchor, dir, farType, e);
      RelatedIndexesMembers(init, objs, anchor, dir, farType, i);
      assert forall j :: 0 <= j < |init| ==> scan[j] == init[j];
      if i in RelatedIndexes(scan, objs, anchor, dir, farType) {
        if !(i in RelatedIndexes(init, objs, anchor, dir, farType)) {
          assert Yields(scan[|scan| - 1], objs, anchor, dir, farType, i);
        }
      }
    }
  }

  /** Entry `k` of the positions found comes from an edge of the bundle that resolves to it. */
  lemma ListedPositionYields(objs: seq<StixObject>, anchor: string, dir: Direction, farType: string, k: nat)
    requires k < |RelatedIndexes(objs, objs, anchor, dir, farType)|
    ensures exists j: nat :: j < |objs| && Yields(objs[j], objs, anchor, dir, farType, RelatedIndexes(objs, objs, anchor, dir, farType)[k])
  {
    RelatedIndexesMembers(objs, objs, anchor, dir, farType, RelatedIndexes(objs, objs, anchor, dir, farType)[k]);
  }

  /** A position some edge of the bundle resolves to is among the positions found. */
  lemma YieldedPositionListed(objs: seq<StixObject>, anchor: string, dir: Direction, farType: string, j: nat, i: nat)
    requires j < |objs| && Yields(objs[j], objs, anchor, dir, farType, i)
    ensures i in RelatedIndexes(objs, objs, anchor, dir, farType)
  {
    RelatedIndexesMembers(objs, objs, anchor, dir, farType, i);
  }

  /** When every edge resolves, nothing is dropped: one entry per edge. */
  lemma {:induction false} RelatedIndexesComplete(scan: seq<StixObject>, objs: seq<StixObject>, anchor: string, dir: Direction, farType: string)
    requires forall j :: 0 <= j < |scan| && IsEdge(scan[j], anchor, dir, farType) ==> Resolve(objs, scan[j], dir, farType).Some?
    ensures |RelatedIndexes(scan, objs, anchor, dir, farType)| == |Edges(scan, anchor, dir, farType)|
    decreases |scan|
  {
    if scan != [] {
      var init := scan[..|scan| - 1];
      assert forall j :: 0 <= j < |init| ==> init[j] == scan[j];
      RelatedIndexesComplete(init, objs, anchor, dir, farType);
    }
  }

  /** The objects the edges anchored at `anchor` resolve to, in relationship order. */
  function Related(objs: seq<StixObject>, anchor: string, dir: Direction, farType: string): (r: seq<StixObject>)
    ensures forall k :: 0 <= k < |r| ==> r[k].typ == farType && r[k] in objs
  {
    var idx := RelatedIndexes(objs, objs, anchor, dir, farType);
    seq(|idx|, k requires 0 <= k < |idx| => objs[idx[k]])
  }

  // ---------------------------------------------------------------- techniques of an actor

  /** The bundle after `get_techniques_for_actor` has enriched the objects at the positions `idx`. */
  function EnrichAt(objs: seq<StixObject>, idx: seq<nat>): (r: seq<StixObject>)
    ensures |r| == |objs|
  {
    seq(|objs|, i requires 0 <= i < |objs| => if i in idx then Enrich(objs[i]) else objs[i])
  }

  /** The enriched objects at the positions `idx`, in that order. */
  function EnrichedAt(objs: seq<StixObject>, idx: seq<nat>): (r: seq<StixObject>)
    requires forall k :: 0 <= k < |idx| ==> idx[k] < |objs|
    ensures |r| == |idx|
  {
    seq(|idx|, k requires 0 <= k < |idx| => Enrich(objs[idx[k]]))
  }

  /** The list `get_techniques_for_actor` returns, for the bundle as it was before the call. */
  function ActorTechniques(objs: seq<StixObject>, actorId: string): (r: seq<StixObject>)
    ensures |r| <= |Edges(objs, actorId, Outgoing, "attack-pattern")|
  {
    RelatedIndexesAtMostEdges(objs, objs, actorId, Outgoing, "attack-pattern");
    EnrichedAt(objs, RelatedIndexes(objs, objs, actorId, Outgoing, "attack-pattern"))
  }

  /** Every returned technique is an enriched attack pattern some relationship of the actor points at. */
  lemma ActorTechniqueIsResolvedTarget(objs: seq<StixObject>, actorId: string, t: StixObject)
    requires t in ActorTechniques(objs, actorId)
    ensures exists j: nat, i: nat :: j < |objs| && i < |objs| && Yields(objs[j], objs, actorId, Outgoing, "attack-pattern", i) && t == Enrich(objs[i])
  {
    var idx := RelatedIndexes(objs, objs, actorId, Outgoing, "attack-pattern");
    var k :| 0 <= k < |idx| && ActorTechniques(objs, actorId)[k] == t;
    ListedPositionYields(objs, actorId, Outgoing, "attack-pattern", k);
    var j: nat :| j < |objs| && Yields(objs[j], objs, actorId, Outgoing, "attack-pattern", idx[k]);
    var i: nat := idx[k];
    assert j < |objs| && i < |objs| && Yields(objs[j], objs, actorId, Outgoing, "attack-pattern", i) && t == Enrich(objs[i]);
  }

  /** Every attack pattern a relationship of the actor resolves to is returned, enriched. */
  lemma ResolvedTargetIsActorTechnique(objs: seq<StixObject>, actorId: string, j: nat, i: nat)
    requires j < |objs| && i < |objs| && Yields(objs[j], objs, actorId, Outgoing, "attack-pattern", i)
    ensures Enrich(objs[i]) in ActorTechniques(objs, actorId)
  {
    var idx := RelatedIndexes(objs, objs, actorId, Outgoing, "attack-pattern");
    YieldedPositionListed(objs, actorId, Outgoing, "attack-pattern", j, i);
    var k :| 0 <= k < |idx| && idx[k] == i;
    assert ActorTechniques(objs, actorId)[k] == Enrich(objs[i]);
  }



  /**
   * The bundle, whose technique objects `get_techniques_for_actor` enriches in
   * place while it scans.
   */
  class Bundle {
    var objects: seq<StixObject>

    constructor (objects: seq<StixObject>)
      ensures this.objects == objects
    {
      this.objects := objects;
    }

    /**
     * `get_techniques_for_actor`: scans the live object list, resolves each
     * matching relationship, writes the two derived keys into the resolved
     * technique object and appends it.
     */
    method TechniquesForActor(actorId: string) returns (techniques: seq<StixObject>)
      modifies this
      ensures techniques == ActorTechniques(old(objects), actorId)
      ensures objects == EnrichAt(old(objects), RelatedIndexes(old(objects), old(objects), actorId, Outgoing, "attack-pattern"))
    {
      // The scan reads the list it updates; it is kept in `live` and stored back at the end.
      var live := objects;
      ghost var objs := objects;
      ghost var idx: seq<nat> := [];
      techniques := [];
      var j := 0;
      while j < |live|
        invariant 0 <= j <= |objs| == |live|
        invariant idx == RelatedIndexes(objs[..j], objs, actorId, Outgoing, "attack-pattern")
        invariant live == EnrichAt(objs, idx)
        invariant techniques == EnrichedAt(objs, idx)
      {
        ScanStep(objs, actorId, j);
        LiveEdge(objs, idx, j, actorId);
        var o := live[j];
        if IsEdge(o, actorId, Outgoing, "attack-pattern") {
          LiveFind(objs, idx, o.targetRef);
          var found := FindFirst(live, "attack-pattern", o.targetRef);
          assert found == Resolve(objs, objs[j], Outgoing, "attack-pattern");
          if found.Some? {
            var i := found.value;
            var t := Enrich(live[i]);
            EnrichAtStep(objs, idx, i);
            live := live[i := t];
            techniques := techniques + [t];
            idx := idx + [i];
          }
        }
        j := j + 1;
      }
      objects := live;
      assert objs[..j] == objs;
    }
  }

  /** Object `j` of the live list is a technique edge of the actor exactly when it is one in the original bundle. */
  lemma LiveEdge(objs: seq<StixObject>, idx: seq<nat>, j: nat, actorId: string)
    requires j < |objs|
    ensures EnrichAt(objs, idx)[j].targetRef == objs[j].targetRef
    ensures IsEdge(EnrichAt(objs, idx)[j], actorId, Outgoing, "attack-pattern") == IsEdge(objs[j], actorId, Outgoing, "attack-pattern")
  {
  }

  /** A lookup in the live list finds what it finds in the original bundle. */
  lemma LiveFind(objs: seq<StixObject>, idx: seq<nat>, id: string)
    ensures FindFirst(EnrichAt(objs, idx), "attack-pattern", id) == FindFirst(objs, "attack-pattern", id)
  {
    SameShape(objs, idx);
    FindFirstReadsTypeAndId(EnrichAt(objs, idx), objs, "attack-pattern", id);
  }

  /** The positions found grow by one more object of the scan. */
  lemma ScanStep(objs: seq<StixObject>, actorId: string, j: nat)
    requires j < |objs|
    ensures RelatedIndexes(objs[..j + 1], objs, actorId, Outgoing, "attack-pattern")
         == RelatedIndexes(objs[..j], objs, actorId, Outgoing, "attack-pattern")
            + (if IsEdge(objs[j], actorId, Outgoing, "attack-pattern") && Resolve(objs, objs[j], Outgoing, "attack-pattern").Some?
               then [Resolve(objs, objs[j], Outgoing, "attack-pattern").value] else [])
  {
    var prefix := objs[..j];
    assert objs[..j + 1] == prefix + [objs[j]];
    RelatedIndexesStep(prefix, objs, actorId, Outgoing, "attack-pattern", objs[j]);
  }

  /** Enriching one more position: what the loop body of `TechniquesForActor` does to the bundle and the result. */
  lemma EnrichAtStep(objs: seq<StixObject>, idx: seq<nat>, i: nat)
    requires i < |objs| && forall k :: 0 <= k < |idx| ==> idx[k] < |objs|
    ensures EnrichAt(objs, idx)[i := Enrich(EnrichAt(objs, idx)[i])] == EnrichAt(objs, idx + [i])
    ensures EnrichedAt(objs, idx) + [Enrich(EnrichAt(objs, idx)[i])] == EnrichedAt(objs, idx + [i])
  {
    EnrichIdempotent(objs[i]);
  }

  /** Enriching some objects changes no type, identifier or reference. */
  lemma SameShape(objs: seq<StixObject>, idx: seq<nat>)
    ensures forall k :: 0 <= k < |objs| ==>
      EnrichAt(objs, idx)[k].typ == objs[k].typ && EnrichAt(objs, idx)[k].id == objs[k].id
      && EnrichAt(objs, idx)[k].sourceRef == objs[k].sourceRef && EnrichAt(objs, idx)[k].targetRef == objs[k].targetRef
  {
  }

  // ---------------------------------------------------------------- techniques and actors of a tool

  /** One entry of `get_techniques_for_tool`. */
  datatype ToolTechnique = ToolTechnique(killChain: string, name: string, platform: string, description: string)

  function ToToolTechnique(o: StixObject): ToolTechnique {
    ToolTechnique(KillChainText(o.killChainPhases), o.name, PlatformsText(o.platforms), Describe(o))
  }

  function KillChainOf(t: ToolTechnique): string { t.killChain }

  /** The tool's techniques in relationship order, before sorting. */
  function ToolTechniquesUnsorted(objs: seq<StixObject>, toolId: string): seq<ToolTechnique> {
    var rel := Related(objs, toolId, Outgoing, "attack-pattern");
    seq(|rel|, k requires 0 <= k < |rel| => ToToolTechnique(rel[k]))
  }

  /** `get_techniques_for_tool`: `sorted(techniques, key=lambda x: x['kill_chain'])`. */
  function TechniquesForTool(objs: seq<StixObject>, toolId: string): seq<ToolTechnique> {
    SortBy(ToolTechniquesUnsorted(objs, toolId), KillChainOf)
  }

  /**
   * The tool's techniques are a permutation of one entry per resolving
   * relationship, ascending by kill chain, with the techniques that share a
   * kill chain kept in relationship order.
   */
  lemma TechniquesForToolSorted(objs: seq<StixObject>, toolId: string, kc: string)
    ensures multiset(TechniquesForTool(objs, toolId)) == multiset(ToolTechniquesUnsorted(objs, toolId))
    ensures |TechniquesForTool(objs, toolId)| <= |Edges(objs, toolId, Outgoing, "attack-pattern")|
    ensures SortedBy(TechniquesForTool(objs, toolId), KillChainOf)
    ensures Having(TechniquesForTool(objs, toolId), KillChainOf, kc) == Having(ToolTechniquesUnsorted(objs, toolId), KillChainOf, kc)
  {
    RelatedIndexesAtMostEdges(objs, objs, toolId, Outgoing, "attack-pattern");
    SortByStable(ToolTechniquesUnsorted(objs, toolId), KillChainOf, kc);
  }

  /** One entry of `get_actors_for_tool`. */
  datatype ToolActor = ToolActor(name: string, description: string)

  /** `get_actors_for_tool`: in relationship order, unsorted. */
  function ActorsForTool(objs: seq<StixObject>, toolId: string): (r: seq<ToolActor>)
    ensures |r| <= |Edges(objs, toolId, Incoming, "intrusion-set")|
  {
    RelatedIndexesAtMostEdges(objs, objs, toolId, Incoming, "intrusion-set");
    var rel := Related(objs, toolId, Incoming, "intrusion-set");
    seq(|rel|, k requires 0 <= k < |rel| => ToolActor(rel[k].name, Describe(rel[k])))
  }

  /** Every listed actor is an intrusion set with a relationship ending at the tool, shown by its name and description. */
  lemma ToolActorIsResolvedSource(objs: seq<StixObject>, toolId: string, a: ToolActor)
    requires a in ActorsForTool(objs, toolId)
    ensures exists j: nat, i: nat :: j < |objs| && i < |objs| && Yields(objs[j], objs, toolId, Incoming, "intrusion-set", i)
                 && a == ToolActor(objs[i].name, Describe(objs[i]))
  {
    var idx := RelatedIndexes(objs, objs, toolId, Incoming, "intrusion-set");
    var k :| 0 <= k < |idx| && ActorsForTool(objs, toolId)[k] == a;
    ListedPositionYields(objs, toolId, Incoming, "intrusion-set", k);
    var j: nat :| j < |objs| && Yields(objs[j], objs, toolId, Incoming, "intrusion-set", idx[k]);
    var i: nat := idx[k];
    assert j < |objs| && i < |objs| && Yields(objs[j], objs, toolId, Incoming, "intrusion-set", i)
           && a == ToolActor(objs[i].name, Describe(objs[i]));
  }

  /** Every intrusion set a relationship ending at the tool resolves to is listed. */
  lemma ResolvedSourceIsToolActor(objs: seq<StixObject>, toolId: string, j: nat, i: nat)
    requires j < |objs| && i < |objs| && Yields(objs[j], objs, toolId, Incoming, "intrusion-set", i)
    ensures ToolActor(objs[i].name, Describe(objs[i])) in ActorsForTool(objs, toolId)
  {
    var idx := RelatedIndexes(objs, objs, toolId, Incoming, "intrusion-set");
    YieldedPositionListed(objs, toolId, Incoming, "intrusion-set", j, i);
    var k :| 0 <= k < |idx| && idx[k] == i;
    assert ActorsForTool(objs, toolId)[k] == ToolActor(objs[i].name, Describe(objs[i]));
  }


}

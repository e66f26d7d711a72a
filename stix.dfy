/**
 * The STIX 2.1 bundle as the browser sees it once the JSON is decoded: a
 * sequence of objects (section 8 of the OASIS STIX 2.1 specification), each
 * carrying the few properties the browser reads, optional ones as `Option`.
 * Relationship objects (section 5.1) carry `source_ref` and `target_ref`;
 * other objects leave them empty, and the browser never reads them there.
 */
module Stix {
  import opened Wrappers
  import opened Text

  /** One entry of `kill_chain_phases`. */
  datatype KillChainPhase = KillChainPhase(killChainName: string, phaseName: string)

  datatype StixObject = StixObject(
    id: string,
    typ: string,
    name: string,
    description: Option<string>,
    platforms: Option<seq<string>>,                 // x_mitre_platforms
    killChainPhases: Option<seq<KillChainPhase>>,
    sourceRef: string,
    targetRef: string,
    enrichedPlatforms: Option<string>,              // the 'platforms' key the browser writes
    enrichedKillChain: Option<string>)              // the 'kill_chain_phase' key the browser writes

  /** `item.get('type') == typ and item.get('id') == id` */
  predicate IsObject(o: StixObject, typ: string, id: string) {
    o.typ == typ && o.id == id
  }

  /**
   * `next((item for item in objects if ...), None)`: the position of the
   * first object of type `typ` with identifier `id`.
   */
  function FindFirst(objs: seq<StixObject>, typ: string, id: string): (r: Option<nat>)
    ensures r.Some? ==> r.value < |objs| && IsObject(objs[r.value], typ, id)
    ensures r.Some? ==> forall j :: 0 <= j < r.value ==> !IsObject(objs[j], typ, id)
    ensures r.None? <==> forall j :: 0 <= j < |objs| ==> !IsObject(objs[j], typ, id)
  {
    if objs == [] then None
    else if IsObject(objs[0], typ, id) then Some(0)
    else
      match FindFirst(objs[1..], typ, id)
      case None => None
      case Some(i) => Some(i + 1)
  }

  /** The lookup reads nothing but the types and identifiers of the objects. */
  lemma {:induction false} FindFirstReadsTypeAndId(a: seq<StixObject>, b: seq<StixObject>, typ: string, id: string)
    requires |a| == |b|
    requires forall k :: 0 <= k < |a| ==> a[k].typ == b[k].typ && a[k].id == b[k].id
    ensures FindFirst(a, typ, id) == FindFirst(b, typ, id)
    decreases |a|
  {
    if a != [] {
      FindFirstReadsTypeAndId(a[1..], b[1..], typ, id);
    }
  }

  // ---------------------------------------------------------------- derived strings

  /** `', '.join(obj.get('x_mitre_platforms', ['N/A']))` */
  function PlatformsText(platforms: Option<seq<string>>): string {
    Join(platforms.GetOr(["N/A"]), ", ")
  }

  function PhaseNames(phases: seq<KillChainPhase>): (r: seq<string>)
    ensures |r| == |phases|
  {
    seq(|phases|, k requires 0 <= k < |phases| => phases[k].phaseName)
  }

  /** `', '.join(phase['phase_name'] for phase in obj.get('kill_chain_phases', []))` */
  function KillChainText(phases: Option<seq<KillChainPhase>>): string {
    Join(PhaseNames(phases.GetOr([])), ", ")
  }

  /**
   * "N/A" stands only for an absent platform list: an empty list gives the
   * empty string, a single platform itself, several are separated by ", ".
   * An absent or empty phase list gives the empty string.
   */
  lemma DerivedStringCases(ps: seq<string>, phases: seq<KillChainPhase>)
    ensures PlatformsText(None) == "N/A"
    ensures PlatformsText(Some([])) == ""
    ensures |ps| == 1 ==> PlatformsText(Some(ps)) == ps[0]
    ensures |ps| >= 2 ==> PlatformsText(Some(ps)) == ps[0] + ", " + PlatformsText(Some(ps[1..]))
    ensures KillChainText(None) == "" && KillChainText(Some([])) == ""
    ensures |phases| == 1 ==> KillChainText(Some(phases)) == phases[0].phaseName
  {
  }

  /**
   * The two keys `get_techniques_for_actor` writes into a technique object:
   * everything the object already had is kept.
   */
  function Enrich(o: StixObject): (r: StixObject)
    ensures r.id == o.id && r.typ == o.typ && r.name == o.name && r.description == o.description
    ensures r.platforms == o.platforms && r.killChainPhases == o.killChainPhases
    ensures r.sourceRef == o.sourceRef && r.targetRef == o.targetRef
    ensures r.enrichedPlatforms.Some? && r.enrichedKillChain.Some?
  {
    o.(enrichedPlatforms := Some(PlatformsText(o.platforms)),
       enrichedKillChain := Some(KillChainText(o.killChainPhases)))
  }

  /** Enriching twice is enriching once: the written keys depend only on keys the browser never writes. */
  lemma EnrichIdempotent(o: StixObject)
    ensures Enrich(Enrich(o)) == Enrich(o)
  {
  }

  /** The enriched keys hold the derived strings of the object's own lists. */
  lemma EnrichWritesDerivedStrings(o: StixObject)
    ensures Enrich(o).enrichedPlatforms == Some(if o.platforms.None? then "N/A" else Join(o.platforms.value, ", "))
    ensures Enrich(o).enrichedKillChain == Some(if o.killChainPhases.None? then "" else Join(PhaseNames(o.killChainPhases.value), ", "))
  {
  }

  /** `obj.get('description', default).replace('\n', ' ') + f" (ID: {obj.get('id')})"` */
  function Describe(o: StixObject): (r: string)
    ensures '\n' !in o.id ==> '\n' !in r
  {
    ReplaceNewlines(o.description.GetOr("No description available")) + " (ID: " + o.id + ")"
  }

  /**
   * The flattened description keeps every character of the original except
   * that each newline becomes one space, and ends with the identifier suffix.
   */
  lemma DescribeShape(o: StixObject)
    ensures var d := o.description.GetOr("No description available");
      |Describe(o)| == |d| + |o.id| + 7
      && (forall i :: 0 <= i < |d| ==> Describe(o)[i] == if d[i] == '\n' then ' ' else d[i])
      && Describe(o)[|d|..] == " (ID: " + o.id + ")"
  {
  }
}

/**
 * The threat-actor catalogue: one summary per intrusion set, classified by
 * its description and sorted by name (`get_all_threat_actors`), and the
 * case-insensitive lookup of an actor's identifier by name (`get_actor_id`).
 */
module Catalogue {
  import opened Wrappers
  import opened Text
  import opened Seqs
  import opened Sorting
  import opened Stix
  import opened Classifier

  /** The record `get_all_threat_actors` builds for one intrusion set. */
  datatype ActorSummary = ActorSummary(name: string, geoInfo: string, activityType: string, targetSector: string)

  function TypeOf(o: StixObject): string { o.typ }

  function NameOf(a: ActorSummary): string { a.name }

  /** The intrusion-set objects of the bundle, in bundle order. */
  function IntrusionSets(objs: seq<StixObject>): seq<StixObject> {
    Having(objs, TypeOf, "intrusion-set")
  }

  /** An intrusion set's summary; a missing description counts as the empty one. */
  function Summarize(o: StixObject): ActorSummary {
    var d := o.description.GetOr("");
    ActorSummary(o.name, ExtractGeoInfo(d), ExtractActivityType(d), ExtractTargetSector(d))
  }

  function Summaries(sets: seq<StixObject>): (r: seq<ActorSummary>)
    ensures |r| == |sets|
  {
    seq(|sets|, k requires 0 <= k < |sets| => Summarize(sets[k]))
  }

  /** `get_all_threat_actors` */
  function AllThreatActors(objs: seq<StixObject>): seq<ActorSummary> {
    SortBy(Summaries(IntrusionSets(objs)), NameOf)
  }

  /** An object is an intrusion set of the catalogue exactly when it is one in the bundle. */
  lemma {:induction false} IntrusionSetsMembers(objs: seq<StixObject>, o: StixObject)
    ensures o in IntrusionSets(objs) <==> o in objs && o.typ == "intrusion-set"
    decreases |objs|
  {
    if objs != [] {
      IntrusionSetsMembers(objs[1..], o);
      assert objs == [objs[0]] + objs[1..];
    }
  }

  /**
   * One summary per intrusion set, sorted by name; actors that share a name
   * keep their bundle order (Python's sort is stable).
   */
  lemma AllThreatActorsSorted(objs: seq<StixObject>, name: string)
    ensures |AllThreatActors(objs)| == |IntrusionSets(objs)|
    ensures multiset(AllThreatActors(objs)) == multiset(Summaries(IntrusionSets(objs)))
    ensures SortedBy(AllThreatActors(objs), NameOf)
    ensures Having(AllThreatActors(objs), NameOf, name) == Having(Summaries(IntrusionSets(objs)), NameOf, name)
  {
    SortByStable(Summaries(IntrusionSets(objs)), NameOf, name);
  }

  /** Each listed actor stands for an intrusion set of the bundle with the same name and its description's tags. */
  lemma ListedActorsComeFromTheBundle(objs: seq<StixObject>, a: ActorSummary)
    requires a in AllThreatActors(objs)
    ensures exists o :: o in objs && o.typ == "intrusion-set" && a == Summarize(o)
  {
    var sums := Summaries(IntrusionSets(objs));
    AllThreatActorsSorted(objs, a.name);
    assert a in multiset(sums);
    var k :| 0 <= k < |sums| && sums[k] == a;
    IntrusionSetsMembers(objs, IntrusionSets(objs)[k]);
  }

  /** An intrusion set without a description gets every fallback tag. */
  lemma UndescribedActorFallsBack(o: StixObject)
    requires o.description.None?
    ensures Summarize(o).geoInfo == GeoFallback
    ensures Summarize(o).activityType == OtherFallback && Summarize(o).targetSector == OtherFallback
  {
    EmptyDescriptionFallsBack();
  }

  // ---------------------------------------------------------------- get_actor_id

  /** `obj.get('type') == 'intrusion-set' and obj.get('name').lower() == actor_name.lower()` */
  predicate IsNamedActor(o: StixObject, actorName: string) {
    o.typ == "intrusion-set" && Lower(o.name) == Lower(actorName)
  }

  /** `get_actor_id`: the identifier of the first intrusion set with that name, ignoring case. */
  function GetActorId(objs: seq<StixObject>, actorName: string): (r: Option<string>)
    ensures r.Some? ==> exists i :: 0 <= i < |objs| && IsNamedActor(objs[i], actorName) && r.value == objs[i].id
                                   && forall j :: 0 <= j < i ==> !IsNamedActor(objs[j], actorName)
    ensures r.None? <==> forall i :: 0 <= i < |objs| ==> !IsNamedActor(objs[i], actorName)
  {
    if objs == [] then None
    else if IsNamedActor(objs[0], actorName) then Some(objs[0].id)
    else
      var r := GetActorId(objs[1..], actorName);
      assert r.Some? ==> exists i :: 1 <= i < |objs| && IsNamedActor(objs[i], actorName) && r.value == objs[i].id
                                   && forall j :: 0 <= j < i ==> !IsNamedActor(objs[j], actorName) by {
        if r.Some? {
          var i :| 0 <= i < |objs[1..]| && IsNamedActor(objs[1..][i], actorName) && r.value == objs[1..][i].id
                   && forall j :: 0 <= j < i ==> !IsNamedActor(objs[1..][j], actorName);
          assert forall j :: 1 <= j < i + 1 ==> objs[j] == objs[1..][j - 1];
        }
      }
      r
  }

  /** The lookup ignores the case of the name asked for. */
  lemma {:induction false} GetActorIdIgnoresCase(objs: seq<StixObject>, actorName: string)
    ensures GetActorId(objs, Lower(actorName)) == GetActorId(objs, actorName)
    decreases |objs|
  {
    LowerIdempotent(actorName);
    if objs != [] {
      GetActorIdIgnoresCase(objs[1..], actorName);
    }
  }

  /** `if not actor_id`: the identifier counts as found only when it is neither `None` nor empty. */
  predicate IdFound(r: Option<string>) {
    r.Some? && r.value != ""
  }

  /** Every intrusion set carries a non-empty identifier, as a STIX `<type>--<uuid>` identifier does. */
  predicate IdsPresent(objs: seq<StixObject>) {
    forall o :: o in objs && o.typ == "intrusion-set" ==> o.id != ""
  }

  /**
   * Every name the catalogue lists is found again by `get_actor_id`, and
   * when the bundle's intrusion sets carry identifiers the result passes
   * the `if not actor_id` test.
   */
  lemma ListedActorsHaveAnId(objs: seq<StixObject>, a: ActorSummary)
    requires a in AllThreatActors(objs)
    ensures GetActorId(objs, a.name).Some?
    ensures IdsPresent(objs) ==> IdFound(GetActorId(objs, a.name))
  {
    ListedActorsComeFromTheBundle(objs, a);
    var o :| o in objs && o.typ == "intrusion-set" && a == Summarize(o);
    var i :| 0 <= i < |objs| && objs[i] == o;
    assert IsNamedActor(objs[i], a.name);
    if IdsPresent(objs) {
      FoundIdIsPresent(objs, a.name);
    }
  }

  /** When every intrusion set carries an identifier, whatever the lookup finds is non-empty. */
  lemma {:induction false} FoundIdIsPresent(objs: seq<StixObject>, actorName: string)
    requires IdsPresent(objs)
    ensures GetActorId(objs, actorName).Some? ==> IdFound(GetActorId(objs, actorName))
    decreases |objs|
  {
    if objs != [] && !IsNamedActor(objs[0], actorName) {
      assert IdsPresent(objs[1..]) by {
        forall o | o in objs[1..] && o.typ == "intrusion-set"
          ensures o.id != ""
        {
          assert o in objs;
        }
      }
      FoundIdIsPresent(objs[1..], actorName);
    }
  }

  /** An intrusion set with an empty identifier is matched, but `if not actor_id` reads the result as missing. */
  lemma EmptyIdReadsAsMissing(o: StixObject, rest: seq<StixObject>)
    requires o.typ == "intrusion-set" && o.id == ""
    ensures GetActorId([o] + rest, o.name).Some?
    ensures !IdFound(GetActorId([o] + rest, o.name))
  {
    assert ([o] + rest)[0] == o;
  }
}

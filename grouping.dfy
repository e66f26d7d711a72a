/**
 * The grouping engine of `display_threat_actors_by_geo`, `_by_activity` and
 * `_by_sector`: actors are put into buckets by one tag, buckets in the order
 * their tag is first met, and the buckets' names are handed to the numbering
 * scan of module Numbering, whose `actor_list` maps a typed number back to
 * the name in that cell.
 */
module Grouping {
  import opened Wrappers
  import opened Seqs
  import opened Catalogue
  import opened Numbering
  import opened Paging
  import opened Stix

  /** The three groupings the actor menu offers. */
  datatype Axis = Geography | Activity | Sector

  function GeoOf(a: ActorSummary): string { a.geoInfo }
  function ActivityOf(a: ActorSummary): string { a.activityType }
  function SectorOf(a: ActorSummary): string { a.targetSector }

  /** The tag an axis reads: `actor['geo_info']`, `actor['activity_type']` or `actor['target_sector']`. */
  function KeyOf(axis: Axis): ActorSummary -> string {
    match axis
    case Geography => GeoOf
    case Activity => ActivityOf
    case Sector => SectorOf
  }

  /** One entry of the dict of lists: a tag and its actors. */
  datatype Bucket = Bucket(tag: string, actors: seq<ActorSummary>)

  function Tags(bs: seq<Bucket>): (r: seq<string>)
    ensures |r| == |bs|
  {
    seq(|bs|, b requires 0 <= b < |bs| => bs[b].tag)
  }

  function Keys(actors: seq<ActorSummary>, key: ActorSummary -> string): (r: seq<string>)
    ensures |r| == |actors|
  {
    seq(|actors|, k requires 0 <= k < |actors| => key(actors[k]))
  }

  function Names(actors: seq<ActorSummary>): (r: seq<string>)
    ensures |r| == |actors|
  {
    seq(|actors|, k requires 0 <= k < |actors| => actors[k].name)
  }

  /** `tag in groups`: the position of the bucket with that tag. */
  function FindTag(bs: seq<Bucket>, t: string): (r: Option<nat>)
    ensures r.Some? ==> r.value < |bs| && bs[r.value].tag == t
    ensures r.None? ==> forall b :: 0 <= b < |bs| ==> bs[b].tag != t
  {
    if bs == [] then None
    else if bs[0].tag == t then Some(0)
    else
      match FindTag(bs[1..], t)
      case None => None
      case Some(b) => Some(b + 1)
  }

  /** One step of the filling loop: open the tag's bucket if it is new, then append the actor to it. */
  function AddActor(bs: seq<Bucket>, a: ActorSummary, key: ActorSummary -> string): (r: seq<Bucket>)
    ensures Tags(r) == Tags(bs) || Tags(r) == Tags(bs) + [key(a)]
  {
    match FindTag(bs, key(a))
    case Some(b) =>
      var r := bs[b := Bucket(bs[b].tag, bs[b].actors + [a])];
      assert Tags(r) == Tags(bs);
      r
    case None =>
      var r := bs + [Bucket(key(a), [a])];
      assert Tags(r) == Tags(bs) + [key(a)];
      r
  }

  /** The dict of lists filled by the first loop, for the actors in order. */
  function Groups(actors: seq<ActorSummary>, key: ActorSummary -> string): seq<Bucket> {
    if actors == [] then []
    else AddActor(Groups(actors[..|actors| - 1], key), actors[|actors| - 1], key)
  }

  lemma KeysAppend(actors: seq<ActorSummary>, a: ActorSummary, key: ActorSummary -> string)
    ensures Keys(actors + [a], key) == Keys(actors, key) + [key(a)]
    ensures Names(actors + [a]) == Names(actors) + [a.name]
  {
  }

  /** No actor of `xs` has tag `t`, so its bucket would be empty. */
  lemma HavingAbsentTag(xs: seq<ActorSummary>, key: ActorSummary -> string, t: string)
    ensures Having(xs, key, t) == [] || t in Keys(xs, key)
  {
    var h := Having(xs, key, t);
    if h != [] {
      HavingFromInput(xs, key, t);
      assert h[0] in h;
      var k :| 0 <= k < |xs| && xs[k] == h[0];
      assert Keys(xs, key)[k] == t;
    }
  }

  /** What `Having` selects comes from its input. */
  lemma {:induction false} HavingFromInput<T>(xs: seq<T>, key: T -> string, t: string)
    ensures forall y :: y in Having(xs, key, t) ==> y in xs
    decreases |xs|
  {
    if xs != [] {
      HavingFromInput(xs[1..], key, t);
    }
  }

  /** The buckets come in the order their tags are first met, one per distinct tag. */
  lemma {:induction false} GroupsTags(actors: seq<ActorSummary>, key: ActorSummary -> string)
    ensures Tags(Groups(actors, key)) == FirstSeen(Keys(actors, key))
    decreases |actors|
  {
    if actors != [] {
      var init := actors[..|actors| - 1];
      var a := actors[|actors| - 1];
      GroupsTags(init, key);
      var ks := Keys(actors, key);
      assert ks[..|ks| - 1] == Keys(init, key);
      var g := Groups(init, key);
      match FindTag(g, key(a))
      case Some(b) =>
        assert Tags(g)[b] == key(a);
      case None =>
        assert key(a) !in Tags(g);
    }
  }

  /** Each bucket holds exactly the actors with its tag, in list order; no bucket is empty. */
  lemma {:induction false} GroupsBuckets(actors: seq<ActorSummary>, key: ActorSummary -> string)
    ensures forall b :: 0 <= b < |Groups(actors, key)| ==>
              Groups(actors, key)[b].actors == Having(actors, key, Groups(actors, key)[b].tag)
    ensures forall b :: 0 <= b < |Groups(actors, key)| ==> |Groups(actors, key)[b].actors| > 0
    decreases |actors|
  {
    if actors != [] {
      var init := actors[..|actors| - 1];
      var a := actors[|actors| - 1];
      assert actors == init + [a];
      GroupsBuckets(init, key);
      GroupsTags(init, key);
      KeysAppend(init, a, key);
      var g := Groups(init, key);
      var g' := Groups(actors, key);
      var t := key(a);
      forall b | 0 <= b < |g'|
        ensures g'[b].actors == Having(actors, key, g'[b].tag) && |g'[b].actors| > 0
      {
        HavingConcat(init, [a], key, g'[b].tag);
        HavingSingle(a, key, g'[b].tag);
        BucketAfterAdd(g, a, key, b);
        if b == |g| {
          HavingAbsentTag(init, key, t);
        }
      }
    }
  }

  /** `Having` of one element. */
  lemma HavingSingle<T>(a: T, key: T -> string, t: string)
    ensures Having([a], key, t) == if key(a) == t then [a] else []
  {
    assert [a][1..] == [];
  }

  /** What one filling step does to bucket `b`, when the tags before the step are distinct. */
  lemma BucketAfterAdd(g: seq<Bucket>, a: ActorSummary, key: ActorSummary -> string, b: nat)
    requires forall i, j :: 0 <= i < j < |g| ==> Tags(g)[i] != Tags(g)[j]
    requires b < |AddActor(g, a, key)|
    ensures b < |g| ==> AddActor(g, a, key)[b].tag == g[b].tag
    ensures b < |g| && g[b].tag == key(a) ==> AddActor(g, a, key)[b].actors == g[b].actors + [a]
    ensures b < |g| && g[b].tag != key(a) ==> AddActor(g, a, key)[b].actors == g[b].actors
    ensures b == |g| ==> AddActor(g, a, key)[b] == Bucket(key(a), [a]) && key(a) !in Tags(g)
  {
    match FindTag(g, key(a))
    case Some(f) =>
      if b < |g| && g[b].tag == key(a) {
        assert Tags(g)[b] == Tags(g)[f];
        assert b == f;
      }
    case None =>
  }

  /** The first loop of `display_threat_actors_by_*`: fill the dict of lists. */
  method GroupActors(actors: seq<ActorSummary>, axis: Axis) returns (buckets: seq<Bucket>)
    ensures buckets == Groups(actors, KeyOf(axis))
  {
    var key := KeyOf(axis);
    buckets := [];
    for i := 0 to |actors|
      invariant buckets == Groups(actors[..i], key)
    {
      ghost var prev := buckets;
      var a := actors[i];
      var tag := key(a);
      var found := FindTag(buckets, tag);
      var b: nat;
      if found.None? {
        buckets := buckets + [Bucket(tag, [])];
        b := |buckets| - 1;
      } else {
        b := found.value;
      }
      buckets := buckets[b := Bucket(tag, buckets[b].actors + [a])];
      if found.None? {
        assert [] + [a] == [a];
        assert buckets == prev + [Bucket(tag, [a])];
      }
      assert actors[..i + 1][..i] == actors[..i];
    }
    assert actors[..|actors|] == actors;
  }

  /** The buckets' names, one column per bucket. */
  function Columns(bs: seq<Bucket>): (cols: seq<Column>)
    ensures |cols| == |bs|
    ensures forall b :: 0 <= b < |bs| ==> |cols[b]| == |bs[b].actors|
  {
    seq(|bs|, b requires 0 <= b < |bs| => Names(bs[b].actors))
  }

  /** Every actor lands in exactly one bucket: the buckets hold the actors' names, each as often as in the list. */
  lemma {:induction false} GroupsPartition(actors: seq<ActorSummary>, key: ActorSummary -> string)
    ensures AllNames(Columns(Groups(actors, key))) == multiset(Names(actors))
    decreases |actors|
  {
    if actors != [] {
      var init := actors[..|actors| - 1];
      var a := actors[|actors| - 1];
      assert actors == init + [a];
      GroupsPartition(init, key);
      KeysAppend(init, a, key);
      AddActorNames(Groups(init, key), a, key);
    }
  }

  /** One filling step adds the actor's name once. */
  lemma AddActorNames(g: seq<Bucket>, a: ActorSummary, key: ActorSummary -> string)
    ensures AllNames(Columns(AddActor(g, a, key))) == AllNames(Columns(g)) + multiset{a.name}
  {
    match FindTag(g, key(a))
    case Some(b) =>
      KeysAppend(g[b].actors, a, key);
      assert Columns(g[b := Bucket(g[b].tag, g[b].actors + [a])]) == Columns(g)[b := Columns(g)[b] + [a.name]];
      AllNamesUpdate(Columns(g), b, a.name);
    case None =>
      var cols := Columns(g + [Bucket(key(a), [a])]);
      assert cols[..|cols| - 1] == Columns(g);
  }

  /** The source raises before printing anything: `max()` of no buckets, or a zero column count. */
  datatype Listing = Raises | Printed(rows: seq<seq<Cell>>, actorList: seq<string>)

  /**
   * `display_threat_actors_by_*`: group the actors, size the table and number
   * its cells. No actors make `max()` raise; a console narrower than 15
   * makes the column count 0 and the division raise.
   */
  method DisplayThreatActors(actors: seq<ActorSummary>, axis: Axis, width: nat) returns (out: Listing)
    ensures actors == [] || width < 15 <==> out.Raises?
    ensures out.Printed? ==>
              var cols := Columns(Groups(actors, KeyOf(axis)));
              var n := CeilDiv(MaxLen(cols), NumColumns(width));
              out.rows == Table(cols, n) && out.actorList == Listed(cols, n)
  {
    if actors == [] || width < 15 {
      return Raises;
    }
    var buckets := GroupActors(actors, axis);
    GroupsNonEmpty(actors, KeyOf(axis));
    var cols := Columns(buckets);
    var maxActors := MaxLen(cols);
    var numColumns := NumColumns(width);
    var numRows := CeilDiv(maxActors, numColumns);
    var rows, actorList := NumberCells(cols, numRows);
    out := Printed(rows, actorList);
  }

  /** A nonempty actor list makes at least one bucket. */
  lemma GroupsNonEmpty(actors: seq<ActorSummary>, key: ActorSummary -> string)
    requires actors != []
    ensures |Groups(actors, key)| > 0
  {
    GroupsTags(actors, key);
    assert Keys(actors, key)[0] in Keys(actors, key);
  }

  // ---------------------------------------------------------------- the row count

  /**
   * As written, the table has one column per bucket but only
   * `ceil(max_actors / num_columns)` rows. On a console 30 or more wide
   * `num_columns` is 2 or more, so once two actors share a tag the longest
   * bucket is cut: its last actors get no number and cannot be selected.
   */
  lemma AsWrittenDropsActors(actors: seq<ActorSummary>, axis: Axis, width: nat, i: nat, j: nat)
    requires width >= 30 && i < j < |actors| && KeyOf(axis)(actors[i]) == KeyOf(axis)(actors[j])
    ensures var cols := Columns(Groups(actors, KeyOf(axis)));
            |Listed(cols, CeilDiv(MaxLen(cols), NumColumns(width)))| < |actors|
  {
    var key := KeyOf(axis);
    var g := Groups(actors, key);
    var cols := Columns(g);
    var t := key(actors[i]);
    GroupsTags(actors, key);
    assert Keys(actors, key)[i] == t;
    assert t in Tags(g);
    var b :| 0 <= b < |g| && Tags(g)[b] == t;
    GroupsBuckets(actors, key);
    HavingTwo(actors, key, t, i, j);
    assert |cols[b]| >= 2;
    var m := MaxLen(cols);
    var n := CeilDiv(m, NumColumns(width));
    CeilDivShrinks(m, NumColumns(width));
    var c :| 0 <= c < |cols| && |cols[c]| == m;
    ShownCountDrops(cols, n, c);
    ListedCount(cols, n);
    GroupsPartition(actors, key);
  }

  /** Two actors from the same region on an 80-column console: only the first gets a number. */
  lemma AsWrittenExample(a1: ActorSummary, a2: ActorSummary)
    requires a1.geoInfo == a2.geoInfo
    ensures var cols := Columns(Groups([a1, a2], GeoOf));
            Listed(cols, CeilDiv(MaxLen(cols), NumColumns(80))) == [a1.name]
  {
    var g1 := Groups([a1], GeoOf);
    assert [a1][..0] == [] && [a1, a2][..1] == [a1];
    assert Groups([], GeoOf) == [];
    assert AddActor([], a1, GeoOf) == [] + [Bucket(a1.geoInfo, [a1])];
    assert g1 == [Bucket(a1.geoInfo, [a1])];
    assert FindTag(g1, a2.geoInfo) == Some(0);
    var g := Groups([a1, a2], GeoOf);
    assert g == [Bucket(a1.geoInfo, [a1] + [a2])];
    var cols := Columns(g);
    assert cols[0] == Names([a1, a2]);
    assert Names([a1, a2]) == [a1.name, a2.name];
    assert cols == [[a1.name, a2.name]];
    assert MaxLen(cols) == 2;
    assert RowNames(cols, 0) == [a1.name] by {
      assert cols[..0] == [];
    }
  }

  /**
   * The listing as evidently intended: `num_rows = max_actors`, so the
   * table has a row for every actor of the longest bucket and every actor
   * gets a number. Only an empty actor list still makes `max()` raise.
   */
  method DisplayThreatActorsCorrected(actors: seq<ActorSummary>, axis: Axis) returns (out: Listing)
    ensures actors == [] <==> out.Raises?
    ensures out.Printed? ==>
              var cols := Columns(Groups(actors, KeyOf(axis)));
              out.rows == Table(cols, MaxLen(cols)) && out.actorList == Listed(cols, MaxLen(cols))
    ensures out.Printed? ==> multiset(out.actorList) == multiset(Names(actors))
  {
    if actors == [] {
      return Raises;
    }
    var buckets := GroupActors(actors, axis);
    GroupsNonEmpty(actors, KeyOf(axis));
    var cols := Columns(buckets);
    var numRows := MaxLen(cols);
    var rows, actorList := NumberCells(cols, numRows);
    ListedContents(cols, numRows);
    ShownAll(cols, numRows);
    GroupsPartition(actors, KeyOf(axis));
    out := Printed(rows, actorList);
  }

  /** Every name listed is the name of one of the grouped actors. */
  lemma ListedNamesAreActors(actors: seq<ActorSummary>, key: ActorSummary -> string, n: nat, name: string)
    ensures name in Listed(Columns(Groups(actors, key)), n) ==> name in Names(actors)
  {
    var cols := Columns(Groups(actors, key));
    ListedContents(cols, n);
    ShownWithin(cols, n);
    GroupsPartition(actors, key);
    assert name in Listed(cols, n) ==> name in multiset(Listed(cols, n));
  }

  /**
   * Whatever number is typed after the listing, a name it selects belongs
   * to an intrusion set of the bundle, so the identifier lookup that follows
   * succeeds, and its result passes `if not actor_id` whenever the bundle's
   * intrusion sets carry identifiers.
   */
  lemma SelectedActorIsFound(objs: seq<StixObject>, axis: Axis, n: nat, k: nat, name: string)
    ensures var cols := Columns(Groups(AllThreatActors(objs), KeyOf(axis)));
            Select(Listed(cols, n), Some(k)) == Some(name) ==>
              GetActorId(objs, name).Some? && (IdsPresent(objs) ==> IdFound(GetActorId(objs, name)))
  {
    var actors := AllThreatActors(objs);
    var listed := Listed(Columns(Groups(actors, KeyOf(axis))), n);
    SelectIs(listed, k, name);
    if 1 <= k <= |listed| && listed[k - 1] == name {
      ListedNamesAreActors(actors, KeyOf(axis), n, name);
      var i :| 0 <= i < |actors| && Names(actors)[i] == name;
      ListedActorsHaveAnId(objs, actors[i]);
    }
  }
}

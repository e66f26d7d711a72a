/**
 * The keyword classifier (`extract_geo_info`, `extract_activity_type`,
 * `extract_target_sector`): a case-insensitive substring test of a free-text
 * description against a fixed, ordered keyword list, where the first keyword in
 * list order wins and a fixed fallback is returned when none matches.
 */
module Classifier {
  import opened Wrappers
  import opened Text

  const GeoKeywords: seq<string> :=
    ["China", "Russia", "Iran", "North Korea", "USA", "Vietnam", "India", "Europe"]
  const ActivityKeywords: seq<string> :=
    ["espionage", "financial", "theft", "sabotage", "ransomware", "malware"]
  const SectorKeywords: seq<string> :=
    ["government", "financial", "healthcare", "technology", "energy", "military"]

  /** The activity and sector axes report a keyword through `str.capitalize()`. */
  const ActivityTags: seq<string> := CapitalizeAll(ActivityKeywords)
  const SectorTags: seq<string> := CapitalizeAll(SectorKeywords)

  const GeoFallback := "Unknown"
  const OtherFallback := "Other"

  /** `keyword.lower() in description.lower()` */
  predicate Mentions(description: string, keyword: string) {
    Contains(Lower(description), Lower(keyword))
  }

  /** `i` is the position of the first keyword, in list order, that the description mentions. */
  predicate IsFirstMention(description: string, keywords: seq<string>, i: int) {
    0 <= i < |keywords| && Mentions(description, keywords[i])
    && forall j :: 0 <= j < i ==> !Mentions(description, keywords[j])
  }

  /** The position of the first keyword mentioned, scanning the list in order. */
  function FirstMention(description: string, keywords: seq<string>): (r: Option<nat>)
    ensures r.Some? ==> IsFirstMention(description, keywords, r.value)
    ensures r.None? <==> forall j :: 0 <= j < |keywords| ==> !Mentions(description, keywords[j])
  {
    if |keywords| == 0 then None
    else if Mentions(description, keywords[0]) then Some(0)
    else match FirstMention(description, keywords[1..])
      case None => None
      case Some(i) => Some(i + 1)
  }

  /**
   * The shared shape of the three classifiers: the tag of the first keyword
   * mentioned, or the fallback when none is mentioned.
   */
  function Classify(description: string, keywords: seq<string>, tags: seq<string>, fallback: string): (r: string)
    requires |tags| == |keywords|
    ensures (exists i :: IsFirstMention(description, keywords, i) && r == tags[i])
         || (r == fallback && forall j :: 0 <= j < |keywords| ==> !Mentions(description, keywords[j]))
  {
    match FirstMention(description, keywords)
    case Some(i) => tags[i]
    case None => fallback
  }

  function CapitalizeAll(ws: seq<string>): seq<string> {
    seq(|ws|, k requires 0 <= k < |ws| => Capitalize(ws[k]))
  }

  /** No fallback is also a tag, so a fallback result always means "no keyword mentioned". */
  lemma FallbacksAreNotTags()
    ensures GeoFallback !in GeoKeywords
    ensures OtherFallback !in ActivityTags && OtherFallback !in SectorTags
  {
    forall k | 0 <= k < |ActivityKeywords|
      ensures ActivityTags[k] != OtherFallback
    {
      assert ActivityTags[k][0] == UpperChar(ActivityKeywords[k][0]) != 'O';
    }
    forall k | 0 <= k < |SectorKeywords|
      ensures SectorTags[k] != OtherFallback
    {
      assert SectorTags[k][0] == UpperChar(SectorKeywords[k][0]) != 'O';
    }
  }

  /** `extract_geo_info`: the first region named, verbatim, else "Unknown". */
  function ExtractGeoInfo(description: string): (r: string)
    ensures r in GeoKeywords || r == GeoFallback
    ensures r == GeoFallback <==> forall j :: 0 <= j < |GeoKeywords| ==> !Mentions(description, GeoKeywords[j])
    ensures r != GeoFallback ==> exists i :: IsFirstMention(description, GeoKeywords, i) && r == GeoKeywords[i]
  {
    FallbacksAreNotTags();
    Classify(description, GeoKeywords, GeoKeywords, GeoFallback)
  }

  /** `extract_activity_type`: the first activity named, capitalised, else "Other". */
  function ExtractActivityType(description: string): (r: string)
    ensures r in ActivityTags || r == OtherFallback
    ensures r == OtherFallback <==> forall j :: 0 <= j < |ActivityKeywords| ==> !Mentions(description, ActivityKeywords[j])
    ensures r != OtherFallback ==> exists i :: IsFirstMention(description, ActivityKeywords, i) && r == ActivityTags[i]
  {
    FallbacksAreNotTags();
    Classify(description, ActivityKeywords, ActivityTags, OtherFallback)
  }

  /** `extract_target_sector`: the first sector named, capitalised, else "Other". */
  function ExtractTargetSector(description: string): (r: string)
    ensures r in SectorTags || r == OtherFallback
    ensures r == OtherFallback <==> forall j :: 0 <= j < |SectorKeywords| ==> !Mentions(description, SectorKeywords[j])
    ensures r != OtherFallback ==> exists i :: IsFirstMention(description, SectorKeywords, i) && r == SectorTags[i]
  {
    FallbacksAreNotTags();
    Classify(description, SectorKeywords, SectorTags, OtherFallback)
  }

  /** A missing description is read as "", which mentions no keyword: every axis falls back. */
  lemma EmptyDescriptionFallsBack()
    ensures ExtractGeoInfo("") == GeoFallback
    ensures ExtractActivityType("") == OtherFallback
    ensures ExtractTargetSector("") == OtherFallback
  {
  }

  /**
   * List position decides, not text position: a description that mentions
   * "espionage" is tagged "Espionage" whatever else it mentions and wherever.
   */
  lemma EspionageOutranksLaterKeywords(description: string)
    requires Mentions(description, "espionage")
    ensures ExtractActivityType(description) == "Espionage"
  {
    assert Mentions(description, ActivityKeywords[0]);
  }

  /** The words of the worked example "State-sponsored group targeting financial institutions in China". */
  const ExampleWords: seq<string> :=
    ["State-sponsored", "group", "targeting", "financial", "institutions", "in", "China"]

  /** The example mentions "China" and "financial" ... */
  lemma ExampleMentions()
    ensures Mentions(Join(ExampleWords, " "), "China")
    ensures Mentions(Join(ExampleWords, " "), "financial")
  {
    LowerJoin(ExampleWords, " ");
    var lowered := LowerAll(ExampleWords);
    assert Lower("China") == "china" == lowered[6];
    assert Lower("financial") == "financial" == lowered[3];
    ContainsPieceOfJoin(lowered, Lower(" "), 6, "china");
    ContainsPieceOfJoin(lowered, Lower(" "), 3, "financial");
  }

  /** No word of the example contains "espionage" or "government". */
  lemma ExampleWordOmissions(k: nat)
    requires k < |ExampleWords|
    ensures !Contains(Lower(ExampleWords[k]), "espionage")
    ensures !Contains(Lower(ExampleWords[k]), "government")
  {
    if k < 4 {
      FirstWordsOmit(k);
    } else {
      LastWordsOmit(k);
    }
  }

  lemma FirstWordsOmit(k: nat)
    requires k < 4
    ensures !Contains(Lower(ExampleWords[k]), "espionage")
    ensures !Contains(Lower(ExampleWords[k]), "government")
  {
    if k == 0 {
      assert Lower(ExampleWords[0]) == "state-sponsored";
      assert !Contains("state-sponsored", "espionage") && !Contains("state-sponsored", "government");
    } else if k == 1 {
      assert Lower(ExampleWords[1]) == "group";
      assert !Contains("group", "espionage") && !Contains("group", "government");
    } else if k == 2 {
      assert Lower(ExampleWords[2]) == "targeting";
      assert !Contains("targeting", "espionage") && !Contains("targeting", "government");
    } else {
      assert Lower(ExampleWords[3]) == "financial";
      assert !Contains("financial", "espionage") && !Contains("financial", "government");
    }
  }

  lemma LastWordsOmit(k: nat)
    requires 4 <= k < |ExampleWords|
    ensures !Contains(Lower(ExampleWords[k]), "espionage")
    ensures !Contains(Lower(ExampleWords[k]), "government")
  {
    if k == 4 {
      assert Lower(ExampleWords[4]) == "institutions";
      assert !Contains("institutions", "espionage") && !Contains("institutions", "government");
    } else if k == 5 {
      assert Lower(ExampleWords[5]) == "in";
      assert !Contains("in", "espionage") && !Contains("in", "government");
    } else {
      assert Lower(ExampleWords[6]) == "china";
      assert !Contains("china", "espionage") && !Contains("china", "government");
    }
  }

  /** ... and neither "espionage" nor "government", the only keywords listed before "financial". */
  lemma ExampleOmissions()
    ensures !Mentions(Join(ExampleWords, " "), "espionage")
    ensures !Mentions(Join(ExampleWords, " "), "government")
  {
    LowerJoin(ExampleWords, " ");
    var lowered := LowerAll(ExampleWords);
    assert Lower(" ") == [' '];
    assert Lower("espionage") == "espionage" && Lower("government") == "government";
    LoweredExampleOmits("espionage");
    LoweredExampleOmits("government");
  }

  lemma LoweredExampleOmits(t: string)
    requires t == "espionage" || t == "government"
    ensures !Contains(Join(LowerAll(ExampleWords), [' ']), t)
  {
    var lowered := LowerAll(ExampleWords);
    if Contains(Join(lowered, [' ']), t) {
      ContainsInJoin(lowered, ' ', t);
      var k :| 0 <= k < |lowered| && Contains(lowered[k], t);
      ExampleWordOmissions(k);
    }
  }

  /**
   * Worked example: the description `ExampleWords` joined by single spaces is
   * tagged China / Financial / Financial.
   */
  lemma WorkedExample()
    ensures ExtractGeoInfo(Join(ExampleWords, " ")) == "China"
    ensures ExtractActivityType(Join(ExampleWords, " ")) == "Financial"
    ensures ExtractTargetSector(Join(ExampleWords, " ")) == "Financial"
  {
    ExampleMentions();
    ExampleOmissions();
    ExampleGeo();
    ExampleFinancial();
  }

  lemma ExampleGeo()
    requires Mentions(Join(ExampleWords, " "), "China")
    ensures ExtractGeoInfo(Join(ExampleWords, " ")) == "China"
  {
    var d := Join(ExampleWords, " ");
    assert IsFirstMention(d, GeoKeywords, 0);
    ClassifyFirst(d, GeoKeywords, GeoKeywords, GeoFallback, 0);
  }

  lemma ExampleFinancial()
    requires Mentions(Join(ExampleWords, " "), "financial")
    requires !Mentions(Join(ExampleWords, " "), "espionage")
    requires !Mentions(Join(ExampleWords, " "), "government")
    ensures ExtractActivityType(Join(ExampleWords, " ")) == "Financial"
    ensures ExtractTargetSector(Join(ExampleWords, " ")) == "Financial"
  {
    var d := Join(ExampleWords, " ");
    assert Capitalize("financial") == "Financial";
    assert IsFirstMention(d, ActivityKeywords, 1);
    ClassifyFirst(d, ActivityKeywords, ActivityTags, OtherFallback, 1);
    assert IsFirstMention(d, SectorKeywords, 1);
    ClassifyFirst(d, SectorKeywords, SectorTags, OtherFallback, 1);
  }

  /** The first keyword mentioned decides the tag. */
  lemma ClassifyFirst(description: string, keywords: seq<string>, tags: seq<string>, fallback: string, i: int)
    requires |tags| == |keywords| && IsFirstMention(description, keywords, i)
    ensures Classify(description, keywords, tags, fallback) == tags[i]
  {
    var f := FirstMention(description, keywords);
    assert f.Some?;
    assert f.value == i;
  }
}

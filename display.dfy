/**
 * The data behind `display_techniques`: one row per technique of the page,
 * numbered on from the page's start, with the technique's description split
 * into lines, bullet lines re-marked and other lines indented.
 */
module Display {
  import opened Wrappers
  import opened Text
  import opened Stix
  import opened Paging

  /** The markup written in place of a line's `*` marker: a green U+2022 bullet. */
  const Bullet: string := "[green]" + [0x2022 as char] + "[/green]"

  /** The bullet markup holds no line break. */
  lemma BulletOneLine()
    ensures '\n' !in Bullet
  {
    assert Bullet == "[green]" + [0x2022 as char] + "[/green]";
    assert forall k :: 0 <= k < |Bullet| ==> Bullet[k] != '\n';
  }

  /** The indentation of a line that is not a bullet line. */
  const Indent: string := "    "

  predicate IsBulletLine(line: string) {
    var s := Strip(line);
    |s| > 0 && s[0] == '*'
  }

  /** A stripped line that is not empty came from a line that is not empty. */
  lemma StripNonEmpty(line: string)
    ensures |Strip(line)| > 0 ==> |line| > 0
  {
    if |Strip(line)| > 0 {
      assert Strip(line)[0] in Strip(line);
    }
  }

  /**
   * The line rule of `display_techniques`: a line whose stripped form starts
   * with `*` becomes the bullet followed by `line[1:].strip()` (the line with
   * its FIRST character dropped, whatever that character is), and any other
   * line is indented.
   */
  function FormatLine(line: string): string
  {
    StripNonEmpty(line);
    if IsBulletLine(line) then Bullet + Strip(line[1..]) else Indent + line
  }

  /**
   * The line rule as evidently intended: a bullet line loses its `*` marker
   * wherever the marker stands, and any other line is indented.
   */
  function FormatLineIntended(line: string): string
  {
    if IsBulletLine(line) then Bullet + Strip(Strip(line)[1..]) else Indent + line
  }

  /** Stripping a stripped line changes nothing. */
  lemma StripIdempotent(s: string)
    ensures Strip(Strip(s)) == Strip(s)
  {
    var r := Strip(s);
    if |r| > 0 {
      assert StripLeft(r) == r;
      assert StripRight(r) == r;
    } else {
      assert StripLeft(r) == r;
    }
  }

  /** Only spaces are stripped: what is left of an indented line equals what is left of the line without its first space. */
  lemma StripDropsLeadingSpace(line: string)
    requires |line| > 0 && IsSpace(line[0])
    ensures Strip(line[1..]) == Strip(line)
  {
  }

  /**
   * An indented bullet line keeps its marker: the first character dropped
   * is a space, so the bullet is followed by the whole stripped line, `*`
   * included.
   */
  lemma AsWrittenKeepsIndentedMarker(line: string)
    requires |line| > 0 && IsSpace(line[0]) && IsBulletLine(line)
    ensures FormatLine(line) == Bullet + Strip(line)
    ensures FormatLine(line)[|Bullet|] == '*'
  {
    StripDropsLeadingSpace(line);
  }

  /** The indented bullet line `"  * item"` shows `* item` after the bullet, and `item` under the intended rule. */
  lemma IndentedBulletExample()
    ensures FormatLine("  * item") == Bullet + "* item"
    ensures FormatLineIntended("  * item") == Bullet + "item"
  {
    ExampleStrip();
    AsWrittenKeepsIndentedMarker("  * item");
    assert "* item"[1..] == " item";
    ExampleStripRest();
  }

  lemma ExampleStrip()
    ensures Strip("  * item") == "* item"
  {
    assert IsSpace(' ') && !IsSpace('*') && !IsSpace('m');
    assert StripLeft("* item") == "* item";
    assert StripLeft(" * item") == "* item" by {
      assert " * item"[1..] == "* item";
    }
    assert StripLeft("  * item") == "* item" by {
      assert "  * item"[1..] == " * item";
    }
    assert StripRight("* item") == "* item";
  }

  lemma ExampleStripRest()
    ensures Strip(" item") == "item"
  {
    assert IsSpace(' ') && !IsSpace('i') && !IsSpace('m');
    assert " item"[1..] == "item";
    assert StripLeft(" item") == "item";
    assert StripRight("item") == "item";
  }

  /** Under the intended rule indentation does not matter: a bullet line and its stripped form look the same once formatted. */
  lemma IntendedIgnoresIndentOfBullets(line: string)
    requires IsBulletLine(line)
    ensures FormatLineIntended(line) == FormatLineIntended(Strip(line))
  {
    StripIdempotent(line);
  }

  /**
   * The intended rule is the source's rule applied to the stripped line: the
   * character dropped is then the `*` marker itself, the rest of the line
   * is kept, and the result is shorter than the bullet and the stripped line.
   */
  lemma FormatLineDropsMarker(line: string)
    requires IsBulletLine(line)
    ensures FormatLineIntended(line) == FormatLine(Strip(line))
    ensures |FormatLineIntended(line)| < |Bullet| + |Strip(line)|
  {
    StripIdempotent(line);
  }

  /** When the marker is the line's first character, the source's rule and the intended one agree. */
  lemma RulesAgreeWhenMarkerFirst(line: string)
    requires |line| > 0 && line[0] == '*'
    ensures FormatLineIntended(line) == FormatLine(line)
  {
    var a, b := StripBounds(line);
    assert !IsSpace(line[0]);
    assert a == 0 && b >= 1;
    assert Strip(line)[0] == '*';
    var rest := line[1..];
    assert Strip(line)[1..] == rest[..b - 1];
    StripTrailingSpace(rest, b - 1);
  }

  /** Formatting a line never adds a line break. */
  lemma FormatLineOneLine(line: string)
    requires '\n' !in line
    ensures '\n' !in FormatLine(line)
  {
    StripNonEmpty(line);
    if IsBulletLine(line) {
      var rest := line[1..];
      assert '\n' !in rest by {
        assert forall c :: c in rest ==> c in line;
      }
      var s := Strip(rest);
      assert '\n' !in s;
      BulletOneLine();
      assert FormatLine(line) == Bullet + s;
    } else {
      assert FormatLine(line) == Indent + line;
    }
  }

  /** Each line of a description, formatted by the source's rule. */
  function FormatLines(lines: seq<string>): (r: seq<string>)
    ensures |r| == |lines|
    ensures forall k :: 0 <= k < |lines| ==> r[k] == FormatLine(lines[k])
  {
    seq(|lines|, k requires 0 <= k < |lines| => FormatLine(lines[k]))
  }

  /** `technique.get('description', 'N/A').split('\n')` */
  function DescriptionLines(description: Option<string>): seq<string> {
    Split(description.GetOr("N/A"), '\n')
  }

  /** The formatted description: each line formatted, joined again with "\n". */
  function FormattedDescription(description: Option<string>): string {
    Join(FormatLines(DescriptionLines(description)), "\n")
  }

  /** The inner loop of `display_techniques` over one description's lines. */
  method FormatDescription(description: Option<string>) returns (formatted: string)
    ensures formatted == FormattedDescription(description)
  {
    var lines := DescriptionLines(description);
    var formattedLines := FormatEach(lines);
    formatted := Join(formattedLines, "\n");
  }

  /** The loop body of `display_techniques` applied to each line in turn. */
  method FormatEach(lines: seq<string>) returns (formattedLines: seq<string>)
    ensures formattedLines == FormatLines(lines)
  {
    formattedLines := [];
    for k := 0 to |lines|
      invariant |formattedLines| == k
      invariant forall j :: 0 <= j < k ==> formattedLines[j] == FormatLine(lines[j])
    {
      var line := FormatLine(lines[k]);
      formattedLines := formattedLines + [line];
    }
    FormatLinesPointwise(lines, formattedLines);
  }

  /** A sequence holding the formatted form of each line, in order, is `FormatLines` of the lines. */
  lemma FormatLinesPointwise(lines: seq<string>, out: seq<string>)
    requires |out| == |lines|
    requires forall j :: 0 <= j < |lines| ==> out[j] == FormatLine(lines[j])
    ensures out == FormatLines(lines)
  {
  }

  /**
   * Formatting keeps the line structure: splitting the formatted description
   * at its line breaks gives back one formatted line per original line, in
   * order, so the line count is preserved.
   */
  lemma FormattedDescriptionLines(description: Option<string>)
    ensures Split(FormattedDescription(description), '\n') == FormatLines(DescriptionLines(description))
    ensures |Split(FormattedDescription(description), '\n')| == |DescriptionLines(description)|
  {
    var lines := DescriptionLines(description);
    var out := FormatLines(lines);
    forall k | 0 <= k < |out|
      ensures '\n' !in out[k]
    {
      FormatLineOneLine(lines[k]);
    }
    SplitJoin(out, '\n');
  }

  // ---------------------------------------------------------------- rows

  /** One table row: number, name, platform, kill-chain phase and formatted description. */
  datatype Row = Row(number: nat, name: string, platform: string, killChain: string, description: string)

  /** The row for a technique shown under `number`; the enriched keys default to "N/A". */
  function RowOf(t: StixObject, number: nat): Row {
    Row(number, t.name, t.enrichedPlatforms.GetOr("N/A"), t.enrichedKillChain.GetOr("N/A"),
        FormattedDescription(t.description))
  }

  /** The loop of `display_techniques`: `enumerate(techniques, start=start_index)`. */
  method DisplayTechniques(techniques: seq<StixObject>, startIndex: nat) returns (rows: seq<Row>)
    ensures |rows| == |techniques|
    ensures forall k :: 0 <= k < |rows| ==> rows[k] == RowOf(techniques[k], startIndex + k)
  {
    rows := [];
    for k := 0 to |techniques|
      invariant |rows| == k
      invariant forall j :: 0 <= j < k ==> rows[j] == RowOf(techniques[j], startIndex + j)
    {
      var t := techniques[k];
      var description := FormatDescription(t.description);
      rows := rows + [Row(startIndex + k, t.name, t.enrichedPlatforms.GetOr("N/A"),
                          t.enrichedKillChain.GetOr("N/A"), description)];
    }
  }

  /**
   * On page `page` the pager passes `start_index + 1` as the first number:
   * the row numbered `i` shows technique `i` of the whole list (counting
   * from 1), so the numbers across pages run 1, 2, 3, ... without a gap.
   */
  lemma PageRowNumbers(xs: seq<StixObject>, page: nat, k: nat)
    requires page >= 1 && k < |Page(xs, page)|
    ensures var number := PageStart(page) + 1 + k;
            1 <= number <= |xs| && RowOf(Page(xs, page)[k], number) == RowOf(xs[number - 1], number)
  {
  }
}

# Threat Scope data core in Dafny

Threat Scope is a terminal browser over the MITRE ATT&CK STIX 2 bundle. It
lists threat actors (STIX `intrusion-set` objects) grouped by region,
activity or sector, lets the user pick one by number and pages through the
attack patterns the actor uses. It also lists tools, the techniques and
actors related to a tool, and groups those techniques under kill-chain
headers. The three scripts `super.py`, `cti-ta.py` and `cti-tech.py` repeat
the same functions line for line. This project models that shared data
logic once:

- the keyword classifiers;
- the actor catalogue and the lookup by name;
- the relationship resolver, which enriches technique objects in place;
- the tool table;
- the grouping and numbering engine that yields `actor_list`;
- the technique pager and the numeric selection;
- the description bullet rule;
- the kill-chain header runs.

The bundle is an already-parsed sequence of `StixObject` records. Each
optional STIX property is an `Option`. An identifier's type test is the
substring test on `<type>--<uuid>` that the source uses. Modules follow the
program's components:

| module | file | what it holds |
|---|---|---|
| `Wrappers` | wrappers.dfy | `Option` |
| `Text` | text.dfy | ASCII `lower`/`capitalize`, Python's substring `in`, `join`/`split`, `strip`, newline replacement, string order |
| `Seqs` | seqs.dfy | first-seen order, first index, key filter |
| `Sorting` | sorting.dfy | stable sort by a string key (Python's `sorted(..., key=...)`) |
| `Stix` | stix.dfy | object record, first-match lookup, derived strings |
| `Classifier` | classifier.dfy | `extract_geo_info`, `extract_activity_type`, `extract_target_sector` |
| `Catalogue` | catalogue.dfy | `get_all_threat_actors`, `get_actor_id` |
| `Resolver` | resolver.dfy | `get_techniques_for_actor` (class `Bundle`), `get_techniques_for_tool`, `get_actors_for_tool` |
| `Tools` | tools.dfy | `load_tools`, tool selection, kill-chain header runs |
| `Numbering` | numbering.dfy | the row-by-row numbering scan and `actor_list` |
| `Grouping` | grouping.dfy | bucket filling and `display_threat_actors_by_*` |
| `Paging` | paging.dfy | page slices, the pager state machine, numeric selection |
| `Display` | display.dfy | the rows of `display_techniques` and the bullet rule |

Where the source crashes, the model returns an error value instead of
requiring the case away. `max()` of no buckets and `// 15` of a narrow
console make `display_threat_actors_by_*` raise; this is `Listing.Raises`.
`int()` of a non-number raises `ValueError`; the selection functions receive
`None` for that.

On the last page of the pager, Enter leaves the pager although the prompt
says "Press Enter to start over". The model follows the code.

## Model

| member | source | states |
|---|---|---|
| Classifier.FirstMention | super.py:52-56 | the result is the position of the first keyword, in list order, that the lowered description contains; `None` exactly when no keyword is mentioned |
| Classifier.Classify | super.py:52-71 | the result is the tag of the first mentioned keyword, or the fallback with no keyword mentioned |
| Classifier.ExtractGeoInfo | super.py:52-57 | the region is a geography keyword or "Unknown"; "Unknown" exactly when no keyword is mentioned; otherwise it is the first keyword mentioned, verbatim |
| Classifier.ExtractActivityType | super.py:59-64 | the activity is a capitalised activity keyword or "Other"; "Other" exactly when none is mentioned; otherwise it is the first one mentioned |
| Classifier.ExtractTargetSector | super.py:66-71 | the sector is a capitalised sector keyword or "Other"; "Other" exactly when none is mentioned; otherwise it is the first one mentioned |
| Classifier.FallbacksAreNotTags | super.py:52-71 | no fallback is also a tag, so a fallback always means that nothing matched |
| Classifier.ClassifyFirst | super.py:54-56 | the first keyword mentioned decides the tag, whatever later keywords the text mentions |
| Classifier.EmptyDescriptionFallsBack | super.py:40-43 | the empty description (a missing one) gets the fallback on all three axes |
| Classifier.EspionageOutranksLaterKeywords | cti-ta.py:55-60 | a description that mentions "espionage" is tagged "Espionage" wherever the word stands and whatever else is mentioned |
| Classifier.WorkedExample | cti-ta.py:48-67 | "State-sponsored group targeting financial institutions in China" is tagged China / Financial / Financial |
| Classifier.ExampleMentions | cti-ta.py:48-53 | the example mentions "China" and "financial" |
| Classifier.ExampleOmissions | cti-ta.py:55-67 | the example mentions neither "espionage" nor "government" |
| Catalogue.IntrusionSetsMembers | super.py:38-39 | an object is summarised exactly when it is an `intrusion-set` of the bundle |
| Catalogue.AllThreatActorsSorted | super.py:36-50 | one summary per intrusion set, as a permutation, sorted by name, with actors that share a name kept in bundle order |
| Catalogue.ListedActorsComeFromTheBundle | super.py:36-50 | every listed actor is the summary of an intrusion set of the bundle |
| Catalogue.UndescribedActorFallsBack | super.py:40 | an intrusion set without a description is tagged Unknown / Other / Other |
| Catalogue.GetActorId | super.py:73-77 | the result is the id of the first intrusion set whose name equals the given one ignoring case; `None` exactly when there is none |
| Catalogue.GetActorIdIgnoresCase | super.py:75 | looking up a name or its lower-case form gives the same answer |
| Catalogue.ListedActorsHaveAnId | super.py:443-446 | every name in the catalogue is found by the lookup; when the bundle's intrusion sets carry non-empty identifiers, the result also passes `if not actor_id`, so "Could not find the selected actor" is not printed for it |
| Catalogue.FoundIdIsPresent | super.py:445 | when every intrusion set carries a non-empty identifier, any identifier the lookup returns passes `if not actor_id` |
| Catalogue.EmptyIdReadsAsMissing | super.py:443-446 | an intrusion set with an empty identifier is matched, yet `if not actor_id` treats the result as missing |
| Stix.FindFirst | super.py:84 | the position found holds an object of that type and id, and no earlier one does; `None` exactly when no object matches |
| Stix.FindFirstReadsTypeAndId | super.py:84 | the lookup depends only on types and ids, so enriching objects does not change what it finds |
| Stix.DerivedStringCases | super.py:86-87 | an absent platform list gives "N/A", an empty one "", one platform itself and more platforms joined with ", "; absent or empty phases give "" and one phase its name |
| Stix.Enrich | super.py:86-87 | enriching writes the two derived keys and keeps every other property |
| Stix.EnrichIdempotent | super.py:86-87 | enriching twice is enriching once |
| Stix.EnrichWritesDerivedStrings | super.py:86-87 | the two keys written are the platform join (or "N/A") and the phase-name join (or "") |
| Stix.Describe | super.py:238-239 | with a one-line id the description of a tool entry has no line break |
| Stix.DescribeShape | cti-tech.py:47-48 | each line break of the description becomes one space, the length is kept, and " (ID: id)" follows |
| Resolver.RelatedIndexes | super.py:81-85 | every position found holds an object of the far type |
| Resolver.RelatedIndexesAtMostEdges | super.py:81-85 | each matching relationship yields at most one entry |
| Resolver.RelatedIndexesConcat | super.py:81 | the scan visits the bundle in order: scanning two parts in turn concatenates their results |
| Resolver.RelatedIndexesMembers | super.py:81-88 | a position is listed exactly when some matching relationship resolves to it; dangling references give nothing |
| Resolver.RelatedIndexesComplete | super.py:81-88 | when every matching relationship resolves, there is one entry per relationship, duplicates included |
| Resolver.ActorTechniqueIsResolvedTarget | cti-ta.py:75-85 | every returned technique is the enriched attack pattern that one of the actor's relationships points at |
| Resolver.ResolvedTargetIsActorTechnique | cti-ta.py:75-85 | every attack pattern that one of the actor's relationships resolves to is returned, enriched |
| Resolver.Bundle.TechniquesForActor | super.py:79-89 | the method returns the enriched targets in relationship order, and the bundle afterwards has exactly those objects enriched in place |
| Resolver.ScanStep | super.py:81-84 | one more relationship scanned adds the position it resolves to, if any |
| Resolver.EnrichAtStep | super.py:86-88 | enriching one more object extends the enriched bundle and the result by that object |
| Resolver.TechniquesForToolSorted | super.py:229-246 | the tool's techniques are a permutation of one entry per resolving relationship, sorted by kill chain, stable in relationship order |
| Resolver.ActorsForTool | super.py:248-261 | at most one actor per matching relationship |
| Resolver.ToolActorIsResolvedSource | cti-tech.py:57-70 | every listed actor is an intrusion set that a relationship to the tool names, shown with its name and description |
| Resolver.ResolvedSourceIsToolActor | cti-tech.py:57-70 | every intrusion set that a relationship to the tool resolves to is listed |
| Tools.Put | super.py:226 | a new id goes last; an existing id keeps its position; either way it now maps to the new entry and other keys keep theirs |
| Tools.LoadTools | super.py:222-227 | the table keeps its keys distinct and in step with the dict |
| Tools.LoadToolsLoop | cti-tech.py:31-36 | the dict-filling loop yields the table `LoadTools` describes |
| Tools.LoadToolsKeys | cti-tech.py:31-36 | the keys are the tool ids in first-seen order |
| Tools.LoadToolsHas | cti-tech.py:33-35 | an id is a key exactly when some tool object has it |
| Tools.LoadToolsLastWins | cti-tech.py:33-35 | the entry of an id is built from the last tool object with that id |
| Tools.UndescribedToolFallsBack | cti-tech.py:35 | a tool without a description gets "No description available" |
| Tools.ToolNames | super.py:486 | the menu lists one name per tool key |
| Tools.SelectToolAligned | cti-tech.py:151-162 | a choice is accepted exactly when 1 <= n <= number of tools; it selects key n-1 with its own name and description |
| Tools.EveryToolSelectable | cti-tech.py:151-162 | every tool of the bundle can be selected by some number |
| Tools.EmitHeaders | cti-tech.py:112-117 | the loop with `current_kill_chain` emits exactly the heads of the runs of equal kill chains |
| Tools.HeadsStep | cti-tech.py:114-116 | one more technique adds a header exactly when its kill chain differs from the previous one |
| Tools.HeadsMembers | cti-tech.py:112-117 | a kill chain gets a header exactly when some technique has it |
| Tools.HeadsOfAscending | cti-tech.py:112-117 | on an ascending list the headers are strictly ascending, so no kill chain gets two |
| Tools.SortedKillChains | super.py:246 | the kill chains of a list sorted by kill chain are ascending |
| Tools.KillChainsMembers | cti-tech.py:112-117 | the kill chains listed are those of the techniques |
| Tools.ToolHeaders | super.py:296-301 | for a tool, the headers are strictly ascending, one per distinct kill chain of its techniques |
| Numbering.MaxLen | super.py:138 | `max_actors` is the length of some bucket and no bucket is longer |
| Numbering.NumColumns | super.py:139 | `num_columns` is 6 or `width // 15`, whichever is smaller, so it lies between 1 and 6 for a width of 15 or more, and is at least 2 from width 30 |
| Numbering.CeilDivIsCeiling | super.py:140 | `num_rows` is the least count of rows of `num_columns` that holds `max_actors` |
| Numbering.CeilDivShrinks | super.py:140 | with two or more columns and a bucket of two or more, `num_rows` is below `max_actors` |
| Numbering.RowCells | super.py:144-150 | a row has one cell per bucket, blank exactly when the bucket is shorter than the row index, otherwise numbered with that member's name |
| Numbering.RowStep | super.py:144-150 | the numbers of a row continue from the names listed before it |
| Numbering.FillRow | super.py:142-151 | the inner loop yields that row's cells and the names appended to `actor_list` |
| Numbering.NumberCells | super.py:142-151 | the nested loops yield the whole table and `actor_list` |
| Numbering.TableNumbering | super.py:135-151 | read row by row and left to right, the numbered cells carry 1, 2, 3, ... with the names of `actor_list` in order; blank cells take no number |
| Numbering.ListedEntryIsShown | super.py:145-147 | entry k of `actor_list` is the name shown beside number k+1 |
| Numbering.SelectionMatchesCell | super.py:436-439 | typing k selects a name exactly when the table shows that name beside k |
| Numbering.ListedContents | super.py:142-151 | `actor_list` holds, from each bucket, exactly its first `num_rows` members |
| Numbering.ListedCount | super.py:142-151 | the length of `actor_list` is the sum over buckets of min(bucket length, `num_rows`) |
| Numbering.ShownAll | super.py:142-151 | with `num_rows` at least the longest bucket, every member is listed |
| Numbering.ShownCountDrops | super.py:142-151 | with `num_rows` below the longest bucket, fewer names are listed than the buckets hold |
| Numbering.ShownWithin | super.py:142-151 | every listed name is a member of some bucket |
| Grouping.FindTag | super.py:127 | `tag in groups` finds the bucket with that tag, or reports that there is none |
| Grouping.AddActor | super.py:126-129 | one filling step either keeps the bucket tags or adds the actor's tag as a new last bucket |
| Grouping.GroupActors | super.py:124-129 | the filling loop yields the buckets `Groups` describes |
| Grouping.GroupsTags | super.py:123-129 | buckets come in the order their tag first occurs, one per distinct tag |
| Grouping.GroupsBuckets | super.py:123-129 | each bucket holds exactly the actors with its tag, in list order, and none is empty |
| Grouping.GroupsPartition | super.py:123-129 | together the buckets hold every actor's name once |
| Grouping.GroupsNonEmpty | super.py:138 | a non-empty actor list gives at least one bucket |
| Grouping.DisplayThreatActors | super.py:123-154 | raises exactly on an empty actor list or a width under 15; otherwise returns the table and `actor_list` of the numbering scan with `num_rows = ceil(max_actors / num_columns)` |
| Grouping.AsWrittenDropsActors | super.py:138-148 | at width 30 or more, two actors sharing a tag make `actor_list` shorter than the actor list |
| Grouping.AsWrittenExample | super.py:138-148 | two actors of one region at width 80 yield an `actor_list` of the first name only |
| Grouping.DisplayThreatActorsCorrected | super.py:123-154 | with one row per member of the longest bucket, `actor_list` is a permutation of all the actors' names |
| Grouping.ListedNamesAreActors | super.py:142-151 | every listed name is the name of an actor |
| Grouping.SelectedActorIsFound | super.py:435-446 | a name picked by number from `actor_list` is always found by `get_actor_id`, and passes `if not actor_id` when the bundle's intrusion sets carry non-empty identifiers |
| Paging.TotalPages | super.py:455 | `total_pages` is the fewest pages of 5 that hold all techniques, and is 0 only for none |
| Paging.Slice | super.py:461 | a Python slice with bounds clamped to the length |
| Paging.Page | super.py:459-461 | page p shows techniques (p-1)*5 onwards, at most 5 of them, and is non-empty up to `total_pages` |
| Paging.PagesPrefix | super.py:459-461 | the first c pages are the first 5c techniques, or all of them |
| Paging.PagesCoverAll | super.py:454-463 | pages 1 to `total_pages` in turn show the whole list once, in order: no gap and no overlap |
| Paging.Navigate | super.py:465-482 | a move always lands on a page between 1 and `total_pages` |
| Paging.NavigateCases | super.py:465-482 | Enter moves forward except on the last page, where it leaves; 'p' moves back except on page 1; 'q' leaves; anything else keeps the page |
| Paging.NavigateIgnoresCase | cti-ta.py:335-343 | the token is lower-cased first, so 'P' and 'Q' act as 'p' and 'q' |
| Paging.Trace | cti-ta.py:327-351 | the pages shown start at the current one, and at most one more page is shown per token read |
| Paging.TraceInRange | cti-ta.py:327-351 | every page shown is between 1 and `total_pages` |
| Paging.TraceSteps | cti-ta.py:327-351 | consecutive pages shown differ by at most one |
| Paging.Pager | super.py:449-482 | no pager for no techniques; otherwise the loop shows exactly the pages `Trace` lists, starting from page 1 |
| Paging.Select | cti-ta.py:304-311 | a number is accepted exactly when 1 <= n <= length; it picks entry n-1 |
| Paging.SelectIs | super.py:436-439 | typing k selects x exactly when x is entry k, counting from 1 |
| Display.FormatLines | cti-ta.py:102-106 | each line is formatted on its own, in order, by the source's rule (`line[1:].strip()` after the bullet) |
| Display.FormatEach | cti-ta.py:102-106 | the loop over a description's lines yields `FormatLines` of them, the source's rule applied to each line |
| Display.FormatDescription | cti-ta.py:100-107 | the description, default "N/A", is split at "\n", each line is formatted by the source's rule and the lines are joined with "\n" |
| Display.FormattedDescriptionLines | cti-ta.py:100-107 | splitting the formatted description gives one formatted line per original line, so the source's formatting keeps the line count |
| Display.FormatLineOneLine | cti-ta.py:103-106 | the source's rule never adds a line break: every character after the bullet comes from the line |
| Display.IntendedIgnoresIndentOfBullets | cti-ta.py:103-104 | corrected rule: a bullet line and its stripped form are formatted alike |
| Display.FormatLineDropsMarker | cti-ta.py:103-104 | corrected rule: it is the source's rule applied to the stripped line, so exactly the `*` marker is dropped and the rest of the line is kept; the result is shorter than the bullet and the stripped line |
| Display.RulesAgreeWhenMarkerFirst | cti-ta.py:103-104 | when the `*` is the line's first character, the source's rule and the corrected one give the same text |
| Display.AsWrittenKeepsIndentedMarker | cti-ta.py:103-104 | under the source's rule an indented bullet line keeps its `*` after the bullet |
| Display.IndentedBulletExample | cti-ta.py:103-104 | "  * item" shows "* item" after the bullet under the source's rule, and "item" under the corrected one |
| Display.DisplayTechniques | cti-ta.py:99-117 | row k shows technique k numbered `start_index + k`, with the enriched platform and kill chain (or "N/A") and the description formatted by the source's rule |
| Display.PageRowNumbers | super.py:459-463 | on page p the row numbered i shows technique i of the whole list, so numbers run on across pages |
| Text.ContainsIffOccurs | super.py:55 | Python's substring `in` holds exactly when the keyword occurs at some position |
| Text.JoinSplit | cti-ta.py:100-107 | splitting a text at a separator and joining the pieces with it gives the text back |
| Text.SplitJoin | cti-ta.py:100-107 | joining lines with a separator and splitting at it gives the lines back, provided no line holds the separator |
| Text.Strip | cti-ta.py:103 | `strip()` keeps a slice of the line with only whitespace outside it, and the slice neither starts nor ends with whitespace |
| Text.StripUnique | cti-ta.py:103 | that slice is unique: any slice with only whitespace outside it and no whitespace at its ends is what `strip()` keeps |
| Text.StripTrailingSpace | cti-ta.py:104 | whitespace at the end of a line does not change what `strip()` keeps |
| Text.ReplaceNewlines | super.py:238 | each line break becomes one space and nothing else changes |
| Sorting.SortBy | super.py:50 | the sort keeps the elements as a permutation and orders them by key |
| Sorting.SortByStable | super.py:50 | elements with equal keys keep their order |
| Seqs.FirstSeenOrder | super.py:124-129 | first-seen order lists the values in the order of their first occurrence in the input |

## Left out

- The object record's `name`, `source_ref` and `target_ref` are plain strings that are always present. The source raises on a relationship without `target_ref` (super.py:82) and on a technique without `name` (super.py:115). STIX 2.1 requires these properties, so the model does not include those crashes.
- ListedActorsHaveAnId: the `if not actor_id` test is shown to pass only for bundles whose intrusion sets carry non-empty identifiers. An empty identifier is read as missing (`Catalogue.EmptyIdReadsAsMissing`).
- The display pipeline (`Display.FormatLines` up to `Display.DisplayTechniques`) follows the source's bullet rule. The corrected rule `Display.FormatLineIntended` appears only in the lemmas of the second finding.
- The network fetch of the bundle and JSON decoding are I/O. The model starts from the parsed object list.
- All rendering is presentation through a foreign library: `Table`, `Panel`, `Text`, styles, `console.print`, `clear_screen`, `slow_print`, the title art and `create_header`. The model keeps only the data these show: cells, `actor_list`, rows and header runs.
- `format_description` (super.py:263-279, cti-tech.py:72-95) is a regular-expression split into styled rich text. It is presentation, and it is not part of this model.
- The `inquirer` menus, the top-level menu loops and `display_tools_in_columns` are interactive I/O. The menu choice becomes the `Axis` parameter.
- The terminal width is a parameter of `Grouping.DisplayThreatActors`.
- The pager's input is a finite list of tokens. Running out of tokens ends the trace.
- Paging.Select: `int()` parsing is not modelled. The selection receives `None` where `int()` raises, and otherwise the integer it returns.
- Text.Lower: only ASCII letters are lowered. Python's Unicode `str.lower()` maps more characters.
- The "Press Enter to see another tool or 'q'" loop (super.py:502-504) is interactive I/O. cti-tech.py's self-recursive `main()` is the same kind of loop. The selection step they repeat is `Tools.SelectTool`.
- The source enriches the shared technique dicts in place, so any later holder of the same dict sees the new keys. The model keeps the enriched list in the `Bundle` object. It does not model other aliases of those dicts.

## Findings

| source | as written | input that shows it | evidently intended | confidence | as-written member | corrected member |
|---|---|---|---|---|---|---|
| super.py:138-148 | the number of rows is the longest bucket divided by `num_columns`, rounded up, but the table has one column per bucket; members below the last row are never shown or numbered | two actors with the same `geo_info` at a console width of 80: `num_columns` = 5, `num_rows` = 1, `actor_list` = [first actor's name] | every actor is shown and numbered once: one row per member of the longest bucket | not executed | Grouping.AsWrittenDropsActors | Grouping.DisplayThreatActorsCorrected |
| cti-ta.py:103-104 | a bullet line is recognised on its stripped form, but its marker is removed by dropping the first character of the unstripped line | the line "  * item" is shown as the bullet followed by "* item" | the `*` marker is removed wherever it stands: the bullet followed by "item" | not executed | Display.AsWrittenKeepsIndentedMarker | Display.FormatLineDropsMarker |

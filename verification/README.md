# MAI adjudication core, modelled in Dafny

MAI ("Multi-document Adjudication Interface") shows several annotators' versions of one
text side by side and lets an adjudicator build a gold-standard file, `goldStandard.xml`,
out of them. Annotations are *extent* tags, which cover one or more character spans, and
*link* tags, which join two extents. A DTD fixes the tag types and their attributes.

This project models the part of MAI that decides what is stored and what is shown.

- **`AdjudDB`** (`adjud_db.dfy`, `adjud_tables.dfy`, `overlaps.dfy`, `link_queries.dfy`,
  `tag_output.dfy`). The annotation store is a class whose SQLite tables are sequences of rows:
  - `extents`, a per-character location index;
  - `links`;
  - `extent_overlaps`, the gold tags each annotator's tag overlaps;
  - one attribute table per tag type.

  It covers adding tags, cascade deletes, the location queries, the overlap scan, the
  gold-standard link promotion, and the text written out for a tag.
- **`AdjudicationTask`** (`adjudication_task.dfy`): the id counters and `getNextID`,
  adding one tag, the schema hash, and the query wrappers.
- **`MaiMain`** (`mai_main.dfy`, `spans.dfy`): its state apart from the GUI.
  - `parseSpansString` and `spansToString`;
  - the selection list and how the caret and undo change it;
  - the per-offset colour rule and the per-file colours;
  - renaming a file on load;
  - writing a table row to the gold standard;
  - deleting gold-standard rows with their links.
- **The schema** (`schema.dfy`): `Attrib`, `Elem`/`ElemExtent` and `DTD`.
- **`DTDLoader`** (`dtd_loader.dfy`): processing one declaration string at a time.
- **`XMLHandler`** (`xml_handler.dfy`): the SAX callback state and the legacy
  `start`/`end` to `spans` conversion.
- **`HashCollection`** (`hash_collection.dfy`): the multi-map used for query results.
- **Java's library:** `java_strings.dfy` models the parts of `String` and `Integer` the code
  relies on (`split`, `trim`, `equalsIgnoreCase`, `toString`, `parseInt`). `common.dfy` holds
  the exception kinds and small sequence helpers.

## Conventions of the model

**SQL.** A query result is the table filtered in insertion order, and `select distinct` keeps
each value's first occurrence.

**Exceptions.** A thrown exception is a `Result.Fail` carrying its Java kind. Where the code
catches an exception and prints it, the model goes on the way the code does.

**Java's `int`.** Offsets are `Int32`; unbounded `int` is used only where no arithmetic could
overflow.

**Nested tables.** A `Hashtable` whose key order the code never relies on is a `map`.
Enumerations of such a map are written so that no contract depends on the order.

**Id counters.** `AttID` is not part of this model. Its counter is assumed to print as the
prefix followed by the decimal counter, and `incrementNumber` is assumed to add one.

## Model

| member | source | states |
|---|---|---|
| Collections.HashCollection.constructor | src/mai/HashCollection.java:40-42 | a new collection holds no keys |
| Collections.HashCollection.FromTable | src/mai/HashCollection.java:44-46 | the collection adopts the given table unchanged |
| Collections.HashCollection.PutEnt | src/mai/HashCollection.java:56-66 | the value is appended to the key's list, or starts a one-element list; other keys keep their lists; duplicates are kept |
| Collections.HashCollection.PutList | src/mai/HashCollection.java:139-143 | the list's elements are appended to the key's list in order, nothing else changes |
| Collections.HashCollection.PutAll | src/mai/HashCollection.java:128-137 | every key's list becomes its old list followed by the other collection's list for it; the keys are the old ones plus the other's non-empty ones |
| Collections.HashCollection.GetList | src/mai/HashCollection.java:145-151 | the list under the key, and null exactly when containsKey is false |
| Collections.HashCollection.Remove | src/mai/HashCollection.java:157-159 | returns the key's old list (null if absent); afterwards containsKey is false and the other keys are kept |
| Collections.HashCollection.Clear | src/mai/HashCollection.java:161-166 | afterwards the table is empty and size() is 0 |
| Collections.HashCollection.ContainsKey | src/mai/HashCollection.java:168-170 | a key that is present makes the collection non-empty |
| Collections.HashCollection.Size | src/mai/HashCollection.java:153-155 | size() is 0 exactly when containsKey is false for every key |
| Collections.HashCollection.GetKeyList | src/mai/HashCollection.java:103-109 | each key exactly once, nothing else, and as many entries as size() |
| Collections.HashCollection.GetValueHash | src/mai/HashCollection.java:83-95 | the keys are exactly the values found in some list, each mapped to "" |
| Collections.GroupedLookup | src/mai/HashCollection.java:56-66 | after putEnt of a run of pairs, a value is listed under a key exactly when that pair was put |
| Collections.GroupedSpec | src/mai/HashCollection.java:56-66 | after putEnt of a run of pairs, a key is present exactly when some pair has it, and its list is the paired values in order |
| Collections.ValuesOfAppend | src/mai/HashCollection.java:139-143 | the values put under a key by two runs of putEnt are those of the first run followed by those of the second |
| Spans.ParseSpansString | src/mai/MaiMain.java:2178-2203 | the spans the string denotes: "-1~-1" is recognised whole, otherwise each comma-separated pair split at "~" is parsed with Integer.parseInt, and the first malformed pair throws |
| Spans.SpansToString | src/mai/MaiMain.java:2212-2226 | `start~end` for each span in list order, separated by commas with none trailing; "" for no spans |
| Spans.ParseFormat | src/mai/MaiMain.java:2178-2226 | parsing the text of any non-empty list of spans gives that list back |
| Spans.EmptyFormatFails | src/mai/MaiMain.java:2190-2199 | the text of the empty list, "", does not parse: its single field has no "~" |
| Spans.NonConsumingText | src/mai/MaiMain.java:2184-2187 | the non-consuming marker (-1,-1) prints as exactly the string the parser recognises before splitting |
| Spans.ParsePairText | src/mai/MaiMain.java:2190-2199 | one printed pair parses back to its span |
| Spans.FirstOverlap | src/mai/AdjudDB.java:1323-1332 | isOverlapped: null exactly when no target meets the source, otherwise the first target that does |
| Spans.OverlapsIffSharedPoint | src/mai/AdjudDB.java:1323-1332 | for spans with start <= end the three-clause test holds exactly when the closed intervals share an offset |
| Spans.OverlapsSymmetric | src/mai/AdjudDB.java:1323-1332 | for well-formed spans the test does not depend on which span is the target |
| Spans.TouchingSpansOverlap | src/mai/AdjudDB.java:1323-1332 | spans that only share an end point overlap, spans one apart do not |
| Spans.Runs | src/mai/AdjudDB.java:921-953 | getLocByFileAndID's merge of sorted offsets: the first run starts at the first offset and the last ends one past the last offset |
| Spans.RunsShape | src/mai/AdjudDB.java:921-953 | every run is non-empty and consecutive runs are separated by at least one uncovered offset |
| Spans.RunsCover | src/mai/AdjudDB.java:921-953 | the runs cover exactly the offsets they were built from |
| Spans.InclusiveScan | src/mai/AdjudDB.java:821-850 | scanning each run with its end point included reaches exactly the stored offsets and the offsets one past them |
| Schema.Attrib.Id | src/mai/ElemExtent.java:44-45 | an id attribute with the given name, prefix and required flag, its counter at 0 and no default |
| Schema.Attrib.Data | src/mai/ElemExtent.java:49-53 | a data attribute with the given name and required flag and no default |
| Schema.Attrib.DataWithDefault | src/mai/DTDLoader.java:240 | a data attribute with the given name, required flag and default |
| Schema.Attrib.List | src/mai/DTDLoader.java:191 | a list attribute with the given options, required flag and default |
| Schema.Attrib.SetName | src/mai/Attrib.java:36-42 | getName returns the name last set; the other fields are unchanged |
| Schema.Attrib.SetRequired | src/mai/Attrib.java:44-50 | getRequired returns the flag last set; the other fields are unchanged |
| Schema.Attrib.SetDefaultValue | src/mai/Attrib.java:52-58 | getDefaultValue returns the default last set; the other fields are unchanged |
| Schema.Attrib.HasDefaultValue | src/mai/Attrib.java:60-62 | true exactly when the default is non-empty; a null dereference when no default was ever set |
| Schema.Attrib.SetPrefix | src/mai/DTDLoader.java:220-225 | AttID.setPrefix: the prefix is replaced, nothing else changes |
| Schema.Attrib.IncrementNumber | src/mai/AdjudicationTask.java:198-214 | AttID.incrementNumber: the counter goes up by one, nothing else changes |
| Schema.AttributeNamed | src/mai/DTDLoader.java:214-225 | Elem.getAttribute: an attribute of that name from the element's list, and none exactly when no attribute has the name |
| Schema.Elem.Extent | src/mai/ElemExtent.java:41-54 | exactly three new attributes in this order: a required `id` with the prefix and its counter at 0, a required `spans`, an optional `text` |
| Schema.Elem.Link | src/mai/DTDLoader.java:110-114 | ElemLink is not part of this model: assumed to create a required `id` with the prefix, then fromID, fromText, toID, toText |
| Schema.Elem.AttributeNames | src/mai/AdjudDB.java:111-132 | the attribute names in declaration order, one per attribute (the columns of the type's table) |
| Schema.Elem.AddAttribute | src/mai/DTDLoader.java:147-154 | the attribute is appended to the element's list |
| Schema.Elem.SetSpans | src/mai/ElemExtent.java:74-80 | getSpans returns the string last set; the attributes are unchanged |
| Schema.ElemNamed | src/mai/DTD.java:63-70 | the first element whose name equals the given one ignoring case, and none exactly when no name matches |
| Schema.IdPrefix | src/mai/DTD.java:93-94 | the prefix of the element's `id` attribute, failing exactly when it has no `id` or that attribute is not an AttID |
| Schema.ElementIdsInOrder | src/mai/DTD.java:89-97 | getElementIDs succeeds exactly when every element has an AttID `id`, and then lists one prefix per element in element order |
| Schema.NcElements | src/mai/DTD.java:104-116 | exactly the extent types whose `spans` attribute is not required, all of them; fails when an extent has no `spans` attribute |
| Schema.NcElementsInOrder | src/mai/DTD.java:104-116 | the non-consuming extents are listed in element order, each once: the k-th one listed is the k-th element whose `spans` is optional |
| Schema.Marked | src/mai/DTD.java:104-116 | the positions of a run of flags that are set, increasing, and no others |
| Schema.DTD.constructor | src/mai/DTD.java:41-44 | a new schema has no elements and is named "XML" |
| Schema.DTD.SetName | src/mai/DTD.java:47-53 | getName returns the name last set; the elements are unchanged |
| Schema.DTD.AddElem | src/mai/DTD.java:59-61 | the element is appended, and getElements ends with it |
| Schema.DTD.GetElem | src/mai/DTD.java:63-70 | the first element matching the name ignoring case, or null (ElemNamed) |
| Schema.DTD.HasElem | src/mai/DTD.java:72-79 | true exactly when getElem finds an element, i.e. some name matches ignoring case |
| Schema.DTD.GetElementIds | src/mai/DTD.java:89-97 | the prefixes of ElementIdsInOrder |
| Schema.DTD.GetNcElements | src/mai/DTD.java:104-116 | the answer is NcElements of the element list, so its order is the element order (NcElementsInOrder) |
| Schema.CollectNc | src/mai/DTD.java:107-115 | the loop over the elements computes NcElements |
| JavaStrings.SplitJoin | src/mai/MaiMain.java:2190-2199 | String.split on a one-character separator gives back the parts of a join when no part contains the separator and the last part is non-empty (split drops trailing empty strings) |
| JavaStrings.ParseIntToString | src/mai/MaiMain.java:2190-2199 | Integer.parseInt(Integer.toString(x)) == x for every int |
| JavaStrings.NatToStringInjective | src/mai/AdjudicationTask.java:198-214 | distinct counter values print as distinct ids |
| JavaStrings.Trim | src/mai/DTDLoader.java:86-99 | String.trim: the result is the stretch of the text between its first and last characters above the space; everything dropped is at or below the space |
| AdjudTables.SpanRows | src/mai/AdjudDB.java:262-287 | one index row per offset of [start, end) for a span starting above -1 (none when end <= start), and a single row at -1 for a span starting at or below -1 |
| AdjudTables.SpanRowsSpec | src/mai/AdjudDB.java:262-287 | a row is among a span's index rows exactly when it carries the tag's file, type and id and sits where the span puts rows |
| AdjudTables.IndexRowsSpec | src/mai/AdjudDB.java:262-287 | an extent's index rows are exactly the rows with its file, type and id at an offset one of its spans covers (end excluded) or at -1 for a non-consuming span |
| AdjudTables.IndexRowsStored | src/mai/AdjudDB.java:262-287 | spans with 32-bit ends only ever put -1 or offsets below the largest int into the index |
| AdjudTables.ColumnValues | src/mai/AdjudDB.java:238-260 | the new row of the type's table holds the tag's value for each of the type's attributes the tag has, and nothing else |
| AdjudTables.LinkColumnValues | src/mai/AdjudDB.java:303-320 | a link's row has a column for every attribute of its type, holding the tag's value or "" |
| AdjudTables.TagsInSpanSpec | src/mai/AdjudDB.java:1160-1181 | getTagsInSpanByType's rows are exactly the (file, id) of rows of the type inside the selection (a range when begin != end, else a point) |
| AdjudTables.FileTagsInSpanSpec | src/mai/AdjudDB.java:1433-1462 | the first query of getFileTagsInSpanAndNC gives exactly the (type, id) of the file's rows inside the selection |
| AdjudTables.NonConsumingTagsSpec | src/mai/AdjudDB.java:1454-1460 | the second query gives exactly the (type, id) of every row at -1 |
| AdjudTables.NonConsumingTagsOfAnyFile | src/mai/AdjudDB.java:1454 | the non-consuming query has no file condition: a row at -1 of any file is reported |
| AdjudTables.FilesAtSpec | src/mai/AdjudDB.java:399-411 | a file is listed exactly when one of its rows of the type sits at the offset |
| AdjudTables.AllLocsSpec | src/mai/AdjudDB.java:529-541 | (printed offset, file) is listed exactly when the file has a row of the type at that offset |
| AdjudTables.IntToStringInjective | src/mai/AdjudDB.java:529-541 | distinct offsets, negative ones included, print as distinct keys |
| AdjudTables.AnchorLinksSpec | src/mai/AdjudDB.java:1122-1146 | (link type, link id) is listed exactly when a link of the file has the extent as its from or its to anchor |
| AdjudTables.ElementOf | src/mai/AdjudDB.java:553-562 | the type of the first index row with that file and id, failing with no row exactly when there is none |
| AdjudTables.IdInSpec | src/mai/AdjudDB.java:703-725 | idExists holds exactly when an index row or a link row has that id in that file |
| AdjudTables.TagAtSpec | src/mai/AdjudDB.java:736-748 | tagExistsInFileAtLoc holds exactly when a row of the file sits at the offset |
| AdjudTables.LocationsSpec | src/mai/AdjudDB.java:921-930 | the offsets read for (file, id) are exactly those of its rows |
| AdjudTables.Sort | src/mai/AdjudDB.java:931 | Collections.sort: a sorted permutation of the offsets |
| AdjudTables.LocText | src/mai/AdjudDB.java:921-953 | getLocByFileAndID fails (at locs.get(0)) exactly when (file, id) has no row |
| AdjudTables.LocTextSpans | src/mai/AdjudDB.java:921-953 | the text parses back to non-empty, increasing spans separated by gaps, covering exactly the offsets stored for (file, id) |
| OverlapScan.SpanOverlapsSpec | src/mai/AdjudDB.java:821-850 | one gold span [s, e] records exactly the (gsid, type, file, id) of the other files' rows of the same type at an offset s <= loc <= e, end included |
| OverlapScan.SpansOverlapsSpec | src/mai/AdjudDB.java:821-850 | over all spans of a gold tag, exactly the other files' same-typed tags with a row that some span reaches, end included |
| OverlapScan.ScanReachesCovers | src/mai/AdjudDB.java:821-850 | with non-empty spans, reaching an offset end-inclusive means covering it or the offset before it |
| OverlapScan.GsTagsSpec | src/mai/AdjudDB.java:866-873 | the gold tags scanned are exactly the distinct (id, type) pairs of the gold standard's index rows |
| OverlapScan.GsTagOverlaps | src/mai/AdjudDB.java:875-901 | for one gold tag whose spans are read back from the index, the recorded rows are exactly the other files' same-typed tags touching it |
| OverlapScan.OverlapsViaGs | src/mai/AdjudDB.java:860-908 | with the spans looked up under the gold file's own name the scan succeeds and records exactly the NearGs rows of the scanned tags |
| OverlapScan.AllOverlapsSpec | src/mai/AdjudDB.java:860-908 | the rebuilt overlap table holds exactly the pairs of a gold tag and a same-typed tag of another file at an offset of the gold tag or one past its end |
| OverlapScan.AsWrittenOverlapsFail | src/mai/AdjudDB.java:875 | as written ("goldstandard.xml"), the rebuild throws IndexOutOfBounds whenever the gold standard has a row and no file has that literal name |
| OverlapScan.AsWrittenOverlapsExample | src/mai/AdjudDB.java:875 | a two-row index on which the rebuild as written throws |
| LinkQueries.GsLinkIdsStep | src/mai/AdjudDB.java:1017-1029 | each gold link row of the type adds its (file, id) to mCurLinks, in table order |
| LinkQueries.GsEndStep | src/mai/AdjudDB.java:1017-1027 | each gold link row adds both of its anchors to the gold ends; a non-gold row adds none |
| LinkQueries.AnchorOverlapsSpec | src/mai/AdjudDB.java:1057-1082 | the gold extents collected for an anchor are exactly those the overlap table pairs with it |
| LinkQueries.PromotedEndSpec | src/mai/AdjudDB.java:1045-1091 | a gold extent is reached through a non-gold link exactly when both of the link's anchors have overlap rows and it overlaps one of them |
| LinkQueries.GsLocationsSpec | src/mai/AdjudDB.java:1094-1106 | the locations listed for a contributing gold extent are exactly its gold-standard index rows |
| LinkQueries.LinkValues | src/mai/AdjudDB.java:1232-1240 | reading a current link's attribute table throws exactly when a row lacks an attribute value; otherwise the last matching row's values win |
| LinkQueries.PutColumns | src/mai/AdjudDB.java:1234-1236 | one row's puts: a missing value throws, otherwise every attribute gets the row's value and earlier keys stay |
| LinkQueries.TempLinksFail | src/mai/AdjudDB.java:1225-1242 | building gsTempLinkExtents fails exactly when there are current links and the type's table is missing or some link's values cannot be read |
| LinkQueries.AppendedCopies | src/mai/AdjudDB.java:1233-1240 | one putEnt of the same attribute table per matching row: the table n more times under the file, other files untouched |
| LinkQueries.EndSpans | src/mai/AdjudDB.java:1359-1373 | getSpansByFileElemAndId on a table that does not exist fails with no such table |
| LinkQueries.GsIdWithin | src/mai/AdjudDB.java:1381-1398 | the id returned is that of a gold-standard row of the type inside [start, end]; none found is a failure reading an empty result |
| LinkQueries.ReadAnchor | src/mai/AdjudDB.java:1255-1273 | a read anchor has the type of the first index row of (file, id) and, with the arguments in declaration order, the spans stored for it |
| LinkQueries.GoldFor | src/mai/AdjudDB.java:1288-1305 | the replacement id names a gold-standard extent of the anchor's type |
| LinkQueries.KeptIffEitherEnd | src/mai/AdjudDB.java:1275 | a link is kept exactly when some span of its from anchor or of its to anchor overlaps the selection |
| LinkQueries.KeptAnchorsAreGold | src/mai/AdjudDB.java:1278-1305 | a kept link's fromID and toID name gold-standard extents of its anchors' types |
| LinkQueries.SwappedLookupFails | src/mai/AdjudDB.java:1257 | as written (arguments swapped) the spans lookup uses a table named after the file, and fails when no type has that name |
| LinkQueries.SwappedLookupExample | src/mai/AdjudDB.java:1257 | a link between two indexed extents of "a.xml" on which the lookup as written fails |
| LinkQueries.Gather | src/mai/AdjudDB.java:1247-1311 | one file's links succeed together exactly when each link does (corrected argument order, see Findings) |
| LinkQueries.GatherSpec | src/mai/AdjudDB.java:1247-1311 | the links returned are exactly the kept ones, and the highlighted spans exactly theirs (corrected argument order, see Findings) |
| LinkQueries.GatherFails | src/mai/AdjudDB.java:1247-1311 | the first failing link decides the exception (corrected argument order, see Findings) |
| TagOutput.ReplaceChar | src/mai/AdjudDB.java:484-488 | String.replace of one character; a string without that character is returned unchanged |
| TagOutput.EscapeAsWrittenDoubles | src/mai/AdjudDB.java:485-487 | as written, "<" is written out as "&amp;lt;": the "&" of the entity is escaped a second time |
| TagOutput.Escape | src/mai/AdjudDB.java:484-488 | the intended escaping leaves no "<", ">", double quote or newline in the value |
| TagOutput.UnescapeEscape | src/mai/AdjudDB.java:484-488 | reading the intended escaping back gives the value, except that newlines became spaces and double quotes single quotes |
| TagOutput.EscapeAsWrittenAgrees | src/mai/AdjudDB.java:484-488 | the escaping as written and the intended one agree on every value without "<" and ">" |
| TagOutput.AttributeText | src/mai/AdjudDB.java:478-490 | the ` name="value"` parts of one row, failing exactly when one of the type's attributes is NULL in the row (corrected escaping, see Findings) |
| TagOutput.TagText | src/mai/AdjudDB.java:477-492 | one row as `<name ... />`, failing exactly when a value is NULL (corrected escaping, see Findings) |
| TagOutput.TagTexts | src/mai/AdjudDB.java:472-498 | the texts of the rows in order up to the first row with a NULL value, where the caught exception ends the list; all rows when no value is NULL (corrected escaping, see Findings) |
| TagOutput.TagTextsUnique | src/mai/AdjudDB.java:472-498 | any list that has the texts of a prefix of the rows and stops at a NULL is the list returned |
| TagOutput.RowValues | src/mai/AdjudDB.java:366-382 | one row's values: a NULL in an optional attribute becomes "", a NULL in a required one makes the answer null |
| TagOutput.TagValues | src/mai/AdjudDB.java:354-387 | getTagsByFileAndID: null exactly when some matching row has a NULL in a required attribute; otherwise the values of the last matching row, or an empty table when none matches |
| AdjudStore.EmptyTables | src/mai/AdjudDB.java:93-132 | addDTD creates one empty table per element of the DTD and no other |
| AdjudStore.AddRow | src/mai/AdjudDB.java:234-260 | a row added to an element's table goes at its end; other tables and the set of tables are untouched |
| AdjudStore.TagIndexRows | src/mai/AdjudDB.java:262-287 | the index rows of one extent tag are well-formed; the tag is refused with a NullPointer exactly when it has no spans |
| AdjudStore.TagIndexRowsSpec | src/mai/AdjudDB.java:262-287 | an extent tag with an id is indexed exactly when its spans parse; then a row is added exactly for every character position inside one of its spans (one row at -1 for a non-consuming tag); a tag without an id is refused (see Left out) |
| AdjudStore.ParseFails | src/mai/MaiMain.java:2178-2203 | a spans string that does not parse fails with a NumberFormat or an IndexOutOfBounds exception and nothing else |
| AdjudStore.LinkRowOfSpec | src/mai/AdjudDB.java:553-562 | as LinkRowOf: the end types are those getElementByFileAndID finds |
| AdjudStore.ExtentsWithout | src/mai/AdjudDB.java:786-801 | the index rows left are exactly those not of this file, type and id |
| AdjudStore.LinksWithout | src/mai/AdjudDB.java:760-774 | the link rows left are exactly those not of this file, type and id |
| AdjudStore.RowsWithout | src/mai/AdjudDB.java:760-774 | the element-table rows left are exactly those not of this file and id |
| AdjudStore.OverlapsWithout | src/mai/AdjudDB.java:802-807 | the overlap rows left are exactly those not recorded for this gold-standard id and type |
| AdjudStore.Coalesce | src/mai/AdjudDB.java:935-951 | the sorted locations of a tag are written as its runs of consecutive positions, `start~end` joined by `,`, each end exclusive |
| AdjudStore.CoalesceStep | src/mai/AdjudDB.java:935-951 | one more location either extends the open run (when adjacent or repeated) or closes it and opens a new one |
| AdjudStore.FirstRun | src/mai/AdjudDB.java:933-934 | the text starts with the first location |
| AdjudStore.IsOverlapped | src/mai/AdjudDB.java:1323-1332 | the answer is the first span of the list that overlaps the given one, or none |
| AdjudStore.FirstOverlapAt | src/mai/AdjudDB.java:1323-1332 | when the span at i is the first to overlap, it is the answer |
| AdjudStore.TagsIndexRowsFail | src/mai/AdjudDB.java:188-196 | indexing a list of extent tags of one type fails exactly when one of them is refused |
| AdjudStore.TagsIndexRowsSpec | src/mai/AdjudDB.java:188-196 | the rows indexed for a list of tags are exactly the rows of each tag |
| AdjudStore.ExtentPassFail | src/mai/AdjudDB.java:181-196 | the extent pass of addTagsFromHash fails exactly when the tags of one extent type in the DTD fail |
| AdjudStore.ExtentPassSpec | src/mai/AdjudDB.java:181-196 | the rows added by the extent pass are exactly the rows of the extent tags of the DTD's extent types; link types and types with no tags add nothing |
| AdjudStore.AdjudDB.constructor | src/mai/AdjudDB.java:53-72 | a new store has no tables, no index, link or overlap rows and an empty highlight collection |
| AdjudStore.AdjudDB.AddDtd | src/mai/AdjudDB.java:93-132 | addDTD adds an empty table for each element type and changes nothing else |
| AdjudStore.AdjudDB.UsePreparedExtentStatements | src/mai/AdjudDB.java:234-288 | one extent tag: its values are appended to its element table (a missing attribute leaves its column NULL); its index rows are appended when its spans parse, otherwise the failure is reported and the index is unchanged; a tag without an id adds no index rows (see Left out) |
| AdjudStore.AdjudDB.UsePreparedLinkStatements | src/mai/AdjudDB.java:298-338 | one link tag: its values are appended to its element table, and a link row is added when both ends resolve; an unknown element type changes nothing |
| AdjudStore.AdjudDB.RemoveLinkTags | src/mai/AdjudDB.java:760-774 | removeLinkTags deletes the link's rows from the link table and from its element table, failing on an unknown table |
| AdjudStore.AdjudDB.RemoveExtentTags | src/mai/AdjudDB.java:786-808 | removeExtentTags deletes the extent's index rows and element-table rows and, for the gold standard, its overlap rows |
| AdjudStore.AdjudDB.IdExists | src/mai/AdjudDB.java:703-725 | true exactly when the id is used in this file by an extent or by a link |
| AdjudStore.AdjudDB.TagExistsInFileAtLoc | src/mai/AdjudDB.java:736-748 | true exactly when this file has an extent at this position |
| AdjudStore.AdjudDB.GetTagsInSpanByType | src/mai/AdjudDB.java:1160-1181 | the collection maps each file to the ids of the tags of this type at a position inside the selection, and holds nothing else |
| AdjudStore.AdjudDB.GetFileTagsInSpanAndNC | src/mai/AdjudDB.java:1433-1462 | the collection maps each type to the ids of this file's tags inside the selection together with the non-consuming tags of every file |
| AdjudStore.AdjudDB.GetFilesAtLocByElement | src/mai/AdjudDB.java:399-411 | the files that have a tag of this type at this position, and only those, one per matching row in table order (FilesAt) |
| AdjudStore.AdjudDB.GetExtentAllLocs | src/mai/AdjudDB.java:529-541 | the collection maps each position to the files with a tag of this type there |
| AdjudStore.AdjudDB.GetLinksByFileAndExtentID | src/mai/AdjudDB.java:1122-1146 | the collection maps each link type to the ids of this file's links from or to the extent |
| AdjudStore.AdjudDB.GetLocByFileAndID | src/mai/AdjudDB.java:921-953 | the spans text of a tag, rebuilt from its sorted index rows |
| AdjudStore.AdjudDB.AddOverlaps | src/mai/AdjudDB.java:821-850 | a gold-standard tag's overlaps with every tag of its type in the other files are appended; a tag without parseable spans adds none; a tag without an id is refused (see Left out) |
| AdjudStore.AdjudDB.FindAllOverlaps | src/mai/AdjudDB.java:860-908 | the overlap table becomes the overlaps of every gold-standard extent (corrected file name, see Findings) |
| AdjudStore.AdjudDB.GetGSLinksByType | src/mai/AdjudDB.java:1000-1110 | the current links are the gold-standard links of the type followed by the other files' links whose ends are both covered by gold-standard extents; the collection maps each position to the files whose gold-standard ends sit there |
| AdjudStore.AdjudDB.GetLinkTagsInSpanByType | src/mai/AdjudDB.java:1209-1313 | fails exactly when building the per-file link tables or reading one of them fails; otherwise each file maps to the links kept for the selection and the highlight collection to their gold-standard end spans (corrected argument order, see Findings) |
| AdjudStore.AdjudDB.AddTagsFromHash | src/mai/AdjudDB.java:178-223 | every extent tag of the DTD's extent types is indexed, in order, failing exactly when one is refused; the type tables other than the link types' become PassTables; the link rows only grow |
| AdjudStore.AdjudDB.ExtentPassTags | src/mai/AdjudDB.java:181-196 | the extent pass appends exactly ExtentPass's index rows, and the type tables become PassTables |
| AdjudStore.AdjudDB.AddExtentTags | src/mai/AdjudDB.java:188-194 | the tags of one extent type append exactly their index rows, and one table row per tag the loop reaches |
| AdjudStore.Reached | src/mai/AdjudDB.java:188-194 | the loop over a type's tags reaches the end, or stops just after the first refused tag |
| AdjudStore.AddRows | src/mai/AdjudDB.java:234-260 | rows added to an element's table go at its end; other tables and the set of tables are untouched |
| AdjudStore.PassTables | src/mai/AdjudDB.java:181-196 | the extent pass keeps the set of tables; each extent type with tags gets its rows, and the pass stops after the first type whose tags fail |
| AdjudStore.PassTablesAll | src/mai/AdjudDB.java:181-196 | when the pass succeeds (and type names are distinct) each extent type's table gains one row per tag, in order |
| AdjudStore.PassTablesUntouched | src/mai/AdjudDB.java:181-196 | the table of a name that is no extent type with tags is unchanged by the pass |
| AdjudStore.AdjudDB.LinkPass | src/mai/AdjudDB.java:204-216 | the link pass keeps the extents, overlaps, current links and every table but those of the link types with tags, and only appends link rows |
| AdjudStore.AdjudDB.GetTagsByFileAndID | src/mai/AdjudDB.java:354-387 | the attribute values of the tag with this file and id, failing on an unknown table |
| AdjudStore.AdjudDB.GetExtentTagsByFileAndType | src/mai/AdjudDB.java:426-435 | the output texts of this file's tags of the type, failing when the table or its `start` column is missing |
| AdjudStore.AdjudDB.GetLinkTagsByFileAndType | src/mai/AdjudDB.java:450-459 | the output texts of this file's tags of the type, in some order of its rows, failing when the table or its `id` column is missing |
| AdjudStore.AdjudDB.GetAllExtentsByFile | src/mai/AdjudDB.java:508-519 | the keys are exactly the printed offsets at which the file has a tag, each mapped to "" |
| AdjudStore.AdjudDB.GetTextByFileElemAndID | src/mai/AdjudDB.java:1410-1421 | the `text` cell of a row of the file with that id; no such row throws, an unknown table throws |
| AdjudStore.LocationText | src/mai/AdjudDB.java:921-953 | as LocText: the tag's spans text, or the failure of a tag with no location |
| AdjudStore.GoldOverlaps | src/mai/AdjudDB.java:860-908 | the loop over the gold-standard extents computes AllOverlaps |
| AdjudStore.GsLinkScan | src/mai/AdjudDB.java:1000-1110 | the loop body of getGSLinksByType: the current links and the located gold-standard ends as above |
| AdjudStore.ScanLinkRows | src/mai/AdjudDB.java:1010-1043 | a gold-standard link's ends are recorded, its id is appended to the current links, and every other file's link is remembered |
| AdjudStore.PromoteOthers | src/mai/AdjudDB.java:1045-1091 | an other file's link whose ends both overlap gold-standard extents adds those extents and is appended once per overlap |
| AdjudStore.LocateGold | src/mai/AdjudDB.java:1094-1106 | every recorded gold-standard end is paired with each of its positions |
| AdjudStore.TempLinkTables | src/mai/AdjudDB.java:1225-1242 | the per-file link tables are built from the current links |
| AdjudStore.LinkValuesOf | src/mai/AdjudDB.java:1232-1240 | a link row's attribute values as LinkValues |
| AdjudStore.ProcessFiles | src/mai/AdjudDB.java:1247-1311 | every file's link list is read as ProcessList; one failure fails the whole (corrected argument order, see Findings) |
| AdjudStore.ProcessLinks | src/mai/AdjudDB.java:1247-1311 | one file's links are read as ProcessList (corrected argument order, see Findings) |
| AdjudStore.RowPuts | src/mai/AdjudDB.java:366-382 | a row's values are put into the table, none when a required value is NULL |
| AdjudStore.FileRows | src/mai/AdjudDB.java:426-435 | the rows of the element table that belong to the file |
| AdjudStore.MakeTagStringsForOutput | src/mai/AdjudDB.java:472-498 | the loop computes TagTexts (corrected escaping, see Findings) |
| AdjudStore.ScanSpans | src/mai/AdjudDB.java:821-850 | the overlaps of one gold-standard tag's spans, in order |
| AdjudStore.IndexSpans | src/mai/AdjudDB.java:262-287 | the index rows of one tag, one per position of each span |
| Adjudication.AttTracker | src/mai/AdjudicationTask.java:178-186 | an element gets an id counter exactly when one of its attributes is an id attribute; the counter starts at 0 with that attribute's prefix |
| Adjudication.TrackerOfSpec | src/mai/AdjudicationTask.java:173-189 | createIDTracker has a counter, starting at 0, exactly for the elements with an id attribute, carrying the prefix of one of its id attributes |
| Adjudication.FirstFree | src/mai/AdjudicationTask.java:198-214 | the id chosen is free: no stored extent or link of the file uses it, and its number is not below the counter |
| Adjudication.FirstFreeSkips | src/mai/AdjudicationTask.java:202-209 | the id chosen is the first free one from the counter on: every number skipped is used in the file |
| Adjudication.TakenIdLength | src/mai/AdjudicationTask.java:198-214 | a used id is no longer than the longest stored id, which bounds the search |
| Adjudication.CandidateBound | src/mai/AdjudicationTask.java:198-214 | a used candidate's number is below 10 to the length of the longest stored id, so the search ends |
| Adjudication.ConsecutiveIdsDiffer | src/mai/AdjudicationTask.java:198-214 | two ids handed out one after the other differ, whatever was added to the store between them |
| Adjudication.NextFree | src/mai/AdjudicationTask.java:202-209 | the loop that asks idExists computes FirstFree |
| Adjudication.ElemHash | src/mai/AdjudicationTask.java:155-162 | createHash maps each name to an element of the DTD with that name |
| Adjudication.ElemHashKeys | src/mai/AdjudicationTask.java:155-162 | every element's name is a key of the hash |
| Adjudication.ElemHashLast | src/mai/AdjudicationTask.java:155-162 | when names repeat, the last element with a name is the one kept |
| Adjudication.KindNamesSpec | src/mai/AdjudicationTask.java:446-476 | getExtentElements and getLinkElements list exactly the names of the elements of that kind |
| Adjudication.KindNamesPartition | src/mai/AdjudicationTask.java:446-476 | every element is an extent or a link, never both |
| Adjudication.TypeOf | src/mai/AdjudDB.java:111-132 | an element's table type has its name, kind and, in order, the names and required flags of its attributes |
| Adjudication.TypesOf | src/mai/AdjudDB.java:93-102 | the table types of the DTD's elements, in order |
| Adjudication.SpansLookupSpec | src/mai/AdjudicationTask.java:368-375 | getTagsWithinSpansByType finds an id for a file exactly when some span of the selection holds a tag of the type with that id in that file |
| Adjudication.SpansLookupStep | src/mai/AdjudicationTask.java:368-375 | one more span adds exactly its own hits |
| Adjudication.SpansLookupWitness | src/mai/AdjudicationTask.java:368-375 | every id found comes from some span |
| Adjudication.SpansLookupCovers | src/mai/AdjudicationTask.java:368-375 | every hit of any span is found |
| Adjudication.FileSpansLookupSpec | src/mai/AdjudicationTask.java:385-391 | getFileTagsSpanAndNC finds the file's tags in some span of the selection, plus the non-consuming tags once there is a span |
| Adjudication.FileSpansLookupStep | src/mai/AdjudicationTask.java:385-391 | one more span adds exactly its own hits and the non-consuming tags |
| Adjudication.FileSpansLookupWitness | src/mai/AdjudicationTask.java:385-391 | every id found comes from some span or is non-consuming |
| Adjudication.FileSpansLookupCovers | src/mai/AdjudicationTask.java:385-391 | every such hit is found |
| Adjudication.HashOf | src/mai/AdjudicationTask.java:155-162 | the loop computes ElemHash |
| Adjudication.IdTrackerOf | src/mai/AdjudicationTask.java:173-189 | the loop computes the tracker specified by TrackerOfSpec |
| Adjudication.ElementsOfKind | src/mai/AdjudicationTask.java:446-476 | the loop computes KindNames |
| Adjudication.AdjudicationTask.constructor | src/mai/AdjudicationTask.java:52-55 | a new task has a fresh empty store and no DTD |
| Adjudication.AdjudicationTask.ResetDb | src/mai/AdjudicationTask.java:60-63 | reset_db replaces the store by a fresh empty one and keeps the DTD |
| Adjudication.AdjudicationTask.CreateHash | src/mai/AdjudicationTask.java:155-162 | the element hash of the DTD |
| Adjudication.AdjudicationTask.CreateIdTracker | src/mai/AdjudicationTask.java:173-189 | the id tracker of the DTD |
| Adjudication.AdjudicationTask.ResetIdTracker | src/mai/AdjudicationTask.java:68-70 | reset_IDTracker rebuilds the tracker from the DTD; without a DTD it fails with a NullPointer and changes nothing |
| Adjudication.AdjudicationTask.SetDtd | src/mai/AdjudicationTask.java:343-348 | setDTD records the DTD, its element hash and a fresh id tracker, and keeps the store |
| Adjudication.AdjudicationTask.GetNextId | src/mai/AdjudicationTask.java:198-214 | getNextID returns the first free id from the element's counter and moves the counter past it; an element without a counter gives a NullPointer |
| Adjudication.AdjudicationTask.AddDtdToDb | src/mai/AdjudicationTask.java:75-77 | the store gains an empty table per element type |
| Adjudication.AdjudicationTask.AddTagsFromHash | src/mai/AdjudicationTask.java:79-82 | the store's extent pass over the DTD's types, with the type tables other than the link types' as PassTables |
| Adjudication.AdjudicationTask.AddTagFromHash | src/mai/AdjudicationTask.java:105-148 | an extent is stored with its index rows and, in the gold standard, its overlaps; a refused extent reports the failure; a link is stored with its link row when both ends resolve; a tag without an id stores its table row only (see Left out) |
| Adjudication.AdjudicationTask.FindAllOverlaps | src/mai/AdjudicationTask.java:87-95 | the overlap table becomes AllOverlaps of the store |
| Adjudication.AdjudicationTask.RemoveExtentByFileAndId | src/mai/AdjudicationTask.java:311-317 | the extent's index and table rows are gone; links are kept |
| Adjudication.AdjudicationTask.RemoveLinkByFileAndId | src/mai/AdjudicationTask.java:319-325 | the link's link-table and element-table rows are gone; extents and overlaps are kept |
| Adjudication.AdjudicationTask.GetTagsWithinSpansByType | src/mai/AdjudicationTask.java:368-375 | each file maps to SpansLookup, and only files with a hit are keys |
| Adjudication.AdjudicationTask.GetFileTagsWithinSpansAndNC | src/mai/AdjudicationTask.java:385-391 | each type maps to FileSpansLookup, and only types with a hit are keys |
| Adjudication.AdjudicationTask.GetExtentElements | src/mai/AdjudicationTask.java:446-456 | the names of the extent elements, in DTD order |
| Adjudication.AdjudicationTask.GetLinkElements | src/mai/AdjudicationTask.java:467-476 | the names of the link elements, in DTD order |
| Adjudication.AdjudicationTask.GetLocByFileAndId | src/mai/AdjudicationTask.java:292-299 | the tag's spans text, or null when the store fails |
| Adjudication.AdjudicationTask.GetTagsByFileAndId | src/mai/AdjudicationTask.java:281-290 | the tag's attribute values, or null for an unknown element or table |
| Adjudication.AdjudicationTask.GetExtentTagsByFileAndType | src/mai/AdjudicationTask.java:234-241 | the file's tag texts of the type, or null when the store fails |
| Adjudication.AdjudicationTask.GetLinkTagsByFileAndType | src/mai/AdjudicationTask.java:243-250 | the file's link texts of the type, or null when the store fails |
| Adjudication.AdjudicationTask.GetTextByFileElemAndId | src/mai/AdjudicationTask.java:252-259 | the tag's text; "" when the store throws |
| Adjudication.AdjudicationTask.GetAllExtentsByFile | src/mai/AdjudicationTask.java:261-268 | the printed offsets at which the file has a tag, each mapped to "" |
| Adjudication.AdjudicationTask.GetLinkTagsSpanByType | src/mai/AdjudicationTask.java:420-430 | the store's answer for the element's attributes, or null when the element is unknown or the store fails |
| Adjudication.AdjudicationTask.GetElem | src/mai/AdjudicationTask.java:482-484 | the element of that name, when there is one |
| Adjudication.AdjudicationTask.GetExtentAllLocs | src/mai/AdjudicationTask.java:216-223 | the store's positions-to-files collection for the type |
| Adjudication.AdjudicationTask.GetFilesAtLocByElement | src/mai/AdjudicationTask.java:225-232 | the files with a tag of the type at the position |
| Adjudication.AdjudicationTask.TagExistsInFileAtLoc | src/mai/AdjudicationTask.java:270-278 | true exactly when the file has an extent at the position |
| Adjudication.AdjudicationTask.GetTagsSpanByType | src/mai/AdjudicationTask.java:410-418 | the store's files-to-ids collection for the selection |
| Adjudication.AdjudicationTask.GetLinksByFileAndExtentId | src/mai/AdjudicationTask.java:327-334 | the store's links anchored at the extent |
| Adjudication.AdjudicationTask.FindGoldStandardLinksByType | src/mai/AdjudicationTask.java:301-309 | the store's gold-standard end positions for the link type |
| DtdLoading.Field | src/mai/DTDLoader.java:105 | the i-th part of a Java split, failing with IndexOutOfBounds exactly when there are not that many parts |
| DtdLoading.Dashes | src/mai/DTDLoader.java:124-125 | a run of n dashes |
| DtdLoading.Candidate | src/mai/DTDLoader.java:118-134 | the k-th prefix getIDString tries is k + 1 characters long |
| DtdLoading.CandidatesDistinct | src/mai/DTDLoader.java:118-134 | no prefix is tried twice, so the search ends |
| DtdLoading.CandidateStep | src/mai/DTDLoader.java:123-128 | the next prefix takes one more character of the name, or adds a dash once the whole name is used |
| DtdLoading.ListDefault | src/mai/DTDLoader.java:171-189 | a list attribute's default is the quoted text of the single default match when it is one of the options, and "" otherwise; a match with no quoted text fails |
| DtdLoading.DataDefault | src/mai/DTDLoader.java:227-239 | a data attribute's default is the quoted text of the single match, else "" |
| DtdLoading.FirstUnused | src/mai/DTDLoader.java:118-134 | the prefix chosen is not used by another element and every earlier candidate is used |
| DtdLoading.TrimAll | src/mai/DTDLoader.java:165-169 | every option is trimmed, in order |
| DtdLoading.ListValues | src/mai/DTDLoader.java:162-188 | the options are the trimmed items separated by vertical bars between the parentheses and the default is the single match's quoted text when it is one of them, else ""; the parse fails exactly when the parentheses or the quoted text are missing |
| DtdLoading.DtdLoader.constructor | src/mai/DTDLoader.java:43-44 | the loader starts from an empty DTD named "XML" |
| DtdLoading.DtdLoader.Process | src/mai/DTDLoader.java:86-99 | a line that is no ELEMENT, ATTLIST or ENTITY declaration changes nothing |
| DtdLoading.DtdLoader.CreateElement | src/mai/DTDLoader.java:104-116 | the element named by the second token is appended: an extent exactly when the declaration has #PCDATA, with an id attribute whose prefix is the first unused one; a declaration with one token fails |
| DtdLoading.DtdLoader.GetIdString | src/mai/DTDLoader.java:118-134 | the first unused prefix for the name; an empty name fails on `substring(0,1)` |
| DtdLoading.DtdLoader.AddMeta | src/mai/DTDLoader.java:136-142 | an ENTITY declaration with `name "…"` renames the DTD to the quoted text; others change nothing |
| DtdLoading.DtdLoader.AddAttribute | src/mai/DTDLoader.java:147-154 | no element is added or removed and the DTD keeps its name |
| DtdLoading.DtdLoader.AddListAtt | src/mai/DTDLoader.java:156-196 | a list attribute with the trimmed options, the required flag and the checked default is appended to the named element; an unknown element changes nothing |
| DtdLoading.DtdLoader.AddDataAtt | src/mai/DTDLoader.java:202-246 | `start`/`spans` sets whether an extent's spans are required; an ` ID ` declaration sets the id prefix; anything else appends a data attribute with its default; an unknown element or a failure changes nothing; no attribute but the named element's `spans` changes its flag, none but its `id` its prefix, and names, defaults and counters are kept |
| DtdLoading.DtdLoader.DataAttOn | src/mai/DTDLoader.java:209-241 | the same, once the element and attribute names are read |
| DtdLoading.DtdLoader.ApplyDataAtt | src/mai/DTDLoader.java:214-240 | on the element found: `start`/`spans` only sets the required flag of an extent's spans attribute, an ` ID ` declaration only sets the id prefix, anything else appends a data attribute with its default; a failure changes nothing, and every other attribute and field is kept |
| DtdLoading.DtdLoader.SetSpansRequired | src/mai/DTDLoader.java:214-219 | an extent's spans attribute gets the required flag and keeps its other fields; an extent without one fails with a NullPointer; no other attribute changes |
| DtdLoading.DtdLoader.SetIdPrefix | src/mai/DTDLoader.java:220-225 | the id attribute takes the first quoted text as its prefix and keeps its other fields; an `id` that is not an id attribute fails with ClassCast; no other attribute changes |
| DtdLoading.DtdLoader.AppendDataAtt | src/mai/DTDLoader.java:226-241 | the data attribute is appended with its name, flag and default; a bad default match fails and changes nothing |
| XmlHandling.LegacyConverted | src/mai/XMLHandler.java:93-102 | a tag with `start` and `end` but no `spans` gets `spans` = start~end and loses `start` and `end`; any other tag is unchanged |
| XmlHandling.LegacyConvertedIdempotent | src/mai/XMLHandler.java:93-102 | converting twice is converting once |
| XmlHandling.ConvertedIsSettled | src/mai/XMLHandler.java:93-102 | a converted tag needs no more conversion, and a tag is left alone exactly when it needs none |
| XmlHandling.TableAfter | src/mai/XMLHandler.java:53-61 | the table built from a tag's attributes, converting after each one, ends converted |
| XmlHandling.PlainAttributesKept | src/mai/XMLHandler.java:53-61 | an attribute other than start, end and spans is in the table exactly when the tag has it |
| XmlHandling.PlainAttributeLastValue | src/mai/XMLHandler.java:53-61 | such an attribute holds its last value |
| XmlHandling.AttributeTable.constructor | src/mai/XMLHandler.java:53 | a new table is empty |
| XmlHandling.AttributeTable.Put | src/mai/XMLHandler.java:57 | put sets one entry |
| XmlHandling.AttributeTable.ConvertLegXml | src/mai/XMLHandler.java:93-102 | the entries become LegacyConverted of the old ones |
| XmlHandling.Copies | src/mai/XMLHandler.java:54-61 | n references to the same table |
| XmlHandling.XMLHandler.constructor | src/mai/XMLHandler.java:38-44 | no tags, no text, not inside the text element |
| XmlHandling.XMLHandler.StartElement | src/mai/XMLHandler.java:47-63 | the text element starts text capture; any other element appends one shared attribute table per attribute under its name, none when it has no attributes |
| XmlHandling.XMLHandler.Characters | src/mai/XMLHandler.java:70-75 | the first chunk after the text element becomes the text and capture stops |
| Mai.ResetValue | src/mai/MaiMain.java:2303-2308 | resetSpans leaves nothing selected: the non-consuming span outside multi-span mode, no span inside it |
| Mai.Selected | src/mai/MaiMain.java:870-879 | a drag selects the span between the caret and its anchor, smaller end first |
| Mai.UndoValue | src/mai/MaiMain.java:1143-1145 | undo drops the last span of the selection, and an empty selection stays empty |
| Mai.CaretSelects | src/mai/MaiMain.java:863-893 | after a drag its span is selected, no span is listed twice, the spans selected before stay unless nothing was selected, and nothing else appears |
| Mai.CaretClick | src/mai/MaiMain.java:894-901 | a click outside multi-span mode resets the selection; inside it the selection is kept |
| Mai.CaretIdempotent | src/mai/MaiMain.java:881-893 | repeating the same drag changes nothing |
| Mai.EmptySelectionIgnored | src/mai/MaiMain.java:2296-2298 | a selection that isSpansEmpty calls empty (no span, or the (-1, -1) placeholder first) behaves exactly like no selection under every caret event; a drag keeps a non-empty selection as its prefix |
| Mai.UndoUndoesCaret | src/mai/MaiMain.java:1143-1145 | undo takes back a drag that added a new span to a non-empty selection |
| Mai.UndoKeepsNoRepeats | src/mai/MaiMain.java:1143-1145 | undo keeps the other spans and never lists one twice |
| Mai.ContainsSpan | src/mai/MaiMain.java:882-889 | the duplicate check answers whether the span is already listed |
| Mai.ShadeAtSpec | src/mai/MaiMain.java:1313-1339 | an offset is green exactly when the gold standard tags it, black exactly when no file does, blue when every other loaded file does, red when some loaded file does not |
| Mai.ShadeOfMembers | src/mai/MaiMain.java:1315-1318 | the colour depends only on which files tag the offset |
| Mai.Range | src/mai/MaiMain.java:1313-1314 | the offsets from start up to, not including, end |
| Mai.CoveredSpec | src/mai/MaiMain.java:1290-1293 | an offset is coloured exactly when one of the spans covers it |
| Mai.Shades | src/mai/MaiMain.java:1310-1340 | each offset of the set gets its colour by the rule |
| Mai.ShadesUnion | src/mai/MaiMain.java:1290-1293 | colouring two sets of offsets is colouring their union |
| Mai.OffsetShade | src/mai/MaiMain.java:1315-1338 | one offset's colour, from the files tagged there |
| Mai.SpanShades | src/mai/MaiMain.java:1310-1340 | the loop colours each offset of the span by the rule |
| Mai.ShadesStep | src/mai/MaiMain.java:1313-1314 | one more offset adds its colour |
| Mai.SpansShades | src/mai/MaiMain.java:1285-1295 | every offset covered by a span is coloured by the rule |
| Mai.NextColorMod | src/mai/MaiMain.java:2008-2013 | the colour handed out at table size k is the palette taken cyclically, `mColors[k % 7]` |
| Mai.HandedKeys | src/mai/MaiMain.java:2006-2014 | exactly the keys of the starting table and the files added have a colour |
| Mai.HandedSpec | src/mai/MaiMain.java:2006-2014 | with distinct names that are not already keys, the i-th file added gets colour i + (the starting table's size) of the palette, cyclically, and the starting entries keep theirs |
| Mai.AddedColors | src/mai/MaiMain.java:337-340 | after starting an adjudication (three fixed entries) the i-th file added gets colour i + 3 of the palette, so the first gets LightBlue; the gold standard stays Yellow |
| Mai.ReservedNameShared | src/mai/MaiMain.java:339 | a file named `allOtherFiles` takes over that fixed entry, so the table stays at three entries and the next file gets LightBlue as well |
| Mai.HandedDiffer | src/mai/MaiMain.java:98-99 | any seven files added in a row get seven different colours |
| Mai.HandedAppend | src/mai/MaiMain.java:2006-2014 | adding a file gives it the next colour of the palette, cyclically |
| Mai.FreshName | src/mai/MaiMain.java:423-425 | the name a loaded file gets is not the name of a file already loaded |
| Mai.Xs | src/mai/MaiMain.java:424 | a run of k letters x |
| Mai.FreshNameSpec | src/mai/MaiMain.java:423-425 | the name is the first of name, xname, xxname, … that is free |
| Mai.FreshNameOf | src/mai/MaiMain.java:423-425 | the renaming loop computes FreshName |
| Mai.LinksMinus | src/mai/MaiMain.java:674-682 | the links left are exactly those not of the file with one of the given (type, id) pairs |
| Mai.LinksMinusTwice | src/mai/MaiMain.java:678-682 | deleting one set of links and then another is deleting both |
| Mai.LinksWithoutIsMinus | src/mai/AdjudDB.java:760-774 | deleting one link is deleting the set holding its pair |
| Mai.LinksMinusNone | src/mai/MaiMain.java:678-682 | deleting no links changes nothing |
| Mai.CascadeSpec | src/mai/MaiMain.java:674-682 | after the cascade no link of the file is anchored at the deleted extent, and every link of another file or not anchored there stays |
| Mai.PairsOfAnchored | src/mai/MaiMain.java:674-677 | the pairs of getLinksByFileAndExtentID's answer are exactly the links anchored at the extent |
| Mai.RemoveLinksOfType | src/mai/MaiMain.java:679-681 | the inner loop deletes exactly the links of the type with the listed ids |
| Mai.TaggedIdsStep | src/mai/MaiMain.java:679-681 | one more id adds one pair |
| Mai.RemoveAnchoredLinks | src/mai/MaiMain.java:677-692 | the outer loop deletes exactly the links of the collection |
| Mai.PairsUpToStep | src/mai/MaiMain.java:677-682 | one more link type adds its ids |
| Mai.PairsUpToAll | src/mai/MaiMain.java:677-682 | all the key list's types give all the pairs of the collection |
| Mai.GoneShrinks | src/mai/MaiMain.java:658-699 | a deleted tag stays deleted while later rows are deleted |
| Mai.MaiMain.constructor | src/mai/MaiMain.java:187-201 | the window starts in normal mode with nothing selected and only the gold standard loaded |
| Mai.MaiMain.ResetSpans | src/mai/MaiMain.java:2303-2308 | the selection becomes ResetValue of the mode; nothing else changes |
| Mai.MaiMain.EnterMultiSpanMode | src/mai/MaiMain.java:1119-1124 | multi-span mode with an empty selection |
| Mai.MaiMain.ReturnToNormalMode | src/mai/MaiMain.java:2287-2294 | normal mode with the non-consuming span selected |
| Mai.MaiMain.CaretUpdate | src/mai/MaiMain.java:863-901 | the selection becomes AfterCaret of the old one; a drag marks text as selected, a click outside multi-span mode unmarks it |
| Mai.MaiMain.UndoLastSpan | src/mai/MaiMain.java:1143-1161 | the selection becomes UndoValue of the old one |
| Mai.MaiMain.AssignTextColor | src/mai/MaiMain.java:1310-1340 | each offset of the span is given its colour by the rule |
| Mai.MaiMain.AssignSpansColor | src/mai/MaiMain.java:1285-1295 | for an extent type, each offset covered by the spans is given its colour; otherwise nothing changes |
| Mai.MaiMain.StartAdjudication | src/mai/MaiMain.java:325-343 | the opened file and the gold standard are the files; the store is empty with the DTD's tables; the id counters are reset; the colour table holds exactly the three fixed entries, so the opened file has no colour; normal mode |
| Mai.MaiMain.OpenFiles | src/mai/MaiMain.java:329-343 | the window's part: the two files, the three fixed colours and normal mode |
| Mai.MaiMain.ResetStore | src/mai/MaiMain.java:334-336 | the store's part: an empty store with a table per element type and the id counters back at 0 |
| Mai.MaiMain.AssignColors | src/mai/MaiMain.java:2006-2014 | the file gets the next colour of the palette, cyclically |
| Mai.MaiMain.AddFile | src/mai/MaiMain.java:421-427 | the file is added at the front under its first free name and gets the next colour |
| Mai.MaiMain.SettleId | src/mai/MaiMain.java:1843-1871 | a row with an id has its old gold-standard tag deleted; a row without one gets the first free id of its type, failing when the type has no counter or the table no id column |
| Mai.MaiMain.StoreRow | src/mai/MaiMain.java:1872-1901 | an extent row selects its spans (a malformed spans cell fails), is stored with its index rows, coloured, and the selection reset; a link row is stored with its link row |
| Mai.MaiMain.AddRowToGoldStandard | src/mai/MaiMain.java:1842-1902 | the row's tag replaces its earlier version in the gold standard, or is added under an id no gold-standard tag had; the id counter moves past it |
| Mai.MaiMain.RemoveRow | src/mai/MaiMain.java:658-699 | a gold-standard extent row is deleted together with every gold-standard link anchored at it; a gold-standard link row is deleted; a row of another file is kept; only the gold standard changes |
| Mai.MaiMain.RemoveSelectedRows | src/mai/MaiMain.java:625-704 | the selected rows are handled last to first: only gold-standard rows go, nothing is added, and when no row fails every selected gold-standard tag is gone |

## Left out

- The Swing window is not modelled: its frames, tables, menus, status bar, highlighters, dialogs and the table model. The model keeps only the state those parts read and write: the selection, the mode, the file list, the colour tables and the rows handed to the store.
- Reading files is not modelled. This covers `DTDLoader.readFile`, its regular-expression clean-up of declarations, SAX parsing in `XMLHandler`, and writing the gold-standard file. Their inputs are parameters: one declaration string, the default-value matches, and the attribute list of an element.
- JDBC is not modelled: the connection, prepared statements, batching, `closeDb`, and the SQL text itself. Tables are sequences of rows, and a row counts as written when the call adds it to its batch. Java writes batched rows only at the next `executeBatch`, which the lines on AddTagsFromHash below spell out for a failing call.
- `refreshTextColors`, `findRelatedTags`, `setColorAtLocation` and highlighting are left out: they only repaint. The colour each offset gets is kept as a map from offset to colour.
- The `mVisited` bookkeeping in `RemoveSelectedTableRows` is left out. It only affects the link-selection display. As written it would throw when no link of that type was visited; that effect is not modelled.
- Mai.MaiMain.AddRowToGoldStandard: for a link, the update of `mCurTag` from the tag buttons and the repaint are not modelled.
- Mai.MaiMain.RemoveSelectedRows: the row's id, source and spans cells arrive as a `TableRow`. The column search over the table model is not modelled, and a NULL cell is not modelled either.
- `ElemLink`, `AttID`, `AttList` and `AttData` are not part of this model. Their constructors are assumed to:
  - set the name and the required flag;
  - `ElemLink` adds an id attribute and the `fromID`/`toID` attributes;
  - an id counter prints as prefix plus decimal number.
- Java `int` arithmetic is exact here, with two exceptions: offsets are `Int32`, and `Integer.parseInt` rejects out-of-range text. An id counter that would pass 2^31 is not modelled.
- Several orders are left open, and no contract depends on them:
  - the enumeration order of a `Hashtable` (`inOther` and `inGS` in `getGSLinksByType`, the per-file tables of `getLinkTagsInSpanByType`);
  - the key order of `HashCollection.getKeyList`.
- AdjudStore.AdjudDB.GetGSLinksByType: for the promoted links of other files, only which entries follow the gold-standard links is stated, not their order.
- AdjudStore.AdjudDB.AddTagsFromHash: the link pass is only stated to append to the link table and to leave the tables of other types alone; the rows it adds to the link types' tables are not stated. Its effect on each link is UsePreparedLinkStatements' contract.
- AdjudStore.AdjudDB.LinkPass: states that the extents, overlaps, current links and the tables of other types are kept and that link rows are only appended, not which link rows and table rows are added.
- Adjudication.AdjudicationTask.AddTagsFromHash: states the extent pass and the overlaps, and of the link pass only that other types' tables are kept.
- AdjudStore.AdjudDB.AddTagsFromHash: when a tag is refused, the exception leaves the method before `batchExtents()` and `batchAll(dtd)` run (`AdjudDB.java:181-204`), so in Java nothing of the call is in the database yet. The model states the type tables as PassTables, with the table rows batched before the exception already written, and says nothing of the index rows batched before it. Java writes both at the next `executeBatch` on those statements, which is the next addTagsFromHash or `AdjudicationTask.java:109`.
- AdjudStore.AdjudDB.ExtentPassTags: the same as AddTagsFromHash. The rows batched before the refused tag are stated as written.
- AdjudStore.AdjudDB.AddExtentTags: the same as AddTagsFromHash. The table rows up to the refused tag are stated as written, and Java holds them in the batch until the next `executeBatch`.
- Adjudication.AdjudicationTask.AddTagsFromHash: the same as the store's AddTagsFromHash.
- AdjudStore.AdjudDB.LinkPass: Java dispatches each element on `dtd.getElem(name)`, the first element whose name matches ignoring case (`AdjudDB.java:205-207`). The model uses the element itself. The two differ only when two element names differ only in case.
- Mai.MaiMain.StartAdjudication: the window's part runs before the store's part here, while Java resets the store between setting the file list and the colour table. The two parts share no state. Reading the opened file and storing its tags (`AdjudicationTask.AddTagsFromHash`), the title, `mVisited` and the text pane are not modelled.
- Mai.MaiMain.AddFile: the "add file" command is enabled only after an adjudication has started (`isFileOpen`, `MaiMain.java:2041-2045`). The model does not keep that flag. From the constructor's empty colour table AddFile would hand out Magenta first; after StartAdjudication it hands out LightBlue first (AddedColors).
- AdjudStore.AdjudDB.GetExtentTagsByFileAndType: when a type does have a `start` column, SQL orders the rows by it. The model keeps the insertion order.
- AdjudStore.AdjudDB.GetLinkTagsByFileAndType: the `order by id` is stated only as "some order of the file's rows".
- Adjudication.AdjudicationTask.GetLinkTagsByFileAndType: the same.
- DtdLoading.DtdLoader.Process: states only the case of an ignored line. The effect of each declaration is the contract of CreateElement, AddListAtt, AddDataAtt or AddMeta.
- DtdLoading.DtdLoader.AddAttribute: states the frame only. The two branches are AddListAtt and AddDataAtt.
- The multi-span `getLinkTagsSpanByType(spans, tagName)` (`AdjudicationTask.java:401-408`) is not modelled. It folds the one-span answer, which is modelled, with `putAll`, and that fold does not guard against a null answer.
- Plain getters and setters are the fields themselves:
  - `getElemHash`, `hasDTD` and `getDTDName`;
  - `XMLHandler.getText` and `returnTagHash`;
  - `DTDLoader.getDTD`;
  - `getCurrentHighlights`.
- The debug printers (`printExtents`, `printUniqueExtents`, `printLinks`, `printOverlaps`, `printOther`) are left out: they only print.
- A tag with no `id` attribute is not stored the way Java stores it. In Java `tag.get("id")` is null, and the index, overlap and link rows are written with a NULL id. Here a row's id is a `string`, so such a tag is refused with `MissingId` and none of those rows is added. The members this affects:
- AdjudStore.TagIndexRows: a tag without an id fails with `MissingId`. Java indexes it under a NULL id (`AdjudDB.java:268-283`).
- AdjudStore.TagIndexRowsSpec: states indexing only for tags that have an id, for the same reason.
- AdjudStore.LinkRowOf: a link without an id gets no link row. Java adds one with a NULL id (`AdjudDB.java:327-329`).
- AdjudStore.LinkRowOfSpec: the same as LinkRowOf.
- AdjudStore.AdjudDB.UsePreparedExtentStatements: a tag without an id adds its table row but no index rows.
- AdjudStore.AdjudDB.UsePreparedLinkStatements: a link without an id adds its table row but no link row.
- AdjudStore.AdjudDB.AddOverlaps: a gold tag without an id records no overlaps. Java records them with a NULL gold id (`AdjudDB.java:824-840`).
- AdjudStore.AdjudDB.AddExtentTags: in the extent pass a tag without an id adds no index rows and does not stop the loop. Java indexes it under a NULL id (`AdjudDB.java:586-592`).
- AdjudStore.AdjudDB.ExtentPassTags: the same as AddExtentTags.
- Adjudication.AdjudicationTask.AddTagFromHash: an extent without an id adds its table row only, and a link without an id adds no link row. Java writes both with a NULL id (`AdjudDB.java:586-592`, `AdjudDB.java:640-648`).
- Schema.ElemNamed: `equalsIgnoreCase` is modelled on ASCII letters only. Java also folds the case of other Unicode letters, so two names that differ only in a non-ASCII letter's case match in Java and not here.
- Schema.DTD.GetElem: the same ASCII-only case folding as ElemNamed (`DTD.java:65`).
- Schema.DTD.HasElem: the same ASCII-only case folding as ElemNamed (`DTD.java:74`). It also applies to the `start`/`spans` test of addDataAtt (`DTDLoader.java:214-215`), to the text element in `XMLHandler.java:50`, and to the type comparison in `MaiMain.java:648-664`.
- Spans.ParseSpansString: `Integer.parseInt` is modelled on the ASCII digits `0`-`9`. Java also accepts other Unicode decimal digits, so a spans string written with such digits parses in Java and fails here with a NumberFormat exception.
- AdjudStore.AdjudDB.GetGSLinksByType: Java joins file name, id and type into one key with `@#@` and splits it again (`AdjudDB.java:1019-1040`, `1052-1087`). The model keeps them as a tuple. This differs when a value contains `@#@`, and when an id is empty: `split` then drops the trailing empty field, and `split(SEP)[1]` throws (`AdjudDB.java:1226`).
- LinkQueries.Gather: when a type's table holds two rows with the same file and id, Java puts the same `linkElems` table into the collection twice (`AdjudDB.java:1233-1239`). The first visit rewrites its `fromID` and `toID` in place, so the second visit reads the rewritten ids (`AdjudDB.java:1289-1300`). The model treats the two entries as separate values.
- `addExtent` and `insertExtent` are covered through UsePreparedExtentStatements, since the model stores the index rows directly. `addLink` and `insertLink` are covered through UsePreparedLinkStatements.

## Findings

| source | as written | input that shows it | evidently intended | confidence | as-written member | corrected member |
|---|---|---|---|---|---|---|
| src/mai/AdjudDB.java:875 | `findAllOverlaps` looks up each gold tag's location under the file name `"goldstandard.xml"`, but the gold standard is stored as `"goldStandard.xml"`. The lookup finds no row, and `locs.get(0)` throws IndexOutOfBounds (`AdjudDB.java:936`). | A store with the gold row `(goldStandard.xml, 3, NOUN, N0)` and the row `(a.xml, 3, NOUN, N7)`. | Look the location up under `GS_FILE`, so each gold tag's overlaps are recorded. | high, not executed | OverlapScan.AsWrittenOverlapsFail, OverlapScan.AsWrittenOverlapsExample | OverlapScan.AllOverlapsSpec, AdjudStore.AdjudDB.FindAllOverlaps |
| src/mai/AdjudDB.java:1257-1258 | `getLinkTagsInSpanByType` calls `getSpansByFileElemAndId(elemName, fileName, id)`, but the method is declared `(fileName, elemName, id)`. The query goes to a table named after the file. | A link `N0 → V0` in `a.xml`, with extents `N0` (NOUN) and `V0` (VERB): there is no table `a.xml`. | Pass the file name first, so the anchor's spans are read from its element table. | high, not executed | LinkQueries.SwappedLookupFails, LinkQueries.SwappedLookupExample | LinkQueries.KeptIffEitherEnd, LinkQueries.KeptAnchorsAreGold |
| src/mai/AdjudDB.java:483-486 | `makeTagStringsForOutput` escapes `<` and `>` before `&`, so the `&` of `&lt;` is escaped again. | The attribute value `<` is written as `&amp;lt;`. | Escape `&` first, so that reading the value back gives `<`. | high, not executed | TagOutput.EscapeAsWrittenDoubles | TagOutput.UnescapeEscape, TagOutput.Escape |

/**
 * AdjudDB: the adjudication database. Its tables are fields of the class, sequences of rows
 * in insertion order, and each method performs the statements the Java method sends to
 * SQLite as updates of these fields. mCurLinks and mCurHL, the state kept between the link
 * queries, are fields too.
 */
module AdjudStore {
  import opened Common
  import opened JavaStrings
  import opened Spans
  import opened Schema
  import opened Collections
  import opened AdjudTables
  import opened OverlapScan
  import opened TagOutput
  import opened LinkQueries

  // ---------------------------------------------------------------------------------------
  // Row-level definitions the methods are stated with
  // ---------------------------------------------------------------------------------------

  /** The tables addDTD creates: an empty one for each tag type, by name. */
  function EmptyTables(types: seq<TagType>): (r: map<string, seq<TagRow>>)
    ensures forall k :: k in r <==> exists i :: 0 <= i < |types| && types[i].name == k
    ensures forall k :: k in r ==> r[k] == []
    decreases |types|
  {
    if |types| == 0 then map[]
    else
      var init := types[..|types| - 1];
      assert forall i :: 0 <= i < |init| ==> init[i] == types[i];
      EmptyTables(init)[types[|types| - 1].name := []]
  }

  /** `tables` with `row` added to the table `name`; without such a table nothing is added. */
  function AddRow(tables: map<string, seq<TagRow>>, name: string, row: TagRow): (r: map<string, seq<TagRow>>)
    ensures r.Keys == tables.Keys
    ensures name in tables ==> r[name] == tables[name] + [row]
    ensures forall k :: k in tables && k != name ==> r[k] == tables[k]
  {
    if name in tables then tables[name := tables[name] + [row]] else tables
  }

  /**
   * The index rows usePreparedExtentStatements adds for one tag, or the exception that ends
   * it: parseSpansString throws on a missing spans value and on a malformed one.
   */
  function TagIndexRows(file: string, name: string, tag: map<string, string>): (r: Result<seq<ExtentRow>>)
    ensures r.Ok? ==> StoredRows(r.value)
    ensures r.Fail? ==> (r.exc == NullPointer <==> "spans" !in tag)
  {
    if "spans" !in tag then Fail(NullPointer)
    else
      var spans := Parse(tag["spans"]);
      if spans.Fail? then
        assert spans.exc != NullPointer by { ParseFails(tag["spans"]); }
        Fail(spans.exc)
      else if "id" !in tag then Fail(MissingId)
      else
        IndexRowsStored(file, name, tag["id"], spans.value);
        Ok(IndexRows(file, name, tag["id"], spans.value))
  }

  /** parseSpansString fails only with a malformed number or a pair without `~`. */
  lemma ParseFails(s: string)
    requires Parse(s).Fail?
    ensures Parse(s).exc == NumberFormat || Parse(s).exc == IndexOutOfBounds
  {
    if s != "-1~-1" {
      ParsePairsFails(Split(s, [SPAN_SEPARATOR]));
    }
  }

  lemma {:induction false} ParsePairsFails(pairs: seq<string>)
    requires ParsePairs(pairs).Fail?
    ensures ParsePairs(pairs).exc == NumberFormat || ParsePairs(pairs).exc == IndexOutOfBounds
  {
    if ParsePair(pairs[0]).Ok? {
      ParsePairsFails(pairs[1..]);
    }
  }

  /**
   * A stored tag: a tag whose spans parse and which has an id gets exactly the index rows
   * of its spans, and the rows keep the offsets in range.
   */
  lemma TagIndexRowsSpec(file: string, name: string, tag: map<string, string>, row: ExtentRow)
    ensures TagIndexRows(file, name, tag).Ok? <==> "spans" in tag && Parse(tag["spans"]).Ok? && "id" in tag
    ensures TagIndexRows(file, name, tag).Ok? ==>
      (row in TagIndexRows(file, name, tag).value <==>
        row.file == file && row.elemName == name && row.id == tag["id"]
        && exists k :: 0 <= k < |Parse(tag["spans"]).value| && Indexes(Parse(tag["spans"]).value[k], row.location))
  {
    if TagIndexRows(file, name, tag).Ok? {
      IndexRowsSpec(file, name, tag["id"], Parse(tag["spans"]).value, row);
    }
  }

  /**
   * The links row usePreparedLinkStatements adds: the types of both anchors are read from
   * the index, and a missing anchor row throws before the row is added. A Java null id is
   * printed into the query as "null".
   */
  function LinkRowOf(extents: seq<ExtentRow>, file: string, name: string, tag: map<string, string>): Option<LinkRow>
  {
    var fromId := ValueOrNull(tag, "fromID");
    var toId := ValueOrNull(tag, "toID");
    var fromType := ElementOf(extents, file, fromId);
    var toType := ElementOf(extents, file, toId);
    if fromType.Fail? || toType.Fail? || "id" !in tag then None
    else Some(LinkRow(file, tag["id"], fromId, fromType.value, toId, toType.value, name))
  }

  /**
   * A link is stored exactly when both its anchors are in the index of its file, and the
   * stored anchor types are those of the anchors' first index rows.
   */
  lemma LinkRowOfSpec(extents: seq<ExtentRow>, file: string, name: string, tag: map<string, string>)
    ensures LinkRowOf(extents, file, name, tag).Some? <==>
      "id" in tag
      && (exists i :: 0 <= i < |extents| && extents[i].file == file && extents[i].id == ValueOrNull(tag, "fromID"))
      && (exists i :: 0 <= i < |extents| && extents[i].file == file && extents[i].id == ValueOrNull(tag, "toID"))
    ensures LinkRowOf(extents, file, name, tag).Some? ==>
      var l := LinkRowOf(extents, file, name, tag).value;
      l.file == file && l.elemName == name && l.id == tag["id"]
      && (exists i :: 0 <= i < |extents| && extents[i].file == file && extents[i].id == l.fromId
            && extents[i].elemName == l.fromName)
      && (exists i :: 0 <= i < |extents| && extents[i].file == file && extents[i].id == l.toId
            && extents[i].elemName == l.toName)
  {
  }

  /** The index without the rows of tag (file, type, id). */
  function ExtentsWithout(extents: seq<ExtentRow>, file: string, elemName: string, id: string): (r: seq<ExtentRow>)
    ensures forall x :: x in r <==> x in extents && !(x.id == id && x.elemName == elemName && x.file == file)
    ensures StoredRows(extents) ==> StoredRows(r)
  {
    Filter(extents, (x: ExtentRow) => !(x.id == id && x.elemName == elemName && x.file == file))
  }

  /** The link table without the rows of link (file, type, id). */
  function LinksWithout(links: seq<LinkRow>, file: string, elemName: string, id: string): (r: seq<LinkRow>)
    ensures forall x :: x in r <==> x in links && !(x.id == id && x.elemName == elemName && x.file == file)
  {
    Filter(links, (x: LinkRow) => !(x.id == id && x.elemName == elemName && x.file == file))
  }

  /** A type table without the rows of (file, id); a row whose id is NULL never matches. */
  function RowsWithout(rows: seq<TagRow>, file: string, id: string): (r: seq<TagRow>)
    ensures forall x :: x in r <==> x in rows && !(x.file == file && Column(x, "id") == Some(id))
  {
    Filter(rows, (x: TagRow) => !(x.file == file && Column(x, "id") == Some(id)))
  }

  /** The overlap table without the rows of gold tag (gsid, type). */
  function OverlapsWithout(overlaps: seq<OverlapRow>, gsid: string, elemName: string): (r: seq<OverlapRow>)
    ensures forall x :: x in r <==> x in overlaps && !(x.gsid == gsid && x.elemName == elemName)
  {
    Filter(overlaps, (x: OverlapRow) => !(x.gsid == gsid && x.elemName == elemName))
  }

  // ---------------------------------------------------------------------------------------
  // getLocByFileAndID's coalescing loop
  // ---------------------------------------------------------------------------------------

  /** The text of `runs` up to the last run's start: what the loop has built before the final `~end`. */
  function OpenText(runs: seq<Span>): string
    requires |runs| > 0
  {
    (if |runs| == 1 then "" else Format(runs[..|runs| - 1]) + [SPAN_SEPARATOR]) + IntToString(runs[|runs| - 1].start)
  }

  lemma OpenClose(runs: seq<Span>)
    requires |runs| > 0
    ensures Format(runs) == OpenText(runs) + [SPAN_DELIMITER] + IntToString(runs[|runs| - 1].end)
  {
    var n := |runs|;
    var last := runs[n - 1];
    assert runs == runs[..n - 1] + [last];
    FormatSnoc(runs[..n - 1], last);
    var start, end := IntToString(last.start), IntToString(last.end);
    var head := if n == 1 then "" else Format(runs[..n - 1]) + [SPAN_SEPARATOR];
    AppendAssoc(head + start, [SPAN_DELIMITER], end);
    AppendAssoc(head, start, [SPAN_DELIMITER] + end);
    AppendAssoc(start, [SPAN_DELIMITER], end);
  }

  /**
   * The loop of getLocByFileAndID over the sorted offsets: an offset at most one past the
   * current run's last offset extends the run, any other closes it with `~last+1` and opens
   * a new one with `,offset`; the final run is closed after the loop.
   */
  method Coalesce(locs: seq<int>) returns (s: string)
    requires |locs| > 0 && SortedInts(locs) && StoredLocations(locs)
    ensures s == Format(Runs(locs))
  {
    var endCandi;
    s, endCandi := OpenRuns(locs);
    CloseRuns(locs);
    s := s + [SPAN_DELIMITER] + IntToString(endCandi + 1);
  }

  /** The loop itself: every run but the last is closed, the last is open at its start. */
  method OpenRuns(locs: seq<int>) returns (s: string, endCandi: int)
    requires |locs| > 0 && SortedInts(locs) && StoredLocations(locs)
    ensures s == OpenAfter(locs, |locs|) && endCandi == locs[|locs| - 1]
  {
    endCandi := locs[0];
    s := IntToString(locs[0]);
    FirstRun(locs);
    if |locs| > 1 {
      var i := 0;
      while i < |locs|
        invariant 0 <= i <= |locs|
        invariant s == OpenAfter(locs, Seen(i)) && endCandi == locs[Seen(i) - 1]
      {
        CoalesceTurn(locs, i, s, endCandi);
        s, endCandi := Extend(s, endCandi, locs[i]);
        i := i + 1;
      }
    }
  }

  /** Closing the open run at one past the last offset gives the whole formatted text. */
  lemma CloseRuns(locs: seq<int>)
    requires |locs| > 0 && SortedInts(locs) && StoredLocations(locs)
    ensures Format(Runs(locs)) == OpenAfter(locs, |locs|) + [SPAN_DELIMITER] + IntToString(locs[|locs| - 1] + 1)
  {
    assert locs[..|locs|] == locs;
    OpenClose(Runs(locs));
  }

  /** How many offsets the loop has taken into account after `i` turns: the first is there from the start. */
  function Seen(i: nat): (n: nat)
    ensures n >= 1
  {
    if i == 0 then 1 else i
  }

  /** The body of the loop for one offset `loc`. */
  method Extend(s: string, endCandi: int, loc: int) returns (s': string, endCandi': int)
    ensures endCandi' == loc
    ensures s' == Turn(s, endCandi, loc)
  {
    s' := s;
    if loc > endCandi + 1 {
      s' := s + [SPAN_DELIMITER] + IntToString(endCandi + 1) + [SPAN_SEPARATOR] + IntToString(loc);
    }
    endCandi' := loc;
  }

  /** The first offset alone is one run, open at that offset. */
  lemma FirstRun(locs: seq<int>)
    requires |locs| > 0 && SortedInts(locs) && StoredLocations(locs)
    ensures OpenText(Runs(locs[..1])) == IntToString(locs[0])
  {
    var one := locs[..1];
    assert one == [locs[0]];
    var r := Runs(one);
    assert r == [Span(locs[0], locs[0] + 1)];
    assert |r| == 1;
  }

  /** The open text of the runs of the first `n` offsets. */
  function OpenAfter(locs: seq<int>, n: nat): string
    requires 0 < n <= |locs| && SortedInts(locs) && StoredLocations(locs)
  {
    SortedPrefix(locs, n);
    OpenText(Runs(locs[..n]))
  }

  /** What one turn of the loop makes of the text `s` when the open run ends at `endCandi`. */
  function Turn(s: string, endCandi: int, loc: int): string
  {
    if loc <= endCandi + 1 then s
    else s + [SPAN_DELIMITER] + IntToString(endCandi + 1) + [SPAN_SEPARATOR] + IntToString(loc)
  }

  /** Turn `i` of the loop, the first offset (already open) included. */
  lemma CoalesceTurn(locs: seq<int>, i: nat, s: string, endCandi: int)
    requires |locs| > 0 && SortedInts(locs) && StoredLocations(locs)
    requires i < |locs|
    requires s == OpenAfter(locs, Seen(i)) && endCandi == locs[Seen(i) - 1]
    ensures Turn(s, endCandi, locs[i]) == OpenAfter(locs, Seen(i + 1)) && locs[i] == locs[Seen(i + 1) - 1]
  {
    if i == 0 {
      assert Seen(i) == 1 && Seen(i + 1) == 1;
      var t := OpenAfter(locs, 1);
      assert Turn(t, locs[0], locs[0]) == t;
    } else {
      assert Seen(i) == i && Seen(i + 1) == i + 1;
      CoalesceStep(locs, i);
    }
  }

  /** One turn of the loop: what it appends to the open text, if anything, opens the next run. */
  lemma CoalesceStep(locs: seq<int>, i: nat)
    requires |locs| > 0 && SortedInts(locs) && StoredLocations(locs)
    requires 0 < i < |locs|
    ensures OpenAfter(locs, i + 1) == Turn(OpenAfter(locs, i), locs[i - 1], locs[i])
  {
    SortedPrefix(locs, i);
    SortedPrefix(locs, i + 1);
    var init := locs[..i];
    var cur := locs[..i + 1];
    assert cur[..i] == init;
    assert cur[i] == locs[i];
    var prev := Runs(init);
    var last := prev[|prev| - 1];
    assert last.end == locs[i - 1] + 1;
    if locs[i] <= locs[i - 1] + 1 {
      var next := prev[..|prev| - 1] + [Span(last.start, locs[i] + 1)];
      assert Runs(cur) == next;
      assert next[..|next| - 1] == prev[..|prev| - 1];
    } else {
      var next := prev + [Span(locs[i], locs[i] + 1)];
      assert Runs(cur) == next;
      assert next[..|next| - 1] == prev;
      OpenClose(prev);
    }
  }

  /** isOverlapped: the first target whose closed range meets the source's, or null. */
  method IsOverlapped(targets: seq<Span>, source: Span) returns (r: Option<Span>)
    ensures r == FirstOverlap(targets, source)
  {
    var i := 0;
    while i < |targets|
      invariant 0 <= i <= |targets|
      invariant forall j :: 0 <= j < i ==> !Overlaps(targets[j], source)
    {
      if Overlaps(targets[i], source) {
        FirstOverlapAt(targets, source, i);
        return Some(targets[i]);
      }
      i := i + 1;
    }
    return None;
  }

  lemma FirstOverlapAt(targets: seq<Span>, source: Span, i: nat)
    requires i < |targets| && Overlaps(targets[i], source)
    requires forall j :: 0 <= j < i ==> !Overlaps(targets[j], source)
    ensures FirstOverlap(targets, source) == Some(targets[i])
  {
    var r := FirstOverlap(targets, source);
    var k :| 0 <= k < |targets| && targets[k] == r.value && Overlaps(r.value, source)
      && forall j :: 0 <= j < k ==> !Overlaps(targets[j], source);
    assert k == i;
  }

  // ---------------------------------------------------------------------------------------
  // addTagsFromHash, extent pass
  // ---------------------------------------------------------------------------------------

  /** A tag whose index rows end addTagsFromHash with an exception (a tag without id does not). */
  predicate Rejected(file: string, name: string, tag: map<string, string>)
  {
    Refused(TagIndexRows(file, name, tag))
  }

  /** A failure other than a missing id. */
  predicate Refused(x: Result<seq<ExtentRow>>)
  {
    x.Fail? && x.exc != MissingId
  }

  /** The index rows of each tag, in order. */
  function TagResults(file: string, name: string, tags: seq<map<string, string>>): (r: seq<Result<seq<ExtentRow>>>)
    ensures |r| == |tags|
    ensures forall j :: 0 <= j < |tags| ==> r[j] == TagIndexRows(file, name, tags[j])
  {
    seq(|tags|, j requires 0 <= j < |tags| => TagIndexRows(file, name, tags[j]))
  }

  /** The loop over the tags of one type: rows appended in order, a missing id skipped, the first other failure kept. */
  function GatherRows(rs: seq<Result<seq<ExtentRow>>>): (r: Result<seq<ExtentRow>>)
    ensures r.Fail? ==> Refused(r)
    decreases |rs|
  {
    if |rs| == 0 then Ok([])
    else
      var init := GatherRows(rs[..|rs| - 1]);
      var next := rs[|rs| - 1];
      if init.Fail? then init
      else if Refused(next) then Fail(next.exc)
      else if next.Fail? then init
      else Ok(init.value + next.value)
  }

  lemma {:induction false} GatherRowsStored(rs: seq<Result<seq<ExtentRow>>>)
    requires forall j :: 0 <= j < |rs| && rs[j].Ok? ==> StoredRows(rs[j].value)
    ensures GatherRows(rs).Ok? ==> StoredRows(GatherRows(rs).value)
    decreases |rs|
  {
    if |rs| > 0 {
      var init := rs[..|rs| - 1];
      assert forall j :: 0 <= j < |init| ==> init[j] == rs[j];
      GatherRowsStored(init);
      if GatherRows(init).Ok? && rs[|rs| - 1].Ok? {
        StoredRowsAppend(GatherRows(init).value, rs[|rs| - 1].value);
      }
    }
  }

  lemma {:induction false} GatherRowsFail(rs: seq<Result<seq<ExtentRow>>>)
    ensures GatherRows(rs).Fail? <==> exists j :: 0 <= j < |rs| && Refused(rs[j])
    decreases |rs|
  {
    if |rs| > 0 {
      var init := rs[..|rs| - 1];
      assert forall j :: 0 <= j < |init| ==> init[j] == rs[j];
      GatherRowsFail(init);
    }
  }

  lemma {:induction false} GatherRowsSpec(rs: seq<Result<seq<ExtentRow>>>, x: ExtentRow)
    requires GatherRows(rs).Ok?
    ensures x in GatherRows(rs).value <==> exists j :: 0 <= j < |rs| && rs[j].Ok? && x in rs[j].value
    decreases |rs|
  {
    if |rs| > 0 {
      var init := rs[..|rs| - 1];
      assert forall j :: 0 <= j < |init| ==> init[j] == rs[j];
      GatherRowsSpec(init, x);
    }
  }

  /** The index rows of the tags of one extent type, in order, or the first exception. */
  function TagsIndexRows(file: string, name: string, tags: seq<map<string, string>>): (r: Result<seq<ExtentRow>>)
    ensures r.Ok? ==> StoredRows(r.value)
  {
    var rs := TagResults(file, name, tags);
    GatherRowsStored(rs);
    GatherRows(rs)
  }

  /** Indexing a list of tags fails exactly when one of them is rejected. */
  lemma TagsIndexRowsFail(file: string, name: string, tags: seq<map<string, string>>)
    ensures TagsIndexRows(file, name, tags).Fail? <==> exists j :: 0 <= j < |tags| && Rejected(file, name, tags[j])
  {
    GatherRowsFail(TagResults(file, name, tags));
  }

  /** One more tag: its rows are appended, a missing id adds nothing, another failure ends it. */
  lemma TagsIndexRowsStep(file: string, name: string, tags: seq<map<string, string>>, j: nat, x: Result<seq<ExtentRow>>)
    requires j < |tags| && TagsIndexRows(file, name, tags[..j]).Ok? && x == TagIndexRows(file, name, tags[j])
    ensures x.Ok? ==> TagsIndexRows(file, name, tags[..j + 1]) == Ok(TagsIndexRows(file, name, tags[..j]).value + x.value)
    ensures x.Fail? && x.exc == MissingId ==> TagsIndexRows(file, name, tags[..j + 1]) == TagsIndexRows(file, name, tags[..j])
  {
    var rs := TagResults(file, name, tags[..j + 1]);
    assert rs[..j] == TagResults(file, name, tags[..j]);
    assert rs[j] == x;
  }

  /** The rows come from the tags that have rows, and each such tag's rows are all there. */
  lemma TagsIndexRowsSpec(file: string, name: string, tags: seq<map<string, string>>, x: ExtentRow)
    requires TagsIndexRows(file, name, tags).Ok?
    ensures x in TagsIndexRows(file, name, tags).value <==>
      exists j :: 0 <= j < |tags| && TagIndexRows(file, name, tags[j]).Ok? && x in TagIndexRows(file, name, tags[j]).value
  {
    GatherRowsSpec(TagResults(file, name, tags), x);
  }

  /**
   * The extent pass of addTagsFromHash: for each extent type of the DTD that has tags, the
   * index rows of its tags, or the first exception.
   */
  function ExtentPass(file: string, types: seq<TagType>, newTags: map<string, seq<map<string, string>>>)
    : (r: Result<seq<ExtentRow>>)
    ensures r.Ok? ==> StoredRows(r.value)
  {
    var rs := TypeResults(file, types, newTags);
    GatherRowsStored(rs);
    GatherRows(rs)
  }

  /** The rows of one type of the pass: nothing for a link type or a type without tags. */
  function TypeRows(file: string, t: TagType, newTags: map<string, seq<map<string, string>>>): (r: Result<seq<ExtentRow>>)
    ensures r.Ok? ==> StoredRows(r.value)
  {
    if t.kind == ElemKind.Extent && t.name in newTags then TagsIndexRows(file, t.name, newTags[t.name]) else Ok([])
  }

  function TypeResults(file: string, types: seq<TagType>, newTags: map<string, seq<map<string, string>>>)
    : (r: seq<Result<seq<ExtentRow>>>)
    ensures |r| == |types|
    ensures forall i :: 0 <= i < |types| ==> r[i] == TypeRows(file, types[i], newTags)
  {
    seq(|types|, i requires 0 <= i < |types| => TypeRows(file, types[i], newTags))
  }

  /** The extent pass fails exactly when the tags of one extent type with tags fail. */
  lemma ExtentPassFail(file: string, types: seq<TagType>, newTags: map<string, seq<map<string, string>>>)
    ensures ExtentPass(file, types, newTags).Fail? <==> exists i :: (0 <= i < |types| && types[i].kind == ElemKind.Extent
      && types[i].name in newTags && TagsIndexRows(file, types[i].name, newTags[types[i].name]).Fail?)
  {
    GatherRowsFail(TypeResults(file, types, newTags));
  }

  /** One more type: the rows of its tags are appended when it is an extent type with tags. */
  lemma ExtentPassStep(file: string, types: seq<TagType>, newTags: map<string, seq<map<string, string>>>, i: nat)
    requires i < |types| && ExtentPass(file, types[..i], newTags).Ok?
    ensures types[i].kind != ElemKind.Extent || types[i].name !in newTags ==>
      ExtentPass(file, types[..i + 1], newTags) == ExtentPass(file, types[..i], newTags)
    ensures (types[i].kind == ElemKind.Extent && types[i].name in newTags
      && TagsIndexRows(file, types[i].name, newTags[types[i].name]).Ok?) ==>
      ExtentPass(file, types[..i + 1], newTags) ==
        Ok(ExtentPass(file, types[..i], newTags).value + TagsIndexRows(file, types[i].name, newTags[types[i].name]).value)
  {
    var rs := TypeResults(file, types[..i + 1], newTags);
    assert rs[..i] == TypeResults(file, types[..i], newTags);
    assert rs[i] == TypeRows(file, types[i], newTags);
    assert ExtentPass(file, types[..i], newTags).value + [] == ExtentPass(file, types[..i], newTags).value;
  }

  /** The pass adds exactly the rows of the extent types' tags. */
  lemma ExtentPassSpec(file: string, types: seq<TagType>, newTags: map<string, seq<map<string, string>>>,
                        x: ExtentRow)
    requires ExtentPass(file, types, newTags).Ok?
    ensures x in ExtentPass(file, types, newTags).value <==>
      exists i :: 0 <= i < |types| && types[i].kind == ElemKind.Extent && types[i].name in newTags
        && TagsIndexRows(file, types[i].name, newTags[types[i].name]).Ok?
        && x in TagsIndexRows(file, types[i].name, newTags[types[i].name]).value
  {
    var rs := TypeResults(file, types, newTags);
    GatherRowsSpec(rs, x);
    if x in ExtentPass(file, types, newTags).value {
      var i :| 0 <= i < |rs| && rs[i].Ok? && x in rs[i].value;
      assert rs[i] == TypeRows(file, types[i], newTags);
    }
  }

  // ---------------------------------------------------------------------------------------
  // The type tables the extent pass fills
  // ---------------------------------------------------------------------------------------

  /**
   * How far the loop over a run of tags gets from `lo` on: to the end, or up to and including
   * the first tag whose exception ends it.
   */
  function Reached(rs: seq<Result<seq<ExtentRow>>>, lo: nat): (n: nat)
    requires lo <= |rs|
    ensures lo <= n <= |rs|
    ensures n == |rs| || (lo < n && Refused(rs[n - 1]))
    ensures forall k :: lo <= k < n - 1 ==> !Refused(rs[k])
    decreases |rs| - lo
  {
    if lo == |rs| then lo
    else if Refused(rs[lo]) then lo + 1
    else Reached(rs, lo + 1)
  }

  /** The rows a run of tags adds to their type's table, one per tag, in order. */
  function TableRows(file: string, atts: seq<AttDef>, tags: seq<map<string, string>>): (r: seq<TagRow>)
    ensures |r| == |tags|
    ensures forall j :: 0 <= j < |tags| ==> r[j] == TagRow(file, ColumnValues(atts, tags[j]))
  {
    seq(|tags|, j requires 0 <= j < |tags| => TagRow(file, ColumnValues(atts, tags[j])))
  }

  /** `rows` appended to the table `name`, when there is such a table. */
  function AddRows(tables: map<string, seq<TagRow>>, name: string, rows: seq<TagRow>): (r: map<string, seq<TagRow>>)
    ensures r.Keys == tables.Keys
    ensures name in tables ==> r[name] == tables[name] + rows
    ensures forall k :: k in tables && k != name ==> r[k] == tables[k]
  {
    if name in tables then tables[name := tables[name] + rows] else tables
  }

  /** The rows one type's tags add to its table: one for each tag the loop reaches. */
  function TypeTableRows(file: string, t: TagType, tags: seq<map<string, string>>): seq<TagRow>
  {
    TableRows(file, t.attributes, tags[..Reached(TagResults(file, t.name, tags), 0)])
  }

  /**
   * The type tables after the extent pass: each extent type with tags gets its rows, and the
   * pass ends after the first type whose tags fail.
   */
  function PassTables(tables: map<string, seq<TagRow>>, file: string, types: seq<TagType>,
                      newTags: map<string, seq<map<string, string>>>): (r: map<string, seq<TagRow>>)
    ensures r.Keys == tables.Keys
    decreases |types|
  {
    if |types| == 0 then tables
    else
      var t := types[0];
      if t.kind == ElemKind.Extent && t.name in newTags then
        var next := AddRows(tables, t.name, TypeTableRows(file, t, newTags[t.name]));
        if TagsIndexRows(file, t.name, newTags[t.name]).Fail? then next
        else PassTables(next, file, types[1..], newTags)
      else PassTables(tables, file, types[1..], newTags)
  }

  /** An extent type of the list that has tags to add. */
  predicate ExtentTyped(types: seq<TagType>, newTags: map<string, seq<map<string, string>>>, k: string)
  {
    exists i :: 0 <= i < |types| && types[i].kind == ElemKind.Extent && types[i].name == k && k in newTags
  }

  /** An extent type with tags further down the list is one of the list. */
  lemma ExtentTypedTail(types: seq<TagType>, newTags: map<string, seq<map<string, string>>>, k: string)
    requires |types| > 0
    ensures ExtentTyped(types[1..], newTags, k) ==> ExtentTyped(types, newTags, k)
    ensures types[0].kind == ElemKind.Extent && types[0].name in newTags ==> ExtentTyped(types, newTags, types[0].name)
  {
    if ExtentTyped(types[1..], newTags, k) {
      var i :| 0 <= i < |types[1..]| && types[1..][i].kind == ElemKind.Extent && types[1..][i].name == k && k in newTags;
      assert types[i + 1] == types[1..][i];
    }
    if types[0].kind == ElemKind.Extent && types[0].name in newTags {
      assert types[0].name == types[0].name;
    }
  }

  /** A link type of the list that has tags to add. */
  predicate LinkTyped(types: seq<TagType>, newTags: map<string, seq<map<string, string>>>, k: string)
  {
    exists i :: 0 <= i < |types| && types[i].kind == ElemKind.Link && types[i].name == k && k in newTags
  }

  /** The table of a name that is no extent type with tags is left as it was. */
  lemma {:induction false} PassTablesUntouched(tables: map<string, seq<TagRow>>, file: string, types: seq<TagType>,
                                                newTags: map<string, seq<map<string, string>>>, k: string)
    requires k in tables && !ExtentTyped(types, newTags, k)
    ensures PassTables(tables, file, types, newTags)[k] == tables[k]
    decreases |types|
  {
    if |types| > 0 {
      var t := types[0];
      ExtentTypedTail(types, newTags, k);
      if t.kind == ElemKind.Extent && t.name in newTags {
        var next := AddRows(tables, t.name, TypeTableRows(file, t, newTags[t.name]));
        if TagsIndexRows(file, t.name, newTags[t.name]).Ok? {
          PassTablesUntouched(next, file, types[1..], newTags, k);
        }
      } else {
        PassTablesUntouched(tables, file, types[1..], newTags, k);
      }
    }
  }

  /** No tag before `j` is refused when the tags before `j` index without an exception. */
  lemma OkPrefixNotRefused(file: string, name: string, tags: seq<map<string, string>>, j: nat)
    requires j <= |tags| && TagsIndexRows(file, name, tags[..j]).Ok?
    ensures forall k :: 0 <= k < j ==> !Refused(TagResults(file, name, tags)[k])
  {
    TagsIndexRowsFail(file, name, tags[..j]);
    forall k | 0 <= k < j
      ensures !Refused(TagResults(file, name, tags)[k])
    {
      assert tags[..j][k] == tags[k];
    }
  }

  /** The loop over a run of tags stops just after its first refused tag, or reaches the end. */
  lemma ReachedFirst(rs: seq<Result<seq<ExtentRow>>>, j: nat)
    requires j <= |rs| && forall k :: 0 <= k < j ==> !Refused(rs[k])
    ensures j < |rs| && Refused(rs[j]) ==> Reached(rs, 0) == j + 1
    ensures j == |rs| ==> Reached(rs, 0) == |rs|
  {
    var n := Reached(rs, 0);
    if n < |rs| {
      assert Refused(rs[n - 1]);
    }
  }

  /** A run of tags none of which is refused is reached to its end. */
  lemma ReachedAll(file: string, name: string, tags: seq<map<string, string>>)
    requires TagsIndexRows(file, name, tags).Ok?
    ensures Reached(TagResults(file, name, tags), 0) == |tags|
  {
    var rs := TagResults(file, name, tags);
    GatherRowsFail(rs);
  }

  /** A successful pass succeeds on the rest of the list, and on the first type's tags. */
  lemma ExtentPassTail(file: string, types: seq<TagType>, newTags: map<string, seq<map<string, string>>>)
    requires |types| > 0
    ensures ExtentPass(file, types, newTags).Ok? ==> ExtentPass(file, types[1..], newTags).Ok?
    ensures ExtentPass(file, types, newTags).Ok? && types[0].kind == ElemKind.Extent && types[0].name in newTags ==>
      TagsIndexRows(file, types[0].name, newTags[types[0].name]).Ok?
  {
    ExtentPassFail(file, types, newTags);
    ExtentPassFail(file, types[1..], newTags);
    if ExtentPass(file, types[1..], newTags).Fail? {
      var j :| 0 <= j < |types[1..]| && types[1..][j].kind == ElemKind.Extent && types[1..][j].name in newTags
        && TagsIndexRows(file, types[1..][j].name, newTags[types[1..][j].name]).Fail?;
      assert types[j + 1] == types[1..][j];
    }
  }

  /** Distinct names stay distinct in the rest of the list, and differ from the first. */
  lemma DistinctTail(types: seq<TagType>)
    requires |types| > 0
    requires forall a, b :: 0 <= a < b < |types| ==> types[a].name != types[b].name
    ensures forall a, b :: 0 <= a < b < |types[1..]| ==> types[1..][a].name != types[1..][b].name
    ensures forall a :: 0 <= a < |types[1..]| ==> types[1..][a].name != types[0].name
  {
    forall a, b | 0 <= a < b < |types[1..]|
      ensures types[1..][a].name != types[1..][b].name
    {
      assert types[1..][a] == types[a + 1] && types[1..][b] == types[b + 1];
    }
    forall a | 0 <= a < |types[1..]|
      ensures types[1..][a].name != types[0].name
    {
      assert types[1..][a] == types[a + 1];
    }
  }

  /** A name that is not in the list is no extent type of it. */
  lemma NotExtentTyped(types: seq<TagType>, newTags: map<string, seq<map<string, string>>>, k: string)
    requires forall a :: 0 <= a < |types| ==> types[a].name != k
    ensures !ExtentTyped(types, newTags, k)
  {
  }

  /**
   * When the extent pass succeeds and the type names are distinct, the table of each extent
   * type with tags gains one row for every one of its tags, in order.
   */
  lemma {:induction false} PassTablesAll(tables: map<string, seq<TagRow>>, file: string, types: seq<TagType>,
                                          newTags: map<string, seq<map<string, string>>>, i: nat)
    requires ExtentPass(file, types, newTags).Ok?
    requires forall a, b :: 0 <= a < b < |types| ==> types[a].name != types[b].name
    requires i < |types| && types[i].kind == ElemKind.Extent && types[i].name in newTags && types[i].name in tables
    ensures PassTables(tables, file, types, newTags)[types[i].name] ==
      tables[types[i].name] + TableRows(file, types[i].attributes, newTags[types[i].name])
    decreases |types|
  {
    var t := types[0];
    if i == 0 {
      PassTablesFirst(tables, file, types, newTags);
    } else {
      ExtentPassTail(file, types, newTags);
      DistinctTail(types);
      var rest := types[1..];
      assert rest[i - 1] == types[i];
      var next := if t.kind == ElemKind.Extent && t.name in newTags
        then AddRows(tables, t.name, TypeTableRows(file, t, newTags[t.name])) else tables;
      assert PassTables(tables, file, types, newTags) == PassTables(next, file, rest, newTags);
      assert next[types[i].name] == tables[types[i].name];
      PassTablesAll(next, file, rest, newTags, i - 1);
    }
  }

  /** The first type of a successful pass gets a row for each of its tags, and keeps them. */
  lemma PassTablesFirst(tables: map<string, seq<TagRow>>, file: string, types: seq<TagType>,
                        newTags: map<string, seq<map<string, string>>>)
    requires |types| > 0 && ExtentPass(file, types, newTags).Ok?
    requires forall a, b :: 0 <= a < b < |types| ==> types[a].name != types[b].name
    requires types[0].kind == ElemKind.Extent && types[0].name in newTags && types[0].name in tables
    ensures PassTables(tables, file, types, newTags)[types[0].name] ==
      tables[types[0].name] + TableRows(file, types[0].attributes, newTags[types[0].name])
  {
    var t := types[0];
    var tags := newTags[t.name];
    ExtentPassTail(file, types, newTags);
    DistinctTail(types);
    ReachedAll(file, t.name, tags);
    assert tags[..|tags|] == tags;
    var next := AddRows(tables, t.name, TypeTableRows(file, t, tags));
    assert next[t.name] == tables[t.name] + TableRows(file, t.attributes, tags);
    NotExtentTyped(types[1..], newTags, t.name);
    PassTablesUntouched(next, file, types[1..], newTags, t.name);
  }

  /** One type of the pass, as the loop meets it. */
  lemma PassTablesStep(tables: map<string, seq<TagRow>>, file: string, types: seq<TagType>,
                       newTags: map<string, seq<map<string, string>>>, i: nat)
    requires i < |types|
    ensures !(types[i].kind == ElemKind.Extent && types[i].name in newTags) ==>
      PassTables(tables, file, types[i..], newTags) == PassTables(tables, file, types[i + 1..], newTags)
    ensures types[i].kind == ElemKind.Extent && types[i].name in newTags ==>
      var next := AddRows(tables, types[i].name, TypeTableRows(file, types[i], newTags[types[i].name]));
      PassTables(tables, file, types[i..], newTags) ==
        if TagsIndexRows(file, types[i].name, newTags[types[i].name]).Fail? then next
        else PassTables(next, file, types[i + 1..], newTags)
  {
    assert types[i..][0] == types[i] && types[i..][1..] == types[i + 1..];
  }

  lemma AddRowsNone(tables: map<string, seq<TagRow>>, name: string)
    ensures AddRows(tables, name, []) == tables
  {
    if name in tables {
      assert tables[name] + [] == tables[name];
    }
  }

  /** One more row appended to the rows already added. */
  lemma AddRowsSnoc(tables: map<string, seq<TagRow>>, name: string, rows: seq<TagRow>, row: TagRow)
    ensures AddRow(AddRows(tables, name, rows), name, row) == AddRows(tables, name, rows + [row])
  {
    if name in tables {
      assert (tables[name] + rows) + [row] == tables[name] + (rows + [row]);
    }
  }

  /** One more tag: its row follows those of the tags before it. */
  lemma TableRowsStep(file: string, atts: seq<AttDef>, tags: seq<map<string, string>>, j: nat)
    requires j < |tags|
    ensures TableRows(file, atts, tags[..j + 1]) == TableRows(file, atts, tags[..j]) + [TagRow(file, ColumnValues(atts, tags[j]))]
  {
    assert TableRows(file, atts, tags[..j + 1]) == TableRows(file, atts, tags[..j]) + [TagRow(file, ColumnValues(atts, tags[j]))];
  }

  // ---------------------------------------------------------------------------------------
  // The database
  // ---------------------------------------------------------------------------------------

  class AdjudDB {
    /** extents(file_name, location, element_name, id) */
    var extents: seq<ExtentRow>
    /** links(file_name, id, fromid, from_name, toid, to_name, element_name) */
    var links: seq<LinkRow>
    /** extent_overlaps(gsid, element_name, file_name, fileid) */
    var overlaps: seq<OverlapRow>
    /** One table per tag type, by type name. */
    var tables: map<string, seq<TagRow>>
    /** mCurLinks: (file, link id) of the links getGSLinksByType found relevant. */
    var curLinks: seq<(string, string)>
    /** mCurHL: per file, the spans getLinkTagsInSpanByType asks to highlight. */
    const curHL: HashCollection<string, Span>

    /** Every offset in the index is -1 or below the largest `int`. */
    predicate Valid()
      reads this
    {
      StoredRows(extents)
    }

    /** The three fixed tables start out empty, and there are no type tables yet. */
    constructor ()
      ensures extents == [] && links == [] && overlaps == [] && tables == map[] && curLinks == []
      ensures fresh(curHL) && curHL.hash == map[]
      ensures Valid()
    {
      extents := [];
      links := [];
      overlaps := [];
      tables := map[];
      curLinks := [];
      curHL := new HashCollection();
    }

    /** addDTD: a fresh, empty table for each tag type (an existing table of that name is dropped). */
    method AddDtd(types: seq<TagType>)
      modifies this
      ensures tables == old(tables) + EmptyTables(types)
      ensures extents == old(extents) && links == old(links) && overlaps == old(overlaps)
      ensures curLinks == old(curLinks)
    {
      var i := 0;
      while i < |types|
        invariant 0 <= i <= |types|
        invariant tables == old(tables) + EmptyTables(types[..i])
        invariant extents == old(extents) && links == old(links) && overlaps == old(overlaps)
        invariant curLinks == old(curLinks)
      {
        assert types[..i + 1][..i] == types[..i];
        ghost var prev := EmptyTables(types[..i]);
        assert old(tables) + prev[types[i].name := []] == (old(tables) + prev)[types[i].name := []];
        tables := tables[types[i].name := []];
        i := i + 1;
      }
      assert types[..i] == types;
    }

    /**
     * usePreparedExtentStatements: the tag's row goes into its type's table (when the table
     * exists), then one index row per offset of each span, or a single row at -1 for a span
     * that does not start above -1.
     */
    method UsePreparedExtentStatements(file: string, t: TagType, tag: map<string, string>) returns (r: Result<()>)
      requires Valid()
      modifies this
      ensures Valid()
      ensures tables == AddRow(old(tables), t.name, TagRow(file, ColumnValues(t.attributes, tag)))
      ensures r.Ok? <==> TagIndexRows(file, t.name, tag).Ok?
      ensures r.Ok? ==> extents == old(extents) + TagIndexRows(file, t.name, tag).value
      ensures r.Fail? ==> r.exc == TagIndexRows(file, t.name, tag).exc && extents == old(extents)
      ensures links == old(links) && overlaps == old(overlaps) && curLinks == old(curLinks)
    {
      tables := AddRow(tables, t.name, TagRow(file, ColumnValues(t.attributes, tag)));
      if "spans" !in tag {
        return Fail(NullPointer);
      }
      var spans := ParseSpansString(tag["spans"]);
      if spans.Fail? {
        return Fail(spans.exc);
      }
      if "id" !in tag {
        return Fail(MissingId);
      }
      var rows := IndexSpans(file, t.name, tag["id"], spans.value);
      IndexRowsStored(file, t.name, tag["id"], spans.value);
      extents := extents + rows;
      r := Ok(());
    }

    /**
     * usePreparedLinkStatements: without a table for the link's type nothing is stored;
     * otherwise the link's row goes into that table (a missing attribute as ""), and the
     * links row is added when both anchors are in the index.
     */
    method UsePreparedLinkStatements(file: string, t: TagType, tag: map<string, string>)
      modifies this
      ensures t.name !in old(tables) ==> tables == old(tables) && links == old(links)
      ensures t.name in old(tables) ==>
        tables == old(tables)[t.name := old(tables)[t.name] + [TagRow(file, LinkColumnValues(t.attributes, tag))]]
      ensures t.name in old(tables) ==>
        links == old(links) + (match LinkRowOf(extents, file, t.name, tag) case Some(l) => [l] case None => [])
      ensures extents == old(extents) && overlaps == old(overlaps) && curLinks == old(curLinks)
    {
      if t.name !in tables {
        return;
      }
      tables := tables[t.name := tables[t.name] + [TagRow(file, LinkColumnValues(t.attributes, tag))]];
      var fromType := ElementOf(extents, file, ValueOrNull(tag, "fromID"));
      if fromType.Fail? {
        return;
      }
      var toType := ElementOf(extents, file, ValueOrNull(tag, "toID"));
      if toType.Fail? || "id" !in tag {
        return;
      }
      links := links + [LinkRow(file, tag["id"], ValueOrNull(tag, "fromID"), fromType.value,
                                ValueOrNull(tag, "toID"), toType.value, t.name)];
    }

    /**
     * removeLinkTags: the links rows of (file, type, id) and the type table's rows of
     * (file, id) are deleted; a type without a table makes the second delete fail.
     */
    method RemoveLinkTags(file: string, elemName: string, id: string) returns (r: Result<()>)
      modifies this
      ensures links == LinksWithout(old(links), file, elemName, id)
      ensures r.Ok? <==> elemName in old(tables)
      ensures r.Fail? ==> r.exc == NoTable && tables == old(tables)
      ensures r.Ok? ==> tables == old(tables)[elemName := RowsWithout(old(tables)[elemName], file, id)]
      ensures extents == old(extents) && overlaps == old(overlaps) && curLinks == old(curLinks)
    {
      links := LinksWithout(links, file, elemName, id);
      if elemName !in tables {
        return Fail(NoTable);
      }
      tables := tables[elemName := RowsWithout(tables[elemName], file, id)];
      r := Ok(());
    }

    /**
     * removeExtentTags: the index rows of (file, type, id), the type table's rows of
     * (file, id), and for the gold standard the overlap rows of that gold tag are deleted.
     */
    method RemoveExtentTags(file: string, elemName: string, id: string) returns (r: Result<()>)
      requires Valid()
      modifies this
      ensures Valid()
      ensures extents == ExtentsWithout(old(extents), file, elemName, id)
      ensures r.Ok? <==> elemName in old(tables)
      ensures r.Fail? ==> r.exc == NoTable && tables == old(tables) && overlaps == old(overlaps)
      ensures r.Ok? ==> tables == old(tables)[elemName := RowsWithout(old(tables)[elemName], file, id)]
      ensures r.Ok? ==> overlaps == if file == GS_FILE then OverlapsWithout(old(overlaps), id, elemName) else old(overlaps)
      ensures links == old(links) && curLinks == old(curLinks)
    {
      extents := ExtentsWithout(extents, file, elemName, id);
      if elemName !in tables {
        return Fail(NoTable);
      }
      tables := tables[elemName := RowsWithout(tables[elemName], file, id)];
      if file == GS_FILE {
        overlaps := OverlapsWithout(overlaps, id, elemName);
      }
      r := Ok(());
    }

    /** idExists: some index row or some links row has this id in this file. */
    method IdExists(id: string, file: string) returns (b: bool)
      ensures b <==>
        (exists i :: 0 <= i < |extents| && extents[i].id == id && extents[i].file == file)
        || (exists i :: 0 <= i < |links| && links[i].id == id && links[i].file == file)
    {
      IdInSpec(extents, links, id, file);
      var num := |Filter(extents, (x: ExtentRow) => x.id == id && x.file == file)|;
      if num > 0 {
        return true;
      }
      var num2 := |Filter(links, (x: LinkRow) => x.id == id && x.file == file)|;
      b := num2 > 0;
    }

    /** tagExistsInFileAtLoc: some index row of the file sits at the offset. */
    method TagExistsInFileAtLoc(file: string, loc: int) returns (b: bool)
      ensures b <==> exists i :: 0 <= i < |extents| && extents[i].location == loc && extents[i].file == file
    {
      TagAtSpec(extents, file, loc);
      b := |Filter(extents, (x: ExtentRow) => x.location == loc && x.file == file)| > 0;
    }

    // -------------------------------------------------------------------------------------
    // Location queries
    // -------------------------------------------------------------------------------------

    /**
     * getTagsInSpanByType: per file, the ids of the tags of `tagName` with an offset in the
     * selection (the range `[begin, end]`, or the single offset when begin == end).
     */
    method GetTagsInSpanByType(begin: int, end: int, tagName: string) returns (c: HashCollection<string, string>)
      ensures fresh(c) && c.hash == Grouped(TagsInSpan(extents, begin, end, tagName))
      ensures forall f, id :: id in Lookup(c.hash, f) <==>
        exists i :: 0 <= i < |extents| && extents[i].elemName == tagName
          && InSelection(extents[i].location, begin, end) && extents[i].file == f && extents[i].id == id
    {
      var rows := TagsInSpan(extents, begin, end, tagName);
      c := Collect(rows);
      forall f, id
        ensures id in Lookup(c.hash, f) <==>
          exists i :: 0 <= i < |extents| && extents[i].elemName == tagName
            && InSelection(extents[i].location, begin, end) && extents[i].file == f && extents[i].id == id
      {
        GroupedLookup(rows, f, id);
        TagsInSpanSpec(extents, begin, end, tagName, f, id);
      }
    }

    /**
     * getFileTagsInSpanAndNC: per type, the ids of the file's tags with an offset in the
     * selection, then the ids of every non-consuming tag, of whichever file.
     */
    method GetFileTagsInSpanAndNC(file: string, begin: int, end: int) returns (c: HashCollection<string, string>)
      ensures fresh(c) && c.hash == Grouped(FileTagsInSpan(extents, file, begin, end) + NonConsumingTags(extents))
      ensures forall t, id :: id in Lookup(c.hash, t) <==>
        (exists i :: 0 <= i < |extents| && extents[i].file == file
          && InSelection(extents[i].location, begin, end) && extents[i].elemName == t && extents[i].id == id)
        || (exists i :: 0 <= i < |extents| && extents[i].location == -1 && extents[i].elemName == t && extents[i].id == id)
    {
      var rows := FileTagsInSpan(extents, file, begin, end) + NonConsumingTags(extents);
      c := Collect(rows);
      forall t, id
        ensures id in Lookup(c.hash, t) <==>
          (exists i :: 0 <= i < |extents| && extents[i].file == file
            && InSelection(extents[i].location, begin, end) && extents[i].elemName == t && extents[i].id == id)
          || (exists i :: 0 <= i < |extents| && extents[i].location == -1 && extents[i].elemName == t && extents[i].id == id)
      {
        GroupedLookup(rows, t, id);
        FileTagsInSpanSpec(extents, file, begin, end, t, id);
        NonConsumingTagsSpec(extents, t, id);
      }
    }

    /** getFilesAtLocbyElement: the file of each `elemName` index row at `loc`, in table order, repeats kept. */
    method GetFilesAtLocByElement(elemName: string, loc: int) returns (files: seq<string>)
      ensures files == FilesAt(extents, elemName, loc)
      ensures |files| <= |extents|
      ensures forall f :: f in files <==>
        exists i :: 0 <= i < |extents| && extents[i].location == loc && extents[i].elemName == elemName
          && extents[i].file == f
    {
      files := FilesAt(extents, elemName, loc);
      forall f
        ensures f in files <==>
          exists i :: 0 <= i < |extents| && extents[i].location == loc && extents[i].elemName == elemName
            && extents[i].file == f
      {
        FilesAtSpec(extents, elemName, loc, f);
      }
    }

    /** getExtentAllLocs: per printed offset, the files with a tag of `tagName` there. */
    method GetExtentAllLocs(tagName: string) returns (c: HashCollection<string, string>)
      ensures fresh(c) && c.hash == Grouped(AllLocs(extents, tagName))
      ensures forall loc: int, f :: f in Lookup(c.hash, IntToString(loc)) <==>
        exists i :: 0 <= i < |extents| && extents[i].elemName == tagName
          && extents[i].location == loc && extents[i].file == f
    {
      var rows := AllLocs(extents, tagName);
      c := Collect(rows);
      forall loc: int, f
        ensures f in Lookup(c.hash, IntToString(loc)) <==>
          exists i :: 0 <= i < |extents| && extents[i].elemName == tagName
            && extents[i].location == loc && extents[i].file == f
      {
        GroupedLookup(rows, IntToString(loc), f);
        AllLocsSpec(extents, tagName, loc, f);
      }
    }

    /**
     * getLinksByFileAndExtentID: per link type, the ids of the file's links that have the
     * extent as from anchor, then those that have it as to anchor.
     */
    method GetLinksByFileAndExtentID(file: string, elemName: string, id: string) returns (c: HashCollection<string, string>)
      ensures fresh(c) && c.hash == Grouped(AnchorLinks(links, file, elemName, id))
      ensures forall t, lid :: lid in Lookup(c.hash, t) <==>
        exists i :: 0 <= i < |links| && links[i].file == file && links[i].elemName == t && links[i].id == lid
          && ((links[i].fromId == id && links[i].fromName == elemName)
              || (links[i].toId == id && links[i].toName == elemName))
    {
      var rows := AnchorLinks(links, file, elemName, id);
      c := Collect(rows);
      forall t, lid
        ensures lid in Lookup(c.hash, t) <==>
          exists i :: 0 <= i < |links| && links[i].file == file && links[i].elemName == t && links[i].id == lid
            && ((links[i].fromId == id && links[i].fromName == elemName)
                || (links[i].toId == id && links[i].toName == elemName))
      {
        GroupedLookup(rows, t, lid);
        AnchorLinksSpec(links, file, elemName, id, t, lid);
      }
    }

    // -------------------------------------------------------------------------------------
    // The overlap table
    // -------------------------------------------------------------------------------------

    /**
     * getLocByFileAndID: the offsets of (file, id), sorted and coalesced into span text; the
     * first element of an empty list is read when there are none.
     */
    method GetLocByFileAndID(file: string, id: string) returns (r: Result<string>)
      requires Valid()
      ensures r == LocText(extents, file, id)
    {
      r := LocationText(extents, file, id);
    }

    /**
     * addOverlaps: for a new gold tag, one row per distinct (id, file) of the other files'
     * tags of its type with an offset in one of its spans, ends included.
     */
    method AddOverlaps(name: string, tagVals: map<string, string>) returns (r: Result<()>)
      modifies this
      ensures r.Ok? <==> "spans" in tagVals && Parse(tagVals["spans"]).Ok? && "id" in tagVals
      ensures r.Ok? ==>
        overlaps == old(overlaps) + SpansOverlaps(extents, tagVals["id"], name, Parse(tagVals["spans"]).value)
      ensures r.Fail? ==> overlaps == old(overlaps)
      ensures extents == old(extents) && links == old(links) && tables == old(tables) && curLinks == old(curLinks)
    {
      if "spans" !in tagVals {
        return Fail(NullPointer);
      }
      var spans := ParseSpansString(tagVals["spans"]);
      if spans.Fail? {
        return Fail(spans.exc);
      }
      if "id" !in tagVals {
        return Fail(MissingId);
      }
      var added := ScanSpans(extents, tagVals["id"], name, spans.value);
      overlaps := overlaps + added;
      r := Ok(());
    }

    /**
     * findAllOverlaps, reading each gold tag's spans back from the gold standard's own index
     * rows: the overlap table is emptied and rebuilt from every gold tag in turn.
     */
    method FindAllOverlaps()
      requires Valid()
      modifies this
      ensures extents == old(extents) && links == old(links) && tables == old(tables) && curLinks == old(curLinks)
      ensures Valid() && overlaps == AllOverlaps(extents)
    {
      var acc := GoldOverlaps(extents);
      overlaps := acc;
    }

    // -------------------------------------------------------------------------------------
    // Links and the gold standard
    // -------------------------------------------------------------------------------------

    /**
     * getGSLinksByType: the current links are reset to the gold links of the type followed by
     * the non-gold links both of whose anchors overlap the gold standard; the result maps each
     * printed offset of a gold extent the type touches to the files that reach it.
     */
    method GetGSLinksByType(tagName: string) returns (c: HashCollection<string, string>)
      modifies this
      ensures fresh(c)
      ensures extents == old(extents) && links == old(links) && overlaps == old(overlaps) && tables == old(tables)
      ensures var gold := GsLinkIds(TypeLinks(links, tagName));
        |curLinks| >= |gold| && curLinks[..|gold|] == gold
      ensures var rows := TypeLinks(links, tagName);
        forall e :: e in curLinks[|GsLinkIds(rows)|..] <==>
          exists j :: 0 <= j < |rows| && rows[j].file != GS_FILE && Promoted(overlaps, OtherOf(rows[j]))
            && e == (rows[j].file, rows[j].id)
      ensures var rows := TypeLinks(links, tagName);
        forall loc, f :: f in Lookup(c.hash, loc) <==>
          exists g: GsKey :: g.file == f && (GsEnd(rows, g) || PromotedEnd(overlaps, rows, g)) && GsRowAt(extents, g, loc)
    {
      var rows := TypeLinks(links, tagName);
      var cur, pairs := GsLinkScan(extents, overlaps, rows);
      c := Collect(pairs);
      curLinks := cur;
      forall loc, f
        ensures f in Lookup(c.hash, loc) <==>
          exists g: GsKey :: g.file == f && (GsEnd(rows, g) || PromotedEnd(overlaps, rows, g)) && GsRowAt(extents, g, loc)
      {
        GroupedLookup(pairs, loc, f);
      }
    }

    /**
     * getLinkTagsInSpanByType (corrected anchor lookups): the highlights are cleared; then each
     * file's current links are kept when an anchor overlaps the selection `[begin, end]`, with
     * their anchors replaced by gold extents, and the spans of the other anchors highlighted.
     */
    method GetLinkTagsInSpanByType(begin: Int32, end: Int32, tagName: string, atts: seq<AttDef>)
      returns (r: Result<HashCollection<string, map<string, string>>>)
      modifies curHL
      ensures var temp := TempLinks(tables, tagName, atts, curLinks);
        r.Ok? <==> (temp.Ok?
          && forall f :: f in temp.value ==> ProcessList(extents, tables, Span(begin, end), f, temp.value[f]).Ok?)
      ensures r.Ok? ==> fresh(r.value)
      ensures r.Ok? ==> var temp := TempLinks(tables, tagName, atts, curLinks).value;
        forall f :: f in temp ==>
          Lookup(r.value.hash, f) == ProcessList(extents, tables, Span(begin, end), f, temp[f]).value.0
          && Lookup(curHL.hash, f) == ProcessList(extents, tables, Span(begin, end), f, temp[f]).value.1
      ensures r.Ok? ==> var temp := TempLinks(tables, tagName, atts, curLinks).value;
        forall f :: f !in temp ==> f !in r.value.hash && f !in curHL.hash
    {
      curHL.Clear();
      var sel := Span(begin, end);
      var temp := TempLinkTables(tables, tagName, atts, curLinks);
      if temp.Fail? {
        return Fail(temp.exc);
      }
      var outs := ProcessFiles(extents, tables, sel, temp.value);
      if outs.Fail? {
        return Fail(outs.exc);
      }
      var result := FileResults(outs.value, curHL);
      r := Ok(result);
    }

    // -------------------------------------------------------------------------------------
    // Loading and writing out tags
    // -------------------------------------------------------------------------------------

    /**
     * addTagsFromHash: the extent tags of each extent type first, then the link tags of each
     * link type; an exception from an extent tag ends the call.
     */
    method AddTagsFromHash(file: string, types: seq<TagType>, newTags: map<string, seq<map<string, string>>>)
      returns (r: Result<()>)
      requires Valid()
      modifies this
      ensures Valid()
      ensures r.Ok? <==> ExtentPass(file, types, newTags).Ok?
      ensures r.Ok? ==> extents == old(extents) + ExtentPass(file, types, newTags).value
      ensures overlaps == old(overlaps) && curLinks == old(curLinks) && tables.Keys == old(tables).Keys
      ensures r.Fail? ==> tables == PassTables(old(tables), file, types, newTags)
      ensures forall k :: k in tables && !LinkTyped(types, newTags, k) ==>
        tables[k] == PassTables(old(tables), file, types, newTags)[k]
      ensures |links| >= |old(links)| && links[..|old(links)|] == old(links)
    {
      r := ExtentPassTags(file, types, newTags);
      if r.Fail? {
        return;
      }
      LinkPass(file, types, newTags);
    }

    /** The extent pass of addTagsFromHash: usePreparedExtentStatements for each extent tag. */
    method ExtentPassTags(file: string, types: seq<TagType>, newTags: map<string, seq<map<string, string>>>)
      returns (r: Result<()>)
      requires Valid()
      modifies this
      ensures Valid()
      ensures r.Ok? <==> ExtentPass(file, types, newTags).Ok?
      ensures r.Ok? ==> extents == old(extents) + ExtentPass(file, types, newTags).value
      ensures tables == PassTables(old(tables), file, types, newTags)
      ensures overlaps == old(overlaps) && curLinks == old(curLinks)
      ensures links == old(links)
    {
      ghost var added: seq<ExtentRow> := [];
      var i := 0;
      assert types[..0] == [];
      assert types[0..] == types;
      while i < |types|
        invariant 0 <= i <= |types| && Valid()
        invariant ExtentPass(file, types[..i], newTags) == Ok(added)
        invariant extents == old(extents) + added
        invariant PassTables(old(tables), file, types, newTags) == PassTables(tables, file, types[i..], newTags)
        invariant overlaps == old(overlaps) && curLinks == old(curLinks)
        invariant links == old(links)
      {
        var res, rows := ExtentTypeTags(file, types, newTags, i);
        if res.Fail? {
          return res;
        }
        assert old(extents) + (added + rows) == (old(extents) + added) + rows;
        added := added + rows;
        i := i + 1;
      }
      assert types[..i] == types;
      assert types[i..] == [];
      r := Ok(());
    }

    /** One type of the extent pass: its tags when it is an extent type with tags. */
    method ExtentTypeTags(file: string, types: seq<TagType>, newTags: map<string, seq<map<string, string>>>, i: nat)
      returns (r: Result<()>, ghost rows: seq<ExtentRow>)
      requires Valid() && i < |types| && ExtentPass(file, types[..i], newTags).Ok?
      modifies this
      ensures Valid()
      ensures r.Fail? ==> ExtentPass(file, types, newTags).Fail?
      ensures r.Ok? ==> ExtentPass(file, types[..i + 1], newTags) == Ok(ExtentPass(file, types[..i], newTags).value + rows)
      ensures r.Ok? ==> extents == old(extents) + rows
      ensures types[i].kind == ElemKind.Extent && types[i].name in newTags ==>
        (r.Ok? <==> TagsIndexRows(file, types[i].name, newTags[types[i].name]).Ok?)
        && tables == AddRows(old(tables), types[i].name, TypeTableRows(file, types[i], newTags[types[i].name]))
      ensures !(types[i].kind == ElemKind.Extent && types[i].name in newTags) ==> r.Ok? && tables == old(tables)
      ensures r.Fail? ==> tables == PassTables(old(tables), file, types[i..], newTags)
      ensures r.Ok? ==> PassTables(tables, file, types[i + 1..], newTags) == PassTables(old(tables), file, types[i..], newTags)
      ensures overlaps == old(overlaps) && curLinks == old(curLinks)
      ensures links == old(links)
    {
      var t := types[i];
      PassTablesStep(tables, file, types, newTags, i);
      ExtentPassStep(file, types, newTags, i);
      rows := [];
      if t.kind == ElemKind.Extent && t.name in newTags {
        r := AddExtentTags(file, t, newTags[t.name]);
        if r.Fail? {
          ExtentPassFail(file, types, newTags);
          assert ExtentPass(file, types, newTags).Fail?;
          return;
        }
        rows := TagsIndexRows(file, t.name, newTags[t.name]).value;
      } else {
        assert ExtentPass(file, types[..i], newTags).value + rows == ExtentPass(file, types[..i], newTags).value;
        assert extents == old(extents) + rows;
      }
      r := Ok(());
    }

    /** The extent tags of one type, in order; an exception other than a missing id ends it. */
    method AddExtentTags(file: string, t: TagType, tags: seq<map<string, string>>) returns (r: Result<()>)
      requires Valid()
      modifies this
      ensures Valid()
      ensures r.Ok? <==> TagsIndexRows(file, t.name, tags).Ok?
      ensures r.Ok? ==> extents == old(extents) + TagsIndexRows(file, t.name, tags).value
      ensures tables == AddRows(old(tables), t.name, TypeTableRows(file, t, tags))
      ensures overlaps == old(overlaps) && curLinks == old(curLinks)
      ensures links == old(links)
    {
      ghost var more: seq<ExtentRow> := [];
      ghost var rs := TagResults(file, t.name, tags);
      var j := 0;
      assert tags[..0] == [];
      AddRowsNone(tables, t.name);
      assert TableRows(file, t.attributes, tags[..0]) == [];
      while j < |tags|
        invariant 0 <= j <= |tags| && Valid()
        invariant TagsIndexRows(file, t.name, tags[..j]) == Ok(more)
        invariant extents == old(extents) + more
        invariant tables == AddRows(old(tables), t.name, TableRows(file, t.attributes, tags[..j]))
        invariant overlaps == old(overlaps) && curLinks == old(curLinks)
        invariant links == old(links)
      {
        ghost var x := TagIndexRows(file, t.name, tags[j]);
        TagsIndexRowsStep(file, t.name, tags, j, x);
        TableRowsStep(file, t.attributes, tags, j);
        AddRowsSnoc(old(tables), t.name, TableRows(file, t.attributes, tags[..j]), TagRow(file, ColumnValues(t.attributes, tags[j])));
        var res := UsePreparedExtentStatements(file, t, tags[j]);
        if res.Fail? && res.exc != MissingId {
          TagsIndexRowsFail(file, t.name, tags);
          assert Rejected(file, t.name, tags[j]);
          OkPrefixNotRefused(file, t.name, tags, j);
          ReachedFirst(rs, j);
          return Fail(res.exc);
        }
        if res.Ok? {
          AppendAssoc(old(extents), more, x.value);
          more := more + x.value;
        }
        j := j + 1;
      }
      assert tags[..j] == tags;
      OkPrefixNotRefused(file, t.name, tags, j);
      ReachedFirst(rs, j);
      r := Ok(());
    }

    /** The link pass of addTagsFromHash: usePreparedLinkStatements for each link tag. */
    method LinkPass(file: string, types: seq<TagType>, newTags: map<string, seq<map<string, string>>>)
      modifies this
      ensures extents == old(extents) && overlaps == old(overlaps) && curLinks == old(curLinks)
      ensures tables.Keys == old(tables).Keys
      ensures forall k :: k in tables && !LinkTyped(types, newTags, k) ==> tables[k] == old(tables)[k]
      ensures |links| >= |old(links)| && links[..|old(links)|] == old(links)
    {
      var i := 0;
      while i < |types|
        invariant 0 <= i <= |types|
        invariant extents == old(extents) && overlaps == old(overlaps) && curLinks == old(curLinks)
        invariant tables.Keys == old(tables).Keys
        invariant forall k :: k in tables && !LinkTyped(types, newTags, k) ==> tables[k] == old(tables)[k]
        invariant |links| >= |old(links)| && links[..|old(links)|] == old(links)
      {
        var t := types[i];
        if t.kind == ElemKind.Link && t.name in newTags {
          var tags := newTags[t.name];
          assert LinkTyped(types, newTags, t.name);
          var j := 0;
          while j < |tags|
            invariant 0 <= j <= |tags|
            invariant extents == old(extents) && overlaps == old(overlaps) && curLinks == old(curLinks)
            invariant tables.Keys == old(tables).Keys
            invariant forall k :: k in tables && !LinkTyped(types, newTags, k) ==> tables[k] == old(tables)[k]
            invariant |links| >= |old(links)| && links[..|old(links)|] == old(links)
          {
            ghost var before := links;
            UsePreparedLinkStatements(file, t, tags[j]);
            assert links[..|before|] == before;
            j := j + 1;
          }
        }
        i := i + 1;
      }
    }

    /**
     * getTagsByFileAndID: the attribute values of the tag, row after row, with NULL as "" in
     * an optional attribute; a NULL in a required one answers null (None).
     */
    method GetTagsByFileAndID(tagName: string, id: string, file: string, atts: seq<AttDef>)
      returns (r: Result<Option<map<string, string>>>)
      ensures tagName !in tables ==> r == Fail(NoTable)
      ensures tagName in tables ==> r == Ok(TagValues(atts, RowsOf(tables[tagName], file, id)))
    {
      if tagName !in tables {
        return Fail(NoTable);
      }
      var rows := RowsOf(tables[tagName], file, id);
      var ht: map<string, string> := map[];
      var i := 0;
      while i < |rows|
        invariant 0 <= i <= |rows|
        invariant TagValues(atts, rows[..i]) == Some(ht)
      {
        TagValuesStep(atts, rows, i, ht);
        var h := RowPuts(atts, rows[i], ht);
        if h.None? {
          return Ok(None);
        }
        ht := h.value;
        i := i + 1;
      }
      assert rows[..i] == rows;
      r := Ok(Some(ht));
    }

    /**
     * getExtentTagsByFileAndType: the file's tags of an extent type as XML text; the query
     * orders by the start column, so a type without one fails.
     */
    method GetExtentTagsByFileAndType(file: string, t: TagType) returns (r: Result<seq<string>>)
      ensures t.name !in tables ==> r == Fail(NoTable)
      ensures t.name in tables && "start" !in AttNames(t.attributes) ==> r == Fail(NoColumn)
      ensures t.name in tables && "start" in AttNames(t.attributes) ==>
        r == Ok(TagTexts(t.name, t.attributes, FileRows(tables[t.name], file)))
    {
      if t.name !in tables {
        return Fail(NoTable);
      }
      if "start" !in AttNames(t.attributes) {
        return Fail(NoColumn);
      }
      var tags := MakeTagStringsForOutput(t.name, t.attributes, FileRows(tables[t.name], file));
      r := Ok(tags);
    }

    /**
     * getLinkTagsByFileAndType: the output texts of the file's tags of type `t`, ordered by
     * id; the model leaves the order of the rows open.
     */
    method GetLinkTagsByFileAndType(file: string, t: TagType) returns (r: Result<seq<string>>)
      ensures t.name !in tables ==> r == Fail(NoTable)
      ensures t.name in tables && "id" !in AttNames(t.attributes) ==> r == Fail(NoColumn)
      ensures t.name in tables && "id" in AttNames(t.attributes) ==>
        r.Ok? && (exists rows: seq<TagRow> :: multiset(rows) == multiset(FileRows(tables[t.name], file))
                    && r.value == TagTexts(t.name, t.attributes, rows))
    {
      if t.name !in tables {
        return Fail(NoTable);
      }
      if "id" !in AttNames(t.attributes) {
        return Fail(NoColumn);
      }
      var rows := FileRows(tables[t.name], file);
      var tags := MakeTagStringsForOutput(t.name, t.attributes, rows);
      r := Ok(tags);
    }

    /** getAllExtentsByFile: every offset the file has a tag at, printed, each mapped to "". */
    method GetAllExtentsByFile(file: string) returns (locs: map<string, string>)
      ensures forall k :: k in locs <==>
        exists i :: 0 <= i < |extents| && extents[i].file == file && IntToString(extents[i].location) == k
      ensures forall k :: k in locs ==> locs[k] == ""
    {
      locs := map[];
      var i := 0;
      while i < |extents|
        invariant 0 <= i <= |extents|
        invariant forall k :: k in locs <==>
          exists j :: 0 <= j < i && extents[j].file == file && IntToString(extents[j].location) == k
        invariant forall k :: k in locs ==> locs[k] == ""
      {
        if extents[i].file == file {
          locs := locs[IntToString(extents[i].location) := ""];
        }
        i := i + 1;
      }
    }

    /**
     * getTextByFileElemAndID: the `text` cell of the first row of the file with that id, None
     * for a NULL cell; with no such row, reading the empty result throws.
     */
    method GetTextByFileElemAndID(file: string, elemName: string, id: string) returns (r: Result<Option<string>>)
      ensures elemName !in tables ==> r == Fail(NoTable)
      ensures elemName in tables ==>
        (r.Fail? <==> forall x :: x in tables[elemName] ==> !(x.file == file && Column(x, "id") == Some(id)))
      ensures elemName in tables && r.Fail? ==> r.exc == NoRow
      ensures r.Ok? ==>
        (elemName in tables
         && exists x :: x in tables[elemName] && x.file == file && Column(x, "id") == Some(id)
                        && r.value == Column(x, "text"))
    {
      if elemName !in tables {
        return Fail(NoTable);
      }
      var rows := RowsOf(tables[elemName], file, id);
      if |rows| == 0 {
        return Fail(NoRow);
      }
      r := Ok(Column(rows[0], "text"));
    }
  }

  /** The text of getLocByFileAndID over the index rows `extents`. */
  method LocationText(extents: seq<ExtentRow>, file: string, id: string) returns (r: Result<string>)
    requires StoredRows(extents)
    ensures r == LocText(extents, file, id)
  {
    var locs := Locations(extents, file, id);
    LocationsStored(extents, file, id);
    SortStored(locs);
    var sorted := Sort(locs);
    if |sorted| == 0 {
      return Fail(IndexOutOfBounds);
    }
    var s := Coalesce(sorted);
    r := Ok(s);
  }

  /** The loop of findAllOverlaps over the gold tags. */
  method GoldOverlaps(extents: seq<ExtentRow>) returns (acc: seq<OverlapRow>)
    requires StoredRows(extents)
    ensures acc == AllOverlaps(extents)
  {
    var gs := GsTags(extents);
    GsTagsLocated(extents);
    acc := [];
    var k := 0;
    assert gs[..0] == [];
    while k < |gs|
      invariant 0 <= k <= |gs|
      invariant OverlapsVia(extents, GS_FILE, gs[..k]) == Ok(acc)
    {
      acc := GoldStep(extents, gs, k, acc);
      k := k + 1;
    }
    assert gs[..k] == gs;
  }

  /** One gold tag of findAllOverlaps: its spans are read back, then scanned. */
  method GoldStep(extents: seq<ExtentRow>, gs: seq<(string, string)>, k: nat, acc: seq<OverlapRow>) returns (next: seq<OverlapRow>)
    requires StoredRows(extents) && k < |gs|
    requires OverlapsVia(extents, GS_FILE, gs[..k]) == Ok(acc)
    requires |Locations(extents, GS_FILE, gs[k].0)| > 0
    ensures OverlapsVia(extents, GS_FILE, gs[..k + 1]) == Ok(next)
  {
    var g := gs[k];
    var text := LocationText(extents, GS_FILE, g.0);
    LocTextSpans(extents, GS_FILE, g.0);
    var spans := ParseSpansString(text.value);
    var added := ScanSpans(extents, g.0, g.1, spans.value);
    assert gs[..k + 1][..k] == gs[..k];
    assert gs[..k + 1][k] == g;
    OverlapsViaStep(extents, GS_FILE, gs[..k + 1]);
    next := acc + added;
  }

  /** The three loops of getGSLinksByType: the new current links and the (offset, file) pairs. */
  method GsLinkScan(extents: seq<ExtentRow>, overlaps: seq<OverlapRow>, rows: seq<LinkRow>)
    returns (cur: seq<(string, string)>, pairs: seq<(string, string)>)
    ensures |cur| >= |GsLinkIds(rows)| && cur[..|GsLinkIds(rows)|] == GsLinkIds(rows)
    ensures forall e :: e in cur[|GsLinkIds(rows)|..] <==>
      exists j :: 0 <= j < |rows| && rows[j].file != GS_FILE && Promoted(overlaps, OtherOf(rows[j]))
        && e == (rows[j].file, rows[j].id)
    ensures forall loc, f :: (loc, f) in pairs <==>
      exists g: GsKey :: g.file == f && (GsEnd(rows, g) || PromotedEnd(overlaps, rows, g)) && GsRowAt(extents, g, loc)
  {
    var inGs, gold, inOther := ScanLinkRows(rows);
    var promoted;
    promoted, cur := PromoteOthers(overlaps, inOther, inGs, gold);
    pairs := LocateGold(extents, promoted);
    forall e
      ensures e in cur[|gold|..] <==>
        exists j :: 0 <= j < |rows| && rows[j].file != GS_FILE && Promoted(overlaps, OtherOf(rows[j]))
          && e == (rows[j].file, rows[j].id)
    {
      if e in cur[|gold|..] {
        var k :| k in inOther && Promoted(overlaps, k) && e == (k.file, k.id);
        var j :| 0 <= j < |rows| && rows[j].file != GS_FILE && OtherOf(rows[j]) == k;
      }
      if exists j :: 0 <= j < |rows| && rows[j].file != GS_FILE && Promoted(overlaps, OtherOf(rows[j]))
          && e == (rows[j].file, rows[j].id) {
        var j :| 0 <= j < |rows| && rows[j].file != GS_FILE && Promoted(overlaps, OtherOf(rows[j]))
          && e == (rows[j].file, rows[j].id);
        assert OtherOf(rows[j]) in inOther;
      }
    }
    forall g: GsKey
      ensures g in promoted <==> GsEnd(rows, g) || PromotedEnd(overlaps, rows, g)
    {
      if g in promoted && !GsEnd(rows, g) {
        var k :| k in inOther && Promoted(overlaps, k) && g in OtherOverlaps(overlaps, k);
        var j :| 0 <= j < |rows| && rows[j].file != GS_FILE && OtherOf(rows[j]) == k;
        assert PromotedEnd(overlaps, rows, g);
      }
      if PromotedEnd(overlaps, rows, g) {
        var j :| 0 <= j < |rows| && rows[j].file != GS_FILE && Promoted(overlaps, OtherOf(rows[j]))
          && g in OtherOverlaps(overlaps, OtherOf(rows[j]));
        assert OtherOf(rows[j]) in inOther;
      }
    }
  }

  /**
   * The first loop of getGSLinksByType over the rows of one link type: both anchors and the
   * (file, id) of each gold link, and each non-gold link whole.
   */
  method ScanLinkRows(rows: seq<LinkRow>) returns (inGs: set<GsKey>, cur: seq<(string, string)>, inOther: set<OtherLink>)
    ensures forall g :: g in inGs <==> GsEnd(rows, g)
    ensures cur == GsLinkIds(rows)
    ensures forall k :: k in inOther <==> exists j :: 0 <= j < |rows| && rows[j].file != GS_FILE && OtherOf(rows[j]) == k
  {
    inGs, cur, inOther := {}, [], {};
    var i := 0;
    while i < |rows|
      invariant 0 <= i <= |rows|
      invariant forall g :: g in inGs <==> GsEnd(rows[..i], g)
      invariant cur == GsLinkIds(rows[..i])
      invariant forall k :: k in inOther <==> exists j :: 0 <= j < i && rows[j].file != GS_FILE && OtherOf(rows[j]) == k
    {
      var l := rows[i];
      GsLinkIdsStep(rows, i);
      GsEndStep(rows, i);
      if l.file == GS_FILE {
        inGs := inGs + {GsKey(l.file, l.fromId, l.fromName), GsKey(l.file, l.toId, l.toName)};
        cur := cur + [(l.file, l.id)];
      } else {
        inOther := inOther + {OtherOf(l)};
      }
      i := i + 1;
    }
    assert rows[..i] == rows;
  }

  /**
   * The second loop of getGSLinksByType: a non-gold link both of whose anchors have overlap
   * rows adds the gold extents overlapping either anchor to inGS, and adds its (file, id) to
   * the current links once per such extent. The links are visited in no fixed order.
   */
  method PromoteOthers(overlaps: seq<OverlapRow>, others: set<OtherLink>, inGs0: set<GsKey>, cur0: seq<(string, string)>)
    returns (inGs: set<GsKey>, cur: seq<(string, string)>)
    ensures forall g :: g in inGs <==>
      g in inGs0 || exists k :: k in others && Promoted(overlaps, k) && g in OtherOverlaps(overlaps, k)
    ensures |cur| >= |cur0| && cur[..|cur0|] == cur0
    ensures forall e :: e in cur[|cur0|..] <==> exists k :: k in others && Promoted(overlaps, k) && e == (k.file, k.id)
  {
    inGs, cur := inGs0, cur0;
    var todo, done := others, {};
    while todo != {}
      invariant todo + done == others && todo !! done
      invariant forall g :: g in inGs <==>
        g in inGs0 || exists k :: k in done && Promoted(overlaps, k) && g in OtherOverlaps(overlaps, k)
      invariant |cur| >= |cur0| && cur[..|cur0|] == cur0
      invariant forall e :: e in cur[|cur0|..] <==> exists k :: k in done && Promoted(overlaps, k) && e == (k.file, k.id)
      decreases todo
    {
      var k :| k in todo;
      var ov := OtherOverlaps(overlaps, k);
      if Promoted(overlaps, k) {
        var before := cur;
        inGs, cur := AddOverlapKeys(ov, (k.file, k.id), inGs, cur);
        assert cur[|cur0|..] == before[|cur0|..] + seq(|ov|, _ => (k.file, k.id));
        assert (k.file, k.id) in cur[|cur0|..] by {
          assert cur[|cur0|..][|before| - |cur0|] == (k.file, k.id);
        }
      }
      todo, done := todo - {k}, done + {k};
    }
  }

  /** The inner loop of the second one: each gold extent in turn, with the link once more. */
  method AddOverlapKeys(ov: seq<GsKey>, e: (string, string), inGs0: set<GsKey>, cur0: seq<(string, string)>)
    returns (inGs: set<GsKey>, cur: seq<(string, string)>)
    ensures forall g :: g in inGs <==> g in inGs0 || g in ov
    ensures cur == cur0 + seq(|ov|, _ => e)
  {
    inGs, cur := inGs0, cur0;
    var t := 0;
    while t < |ov|
      invariant 0 <= t <= |ov|
      invariant forall g :: g in inGs <==> g in inGs0 || g in ov[..t]
      invariant cur == cur0 + seq(t, _ => e)
    {
      assert ov[..t + 1] == ov[..t] + [ov[t]];
      inGs := inGs + {ov[t]};
      cur := cur + [e];
      t := t + 1;
    }
    assert ov[..t] == ov;
  }

  /**
   * The last loop of getGSLinksByType: for each gold extent of inGS (in no fixed order), one
   * (printed offset, file) pair per index row of it in the gold standard.
   */
  method LocateGold(extents: seq<ExtentRow>, inGs: set<GsKey>) returns (pairs: seq<(string, string)>)
    ensures forall loc, f :: (loc, f) in pairs <==> exists g :: g in inGs && g.file == f && GsRowAt(extents, g, loc)
  {
    pairs := [];
    var todo, done := inGs, {};
    while todo != {}
      invariant todo + done == inGs && todo !! done
      invariant forall loc, f :: (loc, f) in pairs <==> exists g :: g in done && g.file == f && GsRowAt(extents, g, loc)
      decreases todo
    {
      var g :| g in todo;
      var found := Map(GsLocations(extents, g), (loc: string) => (loc, g.file));
      LocatedPairs(extents, g);
      pairs := pairs + found;
      todo, done := todo - {g}, done + {g};
    }
  }

  /** The pairs one gold extent contributes: its own file at each offset of its gold rows. */
  lemma LocatedPairs(extents: seq<ExtentRow>, g: GsKey)
    ensures forall loc, f :: (loc, f) in Map(GsLocations(extents, g), (loc: string) => (loc, g.file)) <==>
      f == g.file && GsRowAt(extents, g, loc)
  {
    var locs := GsLocations(extents, g);
    var found := Map(locs, (loc: string) => (loc, g.file));
    forall loc, f
      ensures (loc, f) in found <==> f == g.file && GsRowAt(extents, g, loc)
    {
      GsLocationsSpec(extents, g, loc);
      if (loc, f) in found {
        var i :| 0 <= i < |found| && found[i] == (loc, f);
        assert locs[i] == loc;
      }
      if f == g.file && loc in locs {
        var i :| 0 <= i < |locs| && locs[i] == loc;
        assert found[i] == (loc, f);
      }
    }
  }

  /**
   * The first loop of getLinkTagsInSpanByType: the attribute table of each current link,
   * filed under its file once per matching row.
   */
  method TempLinkTables(tables: map<string, seq<TagRow>>, tagName: string, atts: seq<AttDef>,
                        current: seq<(string, string)>) returns (r: Result<map<string, seq<map<string, string>>>>)
    ensures r == TempLinks(tables, tagName, atts, current)
  {
    var temp: map<string, seq<map<string, string>>> := map[];
    var k := 0;
    while k < |current|
      invariant 0 <= k <= |current|
      invariant TempLinks(tables, tagName, atts, current[..k]) == Ok(temp)
    {
      if tagName !in tables {
        return Fail(NoTable);
      }
      TempLinksStep(tables, tagName, atts, current, k);
      var rows := RowsOf(tables[tagName], current[k].0, current[k].1);
      var values := LinkValuesOf(rows, atts);
      if values.Fail? {
        assert ValuesFail(tables[tagName], atts, current[k]);
        TempLinksFail(tables, tagName, atts, current);
        return Fail(values.exc);
      }
      temp := AppendedCopies(temp, current[k].0, values.value, |rows|);
      k := k + 1;
    }
    assert current[..k] == current;
    r := Ok(temp);
  }

  /** Each matching row puts every attribute's value into one table, row after row. */
  method LinkValuesOf(rows: seq<TagRow>, atts: seq<AttDef>) returns (r: Result<map<string, string>>)
    ensures r == LinkValues(rows, atts)
  {
    var ht: map<string, string> := map[];
    var i := 0;
    while i < |rows|
      invariant 0 <= i <= |rows|
      invariant LinkValues(rows[..i], atts) == Ok(ht)
    {
      assert rows[..i + 1][..i] == rows[..i];
      var h := ht;
      var a := 0;
      while a < |atts|
        invariant 0 <= a <= |atts|
        invariant PutColumns(ht, rows[i], atts[..a]) == Ok(h)
      {
        assert atts[..a + 1][..a] == atts[..a];
        if atts[a].name !in rows[i].values {
          return Fail(NullPointer);
        }
        h := h[atts[a].name := rows[i].values[atts[a].name]];
        a := a + 1;
      }
      assert atts[..a] == atts;
      ht := h;
      i := i + 1;
    }
    assert rows[..i] == rows;
    r := Ok(ht);
  }

  /** The puts of getLinkTagsInSpanByType: each file's kept links, and its highlights into `hl`. */
  method FileResults(outs: map<string, (seq<map<string, string>>, seq<Span>)>, hl: HashCollection<string, Span>)
    returns (result: HashCollection<string, map<string, string>>)
    requires hl.hash == map[]
    modifies hl
    ensures fresh(result)
    ensures forall f :: f in outs ==> Lookup(result.hash, f) == outs[f].0 && Lookup(hl.hash, f) == outs[f].1
    ensures forall f :: f !in outs ==> f !in result.hash && f !in hl.hash
  {
    result := new HashCollection<string, map<string, string>>();
    var todo, done := outs.Keys, {};
    while todo != {}
      invariant todo + done == outs.Keys && todo !! done
      invariant fresh(result)
      invariant forall f :: f in done ==>
        Lookup(result.hash, f) == outs[f].0 && Lookup(hl.hash, f) == outs[f].1
      invariant forall f :: f !in done ==> f !in result.hash && f !in hl.hash
      decreases todo
    {
      var f :| f in todo;
      ghost var h0, c0 := result.hash, hl.hash;
      hl.PutList(f, outs[f].1);
      result.PutList(f, outs[f].0);
      LookupAppended(h0, f, outs[f].0);
      LookupAppended(c0, f, outs[f].1);
      todo, done := todo - {f}, done + {f};
    }
  }

  /** The second loop of getLinkTagsInSpanByType over the files, in no fixed order. */
  method ProcessFiles(extents: seq<ExtentRow>, tables: map<string, seq<TagRow>>, sel: Span,
                      temp: map<string, seq<map<string, string>>>)
    returns (r: Result<map<string, (seq<map<string, string>>, seq<Span>)>>)
    ensures r.Ok? <==> forall f :: f in temp ==> ProcessList(extents, tables, sel, f, temp[f]).Ok?
    ensures r.Ok? ==> r.value.Keys == temp.Keys
    ensures r.Ok? ==> forall f :: f in temp ==> r.value[f] == ProcessList(extents, tables, sel, f, temp[f]).value
  {
    var outs: map<string, (seq<map<string, string>>, seq<Span>)> := map[];
    var todo, done := temp.Keys, {};
    while todo != {}
      invariant todo + done == temp.Keys && todo !! done
      invariant outs.Keys == done
      invariant forall f :: f in done ==>
        ProcessList(extents, tables, sel, f, temp[f]).Ok? && outs[f] == ProcessList(extents, tables, sel, f, temp[f]).value
      decreases todo
    {
      var f :| f in todo;
      var out := ProcessLinks(extents, tables, sel, f, temp[f]);
      if out.Fail? {
        return Fail(out.exc);
      }
      outs := outs[f := out.value];
      todo, done := todo - {f}, done + {f};
    }
    r := Ok(outs);
  }

  /** The second loop of getLinkTagsInSpanByType over the links of one file. */
  method ProcessLinks(extents: seq<ExtentRow>, tables: map<string, seq<TagRow>>, sel: Span,
                      file: string, links: seq<map<string, string>>)
    returns (r: Result<(seq<map<string, string>>, seq<Span>)>)
    ensures r == ProcessList(extents, tables, sel, file, links)
  {
    ghost var outs := Map(links, (l: map<string, string>) => ProcessLink(extents, tables, sel, file, l, false));
    var kept: seq<map<string, string>> := [];
    var hl: seq<Span> := [];
    var k := 0;
    while k < |links|
      invariant 0 <= k <= |links|
      invariant Gather(outs[..k]) == Ok((kept, hl))
    {
      var out := ProcessLink(extents, tables, sel, file, links[k], false);
      assert outs[..k + 1][..k] == outs[..k];
      if out.Fail? {
        GatherFails(outs, k);
        return Fail(out.exc);
      }
      if out.value.Kept? {
        kept := kept + [out.value.link];
        hl := hl + out.value.highlights;
      }
      k := k + 1;
    }
    assert outs[..k] == outs;
    r := Ok((kept, hl));
  }

  /** The attribute loop of getTagsByFileAndID on one row: its puts into `ht`, or null. */
  method RowPuts(atts: seq<AttDef>, row: TagRow, ht: map<string, string>) returns (h: Option<map<string, string>>)
    ensures h.None? <==> RowValues(atts, row).None?
    ensures h.Some? ==> h.value == ht + RowValues(atts, row).value
  {
    var acc := ht;
    ghost var m: map<string, string> := map[];
    var a := 0;
    assert atts[..0] == [];
    assert RowValues(atts[..0], row) == Some(m);
    while a < |atts|
      invariant 0 <= a <= |atts|
      invariant RowValues(atts[..a], row) == Some(m)
      invariant acc == ht + m
    {
      var att := atts[a];
      var v := Column(row, att.name);
      if v.None? && att.required {
        assert RowValues(atts, row).None?;
        return None;
      }
      var text := if v.Some? then v.value else "";
      RowValuesStep(atts, a, row);
      UnionUpdate(ht, m, att.name, text);
      acc := acc[att.name := text];
      m := m[att.name := text];
      assert RowValues(atts[..a + 1], row) == Some(m);
      a := a + 1;
    }
    assert atts[..a] == atts;
    h := Some(acc);
  }

  lemma RowValuesStep(atts: seq<AttDef>, a: nat, row: TagRow)
    requires a < |atts| && RowValues(atts[..a], row).Some?
    requires !(atts[a].required && Column(row, atts[a].name).None?)
    ensures RowValues(atts[..a + 1], row) == Some(RowValues(atts[..a], row).value[atts[a].name :=
      if atts[a].name in row.values then row.values[atts[a].name] else ""])
  {
    assert atts[..a + 1][..a] == atts[..a];
  }

  lemma UnionUpdate<K, V>(ht: map<K, V>, m: map<K, V>, k: K, v: V)
    ensures (ht + m)[k := v] == ht + m[k := v]
  {
  }

  /** The rows of one file in a type table. */
  function FileRows(rows: seq<TagRow>, file: string): (r: seq<TagRow>)
    ensures forall x :: x in r <==> x in rows && x.file == file
  {
    Filter(rows, (x: TagRow) => x.file == file)
  }

  /**
   * makeTagStringsForOutput: one empty XML element per row, attribute by attribute; a NULL
   * value throws, which ends the loop with the tags made so far.
   */
  method MakeTagStringsForOutput(name: string, atts: seq<AttDef>, rows: seq<TagRow>) returns (tags: seq<string>)
    ensures tags == TagTexts(name, atts, rows)
  {
    tags := [];
    var i := 0;
    while i < |rows|
      invariant 0 <= i <= |rows| && |tags| == i
      invariant forall k :: 0 <= k < i ==> TagText(name, atts, rows[k]) == Some(tags[k])
    {
      var row := rows[i];
      var body := "";
      var a := 0;
      while a < |atts|
        invariant 0 <= a <= |atts|
        invariant AttributeText(atts[..a], row) == Some(body)
      {
        assert atts[..a + 1][..a] == atts[..a];
        var v := Column(row, atts[a].name);
        if v.None? {
          assert TagText(name, atts, rows[i]).None?;
          TagTextsUnique(name, atts, rows, tags);
          return;
        }
        body := body + atts[a].name + "=\"" + Escape(v.value) + "\" ";
        a := a + 1;
      }
      assert atts[..a] == atts;
      tags := tags + ["<" + name + " " + body + "/>\n"];
      i := i + 1;
    }
    TagTextsUnique(name, atts, rows, tags);
  }

  /** The scan of addOverlaps / findAllOverlaps over the spans of one gold tag. */
  method ScanSpans(extents: seq<ExtentRow>, gsid: string, name: string, spans: seq<Span>) returns (rows: seq<OverlapRow>)
    ensures rows == SpansOverlaps(extents, gsid, name, spans)
  {
    rows := [];
    var k := 0;
    while k < |spans|
      invariant 0 <= k <= |spans|
      invariant rows == SpansOverlaps(extents, gsid, name, spans[..k])
    {
      assert spans[..k + 1][..k] == spans[..k];
      rows := rows + SpanOverlaps(extents, gsid, name, spans[k]);
      k := k + 1;
    }
    assert spans[..k] == spans;
  }

  /** The index rows of the spans of one tag, built offset by offset as the Java loops do. */
  method IndexSpans(file: string, name: string, id: string, spans: seq<Span>) returns (rows: seq<ExtentRow>)
    ensures rows == IndexRows(file, name, id, spans)
  {
    rows := [];
    var k := 0;
    while k < |spans|
      invariant 0 <= k <= |spans|
      invariant rows == IndexRows(file, name, id, spans[..k])
    {
      assert spans[..k + 1][..k] == spans[..k];
      var sp := spans[k];
      if sp.start > -1 {
        var i := sp.start as int;
        ghost var before := rows;
        while i < sp.end
          invariant sp.start <= i <= Max(sp.start, sp.end)
          invariant rows == before + seq(i - sp.start, j => ExtentRow(file, sp.start + j, name, id))
        {
          assert seq(i + 1 - sp.start, j => ExtentRow(file, sp.start + j, name, id))
              == seq(i - sp.start, j => ExtentRow(file, sp.start + j, name, id)) + [ExtentRow(file, i, name, id)];
          rows := rows + [ExtentRow(file, i, name, id)];
          i := i + 1;
        }
        assert rows == before + SpanRows(file, name, id, sp);
      } else {
        rows := rows + [ExtentRow(file, -1, name, id)];
      }
      k := k + 1;
    }
    assert spans[..k] == spans;
  }
}

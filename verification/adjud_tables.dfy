/**
 * The adjudication database's tables as sequences of rows, in insertion order, and the
 * queries AdjudDB runs over them as functions: a `where` clause is a filter, a column list a
 * projection, `distinct` keeps the first of equal results.
 *
 *   extents(file_name, location, element_name, id)         one row per character offset
 *   links(file_name, id, fromid, from_name, toid, to_name, element_name)
 *   extent_overlaps(gsid, element_name, file_name, fileid)
 *   one table per tag type: file_name and one column per attribute
 */
module AdjudTables {
  import opened Common
  import opened JavaStrings
  import opened Spans
  import opened Schema

  /** The file name under which the gold standard is stored. */
  const GS_FILE: string := "goldStandard.xml"

  datatype ExtentRow = ExtentRow(file: string, location: int, elemName: string, id: string)

  datatype LinkRow = LinkRow(
    file: string, id: string, fromId: string, fromName: string,
    toId: string, toName: string, elemName: string)

  datatype OverlapRow = OverlapRow(gsid: string, elemName: string, file: string, fileId: string)

  /** A row of a tag type's own table; an attribute without a key holds SQL NULL. */
  datatype TagRow = TagRow(file: string, values: map<string, string>)

  /** What the database reads of an attribute definition. */
  datatype AttDef = AttDef(name: string, required: bool)

  /** What the database reads of a tag type: its name, kind and attributes, in order. */
  datatype TagType = TagType(name: string, kind: ElemKind, attributes: seq<AttDef>)

  function AttNames(atts: seq<AttDef>): (r: seq<string>)
    ensures |r| == |atts| && forall i :: 0 <= i < |atts| ==> r[i] == atts[i].name
  {
    seq(|atts|, i requires 0 <= i < |atts| => atts[i].name)
  }

  /** `f` applied to each element of `s` (a projection onto some columns). */
  function Map<T, U>(s: seq<T>, f: T -> U): (r: seq<U>)
    ensures |r| == |s| && forall i :: 0 <= i < |s| ==> r[i] == f(s[i])
  {
    seq(|s|, i requires 0 <= i < |s| => f(s[i]))
  }

  lemma MapAppend<T, U>(a: seq<T>, b: seq<T>, f: T -> U)
    ensures Map(a + b, f) == Map(a, f) + Map(b, f)
  {
    assert forall i :: 0 <= i < |a + b| ==> Map(a + b, f)[i] == (Map(a, f) + Map(b, f))[i];
  }

  /** The projection of the rows satisfying `p`: each element is the image of such a row. */
  lemma SelectMembership<T, U>(s: seq<T>, p: T -> bool, f: T -> U, x: U)
    ensures x in Map(Filter(s, p), f) <==> exists i :: 0 <= i < |s| && p(s[i]) && f(s[i]) == x
  {
    var m := Map(Filter(s, p), f);
    if x in m {
      var j :| 0 <= j < |m| && m[j] == x;
      var y := Filter(s, p)[j];
      var i :| 0 <= i < |s| && s[i] == y;
    }
    if exists i :: 0 <= i < |s| && p(s[i]) && f(s[i]) == x {
      var i :| 0 <= i < |s| && p(s[i]) && f(s[i]) == x;
      assert s[i] in Filter(s, p);
      var j :| 0 <= j < |Filter(s, p)| && Filter(s, p)[j] == s[i];
      assert m[j] == x;
    }
  }

  // ---------------------------------------------------------------------------------------
  // The per-character index (usePreparedExtentStatements)
  // ---------------------------------------------------------------------------------------

  /**
   * The index rows of one span: one per offset of `[start, end)` for a span that starts
   * above -1, a single row at -1 for any other.
   */
  function SpanRows(file: string, name: string, id: string, sp: Span): (r: seq<ExtentRow>)
    ensures sp.start > -1 ==> |r| == (if sp.end > sp.start then sp.end - sp.start else 0)
    ensures sp.start <= -1 ==> r == [ExtentRow(file, -1, name, id)]
  {
    if sp.start > -1 then
      seq(if sp.end > sp.start then sp.end - sp.start else 0,
          i => ExtentRow(file, sp.start + i, name, id))
    else [ExtentRow(file, -1, name, id)]
  }

  /** The index rows of a tag: those of each span, in span order. */
  function IndexRows(file: string, name: string, id: string, spans: seq<Span>): seq<ExtentRow>
  {
    if |spans| == 0 then []
    else IndexRows(file, name, id, spans[..|spans| - 1]) + SpanRows(file, name, id, spans[|spans| - 1])
  }

  /** Where a span puts index rows. */
  predicate Indexes(sp: Span, loc: int)
  {
    if sp.start > -1 then sp.start <= loc < sp.end else loc == -1
  }

  lemma SpanRowsSpec(file: string, name: string, id: string, sp: Span, row: ExtentRow)
    ensures row in SpanRows(file, name, id, sp) <==>
      row.file == file && row.elemName == name && row.id == id && Indexes(sp, row.location)
  {
    var r := SpanRows(file, name, id, sp);
    if sp.start > -1 && row.file == file && row.elemName == name && row.id == id
      && Indexes(sp, row.location) {
      assert r[row.location - sp.start] == row;
    }
  }

  /**
   * An extent's index rows carry its file, type and id, and sit exactly at the offsets its
   * spans cover (end excluded), plus -1 when some span starts at or below -1.
   */
  lemma {:induction false} IndexRowsSpec(file: string, name: string, id: string, spans: seq<Span>, row: ExtentRow)
    ensures row in IndexRows(file, name, id, spans) <==>
      row.file == file && row.elemName == name && row.id == id
      && exists k :: 0 <= k < |spans| && Indexes(spans[k], row.location)
    decreases |spans|
  {
    if |spans| > 0 {
      var init := spans[..|spans| - 1];
      var last := spans[|spans| - 1];
      IndexRowsSpec(file, name, id, init, row);
      SpanRowsSpec(file, name, id, last, row);
      if exists k :: 0 <= k < |spans| && Indexes(spans[k], row.location) {
        var k :| 0 <= k < |spans| && Indexes(spans[k], row.location);
        if k < |init| {
          assert init[k] == spans[k];
        }
      }
      if exists k :: 0 <= k < |init| && Indexes(init[k], row.location) {
        var k :| 0 <= k < |init| && Indexes(init[k], row.location);
        assert spans[k] == init[k];
      }
    }
  }

  /** Offsets the index may hold: -1, or an offset below the largest `int`. */
  predicate StoredRows(rows: seq<ExtentRow>)
  {
    forall i :: 0 <= i < |rows| ==> -1 <= rows[i].location < INT_MAX
  }

  /** Index rows of spans with 32-bit ends keep the index within its offset range. */
  lemma {:induction false} IndexRowsStored(file: string, name: string, id: string, spans: seq<Span>)
    ensures StoredRows(IndexRows(file, name, id, spans))
    decreases |spans|
  {
    if |spans| > 0 {
      IndexRowsStored(file, name, id, spans[..|spans| - 1]);
    }
  }

  lemma StoredRowsAppend(a: seq<ExtentRow>, b: seq<ExtentRow>)
    requires StoredRows(a) && StoredRows(b)
    ensures StoredRows(a + b)
  {
  }

  /** The values a new row of a tag type's table holds: the tag's value of each attribute. */
  function ColumnValues(atts: seq<AttDef>, tag: map<string, string>): (r: map<string, string>)
    ensures forall k :: k in r <==> k in tag && exists i :: 0 <= i < |atts| && atts[i].name == k
    ensures forall k :: k in r ==> r[k] == tag[k]
  {
    map k | k in tag && (exists i :: 0 <= i < |atts| && atts[i].name == k) :: tag[k]
  }

  /** The same for a link, whose missing attributes are stored as "". */
  function LinkColumnValues(atts: seq<AttDef>, tag: map<string, string>): (r: map<string, string>)
    ensures forall k :: k in r <==> exists i :: 0 <= i < |atts| && atts[i].name == k
    ensures forall k :: k in r ==> r[k] == (if k in tag then tag[k] else "")
  {
    map k | k in AttNames(atts) :: if k in tag then tag[k] else ""
  }

  // ---------------------------------------------------------------------------------------
  // Queries on the index and the link table
  // ---------------------------------------------------------------------------------------

  /** The location condition of getTagsInSpanByType: a range when begin != end, else a point. */
  predicate InSelection(loc: int, begin: int, end: int)
  {
    if begin != end then begin <= loc <= end else loc == begin
  }

  /** getTagsInSpanByType's result rows: distinct (file, id) of `tagName` rows in the selection. */
  function TagsInSpan(extents: seq<ExtentRow>, begin: int, end: int, tagName: string): seq<(string, string)>
  {
    Distinct(Map(Filter(extents, (r: ExtentRow) => r.elemName == tagName && InSelection(r.location, begin, end)),
                 (r: ExtentRow) => (r.file, r.id)))
  }

  lemma TagsInSpanSpec(extents: seq<ExtentRow>, begin: int, end: int, tagName: string, f: string, id: string)
    ensures (f, id) in TagsInSpan(extents, begin, end, tagName) <==>
      exists i :: 0 <= i < |extents| && extents[i].elemName == tagName
        && InSelection(extents[i].location, begin, end) && extents[i].file == f && extents[i].id == id
  {
    SelectMembership(extents, (r: ExtentRow) => r.elemName == tagName && InSelection(r.location, begin, end),
                     (r: ExtentRow) => (r.file, r.id), (f, id));
  }

  /** The first part of getFileTagsInSpanAndNC: distinct (type, id) in `file` in the selection. */
  function FileTagsInSpan(extents: seq<ExtentRow>, file: string, begin: int, end: int): seq<(string, string)>
  {
    Distinct(Map(Filter(extents, (r: ExtentRow) => r.file == file && InSelection(r.location, begin, end)),
                 (r: ExtentRow) => (r.elemName, r.id)))
  }

  lemma FileTagsInSpanSpec(extents: seq<ExtentRow>, file: string, begin: int, end: int, t: string, id: string)
    ensures (t, id) in FileTagsInSpan(extents, file, begin, end) <==>
      exists i :: 0 <= i < |extents| && extents[i].file == file
        && InSelection(extents[i].location, begin, end) && extents[i].elemName == t && extents[i].id == id
  {
    SelectMembership(extents, (r: ExtentRow) => r.file == file && InSelection(r.location, begin, end),
                     (r: ExtentRow) => (r.elemName, r.id), (t, id));
  }

  /** Its second part: distinct (type, id) of every row at -1, of any file. */
  function NonConsumingTags(extents: seq<ExtentRow>): seq<(string, string)>
  {
    Distinct(Map(Filter(extents, (r: ExtentRow) => r.location == -1), (r: ExtentRow) => (r.elemName, r.id)))
  }

  lemma NonConsumingTagsSpec(extents: seq<ExtentRow>, t: string, id: string)
    ensures (t, id) in NonConsumingTags(extents) <==>
      exists i :: 0 <= i < |extents| && extents[i].location == -1 && extents[i].elemName == t && extents[i].id == id
  {
    SelectMembership(extents, (r: ExtentRow) => r.location == -1, (r: ExtentRow) => (r.elemName, r.id), (t, id));
  }

  /** The non-consuming part does not look at the file: a tag of another file shows up too. */
  lemma NonConsumingTagsOfAnyFile(extents: seq<ExtentRow>, i: nat)
    requires i < |extents| && extents[i].location == -1
    ensures (extents[i].elemName, extents[i].id) in NonConsumingTags(extents)
  {
    SelectMembership(extents, (r: ExtentRow) => r.location == -1, (r: ExtentRow) => (r.elemName, r.id),
                     (extents[i].elemName, extents[i].id));
  }

  /** getFilesAtLocbyElement: the file of each `elemName` row at `loc`, repeats kept. */
  function FilesAt(extents: seq<ExtentRow>, elemName: string, loc: int): seq<string>
  {
    Map(Filter(extents, (r: ExtentRow) => r.location == loc && r.elemName == elemName), (r: ExtentRow) => r.file)
  }

  lemma FilesAtSpec(extents: seq<ExtentRow>, elemName: string, loc: int, f: string)
    ensures f in FilesAt(extents, elemName, loc) <==>
      exists i :: 0 <= i < |extents| && extents[i].location == loc && extents[i].elemName == elemName
        && extents[i].file == f
  {
    SelectMembership(extents, (r: ExtentRow) => r.location == loc && r.elemName == elemName,
                     (r: ExtentRow) => r.file, f);
  }

  /** getExtentAllLocs: (location text, file) of every row of `tagName`. */
  function AllLocs(extents: seq<ExtentRow>, tagName: string): seq<(string, string)>
  {
    Map(Filter(extents, (r: ExtentRow) => r.elemName == tagName), (r: ExtentRow) => (IntToString(r.location), r.file))
  }

  lemma AllLocsSpec(extents: seq<ExtentRow>, tagName: string, loc: int, f: string)
    ensures (IntToString(loc), f) in AllLocs(extents, tagName) <==>
      exists i :: 0 <= i < |extents| && extents[i].elemName == tagName
        && extents[i].location == loc && extents[i].file == f
  {
    SelectMembership(extents, (r: ExtentRow) => r.elemName == tagName,
                     (r: ExtentRow) => (IntToString(r.location), r.file), (IntToString(loc), f));
    forall i | 0 <= i < |extents| && IntToString(extents[i].location) == IntToString(loc)
      ensures extents[i].location == loc
    {
      IntToStringInjective(extents[i].location, loc);
    }
  }

  /** A printed number starts with '-' exactly when it is negative. */
  lemma IntToStringSign(x: int)
    ensures (x < 0) == (IntToString(x)[0] == '-')
  {
    if x >= 0 {
      assert IsDigit(IntToString(x)[0]);
    }
  }

  /** Distinct numbers print differently (also for negative numbers). */
  lemma IntToStringInjective(x: int, y: int)
    requires IntToString(x) == IntToString(y)
    ensures x == y
  {
    IntToStringSign(x);
    IntToStringSign(y);
    if x < 0 {
      assert IntToString(x)[1..] == NatToString(-x);
      assert IntToString(y)[1..] == NatToString(-y);
      NatToStringInjective(-x, -y);
    } else {
      NatToStringInjective(x, y);
    }
  }

  /** getLinksByFileAndExtentID: (link type, link id) where the extent is the from anchor, then the to anchor. */
  function AnchorLinks(links: seq<LinkRow>, file: string, elemName: string, id: string): seq<(string, string)>
  {
    Map(Filter(links, (l: LinkRow) => l.fromId == id && l.fromName == elemName && l.file == file),
        (l: LinkRow) => (l.elemName, l.id))
    + Map(Filter(links, (l: LinkRow) => l.toId == id && l.toName == elemName && l.file == file),
          (l: LinkRow) => (l.elemName, l.id))
  }

  lemma AnchorLinksSpec(links: seq<LinkRow>, file: string, elemName: string, id: string, t: string, lid: string)
    ensures (t, lid) in AnchorLinks(links, file, elemName, id) <==>
      exists i :: 0 <= i < |links| && links[i].file == file && links[i].elemName == t && links[i].id == lid
        && ((links[i].fromId == id && links[i].fromName == elemName)
            || (links[i].toId == id && links[i].toName == elemName))
  {
    SelectMembership(links, (l: LinkRow) => l.fromId == id && l.fromName == elemName && l.file == file,
                     (l: LinkRow) => (l.elemName, l.id), (t, lid));
    SelectMembership(links, (l: LinkRow) => l.toId == id && l.toName == elemName && l.file == file,
                     (l: LinkRow) => (l.elemName, l.id), (t, lid));
  }

  /** getElementByFileAndID / getElemNameByFileAndId: the type of the first row with that file and id. */
  function ElementOf(extents: seq<ExtentRow>, file: string, id: string): (r: Result<string>)
    ensures r.Fail? <==> forall i :: 0 <= i < |extents| ==> !(extents[i].file == file && extents[i].id == id)
    ensures r.Fail? ==> r.exc == NoRow
    ensures r.Ok? ==>
      exists i :: (0 <= i < |extents| && extents[i].file == file && extents[i].id == id
        && extents[i].elemName == r.value
        && forall j :: 0 <= j < i ==> !(extents[j].file == file && extents[j].id == id))
  {
    if |extents| == 0 then Fail(NoRow)
    else if extents[0].file == file && extents[0].id == id then Ok(extents[0].elemName)
    else
      var r := ElementOf(extents[1..], file, id);
      if r.Ok? then
        var i :| 0 <= i < |extents[1..]| && extents[1..][i].file == file && extents[1..][i].id == id
          && extents[1..][i].elemName == r.value
          && forall j :: 0 <= j < i ==> !(extents[1..][j].file == file && extents[1..][j].id == id);
        assert extents[i + 1] == extents[1..][i];
        assert forall j :: 1 <= j < i + 1 ==> extents[j] == extents[1..][j - 1];
        r
      else
        assert forall i :: 1 <= i < |extents| ==> extents[i] == extents[1..][i - 1];
        r
  }

  /** idExists: some index row or some link row has this id in this file. */
  predicate IdIn(extents: seq<ExtentRow>, links: seq<LinkRow>, id: string, file: string)
  {
    |Filter(extents, (r: ExtentRow) => r.id == id && r.file == file)| > 0
    || |Filter(links, (l: LinkRow) => l.id == id && l.file == file)| > 0
  }

  lemma IdInSpec(extents: seq<ExtentRow>, links: seq<LinkRow>, id: string, file: string)
    ensures IdIn(extents, links, id, file) <==>
      (exists i :: 0 <= i < |extents| && extents[i].id == id && extents[i].file == file)
      || (exists i :: 0 <= i < |links| && links[i].id == id && links[i].file == file)
  {
    var pe := (r: ExtentRow) => r.id == id && r.file == file;
    var pl := (l: LinkRow) => l.id == id && l.file == file;
    if exists i :: 0 <= i < |extents| && extents[i].id == id && extents[i].file == file {
      var i :| 0 <= i < |extents| && extents[i].id == id && extents[i].file == file;
      assert extents[i] in Filter(extents, pe);
    }
    if exists i :: 0 <= i < |links| && links[i].id == id && links[i].file == file {
      var i :| 0 <= i < |links| && links[i].id == id && links[i].file == file;
      assert links[i] in Filter(links, pl);
    }
    if |Filter(extents, pe)| > 0 {
      var r := Filter(extents, pe)[0];
      var i :| 0 <= i < |extents| && extents[i] == r;
    }
    if |Filter(links, pl)| > 0 {
      var l := Filter(links, pl)[0];
      var i :| 0 <= i < |links| && links[i] == l;
    }
  }

  /** tagExistsInFileAtLoc: some index row of `file` sits at `loc`. */
  predicate TagAt(extents: seq<ExtentRow>, file: string, loc: int)
  {
    |Filter(extents, (r: ExtentRow) => r.location == loc && r.file == file)| > 0
  }

  lemma TagAtSpec(extents: seq<ExtentRow>, file: string, loc: int)
    ensures TagAt(extents, file, loc) <==>
      exists i :: 0 <= i < |extents| && extents[i].location == loc && extents[i].file == file
  {
    var p := (r: ExtentRow) => r.location == loc && r.file == file;
    if exists i :: 0 <= i < |extents| && extents[i].location == loc && extents[i].file == file {
      var i :| 0 <= i < |extents| && extents[i].location == loc && extents[i].file == file;
      assert extents[i] in Filter(extents, p);
    }
    if |Filter(extents, p)| > 0 {
      var r := Filter(extents, p)[0];
      var i :| 0 <= i < |extents| && extents[i] == r;
    }
  }

  // ---------------------------------------------------------------------------------------
  // Offsets back to spans (getLocByFileAndID)
  // ---------------------------------------------------------------------------------------

  /** The offsets stored for (file, id), in table order. */
  function Locations(extents: seq<ExtentRow>, file: string, id: string): seq<int>
  {
    Map(Filter(extents, (r: ExtentRow) => r.id == id && r.file == file), (r: ExtentRow) => r.location)
  }

  lemma LocationsStored(extents: seq<ExtentRow>, file: string, id: string)
    requires StoredRows(extents)
    ensures StoredLocations(Locations(extents, file, id))
  {
    var p := (r: ExtentRow) => r.id == id && r.file == file;
    forall k | 0 <= k < |Locations(extents, file, id)|
      ensures -1 <= Locations(extents, file, id)[k] < INT_MAX
    {
      var r := Filter(extents, p)[k];
      var i :| 0 <= i < |extents| && extents[i] == r;
    }
  }

  lemma LocationsSpec(extents: seq<ExtentRow>, file: string, id: string, y: int)
    ensures y in Locations(extents, file, id) <==>
      exists i :: 0 <= i < |extents| && extents[i].id == id && extents[i].file == file && extents[i].location == y
  {
    SelectMembership(extents, (r: ExtentRow) => r.id == id && r.file == file, (r: ExtentRow) => r.location, y);
  }

  /** `x` put into its place in the sorted `xs`. */
  function Insert(x: int, xs: seq<int>): (r: seq<int>)
    requires SortedInts(xs)
    ensures SortedInts(r) && multiset(r) == multiset(xs) + multiset{x}
  {
    if |xs| == 0 then [x]
    else if x <= xs[0] then
      SortedCons(x, xs);
      [x] + xs
    else
      var rest := Insert(x, xs[1..]);
      assert xs == [xs[0]] + xs[1..];
      BelowAll(xs[0], rest, multiset(xs[1..]) + multiset{x});
      SortedCons(xs[0], rest);
      [xs[0]] + rest
  }

  /** A value at most the first of a sorted list keeps it sorted in front. */
  lemma SortedCons(x: int, xs: seq<int>)
    requires SortedInts(xs) && (|xs| == 0 || x <= xs[0])
    ensures SortedInts([x] + xs)
  {
    var r := [x] + xs;
    forall i, j | 0 <= i < j < |r|
      ensures r[i] <= r[j]
    {
      if i > 0 {
        assert r[i] == xs[i - 1] && r[j] == xs[j - 1];
      } else {
        assert r[j] == xs[j - 1];
      }
    }
  }

  /** Every element of a list drawn from a bag of values at least `y` is at least `y`. */
  lemma BelowAll(y: int, r: seq<int>, bag: multiset<int>)
    requires multiset(r) == bag && forall v :: v in bag ==> y <= v
    ensures |r| == 0 || y <= r[0]
  {
    if |r| > 0 {
      assert r[0] in multiset(r);
    }
  }

  /** Collections.sort on a list of offsets: the sorted permutation. */
  function Sort(xs: seq<int>): (r: seq<int>)
    ensures SortedInts(r) && multiset(r) == multiset(xs)
  {
    if |xs| == 0 then []
    else
      assert xs == [xs[0]] + xs[1..];
      Insert(xs[0], Sort(xs[1..]))
  }

  lemma SortStored(xs: seq<int>)
    requires StoredLocations(xs)
    ensures StoredLocations(Sort(xs)) && |Sort(xs)| == |xs|
    ensures forall y :: y in Sort(xs) <==> y in xs
  {
    var r := Sort(xs);
    assert |r| == |multiset(r)| == |multiset(xs)| == |xs|;
    forall k | 0 <= k < |r|
      ensures -1 <= r[k] < INT_MAX
    {
      assert r[k] in multiset(xs);
    }
    forall y
      ensures y in r <==> y in xs
    {
      assert y in r <==> y in multiset(r);
      assert y in xs <==> y in multiset(xs);
    }
  }

  /**
   * getLocByFileAndID: the span text of the offsets stored for (file, id); an id without
   * rows fails on the first element of the empty list.
   */
  function LocText(extents: seq<ExtentRow>, file: string, id: string): (r: Result<string>)
    requires StoredRows(extents)
    ensures r.Fail? <==> |Locations(extents, file, id)| == 0
    ensures r.Fail? ==> r.exc == IndexOutOfBounds
  {
    var locs := Locations(extents, file, id);
    LocationsStored(extents, file, id);
    SortStored(locs);
    if |locs| == 0 then Fail(IndexOutOfBounds) else Ok(Format(Runs(Sort(locs))))
  }

  /**
   * Read back, the text of getLocByFileAndID is a list of non-empty spans in increasing
   * order, separated by gaps, whose half-open ranges cover exactly the offsets stored for
   * (file, id).
   */
  lemma LocTextSpans(extents: seq<ExtentRow>, file: string, id: string)
    requires StoredRows(extents) && |Locations(extents, file, id)| > 0
    ensures LocText(extents, file, id).Ok?
    ensures Parse(LocText(extents, file, id).value).Ok?
    ensures var runs := Parse(LocText(extents, file, id).value).value;
      (forall k :: 0 <= k < |runs| ==> runs[k].start < runs[k].end)
      && (forall k :: 0 <= k < |runs| - 1 ==> runs[k].end < runs[k + 1].start)
      && forall y :: Covers(runs, y) <==>
        exists i :: 0 <= i < |extents| && extents[i].id == id && extents[i].file == file && extents[i].location == y
  {
    var locs := Locations(extents, file, id);
    LocationsStored(extents, file, id);
    SortStored(locs);
    var runs := Runs(Sort(locs));
    assert LocText(extents, file, id) == Ok(Format(runs));
    ParseFormat(runs);
    RunsShape(Sort(locs));
    RunsCover(Sort(locs));
    forall y
      ensures Covers(runs, y) <==>
        exists i :: 0 <= i < |extents| && extents[i].id == id && extents[i].file == file && extents[i].location == y
    {
      LocationsSpec(extents, file, id, y);
    }
  }
}

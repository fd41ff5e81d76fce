/**
 * The two link queries that tie the other files' links to the gold standard:
 * getGSLinksByType (which gold extents a link type touches, and which links are current)
 * and getLinkTagsInSpanByType (the current links with an anchor in the selected text, their
 * anchors replaced by the gold extents they overlap).
 */
module LinkQueries {
  import opened Common
  import opened JavaStrings
  import opened Spans
  import opened AdjudTables
  import opened TagOutput

  // ---------------------------------------------------------------------------------------
  // getGSLinksByType
  // ---------------------------------------------------------------------------------------

  /**
   * An entry of the inGS table: the file a link came from, the id of a gold-standard extent
   * and its type. The Java code joins the three with a separator into one string key.
   */
  datatype GsKey = GsKey(file: string, id: string, elemName: string)

  /** An entry of the inOther table: a non-gold link with both anchors and its own id. */
  datatype OtherLink = OtherLink(
    file: string, fromId: string, fromName: string, toId: string, toName: string, id: string)

  function OtherOf(l: LinkRow): OtherLink
  {
    OtherLink(l.file, l.fromId, l.fromName, l.toId, l.toName, l.id)
  }

  /** The rows of the links table of one link type. */
  function TypeLinks(links: seq<LinkRow>, tagName: string): seq<LinkRow>
  {
    Filter(links, (l: LinkRow) => l.elemName == tagName)
  }

  /** The anchors of the gold standard's own links: they always count. */
  predicate GsEnd(rows: seq<LinkRow>, g: GsKey)
  {
    exists j :: 0 <= j < |rows| && rows[j].file == GS_FILE
      && (g == GsKey(GS_FILE, rows[j].fromId, rows[j].fromName) || g == GsKey(GS_FILE, rows[j].toId, rows[j].toName))
  }

  /** (file, id) of the gold standard's links, in table order: the first entries of mCurLinks. */
  function GsLinkIds(rows: seq<LinkRow>): seq<(string, string)>
  {
    Map(Filter(rows, (l: LinkRow) => l.file == GS_FILE), (l: LinkRow) => (l.file, l.id))
  }

  /** One more row of the links table adds its (file, id) when it is a gold link. */
  lemma GsLinkIdsStep(rows: seq<LinkRow>, i: nat)
    requires i < |rows|
    ensures GsLinkIds(rows[..i + 1]) ==
      GsLinkIds(rows[..i]) + (if rows[i].file == GS_FILE then [(rows[i].file, rows[i].id)] else [])
  {
    var p := (l: LinkRow) => l.file == GS_FILE;
    assert rows[..i + 1] == rows[..i] + [rows[i]];
    FilterAppend(rows[..i], [rows[i]], p);
    MapAppend(Filter(rows[..i], p), Filter([rows[i]], p), (l: LinkRow) => (l.file, l.id));
  }

  /** One more row of the links table adds both its anchors when it is a gold link. */
  lemma GsEndStep(rows: seq<LinkRow>, i: nat)
    requires i < |rows|
    ensures forall g :: GsEnd(rows[..i + 1], g) <==> (GsEnd(rows[..i], g)
      || (rows[i].file == GS_FILE
          && (g == GsKey(GS_FILE, rows[i].fromId, rows[i].fromName) || g == GsKey(GS_FILE, rows[i].toId, rows[i].toName))))
  {
    forall g
      ensures GsEnd(rows[..i + 1], g) <==> (GsEnd(rows[..i], g)
        || (rows[i].file == GS_FILE
            && (g == GsKey(GS_FILE, rows[i].fromId, rows[i].fromName) || g == GsKey(GS_FILE, rows[i].toId, rows[i].toName))))
    {
      if GsEnd(rows[..i + 1], g) {
        var j :| 0 <= j < i + 1 && rows[..i + 1][j].file == GS_FILE
          && (g == GsKey(GS_FILE, rows[..i + 1][j].fromId, rows[..i + 1][j].fromName)
              || g == GsKey(GS_FILE, rows[..i + 1][j].toId, rows[..i + 1][j].toName));
        if j < i {
          assert rows[..i][j] == rows[j];
        }
      }
      if GsEnd(rows[..i], g) {
        var j :| 0 <= j < i && rows[..i][j].file == GS_FILE
          && (g == GsKey(GS_FILE, rows[..i][j].fromId, rows[..i][j].fromName)
              || g == GsKey(GS_FILE, rows[..i][j].toId, rows[..i][j].toName));
        assert rows[..i + 1][j] == rows[j];
      }
      if rows[i].file == GS_FILE {
        assert rows[..i + 1][i] == rows[i];
      }
    }
  }

  /** The gold extents recorded as overlapping one anchor of a non-gold link. */
  function AnchorOverlaps(overlaps: seq<OverlapRow>, file: string, id: string, name: string): seq<GsKey>
  {
    Map(Filter(overlaps, (o: OverlapRow) => o.elemName == name && o.file == file && o.fileId == id),
        (o: OverlapRow) => GsKey(file, o.gsid, name))
  }

  /** Those of the from anchor, then those of the to anchor. */
  function OtherOverlaps(overlaps: seq<OverlapRow>, k: OtherLink): seq<GsKey>
  {
    AnchorOverlaps(overlaps, k.file, k.fromId, k.fromName) + AnchorOverlaps(overlaps, k.file, k.toId, k.toName)
  }

  /** Both anchors of a non-gold link overlap some gold extent. */
  predicate Promoted(overlaps: seq<OverlapRow>, k: OtherLink)
  {
    |AnchorOverlaps(overlaps, k.file, k.fromId, k.fromName)| > 0
    && |AnchorOverlaps(overlaps, k.file, k.toId, k.toName)| > 0
  }

  /** The overlap table pairs gold extent `gsid` with tag `id` of type `name` in `file`. */
  predicate OverlapPaired(overlaps: seq<OverlapRow>, gsid: string, name: string, file: string, id: string)
  {
    exists i :: 0 <= i < |overlaps| && overlaps[i] == OverlapRow(gsid, name, file, id)
  }

  lemma AnchorOverlapsSpec(overlaps: seq<OverlapRow>, file: string, id: string, name: string, g: GsKey)
    ensures g in AnchorOverlaps(overlaps, file, id, name) <==>
      g.file == file && g.elemName == name && OverlapPaired(overlaps, g.id, name, file, id)
  {
    SelectMembership(overlaps, (o: OverlapRow) => o.elemName == name && o.file == file && o.fileId == id,
                     (o: OverlapRow) => GsKey(file, o.gsid, name), g);
  }

  /**
   * A gold extent reached through a non-gold link: a gold extent overlapping either anchor
   * of a link both of whose anchors overlap the gold standard.
   */
  predicate PromotedEnd(overlaps: seq<OverlapRow>, rows: seq<LinkRow>, g: GsKey)
  {
    exists j :: 0 <= j < |rows| && rows[j].file != GS_FILE && Promoted(overlaps, OtherOf(rows[j]))
      && g in OtherOverlaps(overlaps, OtherOf(rows[j]))
  }

  /**
   * The link rule of getGSLinksByType spelled out: the gold extents a link type touches are
   * the anchors of gold links, and, for each non-gold link whose from and to anchors both
   * have overlap rows, the gold extents overlapping either anchor (keyed by that link's file).
   */
  lemma PromotedEndSpec(overlaps: seq<OverlapRow>, rows: seq<LinkRow>, g: GsKey)
    ensures PromotedEnd(overlaps, rows, g) <==>
      exists j :: 0 <= j < |rows| && rows[j].file != GS_FILE && g.file == rows[j].file
        && (exists a :: 0 <= a < |overlaps| && overlaps[a].elemName == rows[j].fromName
              && overlaps[a].file == rows[j].file && overlaps[a].fileId == rows[j].fromId)
        && (exists b :: 0 <= b < |overlaps| && overlaps[b].elemName == rows[j].toName
              && overlaps[b].file == rows[j].file && overlaps[b].fileId == rows[j].toId)
        && ((g.elemName == rows[j].fromName && OverlapPaired(overlaps, g.id, g.elemName, g.file, rows[j].fromId))
            || (g.elemName == rows[j].toName && OverlapPaired(overlaps, g.id, g.elemName, g.file, rows[j].toId)))
  {
    forall j | 0 <= j < |rows|
      ensures (Promoted(overlaps, OtherOf(rows[j])) && g in OtherOverlaps(overlaps, OtherOf(rows[j]))) <==>
        (g.file == rows[j].file
        && (exists a :: 0 <= a < |overlaps| && overlaps[a].elemName == rows[j].fromName
              && overlaps[a].file == rows[j].file && overlaps[a].fileId == rows[j].fromId)
        && (exists b :: 0 <= b < |overlaps| && overlaps[b].elemName == rows[j].toName
              && overlaps[b].file == rows[j].file && overlaps[b].fileId == rows[j].toId)
        && ((g.elemName == rows[j].fromName && OverlapPaired(overlaps, g.id, g.elemName, g.file, rows[j].fromId))
            || (g.elemName == rows[j].toName && OverlapPaired(overlaps, g.id, g.elemName, g.file, rows[j].toId))))
    {
      var l := rows[j];
      AnchorOverlapsSpec(overlaps, l.file, l.fromId, l.fromName, g);
      AnchorOverlapsSpec(overlaps, l.file, l.toId, l.toName, g);
      NonEmptyFilter(overlaps, (o: OverlapRow) => o.elemName == l.fromName && o.file == l.file && o.fileId == l.fromId);
      NonEmptyFilter(overlaps, (o: OverlapRow) => o.elemName == l.toName && o.file == l.file && o.fileId == l.toId);
    }
  }

  lemma NonEmptyFilter<T>(s: seq<T>, p: T -> bool)
    ensures |Filter(s, p)| > 0 <==> exists i :: 0 <= i < |s| && p(s[i])
  {
    if |Filter(s, p)| > 0 {
      assert Filter(s, p)[0] in s;
    }
  }

  /** A gold-standard index row of the extent `g` at the offset printed as `loc`. */
  predicate GsRowAt(extents: seq<ExtentRow>, g: GsKey, loc: string)
  {
    exists j :: 0 <= j < |extents| && extents[j].file == GS_FILE && extents[j].elemName == g.elemName
      && extents[j].id == g.id && IntToString(extents[j].location) == loc
  }

  /** The offsets of a gold extent, printed, in table order. */
  function GsLocations(extents: seq<ExtentRow>, g: GsKey): seq<string>
  {
    Map(Filter(extents, (r: ExtentRow) => r.file == GS_FILE && r.elemName == g.elemName && r.id == g.id),
        (r: ExtentRow) => IntToString(r.location))
  }

  lemma GsLocationsSpec(extents: seq<ExtentRow>, g: GsKey, loc: string)
    ensures loc in GsLocations(extents, g) <==> GsRowAt(extents, g, loc)
  {
    SelectMembership(extents, (r: ExtentRow) => r.file == GS_FILE && r.elemName == g.elemName && r.id == g.id,
                     (r: ExtentRow) => IntToString(r.location), loc);
  }

  // ---------------------------------------------------------------------------------------
  // getLinkTagsInSpanByType
  // ---------------------------------------------------------------------------------------

  /** A Java string concatenation renders a missing value as "null". */
  function ValueOrNull(m: map<string, string>, k: string): string
  {
    if k in m then m[k] else "null"
  }

  /**
   * The attribute table of one current link: each matching row puts every attribute's value
   * into the same table; a NULL value makes Hashtable.put throw.
   */
  function LinkValues(rows: seq<TagRow>, atts: seq<AttDef>): (r: Result<map<string, string>>)
    ensures r.Fail? <==> exists i, j :: 0 <= i < |rows| && 0 <= j < |atts| && atts[j].name !in rows[i].values
    ensures r.Fail? ==> r.exc == NullPointer
    ensures r.Ok? && |rows| > 0 ==> forall j :: 0 <= j < |atts| ==>
      atts[j].name in r.value && r.value[atts[j].name] == rows[|rows| - 1].values[atts[j].name]
    decreases |rows|, |atts|
  {
    if |rows| == 0 then Ok(map[])
    else
      var init := LinkValues(rows[..|rows| - 1], atts);
      assert forall i :: 0 <= i < |rows| - 1 ==> rows[..|rows| - 1][i] == rows[i];
      if init.Fail? then init else PutColumns(init.value, rows[|rows| - 1], atts)
  }

  /** One row's puts, attribute by attribute. */
  function PutColumns(m: map<string, string>, row: TagRow, atts: seq<AttDef>): (r: Result<map<string, string>>)
    ensures r.Fail? <==> exists i :: 0 <= i < |atts| && atts[i].name !in row.values
    ensures r.Fail? ==> r.exc == NullPointer
    ensures r.Ok? ==> forall k :: k in m ==> k in r.value
    ensures r.Ok? ==> forall i :: 0 <= i < |atts| ==>
      atts[i].name in row.values && atts[i].name in r.value && r.value[atts[i].name] == row.values[atts[i].name]
    decreases |atts|
  {
    if |atts| == 0 then Ok(m)
    else
      var init := PutColumns(m, row, atts[..|atts| - 1]);
      var last := atts[|atts| - 1];
      assert forall i :: 0 <= i < |atts| - 1 ==> atts[..|atts| - 1][i] == atts[i];
      if init.Fail? then init
      else if last.name !in row.values then Fail(NullPointer)
      else Ok(init.value[last.name := row.values[last.name]])
  }

  /** Reading the attribute table of one current link throws. */
  predicate ValuesFail(table: seq<TagRow>, atts: seq<AttDef>, cur: (string, string))
  {
    LinkValues(RowsOf(table, cur.0, cur.1), atts).Fail?
  }

  /**
   * gsTempLinkExtents: for each current (file, link id), the link's attribute table, filed
   * under the file once per matching row of the link type's table (the same table each time).
   * The type's table is first read for the first current link, so no current link means no
   * query and no error.
   */
  function TempLinks(tables: map<string, seq<TagRow>>, tagName: string, atts: seq<AttDef>,
                     current: seq<(string, string)>): (r: Result<map<string, seq<map<string, string>>>>)
    ensures r.Fail? ==> r.exc == (if tagName !in tables then NoTable else NullPointer)
  {
    if |current| == 0 then Ok(map[])
    else if tagName !in tables then Fail(NoTable)
    else
      var items := LinkItems(tables[tagName], atts, current);
      FoldLinksExc(items);
      FoldLinks(items)
  }

  /** What the loop reads for one current link: its file, its attribute table, and how many rows match. */
  type LinkItem = (string, Result<map<string, string>>, nat)

  function LinkItems(table: seq<TagRow>, atts: seq<AttDef>, current: seq<(string, string)>): (r: seq<LinkItem>)
    ensures |r| == |current|
    ensures forall k :: 0 <= k < |current| ==>
      r[k] == (current[k].0, LinkValues(RowsOf(table, current[k].0, current[k].1), atts),
               |RowsOf(table, current[k].0, current[k].1)|)
  {
    seq(|current|, k requires 0 <= k < |current| =>
      (current[k].0, LinkValues(RowsOf(table, current[k].0, current[k].1), atts),
       |RowsOf(table, current[k].0, current[k].1)|))
  }

  /** The loop over the current links: each table filed under its file, the first failure kept. */
  function FoldLinks(items: seq<LinkItem>): Result<map<string, seq<map<string, string>>>>
    decreases |items|
  {
    if |items| == 0 then Ok(map[])
    else
      var init := FoldLinks(items[..|items| - 1]);
      var it := items[|items| - 1];
      if init.Fail? then init
      else if it.1.Fail? then Fail(it.1.exc)
      else Ok(AppendedCopies(init.value, it.0, it.1.value, it.2))
  }

  lemma {:induction false} FoldLinksFail(items: seq<LinkItem>)
    ensures FoldLinks(items).Fail? <==> exists k :: 0 <= k < |items| && items[k].1.Fail?
    decreases |items|
  {
    if |items| > 0 {
      var init := items[..|items| - 1];
      assert forall k :: 0 <= k < |init| ==> init[k] == items[k];
      FoldLinksFail(init);
    }
  }

  lemma {:induction false} FoldLinksExc(items: seq<LinkItem>)
    requires forall k :: 0 <= k < |items| && items[k].1.Fail? ==> items[k].1.exc == NullPointer
    ensures FoldLinks(items).Fail? ==> FoldLinks(items).exc == NullPointer
    decreases |items|
  {
    if |items| > 0 {
      var init := items[..|items| - 1];
      assert forall k :: 0 <= k < |init| ==> init[k] == items[k];
      FoldLinksExc(init);
    }
  }

  /** One more current link: its table is filed, or its failure ends the loop. */
  lemma TempLinksStep(tables: map<string, seq<TagRow>>, tagName: string, atts: seq<AttDef>,
                      current: seq<(string, string)>, k: nat)
    requires tagName in tables && k < |current| && TempLinks(tables, tagName, atts, current[..k]).Ok?
    ensures var rows := RowsOf(tables[tagName], current[k].0, current[k].1);
      var v := LinkValues(rows, atts);
      (v.Fail? ==> TempLinks(tables, tagName, atts, current[..k + 1]) == Fail(v.exc))
      && (v.Ok? ==> TempLinks(tables, tagName, atts, current[..k + 1])
                    == Ok(AppendedCopies(TempLinks(tables, tagName, atts, current[..k]).value, current[k].0, v.value, |rows|)))
  {
    var items := LinkItems(tables[tagName], atts, current[..k + 1]);
    assert items[..k] == LinkItems(tables[tagName], atts, current[..k]);
    assert current[..k + 1][k] == current[k];
  }

  /**
   * Building the table fails exactly when there are current links and the type's table is
   * missing or the values of one current link cannot be read.
   */
  lemma TempLinksFail(tables: map<string, seq<TagRow>>, tagName: string, atts: seq<AttDef>,
                       current: seq<(string, string)>)
    ensures TempLinks(tables, tagName, atts, current).Fail? <==> (|current| > 0 && (tagName !in tables
      || exists k :: 0 <= k < |current| && ValuesFail(tables[tagName], atts, current[k])))
  {
    if |current| > 0 && tagName in tables {
      FoldLinksFail(LinkItems(tables[tagName], atts, current));
    }
  }

  /** `n` copies of `v` appended under `k` (putEnt, n times). */
  function AppendedCopies(m: map<string, seq<map<string, string>>>, k: string, v: map<string, string>, n: nat)
    : (r: map<string, seq<map<string, string>>>)
    ensures n > 0 ==> k in r && r[k] == (if k in m then m[k] else []) + seq(n, _ => v)
    ensures n == 0 ==> r == m
    ensures forall k' :: k' != k ==> (k' in r <==> k' in m) && (k' in m ==> r[k'] == m[k'])
  {
    if n == 0 then m else m[k := (if k in m then m[k] else []) + seq(n, _ => v)]
  }

  /**
   * getSpansByFileElemAndId: the spans column of the first row of `id` in `file` in table
   * `table`, parsed.
   */
  function EndSpans(tables: map<string, seq<TagRow>>, table: string, file: string, id: string): (r: Result<seq<Span>>)
    ensures table !in tables ==> r == Fail(NoTable)
  {
    if table !in tables then Fail(NoTable)
    else
      var rows := RowsOf(tables[table], file, id);
      if |rows| == 0 then Fail(NoRow)
      else match Column(rows[0], "spans")
        case None => Fail(NullPointer)
        case Some(s) => Parse(s)
  }

  /**
   * getIdWithinSpanInGSByElem: the id of the first gold-standard row of `elemName` in
   * `[start, end]`.
   */
  function GsIdWithin(extents: seq<ExtentRow>, elemName: string, sp: Span): (r: Result<string>)
    ensures r.Fail? ==> r.exc == NoRow
    ensures r.Ok? ==> exists i :: (0 <= i < |extents| && extents[i].id == r.value && extents[i].file == GS_FILE
      && extents[i].elemName == elemName && sp.start <= extents[i].location <= sp.end)
  {
    var ids := Filter(extents, (r: ExtentRow) => r.elemName == elemName && r.file == GS_FILE
                                               && sp.start <= r.location <= sp.end);
    if |ids| == 0 then Fail(NoRow) else Ok(ids[0].id)
  }

  /** getTextByFileElemAndID with its errors swallowed: the text when there is one. */
  function GsText(tables: map<string, seq<TagRow>>, elemName: string, id: string): Option<string>
  {
    if elemName !in tables then None
    else
      var rows := RowsOf(tables[elemName], GS_FILE, id);
      if |rows| == 0 then None else Column(rows[0], "text")
  }

  /** `m` with `k` set to the value, when there is one (a put of null throws and is caught). */
  function PutSome(m: map<string, string>, k: string, v: Option<string>): map<string, string>
  {
    if v.Some? then m[k := v.value] else m
  }

  /** The link with each anchor's id, and its text when there is one, replaced by its gold extent's. */
  function WithGold(link: map<string, string>, nf: (string, Option<string>), nt: (string, Option<string>))
    : (r: map<string, string>)
    ensures "fromID" in r && r["fromID"] == nf.0
    ensures "toID" in r && r["toID"] == nt.0
  {
    var l1 := PutSome(link["fromID" := nf.0], "fromText", nf.1);
    var l2 := l1["toID" := nt.0];
    assert "fromID"[4] != "fromText"[4] && "fromID"[0] != "toID"[0] && "fromID"[0] != "toText"[0];
    assert "toID"[2] != "toText"[2];
    PutSomeKeeps(link["fromID" := nf.0], "fromText", nf.1, "fromID");
    PutSomeKeeps(l2, "toText", nt.1, "fromID");
    PutSomeKeeps(l2, "toText", nt.1, "toID");
    PutSome(l2, "toText", nt.1)
  }

  /** Putting under `k` leaves the other keys as they were. */
  lemma PutSomeKeeps(m: map<string, string>, k: string, v: Option<string>, j: string)
    requires j in m && j != k
    ensures j in PutSome(m, k, v) && PutSome(m, k, v)[j] == m[j]
  {
  }

  /** One anchor of a link: its id, its type (read from the index) and its spans. */
  datatype Anchor = Anchor(id: string, name: string, spans: seq<Span>)

  /**
   * Reading an anchor: the type of the first index row of (file, id), then the spans of
   * (file, id) in that type's table; the first span is taken, so no span is an error.
   * `swapped` passes the file and the type to getSpansByFileElemAndId in the order the Java
   * code does.
   */
  function ReadAnchor(extents: seq<ExtentRow>, tables: map<string, seq<TagRow>>, file: string, id: string,
                      swapped: bool): (r: Result<Anchor>)
    ensures r.Ok? ==> r.value.id == id && |r.value.spans| > 0
    ensures r.Ok? ==> ElementOf(extents, file, id) == Ok(r.value.name)
    ensures r.Ok? && !swapped ==> EndSpans(tables, r.value.name, file, id) == Ok(r.value.spans)
  {
    var name := ElementOf(extents, file, id);
    if name.Fail? then Fail(name.exc)
    else
      var spans := if swapped then EndSpans(tables, file, name.value, id) else EndSpans(tables, name.value, file, id);
      if spans.Fail? then Fail(spans.exc)
      else if |spans.value| == 0 then Fail(IndexOutOfBounds)
      else Ok(Anchor(id, name.value, spans.value))
  }

  /**
   * The gold extent that replaces an anchor: the first gold-standard id of the anchor's type
   * inside its span overlapping the selection, or inside its first span; and that extent's
   * text when it has one.
   */
  function GoldFor(extents: seq<ExtentRow>, tables: map<string, seq<TagRow>>, a: Anchor, sel: Span)
    : (r: Result<(string, Option<string>)>)
    requires |a.spans| > 0
    ensures r.Ok? ==> exists i :: (0 <= i < |extents| && extents[i].file == GS_FILE && extents[i].id == r.value.0
      && extents[i].elemName == a.name)
  {
    var ol := FirstOverlap(a.spans, sel);
    var id := GsIdWithin(extents, a.name, if ol.Some? then ol.value else a.spans[0]);
    if id.Fail? then Fail(id.exc) else Ok((id.value, GsText(tables, a.name, id.value)))
  }

  /** What becomes of one link: dropped, or kept (anchors replaced) with spans to highlight. */
  datatype Outcome = Dropped | Kept(link: map<string, string>, highlights: seq<Span>)

  /**
   * One link of one file. The link is kept when some span of either anchor overlaps the
   * selection; the spans of an anchor without overlap are then highlighted, and each
   * anchor's id and text are replaced by those of its gold extent.
   */
  function ProcessLink(extents: seq<ExtentRow>, tables: map<string, seq<TagRow>>, sel: Span,
                       file: string, link: map<string, string>, swapped: bool): Result<Outcome>
  {
    var from := ReadAnchor(extents, tables, file, ValueOrNull(link, "fromID"), swapped);
    if from.Fail? then Fail(from.exc)
    else
      var to := ReadAnchor(extents, tables, file, ValueOrNull(link, "toID"), swapped);
      if to.Fail? then Fail(to.exc)
      else
        var fromOl := FirstOverlap(from.value.spans, sel);
        var toOl := FirstOverlap(to.value.spans, sel);
        if fromOl.None? && toOl.None? then Ok(Dropped)
        else
          var highlights := (if fromOl.None? then from.value.spans else [])
                            + (if toOl.None? then to.value.spans else []);
          var newFrom := GoldFor(extents, tables, from.value, sel);
          if newFrom.Fail? then Fail(newFrom.exc)
          else
            var newTo := GoldFor(extents, tables, to.value, sel);
            if newTo.Fail? then Fail(newTo.exc)
            else
              Ok(Kept(WithGold(link, newFrom.value, newTo.value), highlights))
  }

  /** A link is kept exactly when one of its anchors overlaps the selection (either end). */
  lemma KeptIffEitherEnd(extents: seq<ExtentRow>, tables: map<string, seq<TagRow>>, sel: Span,
                         file: string, link: map<string, string>)
    requires ProcessLink(extents, tables, sel, file, link, false).Ok?
    ensures var from := ReadAnchor(extents, tables, file, ValueOrNull(link, "fromID"), false);
      var to := ReadAnchor(extents, tables, file, ValueOrNull(link, "toID"), false);
      from.Ok? && to.Ok?
      && (ProcessLink(extents, tables, sel, file, link, false).value.Kept? <==>
           (exists k :: 0 <= k < |from.value.spans| && Overlaps(from.value.spans[k], sel))
           || (exists k :: 0 <= k < |to.value.spans| && Overlaps(to.value.spans[k], sel)))
  {
  }

  /** A kept link's anchors name gold-standard extents of the anchors' types. */
  lemma KeptAnchorsAreGold(extents: seq<ExtentRow>, tables: map<string, seq<TagRow>>, sel: Span,
                           file: string, link: map<string, string>)
    requires ProcessLink(extents, tables, sel, file, link, false).Ok?
    requires ProcessLink(extents, tables, sel, file, link, false).value.Kept?
    ensures var out := ProcessLink(extents, tables, sel, file, link, false).value.link;
      var from := ReadAnchor(extents, tables, file, ValueOrNull(link, "fromID"), false);
      var to := ReadAnchor(extents, tables, file, ValueOrNull(link, "toID"), false);
      from.Ok? && to.Ok? && "fromID" in out && "toID" in out
      && (exists i :: 0 <= i < |extents| && extents[i].file == GS_FILE && extents[i].id == out["fromID"]
            && extents[i].elemName == from.value.name)
      && (exists i :: 0 <= i < |extents| && extents[i].file == GS_FILE && extents[i].id == out["toID"]
            && extents[i].elemName == to.value.name)
  {
    var from := ReadAnchor(extents, tables, file, ValueOrNull(link, "fromID"), false).value;
    var to := ReadAnchor(extents, tables, file, ValueOrNull(link, "toID"), false).value;
    var nf := GoldFor(extents, tables, from, sel).value;
    var nt := GoldFor(extents, tables, to, sel).value;
    assert ProcessLink(extents, tables, sel, file, link, false).value.link == WithGold(link, nf, nt);
  }

  /**
   * As written, the spans of the from anchor are looked up in a table named after the file:
   * unless some tag type is named like the file, any link whose from anchor is in the index
   * makes the whole query fail.
   */
  lemma SwappedLookupFails(extents: seq<ExtentRow>, tables: map<string, seq<TagRow>>, sel: Span,
                           file: string, link: map<string, string>)
    requires file !in tables
    requires ElementOf(extents, file, ValueOrNull(link, "fromID")).Ok?
    ensures ProcessLink(extents, tables, sel, file, link, true) == Fail(NoTable)
  {
    assert ReadAnchor(extents, tables, file, ValueOrNull(link, "fromID"), true) == Fail(NoTable);
  }

  /** A concrete instance: one link between two indexed extents of file "a.xml". */
  lemma SwappedLookupExample()
    ensures var extents := [ExtentRow("a.xml", 0, "NOUN", "N0"), ExtentRow("a.xml", 4, "VERB", "V0")];
      var tables := map["NOUN" := [TagRow("a.xml", map["id" := "N0", "spans" := "0~1"])],
                        "VERB" := [TagRow("a.xml", map["id" := "V0", "spans" := "4~5"])]];
      var link := map["fromID" := "N0", "toID" := "V0"];
      ProcessLink(extents, tables, Span(0, 0), "a.xml", link, true) == Fail(NoTable)
  {
    var extents := [ExtentRow("a.xml", 0, "NOUN", "N0"), ExtentRow("a.xml", 4, "VERB", "V0")];
    var tables := map["NOUN" := [TagRow("a.xml", map["id" := "N0", "spans" := "0~1"])],
                      "VERB" := [TagRow("a.xml", map["id" := "V0", "spans" := "4~5"])]];
    var link := map["fromID" := "N0", "toID" := "V0"];
    assert ValueOrNull(link, "fromID") == "N0";
    assert extents[0].file == "a.xml" && extents[0].id == "N0";
    assert "a.xml" != "NOUN" && "a.xml" != "VERB";
    SwappedLookupFails(extents, tables, Span(0, 0), "a.xml", link);
  }

  /** `l` is kept from one file's links and comes out as `out`. */
  predicate KeptAs(extents: seq<ExtentRow>, tables: map<string, seq<TagRow>>, sel: Span, file: string,
                   l: map<string, string>, out: map<string, string>)
  {
    var o := ProcessLink(extents, tables, sel, file, l, false);
    o.Ok? && o.value.Kept? && o.value.link == out
  }

  /** The outcomes of one file's links in turn: the kept links in order, and the spans to highlight. */
  function Gather(outs: seq<Result<Outcome>>): (r: Result<(seq<map<string, string>>, seq<Span>)>)
    ensures r.Ok? <==> forall i :: 0 <= i < |outs| ==> outs[i].Ok?
    decreases |outs|
  {
    if |outs| == 0 then Ok(([], []))
    else
      var init := Gather(outs[..|outs| - 1]);
      var last := outs[|outs| - 1];
      assert forall i :: 0 <= i < |outs| - 1 ==> outs[..|outs| - 1][i] == outs[i];
      if init.Fail? then init
      else if last.Fail? then Fail(last.exc)
      else match last.value
        case Dropped => init
        case Kept(l, hl) => Ok((init.value.0 + [l], init.value.1 + hl))
  }

  /** The kept links are the links of the kept outcomes, and the highlights theirs. */
  lemma {:induction false} GatherSpec(outs: seq<Result<Outcome>>, out: map<string, string>, sp: Span)
    requires Gather(outs).Ok?
    ensures out in Gather(outs).value.0 <==>
      exists i :: 0 <= i < |outs| && outs[i].Ok? && outs[i].value.Kept? && outs[i].value.link == out
    ensures sp in Gather(outs).value.1 <==>
      exists i :: 0 <= i < |outs| && outs[i].Ok? && outs[i].value.Kept? && sp in outs[i].value.highlights
    decreases |outs|
  {
    if |outs| > 0 {
      var init := outs[..|outs| - 1];
      GatherSpec(init, out, sp);
      assert forall i :: 0 <= i < |init| ==> init[i] == outs[i];
    }
  }

  /** The first failing link decides the error. */
  lemma {:induction false} GatherFails(outs: seq<Result<Outcome>>, k: nat)
    requires k < |outs| && Gather(outs[..k]).Ok? && outs[k].Fail?
    ensures Gather(outs) == Fail(outs[k].exc)
    decreases |outs|
  {
    var init := outs[..|outs| - 1];
    if k == |outs| - 1 {
      assert init == outs[..k];
    } else {
      assert init[..k] == outs[..k];
      GatherFails(init, k);
    }
  }

  /** The links of one file: ProcessLink on each, gathered. */
  function ProcessList(extents: seq<ExtentRow>, tables: map<string, seq<TagRow>>, sel: Span,
                       file: string, links: seq<map<string, string>>): Result<(seq<map<string, string>>, seq<Span>)>
  {
    Gather(Map(links, (l: map<string, string>) => ProcessLink(extents, tables, sel, file, l, false)))
  }
}

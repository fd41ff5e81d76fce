/**
 * The extent_overlaps table: for each gold-standard tag, the tags of the same type in the
 * other files whose offsets fall into one of its spans, both ends of the span included
 * (addOverlaps for one tag, findAllOverlaps for the whole table).
 */
module OverlapScan {
  import opened Common
  import opened Spans
  import opened AdjudTables

  /** A non-gold index row of `elemName` whose offset lies in `[start, end]`. */
  predicate ScanHit(r: ExtentRow, elemName: string, start: int, end: int)
  {
    r.elemName == elemName && start <= r.location <= end && r.file != GS_FILE
  }

  /** The overlap rows one span of a gold tag records: one per distinct (id, file) of the hits. */
  function SpanOverlaps(extents: seq<ExtentRow>, gsid: string, elemName: string, sp: Span): seq<OverlapRow>
  {
    Map(Distinct(Map(Filter(extents, (r: ExtentRow) => ScanHit(r, elemName, sp.start, sp.end)),
                     (r: ExtentRow) => (r.id, r.file))),
        (p: (string, string)) => OverlapRow(gsid, elemName, p.1, p.0))
  }

  /** The overlap rows of a gold tag: those of each of its spans, in span order. */
  function SpansOverlaps(extents: seq<ExtentRow>, gsid: string, elemName: string, spans: seq<Span>): seq<OverlapRow>
  {
    if |spans| == 0 then []
    else
      SpansOverlaps(extents, gsid, elemName, spans[..|spans| - 1])
      + SpanOverlaps(extents, gsid, elemName, spans[|spans| - 1])
  }

  /** `r` is a row of the other file's tag that the overlap row `o` names. */
  predicate Names(o: OverlapRow, r: ExtentRow)
  {
    r.elemName == o.elemName && r.file != GS_FILE && r.file == o.file && r.id == o.fileId
  }

  lemma SpanOverlapsSpec(extents: seq<ExtentRow>, gsid: string, elemName: string, sp: Span, o: OverlapRow)
    ensures o in SpanOverlaps(extents, gsid, elemName, sp) <==>
      o.gsid == gsid && o.elemName == elemName
      && exists i :: 0 <= i < |extents| && Names(o, extents[i]) && sp.start <= extents[i].location <= sp.end
  {
    var hit := (r: ExtentRow) => ScanHit(r, elemName, sp.start, sp.end);
    var key := (r: ExtentRow) => (r.id, r.file);
    var pairs := Map(Filter(extents, hit), key);
    var d := Distinct(pairs);
    var mk := (p: (string, string)) => OverlapRow(gsid, elemName, p.1, p.0);
    SelectMembership(extents, hit, key, (o.fileId, o.file));
    if o in SpanOverlaps(extents, gsid, elemName, sp) {
      var j :| 0 <= j < |d| && mk(d[j]) == o;
      assert d[j] in pairs;
      assert d[j] == (o.fileId, o.file);
    }
    if o.gsid == gsid && o.elemName == elemName
      && exists i :: 0 <= i < |extents| && Names(o, extents[i]) && sp.start <= extents[i].location <= sp.end {
      var i :| 0 <= i < |extents| && Names(o, extents[i]) && sp.start <= extents[i].location <= sp.end;
      assert hit(extents[i]) && key(extents[i]) == (o.fileId, o.file);
      var k :| 0 <= k < |pairs| && pairs[k] == (o.fileId, o.file);
      var j :| 0 <= j < |d| && d[j] == pairs[k];
      assert Map(d, mk)[j] == o;
    }
  }

  lemma ScanReachesAppend(runs: seq<Span>, sp: Span, y: int)
    ensures ScanReaches(runs + [sp], y) <==> ScanReaches(runs, y) || sp.start <= y <= sp.end
  {
    var r := runs + [sp];
    if ScanReaches(runs, y) {
      var k :| 0 <= k < |runs| && runs[k].start <= y <= runs[k].end;
      assert r[k] == runs[k];
    }
    if sp.start <= y <= sp.end {
      assert r[|runs|] == sp;
    }
    if ScanReaches(r, y) {
      var k :| 0 <= k < |r| && r[k].start <= y <= r[k].end;
      if k < |runs| {
        assert runs[k] == r[k];
      }
    }
  }

  /**
   * The overlap rows of a gold tag name exactly the other files' tags of its type with an
   * offset that one of its spans reaches, end included.
   */
  lemma {:induction false} SpansOverlapsSpec(extents: seq<ExtentRow>, gsid: string, elemName: string, spans: seq<Span>, o: OverlapRow)
    ensures o in SpansOverlaps(extents, gsid, elemName, spans) <==>
      o.gsid == gsid && o.elemName == elemName
      && exists i :: 0 <= i < |extents| && Names(o, extents[i]) && ScanReaches(spans, extents[i].location)
    decreases |spans|
  {
    if |spans| > 0 {
      var init := spans[..|spans| - 1];
      var last := spans[|spans| - 1];
      assert spans == init + [last];
      SpansOverlapsSpec(extents, gsid, elemName, init, o);
      SpanOverlapsSpec(extents, gsid, elemName, last, o);
      forall i | 0 <= i < |extents|
        ensures ScanReaches(spans, extents[i].location) <==>
          ScanReaches(init, extents[i].location) || last.start <= extents[i].location <= last.end
      {
        ScanReachesAppend(init, last, extents[i].location);
      }
    }
  }

  /** With every span non-empty, reaching `y` end-inclusive means covering `y` or `y - 1`. */
  lemma ScanReachesCovers(runs: seq<Span>, y: int)
    requires forall k :: 0 <= k < |runs| ==> runs[k].start < runs[k].end
    ensures ScanReaches(runs, y) <==> Covers(runs, y) || Covers(runs, y - 1)
  {
    if ScanReaches(runs, y) {
      var k :| 0 <= k < |runs| && runs[k].start <= y <= runs[k].end;
      if y == runs[k].end {
        assert runs[k].start <= y - 1 < runs[k].end;
      }
    }
    if Covers(runs, y - 1) {
      var k :| 0 <= k < |runs| && runs[k].start <= y - 1 < runs[k].end;
      assert runs[k].start <= y <= runs[k].end;
    }
  }

  // ---------------------------------------------------------------------------------------
  // findAllOverlaps
  // ---------------------------------------------------------------------------------------

  /** The distinct (id, type) pairs of the gold standard's index rows. */
  function GsTags(extents: seq<ExtentRow>): seq<(string, string)>
  {
    Distinct(Map(Filter(extents, (r: ExtentRow) => r.file == GS_FILE), (r: ExtentRow) => (r.id, r.elemName)))
  }

  /** The gold standard has a row of tag `id` with type `elemName`. */
  predicate GsTag(extents: seq<ExtentRow>, id: string, elemName: string)
  {
    exists g :: 0 <= g < |extents| && extents[g].file == GS_FILE && extents[g].id == id && extents[g].elemName == elemName
  }

  lemma GsTagsSpec(extents: seq<ExtentRow>, id: string, elemName: string)
    ensures (id, elemName) in GsTags(extents) <==> GsTag(extents, id, elemName)
  {
    SelectMembership(extents, (r: ExtentRow) => r.file == GS_FILE, (r: ExtentRow) => (r.id, r.elemName), (id, elemName));
  }

  /**
   * findAllOverlaps with the spans of each gold tag looked up under the file name `lookup`:
   * the overlap rows of each gold tag in turn, or the first error. getLocByFileAndID fails
   * for an id without rows under `lookup`.
   */
  function OverlapsVia(extents: seq<ExtentRow>, lookup: string, gs: seq<(string, string)>): Result<seq<OverlapRow>>
    requires StoredRows(extents)
    decreases |gs|
  {
    if |gs| == 0 then Ok([])
    else
      var prev := OverlapsVia(extents, lookup, gs[..|gs| - 1]);
      var tag := gs[|gs| - 1];
      var text := LocText(extents, lookup, tag.0);
      if prev.Fail? then prev
      else if text.Fail? then Fail(text.exc)
      else
        var spans := Parse(text.value);
        if spans.Fail? then Fail(spans.exc)
        else Ok(prev.value + SpansOverlaps(extents, tag.0, tag.1, spans.value))
  }

  /** findAllOverlaps as written: the spans are looked up under "goldstandard.xml". */
  function AllOverlapsAsWritten(extents: seq<ExtentRow>): Result<seq<OverlapRow>>
    requires StoredRows(extents)
  {
    OverlapsVia(extents, "goldstandard.xml", GsTags(extents))
  }

  lemma {:induction false} OverlapsViaFails(extents: seq<ExtentRow>, lookup: string, gs: seq<(string, string)>)
    requires StoredRows(extents) && |gs| > 0
    requires forall k :: 0 <= k < |gs| ==> |Locations(extents, lookup, gs[k].0)| == 0
    ensures OverlapsVia(extents, lookup, gs) == Fail(IndexOutOfBounds)
    decreases |gs|
  {
    if |gs| > 1 {
      OverlapsViaFails(extents, lookup, gs[..|gs| - 1]);
    }
  }

  /**
   * As written, findAllOverlaps fails on its first gold tag unless a file is literally named
   * "goldstandard.xml": the table it has just emptied stays empty.
   */
  lemma AsWrittenOverlapsFail(extents: seq<ExtentRow>)
    requires StoredRows(extents)
    requires exists g :: 0 <= g < |extents| && extents[g].file == GS_FILE
    requires forall i :: 0 <= i < |extents| ==> extents[i].file != "goldstandard.xml"
    ensures AllOverlapsAsWritten(extents) == Fail(IndexOutOfBounds)
  {
    var g :| 0 <= g < |extents| && extents[g].file == GS_FILE;
    GsTagsSpec(extents, extents[g].id, extents[g].elemName);
    var gs := GsTags(extents);
    forall k | 0 <= k < |gs|
      ensures |Locations(extents, "goldstandard.xml", gs[k].0)| == 0
    {
      NoLocations(extents, "goldstandard.xml", gs[k].0);
    }
    OverlapsViaFails(extents, "goldstandard.xml", gs);
  }

  /** A file name no row carries has no offsets. */
  lemma NoLocations(extents: seq<ExtentRow>, file: string, id: string)
    requires forall i :: 0 <= i < |extents| ==> extents[i].file != file
    ensures |Locations(extents, file, id)| == 0
  {
    var locs := Locations(extents, file, id);
    if |locs| > 0 {
      LocationsSpec(extents, file, id, locs[0]);
      assert false;
    }
  }

  /** A concrete instance: one gold row and one overlapping row of another file. */
  lemma AsWrittenOverlapsExample()
    ensures AllOverlapsAsWritten([ExtentRow(GS_FILE, 3, "NOUN", "N0"), ExtentRow("a.xml", 3, "NOUN", "N7")])
      == Fail(IndexOutOfBounds)
  {
    var ex := [ExtentRow(GS_FILE, 3, "NOUN", "N0"), ExtentRow("a.xml", 3, "NOUN", "N7")];
    assert ex[0].file == GS_FILE;
    AsWrittenOverlapsFail(ex);
  }

  /** The gold standard puts tag `id` at offset `y`. */
  predicate GsAt(extents: seq<ExtentRow>, id: string, y: int)
  {
    exists j :: 0 <= j < |extents| && extents[j].file == GS_FILE && extents[j].id == id && extents[j].location == y
  }

  /**
   * The rows findAllOverlaps should record for one gold tag: the other files' tags of its
   * type with an offset that the gold tag holds, or that directly follows one it holds.
   */
  predicate NearGs(extents: seq<ExtentRow>, o: OverlapRow)
  {
    exists i :: 0 <= i < |extents| && Names(o, extents[i])
      && (GsAt(extents, o.gsid, extents[i].location) || GsAt(extents, o.gsid, extents[i].location - 1))
  }

  /** One gold tag, its spans read back from the index: exactly the NearGs rows. */
  lemma GsTagOverlaps(extents: seq<ExtentRow>, id: string, elemName: string, o: OverlapRow)
    requires StoredRows(extents) && |Locations(extents, GS_FILE, id)| > 0
    ensures LocText(extents, GS_FILE, id).Ok? && Parse(LocText(extents, GS_FILE, id).value).Ok?
    ensures o in SpansOverlaps(extents, id, elemName, Parse(LocText(extents, GS_FILE, id).value).value) <==>
      o.gsid == id && o.elemName == elemName && NearGs(extents, o)
  {
    LocTextSpans(extents, GS_FILE, id);
    var runs := Parse(LocText(extents, GS_FILE, id).value).value;
    SpansOverlapsSpec(extents, id, elemName, runs, o);
    forall i | 0 <= i < |extents|
      ensures ScanReaches(runs, extents[i].location) <==>
        GsAt(extents, id, extents[i].location) || GsAt(extents, id, extents[i].location - 1)
    {
      ScanReachesCovers(runs, extents[i].location);
    }
  }

  lemma OverlapsViaStep(extents: seq<ExtentRow>, lookup: string, gs: seq<(string, string)>)
    requires StoredRows(extents) && |gs| > 0
    requires OverlapsVia(extents, lookup, gs[..|gs| - 1]).Ok?
    requires LocText(extents, lookup, gs[|gs| - 1].0).Ok?
    requires Parse(LocText(extents, lookup, gs[|gs| - 1].0).value).Ok?
    ensures OverlapsVia(extents, lookup, gs) ==
      Ok(OverlapsVia(extents, lookup, gs[..|gs| - 1]).value
         + SpansOverlaps(extents, gs[|gs| - 1].0, gs[|gs| - 1].1,
                         Parse(LocText(extents, lookup, gs[|gs| - 1].0).value).value))
  {
  }

  lemma {:induction false} OverlapsViaGsOk(extents: seq<ExtentRow>, gs: seq<(string, string)>)
    requires StoredRows(extents)
    requires forall k :: 0 <= k < |gs| ==> |Locations(extents, GS_FILE, gs[k].0)| > 0
    ensures OverlapsVia(extents, GS_FILE, gs).Ok?
    decreases |gs|
  {
    if |gs| > 0 {
      var init := gs[..|gs| - 1];
      OverlapsViaGsOk(extents, init);
      LocTextSpans(extents, GS_FILE, gs[|gs| - 1].0);
    }
  }

  lemma {:induction false} OverlapsViaGs(extents: seq<ExtentRow>, gs: seq<(string, string)>, o: OverlapRow)
    requires StoredRows(extents)
    requires forall k :: 0 <= k < |gs| ==> |Locations(extents, GS_FILE, gs[k].0)| > 0
    ensures OverlapsVia(extents, GS_FILE, gs).Ok?
    ensures o in OverlapsVia(extents, GS_FILE, gs).value <==> (o.gsid, o.elemName) in gs && NearGs(extents, o)
    decreases |gs|
  {
    OverlapsViaGsOk(extents, gs);
    if |gs| > 0 {
      var init := gs[..|gs| - 1];
      var tag := gs[|gs| - 1];
      OverlapsViaGs(extents, init, o);
      GsTagOverlaps(extents, tag.0, tag.1, o);
      OverlapsViaStep(extents, GS_FILE, gs);
      InitOrLast(gs, (o.gsid, o.elemName));
    }
  }

  lemma InitOrLast<T>(s: seq<T>, x: T)
    requires |s| > 0
    ensures x in s <==> x in s[..|s| - 1] || x == s[|s| - 1]
  {
    assert s == s[..|s| - 1] + [s[|s| - 1]];
  }

  /** A gold tag has index rows in the gold standard, so its spans can be read back. */
  lemma GsTagsLocated(extents: seq<ExtentRow>)
    ensures forall k :: 0 <= k < |GsTags(extents)| ==> |Locations(extents, GS_FILE, GsTags(extents)[k].0)| > 0
  {
    var gs := GsTags(extents);
    forall k | 0 <= k < |gs|
      ensures |Locations(extents, GS_FILE, gs[k].0)| > 0
    {
      GsTagsSpec(extents, gs[k].0, gs[k].1);
      var g :| 0 <= g < |extents| && extents[g].file == GS_FILE && extents[g].id == gs[k].0 && extents[g].elemName == gs[k].1;
      LocationsSpec(extents, GS_FILE, gs[k].0, extents[g].location);
    }
  }

  /** findAllOverlaps with the gold standard's own file name: the overlap table it builds. */
  function AllOverlaps(extents: seq<ExtentRow>): (r: seq<OverlapRow>)
    requires StoredRows(extents)
  {
    GsTagsLocated(extents);
    OverlapsViaGs(extents, GsTags(extents), OverlapRow("", "", "", ""));
    OverlapsVia(extents, GS_FILE, GsTags(extents)).value
  }

  /**
   * The rebuilt table holds exactly the pairs of a gold tag and a same-typed tag of another
   * file at an offset of the gold tag or directly after one.
   */
  lemma AllOverlapsSpec(extents: seq<ExtentRow>, o: OverlapRow)
    requires StoredRows(extents)
    ensures o in AllOverlaps(extents) <==> GsTag(extents, o.gsid, o.elemName) && NearGs(extents, o)
  {
    GsTagsLocated(extents);
    OverlapsViaGs(extents, GsTags(extents), o);
    GsTagsSpec(extents, o.gsid, o.elemName);
  }
}

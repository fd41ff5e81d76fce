/**
 * AdjudicationTask: the go-between of the interface and the annotation store. It keeps the
 * schema, a table of the schema's elements by name, and one id counter per element type for
 * the tags created in the gold standard; every other call is handed to the store, with the
 * store's exceptions turned into empty or null answers.
 */
module Adjudication {
  import opened Common
  import opened JavaStrings
  import opened Spans
  import opened Schema
  import opened Collections
  import opened AdjudTables
  import opened OverlapScan
  import opened TagOutput
  import opened LinkQueries
  import opened AdjudStore

  // ---------------------------------------------------------------------------------------
  // Id counters
  // ---------------------------------------------------------------------------------------

  /**
   * An AttID as the id tracker holds it: the id prefix and the number of the next id. The
   * tracker's counters are copies that nothing else refers to, so a value stands for each.
   */
  datatype IdCounter = IdCounter(prefix: string, number: nat)

  /** The element has an id attribute (an AttID) with prefix `p`. */
  predicate HasIdPrefix(e: Elem, p: string)
    reads e, e.attributes
  {
    exists j :: 0 <= j < |e.attributes| && e.attributes[j].kind == IdAtt && e.attributes[j].prefix == p
  }

  /** The element has an id attribute (an AttID). */
  predicate HasIdAtt(e: Elem)
    reads e, e.attributes
  {
    exists j :: 0 <= j < |e.attributes| && e.attributes[j].kind == IdAtt
  }

  /**
   * The counters one element's attributes put into the tracker: each AttID puts a counter at
   * 0 under the element's name, so the last one stays.
   */
  function AttTracker(name: string, atts: seq<Attrib>): (r: map<string, IdCounter>)
    reads atts
    ensures r.Keys <= {name}
    ensures name in r <==> exists j :: 0 <= j < |atts| && atts[j].kind == IdAtt
    ensures name in r ==> r[name].number == 0
    ensures name in r ==> exists j :: 0 <= j < |atts| && atts[j].kind == IdAtt && atts[j].prefix == r[name].prefix
  {
    if |atts| == 0 then map[]
    else
      var rest := AttTracker(name, atts[..|atts| - 1]);
      var a := atts[|atts| - 1];
      assert forall j :: 0 <= j < |atts| - 1 ==> atts[..|atts| - 1][j] == atts[j];
      if a.kind == IdAtt then rest[name := IdCounter(a.prefix, 0)] else rest
  }

  lemma AttribsOfPrefix(es: seq<Elem>, n: nat)
    requires n <= |es|
    ensures AttribsOf(es[..n]) <= AttribsOf(es)
    ensures n < |es| ==> forall a :: a in es[n].attributes ==> a in AttribsOf(es)
  {
    forall a | a in AttribsOf(es[..n])
      ensures a in AttribsOf(es)
    {
      var e :| e in es[..n] && a in e.attributes;
      assert e in es;
    }
    if n < |es| {
      forall a | a in es[n].attributes
        ensures a in AttribsOf(es)
      {
        assert es[n] in es;
      }
    }
  }

  /**
   * createIDTracker over the elements `es`: for each element in turn, its counters as
   * AttTracker puts them; a later element of the same name replaces an earlier one.
   */
  function TrackerOf(es: seq<Elem>): (r: map<string, IdCounter>)
    reads es, AttribsOf(es)
    decreases |es|
  {
    if |es| == 0 then map[]
    else
      AttribsOfPrefix(es, |es| - 1);
      var last := es[|es| - 1];
      TrackerOf(es[..|es| - 1]) + AttTracker(last.name, last.attributes)
  }

  /**
   * The tracker has a counter exactly for the names of the elements with an id attribute;
   * every counter starts at 0, with the prefix of one of that name's id attributes.
   */
  lemma {:induction false} TrackerOfSpec(es: seq<Elem>, k: string)
    ensures k in TrackerOf(es) <==> exists i :: 0 <= i < |es| && es[i].name == k && HasIdAtt(es[i])
    ensures k in TrackerOf(es) ==> TrackerOf(es)[k].number == 0
    ensures k in TrackerOf(es) ==>
      exists i :: 0 <= i < |es| && es[i].name == k && HasIdPrefix(es[i], TrackerOf(es)[k].prefix)
    decreases |es|
  {
    if |es| > 0 {
      var n := |es| - 1;
      var init := es[..n];
      var last := es[n];
      AttribsOfPrefix(es, n);
      TrackerOfSpec(init, k);
      assert forall i :: 0 <= i < n ==> init[i] == es[i];
      var added := AttTracker(last.name, last.attributes);
      assert TrackerOf(es) == TrackerOf(init) + added;
      if k in added {
        assert k == last.name;
        assert HasIdAtt(last);
        var j :| 0 <= j < |last.attributes| && last.attributes[j].kind == IdAtt
          && last.attributes[j].prefix == added[k].prefix;
        assert HasIdPrefix(es[n], TrackerOf(es)[k].prefix);
      } else {
        assert k == last.name ==> !HasIdAtt(last);
        if k in TrackerOf(init) {
          var i :| 0 <= i < n && init[i].name == k && HasIdPrefix(init[i], TrackerOf(init)[k].prefix);
          assert HasIdPrefix(es[i], TrackerOf(es)[k].prefix);
        }
      }
    }
  }

  /** The names of the ids in the index and in the link table (every id that is taken). */
  function StoredIds(extents: seq<ExtentRow>, links: seq<LinkRow>): seq<string>
  {
    Map(extents, (r: ExtentRow) => r.id) + Map(links, (l: LinkRow) => l.id)
  }

  /** A taken id is no longer than the longest stored id. */
  lemma TakenIdLength(extents: seq<ExtentRow>, links: seq<LinkRow>, id: string, file: string)
    requires IdIn(extents, links, id, file)
    ensures |id| <= MaxLen(StoredIds(extents, links))
  {
    IdInSpec(extents, links, id, file);
    var ids := StoredIds(extents, links);
    if exists i :: 0 <= i < |extents| && extents[i].id == id && extents[i].file == file {
      var i :| 0 <= i < |extents| && extents[i].id == id && extents[i].file == file;
      assert ids[i] == id;
    } else {
      var i :| 0 <= i < |links| && links[i].id == id && links[i].file == file;
      assert ids[|extents| + i] == id;
    }
  }

  /**
   * A number whose candidate id is taken lies below 10^L, where L is the length of the
   * longest stored id: from there on every candidate is too long to be taken.
   */
  lemma CandidateBound(extents: seq<ExtentRow>, links: seq<LinkRow>, file: string, prefix: string, n: nat)
    requires IdIn(extents, links, prefix + NatToString(n), file)
    ensures n < Pow10(MaxLen(StoredIds(extents, links)))
  {
    TakenIdLength(extents, links, prefix + NatToString(n), file);
    if n >= Pow10(MaxLen(StoredIds(extents, links))) {
      NatToStringLength(n, MaxLen(StoredIds(extents, links)));
      assert false;
    }
  }

  /**
   * getNextID's answer, assuming AttID.getID prints prefix and number and incrementNumber
   * adds one: the first number from `n` on whose id is not taken in `file`.
   */
  function FirstFree(extents: seq<ExtentRow>, links: seq<LinkRow>, file: string, prefix: string, n: nat): (m: nat)
    ensures n <= m
    ensures !IdIn(extents, links, prefix + NatToString(m), file)
    decreases Pow10(MaxLen(StoredIds(extents, links))) - n
  {
    if IdIn(extents, links, prefix + NatToString(n), file) then
      CandidateBound(extents, links, file, prefix, n);
      FirstFree(extents, links, file, prefix, n + 1)
    else n
  }

  /** Every number FirstFree skips has its id taken. */
  lemma {:induction false} FirstFreeSkips(extents: seq<ExtentRow>, links: seq<LinkRow>, file: string, prefix: string,
                                          n: nat, k: nat)
    requires n <= k < FirstFree(extents, links, file, prefix, n)
    ensures IdIn(extents, links, prefix + NatToString(k), file)
    decreases Pow10(MaxLen(StoredIds(extents, links))) - n
  {
    var taken := IdIn(extents, links, prefix + NatToString(n), file);
    if !taken {
      assert false;
    } else if k > n {
      CandidateBound(extents, links, file, prefix, n);
      assert FirstFree(extents, links, file, prefix, n) == FirstFree(extents, links, file, prefix, n + 1);
      FirstFreeSkips(extents, links, file, prefix, n + 1, k);
    }
  }

  /**
   * Two getNextID calls in a row, whatever was stored in between: the second starts past the
   * number the first returned, so it returns another id.
   */
  lemma ConsecutiveIdsDiffer(e0: seq<ExtentRow>, l0: seq<LinkRow>, e1: seq<ExtentRow>, l1: seq<LinkRow>,
                             file: string, prefix: string, n: nat)
    ensures var m0 := FirstFree(e0, l0, file, prefix, n);
      prefix + NatToString(m0) != prefix + NatToString(FirstFree(e1, l1, file, prefix, m0 + 1))
  {
    var m0 := FirstFree(e0, l0, file, prefix, n);
    var m1 := FirstFree(e1, l1, file, prefix, m0 + 1);
    if prefix + NatToString(m0) == prefix + NatToString(m1) {
      assert (prefix + NatToString(m0))[|prefix|..] == NatToString(m0);
      assert (prefix + NatToString(m1))[|prefix|..] == NatToString(m1);
      NatToStringInjective(m0, m1);
      assert false;
    }
  }

  /** getNextID's loop: the candidate ids from `start` on, until one is not taken in `file`. */
  method NextFree(db: AdjudDB, prefix: string, start: nat, file: string) returns (m: nat)
    ensures m == FirstFree(db.extents, db.links, file, prefix, start)
  {
    var nextId := prefix + NatToString(start);
    var number := start + 1;
    IdInSpec(db.extents, db.links, nextId, file);
    var taken := db.IdExists(nextId, file);
    while taken
      invariant start < number
      invariant nextId == prefix + NatToString(number - 1)
      invariant taken <==> IdIn(db.extents, db.links, nextId, file)
      invariant FirstFree(db.extents, db.links, file, prefix, start)
        == FirstFree(db.extents, db.links, file, prefix, number - 1)
      decreases Pow10(MaxLen(StoredIds(db.extents, db.links))) - number
    {
      CandidateBound(db.extents, db.links, file, prefix, number - 1);
      nextId := prefix + NatToString(number);
      number := number + 1;
      IdInSpec(db.extents, db.links, nextId, file);
      taken := db.IdExists(nextId, file);
    }
    m := number - 1;
  }

  // ---------------------------------------------------------------------------------------
  // The schema's elements
  // ---------------------------------------------------------------------------------------

  /** createHash: each element under its name; a later element of the same name replaces it. */
  function ElemHash(es: seq<Elem>): (r: map<string, Elem>)
    ensures forall k :: k in r ==> r[k] in es && r[k].name == k
  {
    if |es| == 0 then map[]
    else
      var n := |es| - 1;
      ElemHash(es[..n])[es[n].name := es[n]]
  }

  /** Every name of the schema is a key of the table. */
  lemma {:induction false} ElemHashKeys(es: seq<Elem>, i: nat)
    requires i < |es|
    ensures es[i].name in ElemHash(es)
    decreases |es|
  {
    var n := |es| - 1;
    if i < n {
      assert es[..n][i] == es[i];
      ElemHashKeys(es[..n], i);
    }
  }

  /** An element that no later element shares its name with is the one kept under that name. */
  lemma {:induction false} ElemHashLast(es: seq<Elem>, i: nat)
    requires i < |es|
    requires forall j :: i < j < |es| ==> es[j].name != es[i].name
    ensures es[i].name in ElemHash(es) && ElemHash(es)[es[i].name] == es[i]
    decreases |es|
  {
    var n := |es| - 1;
    if i < n {
      assert es[..n][i] == es[i];
      ElemHashLast(es[..n], i);
    }
  }

  /** The names of the elements of kind `kind`, in schema order. */
  function KindNames(es: seq<Elem>, kind: ElemKind): seq<string>
  {
    Map(Filter(es, (e: Elem) => e.kind == kind), (e: Elem) => e.name)
  }

  lemma {:induction false} KindNamesSpec(es: seq<Elem>, kind: ElemKind, n: string)
    ensures n in KindNames(es, kind) <==> exists i :: 0 <= i < |es| && es[i].kind == kind && es[i].name == n
  {
    SelectMembership(es, (e: Elem) => e.kind == kind, (e: Elem) => e.name, n);
  }

  /** Every element is an extent or a link, so the two name lists share out the elements. */
  lemma {:induction false} KindNamesPartition(es: seq<Elem>)
    ensures |KindNames(es, ElemKind.Extent)| + |KindNames(es, ElemKind.Link)| == |es|
  {
    if |es| > 0 {
      KindNamesPartition(es[1..]);
    }
  }

  /** The element type as the store reads it: name, kind, and each attribute's name and flag. */
  function TypeOf(e: Elem): (t: TagType)
    reads e, e.attributes
    ensures t.name == e.name && t.kind == e.kind && |t.attributes| == |e.attributes|
    ensures forall i :: 0 <= i < |e.attributes| ==>
      t.attributes[i] == AttDef(e.attributes[i].name, e.attributes[i].required)
  {
    TagType(e.name, e.kind,
      seq(|e.attributes|, i reads e, e.attributes requires 0 <= i < |e.attributes| =>
        AttDef(e.attributes[i].name, e.attributes[i].required)))
  }

  /** The element types of `es` as the store reads them, in order. */
  function TypesOf(es: seq<Elem>): (ts: seq<TagType>)
    reads es, AttribsOf(es)
    ensures |ts| == |es|
    ensures forall i :: 0 <= i < |es| ==> ts[i].name == es[i].name && ts[i].kind == es[i].kind
  {
    if |es| == 0 then []
    else
      AttribsOfFacts(es);
      [TypeOf(es[0])] + TypesOf(es[1..])
  }

  // ---------------------------------------------------------------------------------------
  // Tags within several spans
  // ---------------------------------------------------------------------------------------

  /** getTagsWithinSpansByType: per file, the ids getTagsSpanByType gives for each span in turn. */
  function SpansLookup(extents: seq<ExtentRow>, spans: seq<Span>, tagName: string, f: string): seq<string>
  {
    if |spans| == 0 then []
    else
      var sp := spans[|spans| - 1];
      SpansLookup(extents, spans[..|spans| - 1], tagName, f)
        + Lookup(Grouped(TagsInSpan(extents, sp.start, sp.end, tagName)), f)
  }

  /** Merging the lists of one more span into a map that holds those of the spans before it. */
  lemma SpansLookupNext(extents: seq<ExtentRow>, spans: seq<Span>, tagName: string, i: nat,
                        h: map<string, seq<string>>, h': map<string, seq<string>>)
    requires i < |spans|
    requires forall f :: Lookup(h, f) == SpansLookup(extents, spans[..i], tagName, f)
    requires forall f :: f in h <==> |SpansLookup(extents, spans[..i], tagName, f)| > 0
    requires var part := Grouped(TagsInSpan(extents, spans[i].start, spans[i].end, tagName));
      (forall f :: f in h' <==> f in h || (f in part && |part[f]| > 0))
      && forall f :: f in h' ==> h'[f] == Lookup(h, f) + Lookup(part, f)
    ensures forall f :: Lookup(h', f) == SpansLookup(extents, spans[..i + 1], tagName, f)
    ensures forall f :: f in h' <==> |SpansLookup(extents, spans[..i + 1], tagName, f)| > 0
  {
    assert spans[..i + 1][..i] == spans[..i];
  }

  /** A tag of `tagName` in file `f` with id `id` has an offset in the selection `sp`. */
  predicate SpanHit(extents: seq<ExtentRow>, sp: Span, tagName: string, f: string, id: string)
  {
    exists i :: 0 <= i < |extents| && extents[i].elemName == tagName
      && InSelection(extents[i].location, sp.start, sp.end) && extents[i].file == f && extents[i].id == id
  }

  lemma SpansLookupStep(extents: seq<ExtentRow>, spans: seq<Span>, tagName: string, f: string, id: string)
    requires |spans| > 0
    ensures id in SpansLookup(extents, spans, tagName, f) <==>
      id in SpansLookup(extents, spans[..|spans| - 1], tagName, f) || SpanHit(extents, spans[|spans| - 1], tagName, f, id)
  {
    var sp := spans[|spans| - 1];
    GroupedLookup(TagsInSpan(extents, sp.start, sp.end, tagName), f, id);
    TagsInSpanSpec(extents, sp.start, sp.end, tagName, f, id);
  }

  /** Where an id listed under a file comes from: a span in which a tag of the file has it. */
  lemma {:induction false} SpansLookupWitness(extents: seq<ExtentRow>, spans: seq<Span>, tagName: string, f: string, id: string)
    returns (k: nat)
    requires id in SpansLookup(extents, spans, tagName, f)
    ensures k < |spans| && SpanHit(extents, spans[k], tagName, f, id)
    decreases |spans|
  {
    var n := |spans| - 1;
    SpansLookupStep(extents, spans, tagName, f, id);
    if SpanHit(extents, spans[n], tagName, f, id) {
      k := n;
    } else {
      k := SpansLookupWitness(extents, spans[..n], tagName, f, id);
      assert spans[..n][k] == spans[k];
    }
  }

  /** A tag of the file with an offset in span `k` is listed. */
  lemma {:induction false} SpansLookupCovers(extents: seq<ExtentRow>, spans: seq<Span>, tagName: string, f: string, id: string, k: nat)
    requires k < |spans| && SpanHit(extents, spans[k], tagName, f, id)
    ensures id in SpansLookup(extents, spans, tagName, f)
    decreases |spans|
  {
    var n := |spans| - 1;
    SpansLookupStep(extents, spans, tagName, f, id);
    if k < n {
      assert spans[..n][k] == spans[k];
      SpansLookupCovers(extents, spans[..n], tagName, f, id, k);
      assert id in SpansLookup(extents, spans[..n], tagName, f);
    } else {
      assert k == n;
    }
  }

  /** An id is listed under a file iff a tag of the type in that file has an offset in one of the spans. */
  lemma SpansLookupSpec(extents: seq<ExtentRow>, spans: seq<Span>, tagName: string, f: string, id: string)
    ensures id in SpansLookup(extents, spans, tagName, f) <==>
      exists k :: 0 <= k < |spans| && SpanHit(extents, spans[k], tagName, f, id)
  {
    if id in SpansLookup(extents, spans, tagName, f) {
      var k := SpansLookupWitness(extents, spans, tagName, f, id);
    }
    if exists k :: 0 <= k < |spans| && SpanHit(extents, spans[k], tagName, f, id) {
      var k :| 0 <= k < |spans| && SpanHit(extents, spans[k], tagName, f, id);
      SpansLookupCovers(extents, spans, tagName, f, id, k);
    }
  }

  /** A tag of type `t` in `file` with id `id` has an offset in the selection `sp`. */
  predicate FileSpanHit(extents: seq<ExtentRow>, file: string, sp: Span, t: string, id: string)
  {
    exists i :: 0 <= i < |extents| && extents[i].file == file
      && InSelection(extents[i].location, sp.start, sp.end) && extents[i].elemName == t && extents[i].id == id
  }

  /** Some non-consuming tag of type `t`, in any file, has id `id`. */
  predicate NonConsumingOf(extents: seq<ExtentRow>, t: string, id: string)
  {
    exists i :: 0 <= i < |extents| && extents[i].location == -1 && extents[i].elemName == t && extents[i].id == id
  }

  /** getFileTagsSpanAndNC over several spans: per type, the ids each span's query gives in turn. */
  function FileSpansLookup(extents: seq<ExtentRow>, file: string, spans: seq<Span>, t: string): seq<string>
  {
    if |spans| == 0 then []
    else
      var sp := spans[|spans| - 1];
      FileSpansLookup(extents, file, spans[..|spans| - 1], t)
        + Lookup(Grouped(FileTagsInSpan(extents, file, sp.start, sp.end) + NonConsumingTags(extents)), t)
  }

  /** Merging the lists of one more span into a map that holds those of the spans before it. */
  lemma FileSpansLookupNext(extents: seq<ExtentRow>, file: string, spans: seq<Span>, i: nat,
                            h: map<string, seq<string>>, h': map<string, seq<string>>)
    requires i < |spans|
    requires forall t :: Lookup(h, t) == FileSpansLookup(extents, file, spans[..i], t)
    requires forall t :: t in h <==> |FileSpansLookup(extents, file, spans[..i], t)| > 0
    requires var part := Grouped(FileTagsInSpan(extents, file, spans[i].start, spans[i].end) + NonConsumingTags(extents));
      (forall t :: t in h' <==> t in h || (t in part && |part[t]| > 0))
      && forall t :: t in h' ==> h'[t] == Lookup(h, t) + Lookup(part, t)
    ensures forall t :: Lookup(h', t) == FileSpansLookup(extents, file, spans[..i + 1], t)
    ensures forall t :: t in h' <==> |FileSpansLookup(extents, file, spans[..i + 1], t)| > 0
  {
    assert spans[..i + 1][..i] == spans[..i];
  }

  lemma FileSpansLookupStep(extents: seq<ExtentRow>, file: string, spans: seq<Span>, t: string, id: string)
    requires |spans| > 0
    ensures id in FileSpansLookup(extents, file, spans, t) <==>
      id in FileSpansLookup(extents, file, spans[..|spans| - 1], t)
      || FileSpanHit(extents, file, spans[|spans| - 1], t, id) || NonConsumingOf(extents, t, id)
  {
    var sp := spans[|spans| - 1];
    var rows := FileTagsInSpan(extents, file, sp.start, sp.end) + NonConsumingTags(extents);
    GroupedLookup(rows, t, id);
    FileTagsInSpanSpec(extents, file, sp.start, sp.end, t, id);
    NonConsumingTagsSpec(extents, t, id);
  }

  lemma {:induction false} FileSpansLookupWitness(extents: seq<ExtentRow>, file: string, spans: seq<Span>, t: string, id: string)
    returns (k: nat)
    requires id in FileSpansLookup(extents, file, spans, t)
    ensures k < |spans| && (FileSpanHit(extents, file, spans[k], t, id) || NonConsumingOf(extents, t, id))
    decreases |spans|
  {
    var n := |spans| - 1;
    FileSpansLookupStep(extents, file, spans, t, id);
    if FileSpanHit(extents, file, spans[n], t, id) || NonConsumingOf(extents, t, id) {
      k := n;
    } else {
      k := FileSpansLookupWitness(extents, file, spans[..n], t, id);
      assert spans[..n][k] == spans[k];
    }
  }

  lemma {:induction false} FileSpansLookupCovers(extents: seq<ExtentRow>, file: string, spans: seq<Span>, t: string, id: string, k: nat)
    requires k < |spans| && (FileSpanHit(extents, file, spans[k], t, id) || NonConsumingOf(extents, t, id))
    ensures id in FileSpansLookup(extents, file, spans, t)
    decreases |spans|
  {
    var n := |spans| - 1;
    FileSpansLookupStep(extents, file, spans, t, id);
    if k < n && !NonConsumingOf(extents, t, id) {
      assert spans[..n][k] == spans[k];
      FileSpansLookupCovers(extents, file, spans[..n], t, id, k);
      assert id in FileSpansLookup(extents, file, spans[..n], t);
    } else if !NonConsumingOf(extents, t, id) {
      assert k == n;
    }
  }

  /**
   * An id is listed under a type iff a tag of that type in the file has an offset in one of
   * the spans, or (given at least one span) it is a non-consuming tag of any file.
   */
  lemma FileSpansLookupSpec(extents: seq<ExtentRow>, file: string, spans: seq<Span>, t: string, id: string)
    ensures id in FileSpansLookup(extents, file, spans, t) <==>
      (exists k :: 0 <= k < |spans| && FileSpanHit(extents, file, spans[k], t, id))
      || (|spans| > 0 && NonConsumingOf(extents, t, id))
  {
    if id in FileSpansLookup(extents, file, spans, t) {
      var k := FileSpansLookupWitness(extents, file, spans, t, id);
    }
    if exists k :: 0 <= k < |spans| && FileSpanHit(extents, file, spans[k], t, id) {
      var k :| 0 <= k < |spans| && FileSpanHit(extents, file, spans[k], t, id);
      FileSpansLookupCovers(extents, file, spans, t, id, k);
    } else if |spans| > 0 && NonConsumingOf(extents, t, id) {
      FileSpansLookupCovers(extents, file, spans, t, id, 0);
    }
  }

  // ---------------------------------------------------------------------------------------
  // ---------------------------------------------------------------------------------------
  // The task
  // ---------------------------------------------------------------------------------------

  /** The loop of createHash: each element under its name, a later one replacing an earlier. */
  method HashOf(elems: seq<Elem>) returns (es: map<string, Elem>)
    ensures es == ElemHash(elems)
  {
    es := map[];
    var i := 0;
    while i < |elems|
      invariant 0 <= i <= |elems|
      invariant es == ElemHash(elems[..i])
    {
      assert elems[..i + 1][..i] == elems[..i];
      es := es[elems[i].name := elems[i]];
      i := i + 1;
    }
    assert elems[..i] == elems;
  }

  /** The loops of createIDTracker: a counter at 0 for each element with an AttID. */
  method IdTrackerOf(elems: seq<Elem>) returns (ids: map<string, IdCounter>)
    ensures ids == TrackerOf(elems)
  {
    ids := map[];
    var i := 0;
    while i < |elems|
      invariant 0 <= i <= |elems|
      invariant ids == TrackerOf(elems[..i])
    {
      var e := elems[i];
      var atts := e.attributes;
      var j := 0;
      while j < |atts|
        invariant 0 <= j <= |atts|
        invariant ids == TrackerOf(elems[..i]) + AttTracker(e.name, atts[..j])
      {
        assert atts[..j + 1][..j] == atts[..j];
        if atts[j].kind == IdAtt {
          ids := ids[e.name := IdCounter(atts[j].prefix, 0)];
        }
        j := j + 1;
      }
      assert atts[..j] == atts;
      assert elems[..i + 1][..i] == elems[..i];
      assert elems[..i + 1][i] == e;
      i := i + 1;
    }
    assert elems[..i] == elems;
  }

  class AdjudicationTask {
    var db: AdjudDB
    /** mDtd; null until setDTD. */
    var dtd: DTD?
    var hasDtd: bool
    /** mElements: the schema's elements by exact name. */
    var elements: map<string, Elem>
    /** mIdTracker: the next-id counter of each element type with an id attribute. */
    var idTracker: map<string, IdCounter>

    /** A new task with an empty store and no schema yet. */
    constructor ()
      ensures fresh(db) && db.extents == [] && db.links == [] && db.overlaps == [] && db.tables == map[]
      ensures db.Valid()
      ensures dtd == null && !hasDtd && elements == map[] && idTracker == map[]
    {
      db := new AdjudDB();
      dtd := null;
      hasDtd := false;
      elements := map[];
      idTracker := map[];
    }

    /** reset_db: a new, empty store. */
    method ResetDb()
      modifies this
      ensures fresh(db) && db.extents == [] && db.links == [] && db.overlaps == [] && db.tables == map[]
      ensures db.Valid()
      ensures dtd == old(dtd) && hasDtd == old(hasDtd) && elements == old(elements) && idTracker == old(idTracker)
    {
      db := new AdjudDB();
    }

    /** createHash over the current schema. */
    method CreateHash() returns (es: map<string, Elem>)
      requires dtd != null
      ensures es == ElemHash(dtd.elements)
    {
      es := HashOf(dtd.elements);
    }

    /** createIDTracker over the current schema: a counter at 0 for each element with an AttID. */
    method CreateIdTracker() returns (ids: map<string, IdCounter>)
      requires dtd != null
      ensures ids == TrackerOf(dtd.elements)
    {
      ids := IdTrackerOf(dtd.elements);
    }

    /** reset_IDTracker: every counter back to 0; without a schema, a null dereference. */
    method ResetIdTracker() returns (r: Result<()>)
      modifies this
      ensures db == old(db) && dtd == old(dtd) && hasDtd == old(hasDtd) && elements == old(elements)
      ensures r.Fail? <==> dtd == null
      ensures r.Fail? ==> r.exc == NullPointer && idTracker == old(idTracker)
      ensures r.Ok? ==> dtd != null && idTracker == TrackerOf(dtd.elements)
    {
      if dtd == null {
        return Fail(NullPointer);
      }
      ghost var es := dtd.elements;
      ghost var attribs := AttribsOf(es);
      var ids := CreateIdTracker();
      idTracker := ids;
      assert dtd.elements == es && AttribsOf(es) == attribs;
      r := Ok(());
    }

    /** setDTD: the schema, its elements by name and fresh counters are taken from `d`. */
    method SetDtd(d: DTD)
      modifies this
      ensures dtd == d && hasDtd
      ensures elements == ElemHash(d.elements)
      ensures idTracker == TrackerOf(d.elements)
      ensures db == old(db)
    {
      dtd := d;
      hasDtd := true;
      var hash := HashOf(d.elements);
      elements := hash;
      var _ := ResetIdTracker();
    }

    /**
     * getNextID: the tracker's current id for the type, or the first one after it that is not
     * taken in `file`; the counter moves past the id returned. A type without a counter is a
     * null dereference.
     */
    method GetNextId(element: string, file: string) returns (r: Result<string>)
      modifies this
      ensures element !in old(idTracker) ==> r == Fail(NullPointer) && idTracker == old(idTracker)
      ensures element in old(idTracker) ==>
        var c := old(idTracker)[element];
        var m := FirstFree(db.extents, db.links, file, c.prefix, c.number);
        r == Ok(c.prefix + NatToString(m)) && idTracker == old(idTracker)[element := IdCounter(c.prefix, m + 1)]
      ensures db == old(db) && dtd == old(dtd) && hasDtd == old(hasDtd) && elements == old(elements)
    {
      if element !in idTracker {
        return Fail(NullPointer);
      }
      var c := idTracker[element];
      var m := NextFree(db, c.prefix, c.number, file);
      idTracker := idTracker[element := IdCounter(c.prefix, m + 1)];
      r := Ok(c.prefix + NatToString(m));
    }

    // -------------------------------------------------------------------------------------
    // Adding tags
    // -------------------------------------------------------------------------------------

    /** addDTDtoDB: a table for each element type of the schema. */
    method AddDtdToDb()
      requires dtd != null
      modifies db
      ensures db.tables == old(db.tables) + EmptyTables(TypesOf(dtd.elements))
      ensures db.extents == old(db.extents) && db.links == old(db.links) && db.overlaps == old(db.overlaps)
    {
      ghost var es := dtd.elements;
      ghost var attribs := AttribsOf(es);
      var types := TypesOf(dtd.elements);
      db.AddDtd(types);
      assert dtd.elements == es && AttribsOf(es) == attribs;
    }

    /** addTagsFromHash: the tags read from a file, extents first, then links. */
    method AddTagsFromHash(file: string, newTags: map<string, seq<map<string, string>>>) returns (r: Result<()>)
      requires dtd != null && db.Valid()
      modifies db
      ensures db.Valid()
      ensures r.Ok? <==> ExtentPass(file, TypesOf(dtd.elements), newTags).Ok?
      ensures r.Ok? ==> db.extents == old(db.extents) + ExtentPass(file, TypesOf(dtd.elements), newTags).value
      ensures db.overlaps == old(db.overlaps) && db.tables.Keys == old(db.tables).Keys
      ensures r.Fail? ==> db.tables == PassTables(old(db.tables), file, TypesOf(dtd.elements), newTags)
      ensures forall k :: k in db.tables && !LinkTyped(TypesOf(dtd.elements), newTags, k) ==>
        db.tables[k] == PassTables(old(db.tables), file, TypesOf(dtd.elements), newTags)[k]
    {
      ghost var es := dtd.elements;
      ghost var attribs := AttribsOf(es);
      var types := TypesOf(dtd.elements);
      r := db.AddTagsFromHash(file, types, newTags);
      assert dtd.elements == es && AttribsOf(es) == attribs;
    }

    /**
     * addTagFromHash: an extent is indexed and stored, and, in the gold standard only, its
     * overlaps with the other files are recorded (a failure there is printed and dropped);
     * a link goes to the link table and its type's table, with no overlap work. An exception
     * from parsing the extent's spans leaves the call; an extent without an id gets its
     * table row only (see README, "Left out").
     */
    method AddTagFromHash(file: string, tag: Elem, tagVals: map<string, string>) returns (r: Result<()>)
      requires db.Valid()
      modifies db
      ensures db.Valid()
      ensures tag.kind == ElemKind.Extent ==>
        db.tables == AddRow(old(db.tables), tag.name, TagRow(file, ColumnValues(old(TypeOf(tag)).attributes, tagVals)))
      ensures tag.kind == ElemKind.Extent ==> var ix := TagIndexRows(file, tag.name, tagVals);
        (r.Fail? <==> ix.Fail? && ix.exc != MissingId)
        && (r.Fail? ==> r.exc == ix.exc)
        && db.extents == old(db.extents) + (if ix.Ok? then ix.value else [])
        && db.overlaps == old(db.overlaps)
          + (if ix.Ok? && file == GS_FILE
             then SpansOverlaps(db.extents, tagVals["id"], tag.name, Parse(tagVals["spans"]).value)
             else [])
        && db.links == old(db.links)
      ensures tag.kind == ElemKind.Link ==>
        r.Ok? && db.extents == old(db.extents) && db.overlaps == old(db.overlaps)
      ensures tag.kind == ElemKind.Link && tag.name !in old(db.tables) ==>
        db.tables == old(db.tables) && db.links == old(db.links)
      ensures tag.kind == ElemKind.Link && tag.name in old(db.tables) ==>
        db.tables == old(db.tables)[tag.name := old(db.tables)[tag.name]
          + [TagRow(file, LinkColumnValues(old(TypeOf(tag)).attributes, tagVals))]]
      ensures tag.kind == ElemKind.Link && tag.name in old(db.tables) ==>
        db.links == old(db.links) + (match LinkRowOf(old(db.extents), file, tag.name, tagVals) case Some(l) => [l] case None => [])
    {
      var t := TypeOf(tag);
      if tag.kind == ElemKind.Extent {
        var ix := db.UsePreparedExtentStatements(file, t, tagVals);
        if ix.Fail? && ix.exc != MissingId {
          return ix;
        }
        if file == "goldStandard.xml" {
          var _ := db.AddOverlaps(tag.name, tagVals);
        }
        r := Ok(());
      } else {
        db.UsePreparedLinkStatements(file, t, tagVals);
        r := Ok(());
      }
    }

    /** findAllOverlaps; the store's exception is printed and dropped (see AdjudDB.FindAllOverlaps). */
    method FindAllOverlaps()
      requires db.Valid()
      modifies db
      ensures db.Valid() && db.overlaps == AllOverlaps(db.extents)
      ensures db.extents == old(db.extents) && db.links == old(db.links) && db.tables == old(db.tables)
    {
      db.FindAllOverlaps();
    }

    /** removeExtentByFileAndID; a missing table is printed and dropped. */
    method RemoveExtentByFileAndId(file: string, elemName: string, id: string)
      requires db.Valid()
      modifies db
      ensures db.Valid()
      ensures db.extents == ExtentsWithout(old(db.extents), file, elemName, id)
      ensures db.tables == (if elemName in old(db.tables) then old(db.tables)[elemName := RowsWithout(old(db.tables)[elemName], file, id)] else old(db.tables))
      ensures db.links == old(db.links)
    {
      var _ := db.RemoveExtentTags(file, elemName, id);
    }

    /** removeLinkByFileAndID; a missing table is printed and dropped. */
    method RemoveLinkByFileAndId(file: string, elemName: string, id: string)
      modifies db
      ensures old(db.Valid()) ==> db.Valid()
      ensures db.tables == (if elemName in old(db.tables) then old(db.tables)[elemName := RowsWithout(old(db.tables)[elemName], file, id)] else old(db.tables))
      ensures db.links == LinksWithout(old(db.links), file, elemName, id)
      ensures db.extents == old(db.extents) && db.overlaps == old(db.overlaps)
    {
      var _ := db.RemoveLinkTags(file, elemName, id);
    }

    // -------------------------------------------------------------------------------------
    // Queries
    // -------------------------------------------------------------------------------------

    /**
     * getTagsWithinSpansByType: getTagsSpanByType for each span, merged key by key in span
     * order; a file is a key only when some span lists a tag for it.
     */
    method GetTagsWithinSpansByType(spans: seq<Span>, tagName: string) returns (c: HashCollection<string, string>)
      ensures fresh(c)
      ensures forall f :: Lookup(c.hash, f) == SpansLookup(db.extents, spans, tagName, f)
      ensures forall f :: f in c.hash <==> |SpansLookup(db.extents, spans, tagName, f)| > 0
    {
      c := new HashCollection();
      var i := 0;
      while i < |spans|
        invariant 0 <= i <= |spans|
        invariant fresh(c)
        invariant forall f :: Lookup(c.hash, f) == SpansLookup(db.extents, spans[..i], tagName, f)
        invariant forall f :: f in c.hash <==> |SpansLookup(db.extents, spans[..i], tagName, f)| > 0
      {
        var part := db.GetTagsInSpanByType(spans[i].start, spans[i].end, tagName);
        ghost var before := c.hash;
        c.PutAll(part);
        SpansLookupNext(db.extents, spans, tagName, i, before, c.hash);
        i := i + 1;
      }
      assert spans[..i] == spans;
    }

    /** getFileTagsSpanAndNC over several spans, merged key by key in span order. */
    method GetFileTagsWithinSpansAndNC(file: string, spans: seq<Span>) returns (c: HashCollection<string, string>)
      ensures fresh(c)
      ensures forall t :: Lookup(c.hash, t) == FileSpansLookup(db.extents, file, spans, t)
      ensures forall t :: t in c.hash <==> |FileSpansLookup(db.extents, file, spans, t)| > 0
    {
      c := new HashCollection();
      var i := 0;
      while i < |spans|
        invariant 0 <= i <= |spans|
        invariant fresh(c)
        invariant forall t :: Lookup(c.hash, t) == FileSpansLookup(db.extents, file, spans[..i], t)
        invariant forall t :: t in c.hash <==> |FileSpansLookup(db.extents, file, spans[..i], t)| > 0
      {
        var part := db.GetFileTagsInSpanAndNC(file, spans[i].start, spans[i].end);
        ghost var before := c.hash;
        c.PutAll(part);
        FileSpansLookupNext(db.extents, file, spans, i, before, c.hash);
        i := i + 1;
      }
      assert spans[..i] == spans;
    }

    /** getExtentElements: the names of the schema's extent elements, in schema order. */
    method GetExtentElements() returns (names: seq<string>)
      requires dtd != null
      ensures names == KindNames(dtd.elements, ElemKind.Extent)
    {
      names := ElementsOfKind(dtd.elements, ElemKind.Extent);
    }

    /** getLinkElements: the names of the schema's link elements, in schema order. */
    method GetLinkElements() returns (names: seq<string>)
      requires dtd != null
      ensures names == KindNames(dtd.elements, ElemKind.Link)
    {
      names := ElementsOfKind(dtd.elements, ElemKind.Link);
    }

    /** getLocByFileAndID; a failure answers null. */
    method GetLocByFileAndId(file: string, id: string) returns (r: Option<string>)
      requires db.Valid()
      ensures r.Some? <==> LocText(db.extents, file, id).Ok?
      ensures r.Some? ==> r.value == LocText(db.extents, file, id).value
    {
      var loc := db.GetLocByFileAndID(file, id);
      r := if loc.Ok? then Some(loc.value) else None;
    }

    /**
     * getTagsByFileAndID: the attributes come from the schema's element of that name (matched
     * ignoring case); a missing schema, element or table, or a NULL required value, answers null.
     */
    method GetTagsByFileAndId(tagName: string, id: string, file: string) returns (r: Option<map<string, string>>)
      ensures dtd == null || ElemNamed(dtd.elements, tagName).None? || tagName !in db.tables ==> r.None?
      ensures dtd != null && ElemNamed(dtd.elements, tagName).Some? && tagName in db.tables ==>
        r == TagValues(TypeOf(ElemNamed(dtd.elements, tagName).value).attributes, RowsOf(db.tables[tagName], file, id))
    {
      if dtd == null {
        return None;
      }
      var e := dtd.GetElem(tagName);
      if e.None? {
        return None;
      }
      var res := db.GetTagsByFileAndID(tagName, id, file, TypeOf(e.value).attributes);
      r := if res.Ok? then res.value else None;
    }

    /** getExtentTagsByFileAndType; a failure answers null. */
    method GetExtentTagsByFileAndType(file: string, elem: Elem) returns (r: Option<seq<string>>)
      ensures r.Some? <==> elem.name in db.tables && "start" in AttNames(TypeOf(elem).attributes)
      ensures r.Some? ==> r.value == TagTexts(elem.name, TypeOf(elem).attributes, FileRows(db.tables[elem.name], file))
    {
      var res := db.GetExtentTagsByFileAndType(file, TypeOf(elem));
      r := if res.Ok? then Some(res.value) else None;
    }

    /** getLinkTagsByFileAndType; a failure answers null. */
    method GetLinkTagsByFileAndType(file: string, elem: Elem) returns (r: Option<seq<string>>)
      ensures r.Some? <==> elem.name in db.tables && "id" in AttNames(TypeOf(elem).attributes)
      ensures r.Some? ==>
        exists rows: seq<TagRow> :: multiset(rows) == multiset(FileRows(db.tables[elem.name], file))
          && r.value == TagTexts(elem.name, TypeOf(elem).attributes, rows)
    {
      var res := db.GetLinkTagsByFileAndType(file, TypeOf(elem));
      r := if res.Ok? then Some(res.value) else None;
    }

    /** getTextByFileElemAndID: a failure answers "", a NULL text cell null. */
    method GetTextByFileElemAndId(file: string, elemName: string, id: string) returns (r: Option<string>)
      ensures elemName !in db.tables ==> r == Some("")
      ensures elemName in db.tables && (forall x :: x in db.tables[elemName] ==> !(x.file == file && Column(x, "id") == Some(id)))
        ==> r == Some("")
      ensures elemName in db.tables && r != Some("") ==>
        exists x :: x in db.tables[elemName] && x.file == file && Column(x, "id") == Some(id) && r == Column(x, "text")
    {
      var res := db.GetTextByFileElemAndID(file, elemName, id);
      r := if res.Ok? then res.value else Some("");
    }

    /** getAllExtentsByFile: the store's offsets of the file; its failure would answer an empty table. */
    method GetAllExtentsByFile(file: string) returns (locs: map<string, string>)
      ensures forall k :: k in locs <==>
        exists i :: 0 <= i < |db.extents| && db.extents[i].file == file && IntToString(db.extents[i].location) == k
      ensures forall k :: k in locs ==> locs[k] == ""
    {
      locs := db.GetAllExtentsByFile(file);
    }

    /**
     * getLinkTagsSpanByType for one span: the attributes come from the schema's element of
     * that name; any failure answers null.
     */
    method GetLinkTagsSpanByType(begin: Int32, end: Int32, tagName: string)
      returns (r: Option<HashCollection<string, map<string, string>>>)
      modifies db.curHL
      ensures r.Some? ==> dtd != null && ElemNamed(dtd.elements, tagName).Some?
      ensures dtd != null && ElemNamed(dtd.elements, tagName).Some? ==>
        var atts := old(TypeOf(ElemNamed(dtd.elements, tagName).value)).attributes;
        var temp := TempLinks(db.tables, tagName, atts, db.curLinks);
        (r.Some? <==>
          temp.Ok? && forall f :: f in temp.value ==> ProcessList(db.extents, db.tables, Span(begin, end), f, temp.value[f]).Ok?)
      ensures r.Some? ==>
        var atts := old(TypeOf(ElemNamed(dtd.elements, tagName).value)).attributes;
        var temp := TempLinks(db.tables, tagName, atts, db.curLinks).value;
        forall f :: f in temp ==>
          Lookup(r.value.hash, f) == ProcessList(db.extents, db.tables, Span(begin, end), f, temp[f]).value.0
    {
      if dtd == null {
        return None;
      }
      var e := dtd.GetElem(tagName);
      if e.None? {
        return None;
      }
      var atts := TypeOf(e.value).attributes;
      ghost var temp := TempLinks(db.tables, tagName, atts, db.curLinks);
      var res := db.GetLinkTagsInSpanByType(begin, end, tagName, atts);
      assert e == ElemNamed(dtd.elements, tagName);
      assert atts == old(TypeOf(ElemNamed(dtd.elements, tagName).value)).attributes;
      assert temp == TempLinks(db.tables, tagName, atts, db.curLinks);
      r := if res.Ok? then Some(res.value) else None;
    }

    /** getElem: the element of that exact name in the element table, or null. */
    function GetElem(name: string): (r: Option<Elem>)
      reads this
      ensures r.Some? <==> name in elements
      ensures r.Some? ==> r.value == elements[name]
    {
      if name in elements then Some(elements[name]) else None
    }

    /** getExtentAllLocs: per printed offset, the files with a tag of that type there. */
    method GetExtentAllLocs(tagName: string) returns (c: HashCollection<string, string>)
      ensures fresh(c) && c.hash == Grouped(AllLocs(db.extents, tagName))
      ensures forall loc: int, f :: f in Lookup(c.hash, IntToString(loc)) <==>
        exists i :: 0 <= i < |db.extents| && db.extents[i].elemName == tagName
          && db.extents[i].location == loc && db.extents[i].file == f
    {
      c := db.GetExtentAllLocs(tagName);
    }

    /** getFilesAtLocbyElement: the files with a tag of the type at the offset. */
    method GetFilesAtLocByElement(elemName: string, loc: int) returns (files: seq<string>)
      ensures forall f :: f in files <==>
        exists i :: 0 <= i < |db.extents| && db.extents[i].location == loc && db.extents[i].elemName == elemName
          && db.extents[i].file == f
    {
      files := db.GetFilesAtLocByElement(elemName, loc);
    }

    /** tagExistsInFileAtLoc: some tag of the file covers the offset. */
    method TagExistsInFileAtLoc(file: string, loc: int) returns (b: bool)
      ensures b <==> exists i :: 0 <= i < |db.extents| && db.extents[i].location == loc && db.extents[i].file == file
    {
      b := db.TagExistsInFileAtLoc(file, loc);
    }

    /** getTagsSpanByType: per file, the ids of the tags of the type in the selection. */
    method GetTagsSpanByType(begin: int, end: int, tagName: string) returns (c: HashCollection<string, string>)
      ensures fresh(c) && c.hash == Grouped(TagsInSpan(db.extents, begin, end, tagName))
      ensures forall f, id :: id in Lookup(c.hash, f) <==>
        exists i :: 0 <= i < |db.extents| && db.extents[i].elemName == tagName
          && InSelection(db.extents[i].location, begin, end) && db.extents[i].file == f && db.extents[i].id == id
    {
      c := db.GetTagsInSpanByType(begin, end, tagName);
    }

    /** getLinksByFileAndExtentID: per link type, the ids of the file's links anchored at the extent. */
    method GetLinksByFileAndExtentId(file: string, elemName: string, id: string) returns (c: HashCollection<string, string>)
      ensures fresh(c) && c.hash == Grouped(AnchorLinks(db.links, file, elemName, id))
      ensures forall t, lid :: lid in Lookup(c.hash, t) <==>
        exists i :: 0 <= i < |db.links| && db.links[i].file == file && db.links[i].elemName == t && db.links[i].id == lid
          && ((db.links[i].fromId == id && db.links[i].fromName == elemName)
              || (db.links[i].toId == id && db.links[i].toName == elemName))
    {
      c := db.GetLinksByFileAndExtentID(file, elemName, id);
    }

    /**
     * findGoldStandardLinksByType: per gold-standard offset, the files whose links of the type
     * lead to the gold extent there (see AdjudDB.GetGSLinksByType).
     */
    method FindGoldStandardLinksByType(tagName: string) returns (c: HashCollection<string, string>)
      modifies db
      ensures fresh(c)
      ensures db.extents == old(db.extents) && db.links == old(db.links)
      ensures db.overlaps == old(db.overlaps) && db.tables == old(db.tables)
      ensures var rows := TypeLinks(db.links, tagName);
        forall loc, f :: f in Lookup(c.hash, loc) <==>
          exists g: GsKey :: g.file == f && (GsEnd(rows, g) || PromotedEnd(db.overlaps, rows, g)) && GsRowAt(db.extents, g, loc)
    {
      c := db.GetGSLinksByType(tagName);
    }
  }

  /** The names of the elements of one kind, collected in a loop over the schema. */
  method ElementsOfKind(es: seq<Elem>, kind: ElemKind) returns (names: seq<string>)
    ensures names == KindNames(es, kind)
  {
    names := [];
    var i := 0;
    while i < |es|
      invariant 0 <= i <= |es|
      invariant names == KindNames(es[..i], kind)
    {
      FilterAppend(es[..i], [es[i]], (e: Elem) => e.kind == kind);
      MapAppend(Filter(es[..i], (e: Elem) => e.kind == kind), Filter([es[i]], (e: Elem) => e.kind == kind), (e: Elem) => e.name);
      assert es[..i + 1] == es[..i] + [es[i]];
      if es[i].kind == kind {
        names := names + [es[i].name];
      }
      i := i + 1;
    }
    assert es[..i] == es;
  }
}

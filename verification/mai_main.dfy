/**
 * MaiMain, the adjudication window, without its Swing parts: the current text selection
 * (mSpans) and how the caret, the undo button and the mode switches change it; the colour
 * each text offset is shown in; starting an adjudication; the colours handed to the files
 * under adjudication; adding a file under a fresh name; writing a table row to the gold
 * standard; and deleting selected gold-standard rows together with the links that use them.
 */
module Mai {
  import opened Common
  import opened JavaStrings
  import opened Spans
  import opened Schema
  import opened Collections
  import opened AdjudTables
  import opened AdjudStore
  import opened Adjudication

  /** mMode: NORMAL, MSPAN (several spans are collected) or MLINK. */
  datatype Mode = Normal | MultiSpan | MultiLink

  /** The colours an offset of the text is shown in. */
  datatype Shade = Green | Blue | Red | Black

  /**
   * The colours of the colour table: the seven of mColors, handed to added files, and the
   * three fixed ones (mYellow, mCyan, mPink) that starting an adjudication puts in.
   */
  datatype FileColor = Magenta | DarkOrange | LightOrange | LightBlue | Orange | Purple | Gray
                     | Yellow | Cyan | Pink

  /** mColors, in the order they are handed out. */
  const PALETTE: seq<FileColor> := [Magenta, DarkOrange, LightOrange, LightBlue, Orange, Purple, Gray]

  /** The colour assignColors hands out when the table has `k` entries: the palette, cyclically. */
  function NextColor(k: nat): FileColor
  {
    if k < |PALETTE| then PALETTE[k] else NextColor(k - |PALETTE|)
  }

  /** NextColor is the palette taken cyclically, as assignColors' `col % cols`. */
  lemma {:induction false} NextColorMod(k: nat)
    ensures NextColor(k) == PALETTE[k % |PALETTE|]
  {
    if k >= |PALETTE| {
      NextColorMod(k - |PALETTE|);
      assert (k - 7) % 7 == k % 7;
    }
  }

  /** The two colour-table keys that stand for groups of files rather than a file. */
  const ALL_OTHER_FILES := "allOtherFiles"
  const SOME_OTHER_FILES := "someOtherFiles"

  /** The colour table as starting an adjudication leaves it: three fixed entries. */
  const START_COLORS: map<string, FileColor> :=
    map[GS_FILE := Yellow, ALL_OTHER_FILES := Cyan, SOME_OTHER_FILES := Pink]

  // ---------------------------------------------------------------------------------------
  // The selection
  // ---------------------------------------------------------------------------------------

  /** isSpansEmpty: nothing is selected when the list is empty or starts at offset -1. */
  predicate SpansEmpty(spans: seq<Span>)
  {
    |spans| == 0 || spans[0].start == -1
  }

  /** No span is listed twice. */
  predicate NoRepeats(spans: seq<Span>)
  {
    forall i, j :: 0 <= i < j < |spans| ==> spans[i] != spans[j]
  }

  /**
   * resetSpans: the non-consuming span `(-1, -1)` outside multi-span mode, no span inside it;
   * either way nothing counts as selected.
   */
  function ResetValue(mode: Mode): (r: seq<Span>)
    ensures SpansEmpty(r) && NoRepeats(r)
    ensures r == [] <==> mode == MultiSpan
    ensures r != [] ==> r == [NON_CONSUMING]
  {
    if mode != MultiSpan then [NON_CONSUMING] else []
  }

  /** The span a caret drag between `dot` and `mark` covers, smaller end first. */
  function Selected(dot: Int32, mark: Int32): (sp: Span)
    ensures sp.start <= sp.end
    ensures {sp.start, sp.end} == {dot, mark}
  {
    if dot < mark then Span(dot, mark) else Span(mark, dot)
  }

  /**
   * The selection after a caret event (AnnCaretListener): an empty selection is cleared
   * first; a drag adds its span unless that exact span is listed already; a plain click
   * resets the selection outside multi-span mode and leaves it alone inside it.
   */
  function AfterCaret(spans: seq<Span>, mode: Mode, dot: Int32, mark: Int32): seq<Span>
  {
    var base := if SpansEmpty(spans) then [] else spans;
    if dot != mark then
      if Selected(dot, mark) in base then base else base + [Selected(dot, mark)]
    else if mode != MultiSpan then ResetValue(mode)
    else base
  }

  /** UndoSelectListener: the last span is dropped; an empty list stays empty. */
  function UndoValue(spans: seq<Span>): (r: seq<Span>)
    ensures |spans| > 0 ==> r == spans[..|spans| - 1]
    ensures |spans| == 0 ==> r == []
  {
    if |spans| > 0 then spans[..|spans| - 1] else []
  }

  /**
   * A drag always leaves its span selected, never lists a span twice, and only adds: every
   * span listed before stays, unless nothing was selected.
   */
  lemma CaretSelects(spans: seq<Span>, mode: Mode, dot: Int32, mark: Int32)
    requires dot != mark
    ensures Selected(dot, mark) in AfterCaret(spans, mode, dot, mark)
    ensures NoRepeats(spans) ==> NoRepeats(AfterCaret(spans, mode, dot, mark))
    ensures !SpansEmpty(spans) ==> forall sp :: sp in spans ==> sp in AfterCaret(spans, mode, dot, mark)
    ensures forall sp :: sp in AfterCaret(spans, mode, dot, mark) ==> sp in spans || sp == Selected(dot, mark)
  {
  }

  /** A click outside multi-span mode resets the selection; inside it the selection is kept. */
  lemma CaretClick(spans: seq<Span>, mode: Mode, dot: Int32)
    ensures mode != MultiSpan ==> AfterCaret(spans, mode, dot, dot) == [NON_CONSUMING]
    ensures mode == MultiSpan && !SpansEmpty(spans) ==> AfterCaret(spans, mode, dot, dot) == spans
    ensures NoRepeats(spans) ==> NoRepeats(AfterCaret(spans, mode, dot, dot))
  {
  }

  /** Repeating a drag changes nothing: the same span is never added twice. */
  lemma CaretIdempotent(spans: seq<Span>, mode: Mode, dot: Int32, mark: Int32)
    requires dot != mark
    ensures var once := AfterCaret(spans, mode, dot, mark);
      AfterCaret(once, mode, dot, mark) == once
  {
    var once := AfterCaret(spans, mode, dot, mark);
    var base := if SpansEmpty(spans) then [] else spans;
    var sp := Selected(dot, mark);
    if sp !in base {
      assert once == base + [sp];
      assert once[|once| - 1] == sp;
      if base != [] {
        assert once[0] == base[0];
      }
    }
  }

  /**
   * A list that counts as empty (no span, or the `(-1, -1)` placeholder first) behaves exactly
   * like no selection under every caret event, and a non-empty selection is never reset by a drag.
   */
  lemma EmptySelectionIgnored(spans: seq<Span>, mode: Mode, dot: Int32, mark: Int32)
    ensures SpansEmpty(spans) ==> AfterCaret(spans, mode, dot, mark) == AfterCaret([], mode, dot, mark)
    ensures !SpansEmpty(spans) && dot != mark ==> AfterCaret(spans, mode, dot, mark)[..|spans|] == spans
  {
  }

  /** Undo takes back a drag that added a new span to a non-empty selection. */
  lemma UndoUndoesCaret(spans: seq<Span>, mode: Mode, dot: Int32, mark: Int32)
    requires dot != mark && !SpansEmpty(spans) && Selected(dot, mark) !in spans
    ensures UndoValue(AfterCaret(spans, mode, dot, mark)) == spans
  {
    assert (spans + [Selected(dot, mark)])[..|spans|] == spans;
  }

  /** Dropping the last span keeps the others, each listed at most once. */
  lemma UndoKeepsNoRepeats(spans: seq<Span>)
    ensures NoRepeats(spans) ==> NoRepeats(UndoValue(spans))
    ensures forall sp :: sp in UndoValue(spans) ==> sp in spans
  {
    if |spans| > 0 {
      assert forall k :: 0 <= k < |spans| - 1 ==> UndoValue(spans)[k] == spans[k];
    }
  }

  /** The duplicate check of AnnCaretListener: a scan of the list for an equal pair. */
  method ContainsSpan(spans: seq<Span>, sp: Span) returns (dup: bool)
    ensures dup <==> sp in spans
  {
    dup := false;
    var i := 0;
    while i < |spans|
      invariant 0 <= i <= |spans|
      invariant !dup
      invariant sp !in spans[..i]
    {
      if spans[i].start == sp.start && spans[i].end == sp.end {
        dup := true;
        return;
      }
      assert spans[..i + 1] == spans[..i] + [spans[i]];
      i := i + 1;
    }
    assert spans[..i] == spans;
  }

  // ---------------------------------------------------------------------------------------
  // Text colours
  // ---------------------------------------------------------------------------------------

  /**
   * assignTextColor's rule for one offset, given the files with a tag of the type there and
   * the files under adjudication: green when the gold standard has one; otherwise blue when
   * every other file has one; red when only some have one; black when none has.
   */
  function ShadeOf(files: seq<string>, loaded: seq<string>): Shade
  {
    if GS_FILE in files then Green
    else if |files| > 0 then
      if forall f :: f in loaded ==> f in files || f == GS_FILE then Blue else Red
    else Black
  }

  /** A tag of type `tagName` from file `f` covers offset `loc`. */
  predicate TaggedIn(extents: seq<ExtentRow>, tagName: string, loc: int, f: string)
  {
    exists i :: 0 <= i < |extents| && extents[i].location == loc && extents[i].elemName == tagName
      && extents[i].file == f
  }

  /** The colour of offset `loc` for type `tagName`, by the index. */
  function ShadeAt(extents: seq<ExtentRow>, tagName: string, loc: int, loaded: seq<string>): Shade
  {
    ShadeOf(FilesAt(extents, tagName, loc), loaded)
  }

  /** The colour rule in terms of the tags that cover the offset. */
  lemma ShadeAtSpec(extents: seq<ExtentRow>, tagName: string, loc: int, loaded: seq<string>)
    ensures ShadeAt(extents, tagName, loc, loaded) == Green <==> TaggedIn(extents, tagName, loc, GS_FILE)
    ensures ShadeAt(extents, tagName, loc, loaded) == Black <==> forall f :: !TaggedIn(extents, tagName, loc, f)
    ensures ShadeAt(extents, tagName, loc, loaded) == Blue <==>
      !TaggedIn(extents, tagName, loc, GS_FILE) && (exists f :: TaggedIn(extents, tagName, loc, f))
      && forall f :: f in loaded && f != GS_FILE ==> TaggedIn(extents, tagName, loc, f)
    ensures ShadeAt(extents, tagName, loc, loaded) == Red <==>
      !TaggedIn(extents, tagName, loc, GS_FILE) && (exists f :: TaggedIn(extents, tagName, loc, f))
      && exists f :: f in loaded && f != GS_FILE && !TaggedIn(extents, tagName, loc, f)
  {
    var files := FilesAt(extents, tagName, loc);
    forall f
      ensures f in files <==> TaggedIn(extents, tagName, loc, f)
    {
      FilesAtSpec(extents, tagName, loc, f);
    }
    if |files| > 0 {
      assert TaggedIn(extents, tagName, loc, files[0]);
    }
  }

  /** The rule only looks at which files are listed, not at order or repeats. */
  lemma ShadeOfMembers(files: seq<string>, extents: seq<ExtentRow>, tagName: string, loc: int, loaded: seq<string>)
    requires forall f :: f in files <==> TaggedIn(extents, tagName, loc, f)
    ensures ShadeOf(files, loaded) == ShadeAt(extents, tagName, loc, loaded)
  {
    var other := FilesAt(extents, tagName, loc);
    forall f
      ensures f in other <==> TaggedIn(extents, tagName, loc, f)
    {
      FilesAtSpec(extents, tagName, loc, f);
    }
    if |files| > 0 {
      assert files[0] in other;
    }
    if |other| > 0 {
      assert other[0] in files;
    }
  }

  /** The offsets `start` up to, but not including, `end`. */
  function Range(start: int, end: int): (r: set<int>)
    ensures forall loc :: loc in r <==> start <= loc < end
    decreases end - start
  {
    if end <= start then {} else Range(start, end - 1) + {end - 1}
  }

  /** The offsets covered by the spans, each span's end excluded. */
  function Covered(spans: seq<Span>): set<int>
  {
    if |spans| == 0 then {}
    else Covered(spans[..|spans| - 1]) + Range(spans[|spans| - 1].start, spans[|spans| - 1].end)
  }

  lemma {:induction false} CoveredSpec(spans: seq<Span>, loc: int)
    ensures loc in Covered(spans) <==> exists i :: 0 <= i < |spans| && spans[i].start <= loc < spans[i].end
  {
    if |spans| > 0 {
      var init := spans[..|spans| - 1];
      CoveredSpec(init, loc);
      assert forall i :: 0 <= i < |init| ==> init[i] == spans[i];
      if loc in Covered(init) {
        var i :| 0 <= i < |init| && init[i].start <= loc < init[i].end;
        assert spans[i].start <= loc < spans[i].end;
      }
    }
  }

  /** The colour of each offset in `locs`. */
  function Shades(extents: seq<ExtentRow>, tagName: string, locs: set<int>, loaded: seq<string>): (m: map<int, Shade>)
    ensures m.Keys == locs
    ensures forall loc :: loc in m ==> m[loc] == ShadeAt(extents, tagName, loc, loaded)
  {
    map loc | loc in locs :: ShadeAt(extents, tagName, loc, loaded)
  }

  lemma ShadesUnion(extents: seq<ExtentRow>, tagName: string, a: set<int>, b: set<int>, loaded: seq<string>)
    ensures Shades(extents, tagName, a + b, loaded) == Shades(extents, tagName, a, loaded) + Shades(extents, tagName, b, loaded)
  {
    var lhs := Shades(extents, tagName, a + b, loaded);
    var rhs := Shades(extents, tagName, a, loaded) + Shades(extents, tagName, b, loaded);
    assert lhs.Keys == rhs.Keys;
    assert forall loc :: loc in lhs ==> lhs[loc] == rhs[loc];
  }

  /** The body of assignTextColor's loop: the files tagged at one offset, then the rule. */
  method OffsetShade(task: AdjudicationTask, tagName: string, loc: int, loaded: seq<string>) returns (shade: Shade)
    ensures shade == ShadeAt(task.db.extents, tagName, loc, loaded)
  {
    var files := task.GetFilesAtLocByElement(tagName, loc);
    ShadeOfMembers(files, task.db.extents, tagName, loc, loaded);
    shade := ShadeOf(files, loaded);
  }

  /** assignTextColor(tagName, start, end)'s loop: the colour of each offset of the span. */
  method SpanShades(task: AdjudicationTask, tagName: string, start: int, end: int, loaded: seq<string>)
    returns (m: map<int, Shade>)
    ensures m == Shades(task.db.extents, tagName, Range(start, end), loaded)
  {
    m := map[];
    if end <= start {
      assert Range(start, end) == {};
      return;
    }
    var cur := start;
    while cur < end
      invariant start <= cur <= end
      invariant m == Shades(task.db.extents, tagName, Range(start, cur), loaded)
    {
      var shade := OffsetShade(task, tagName, cur, loaded);
      ShadesStep(task.db.extents, tagName, start, cur, loaded);
      m := m[cur := shade];
      cur := cur + 1;
    }
  }

  lemma ShadesStep(extents: seq<ExtentRow>, tagName: string, start: int, cur: int, loaded: seq<string>)
    requires start <= cur
    ensures Shades(extents, tagName, Range(start, cur + 1), loaded)
      == Shades(extents, tagName, Range(start, cur), loaded)[cur := ShadeAt(extents, tagName, cur, loaded)]
  {
    assert Range(start, cur + 1) == Range(start, cur) + {cur};
    ShadesUnion(extents, tagName, Range(start, cur), {cur}, loaded);
  }

  /** assignTextColor(tagName, spans)'s loop: the colours of every span in turn. */
  method SpansShades(task: AdjudicationTask, tagName: string, spans: seq<Span>, loaded: seq<string>)
    returns (m: map<int, Shade>)
    ensures m == Shades(task.db.extents, tagName, Covered(spans), loaded)
  {
    m := map[];
    var i := 0;
    while i < |spans|
      invariant 0 <= i <= |spans|
      invariant m == Shades(task.db.extents, tagName, Covered(spans[..i]), loaded)
    {
      var part := SpanShades(task, tagName, spans[i].start, spans[i].end, loaded);
      assert spans[..i + 1][..i] == spans[..i];
      ShadesUnion(task.db.extents, tagName, Covered(spans[..i]), Range(spans[i].start, spans[i].end), loaded);
      m := m + part;
      i := i + 1;
    }
    assert spans[..i] == spans;
  }

  // ---------------------------------------------------------------------------------------
  // File colours and file names
  // ---------------------------------------------------------------------------------------

  /** The colour table after assignColors for each name in turn, starting from `start`. */
  function Handed(start: map<string, FileColor>, names: seq<string>): map<string, FileColor>
  {
    if |names| == 0 then start
    else
      var m := Handed(start, names[..|names| - 1]);
      m[names[|names| - 1] := NextColor(|m|)]
  }

  /** Exactly the names of the starting table and the names handed a colour have one. */
  lemma {:induction false} HandedKeys(start: map<string, FileColor>, names: seq<string>)
    ensures forall f :: f in Handed(start, names) <==> f in start || f in names
  {
    if |names| > 0 {
      var init := names[..|names| - 1];
      HandedKeys(start, init);
      assert names == init + [names[|names| - 1]];
    }
  }

  /**
   * With distinct names that are not keys of the starting table, the i-th file gets colour
   * |start| + i of the palette, cyclically, and the starting entries are kept.
   */
  lemma {:induction false} HandedSpec(start: map<string, FileColor>, names: seq<string>)
    requires forall i, j :: 0 <= i < j < |names| ==> names[i] != names[j]
    requires forall i :: 0 <= i < |names| ==> names[i] !in start
    ensures |Handed(start, names)| == |start| + |names|
    ensures forall f :: f in start ==> f in Handed(start, names) && Handed(start, names)[f] == start[f]
    ensures forall i :: 0 <= i < |names| ==>
      names[i] in Handed(start, names) && Handed(start, names)[names[i]] == NextColor(|start| + i)
  {
    if |names| > 0 {
      var n := |names| - 1;
      var init := names[..n];
      assert forall i :: 0 <= i < n ==> init[i] == names[i];
      HandedSpec(start, init);
      HandedKeys(start, init);
      HandedStep(start, Handed(start, init), names);
    }
  }

  /**
   * One more new name, the last of `names`, in a table that holds `start` and the colours of
   * the names before it.
   */
  lemma HandedStep(start: map<string, FileColor>, m: map<string, FileColor>, names: seq<string>)
    requires |names| > 0 && names[|names| - 1] !in m
    requires |m| == |start| + |names| - 1
    requires forall f :: f in start ==> f in m && m[f] == start[f]
    requires forall i :: 0 <= i < |names| - 1 ==> names[i] in m && m[names[i]] == NextColor(|start| + i)
    ensures var h := m[names[|names| - 1] := NextColor(|m|)];
      |h| == |start| + |names|
      && (forall f :: f in start ==> f in h && h[f] == start[f])
      && forall i :: 0 <= i < |names| ==> names[i] in h && h[names[i]] == NextColor(|start| + i)
  {
    var x := names[|names| - 1];
    var h := m[x := NextColor(|m|)];
    forall i | 0 <= i < |names|
      ensures names[i] in h && h[names[i]] == NextColor(|start| + i)
    {
      if i < |names| - 1 {
        assert names[i] in m && names[i] != x;
      }
    }
  }

  /** The three fixed entries are three different keys. */
  lemma StartColorsSize()
    ensures |START_COLORS| == 3
  {
    assert GS_FILE[0] != ALL_OTHER_FILES[0] && GS_FILE[0] != SOME_OTHER_FILES[0];
    assert ALL_OTHER_FILES[0] != SOME_OTHER_FILES[0];
    assert START_COLORS.Keys == {GS_FILE} + {ALL_OTHER_FILES} + {SOME_OTHER_FILES};
  }

  /**
   * The files added after starting an adjudication: the i-th gets colour i + 3 of the
   * palette, cyclically, so the first is LightBlue; the gold standard stays Yellow.
   */
  lemma AddedColors(names: seq<string>)
    requires forall i, j :: 0 <= i < j < |names| ==> names[i] != names[j]
    requires forall i :: 0 <= i < |names| ==> names[i] !in START_COLORS
    ensures |Handed(START_COLORS, names)| == 3 + |names|
    ensures GS_FILE in Handed(START_COLORS, names) && Handed(START_COLORS, names)[GS_FILE] == Yellow
    ensures forall i :: 0 <= i < |names| ==>
      names[i] in Handed(START_COLORS, names) && Handed(START_COLORS, names)[names[i]] == PALETTE[(i + 3) % |PALETTE|]
    ensures |names| > 0 ==> Handed(START_COLORS, names)[names[0]] == LightBlue
  {
    var h := Handed(START_COLORS, names);
    StartColorsSize();
    HandedSpec(START_COLORS, names);
    forall i | 0 <= i < |names|
      ensures names[i] in h && h[names[i]] == PALETTE[(i + 3) % |PALETTE|]
    {
      assert h[names[i]] == NextColor(|START_COLORS| + i);
      NextColorMod(i + 3);
    }
  }

  /**
   * A file named like a fixed key takes over that entry instead of growing the table, so the
   * file added after it gets the same colour.
   */
  lemma ReservedNameShared(n: string)
    requires n != ALL_OTHER_FILES
    ensures Handed(START_COLORS, [ALL_OTHER_FILES])[ALL_OTHER_FILES] == LightBlue
    ensures |Handed(START_COLORS, [ALL_OTHER_FILES])| == 3
    ensures Handed(START_COLORS, [ALL_OTHER_FILES, n])[n] == LightBlue
  {
    StartColorsSize();
    var one := Handed(START_COLORS, [ALL_OTHER_FILES]);
    assert [ALL_OTHER_FILES][..0] == [];
    assert Handed(START_COLORS, []) == START_COLORS;
    assert one == START_COLORS[ALL_OTHER_FILES := NextColor(|START_COLORS|)];
    assert one == START_COLORS[ALL_OTHER_FILES := PALETTE[3]];
    assert one.Keys == START_COLORS.Keys;
    assert [ALL_OTHER_FILES, n][..1] == [ALL_OTHER_FILES];
  }

  /** Any seven files added in a row get seven different colours. */
  lemma HandedDiffer(start: map<string, FileColor>, names: seq<string>, i: nat, j: nat)
    requires forall i, j :: 0 <= i < j < |names| ==> names[i] != names[j]
    requires forall i :: 0 <= i < |names| ==> names[i] !in start
    requires i < j < |names| && j - i < |PALETTE|
    ensures names[i] in Handed(start, names) && names[j] in Handed(start, names)
    ensures Handed(start, names)[names[i]] != Handed(start, names)[names[j]]
  {
    HandedAt(start, names, i);
    HandedAt(start, names, j);
    ColorsDiffer(|start| + i, |start| + j);
  }

  /** HandedSpec at one position. */
  lemma HandedAt(start: map<string, FileColor>, names: seq<string>, k: nat)
    requires forall i, j :: 0 <= i < j < |names| ==> names[i] != names[j]
    requires forall i :: 0 <= i < |names| ==> names[i] !in start
    requires k < |names|
    ensures names[k] in Handed(start, names) && Handed(start, names)[names[k]] == NextColor(|start| + k)
  {
    HandedSpec(start, names);
  }

  /** Fewer than seven steps apart in the palette, two colours differ. */
  lemma ColorsDiffer(a: nat, b: nat)
    requires a < b && b - a < |PALETTE|
    ensures NextColor(a) != NextColor(b)
  {
    NextColorMod(a);
    NextColorMod(b);
    ModDiffer(a, b);
    PaletteDistinct(a % 7, b % 7);
  }

  lemma ModDiffer(i: nat, j: nat)
    requires i < j && j - i < 7
    ensures i % 7 != j % 7
  {
    var q, q' := i / 7, j / 7;
    assert i == 7 * q + i % 7 && j == 7 * q' + j % 7;
  }

  lemma PaletteDistinct(a: nat, b: nat)
    requires a < |PALETTE| && b < |PALETTE| && a != b
    ensures PALETTE[a] != PALETTE[b]
  {
  }

  /** The names with at least as many characters as `name`. */
  function Longer(files: seq<string>, name: string): set<string>
  {
    set f | f in files && |f| >= |name|
  }

  lemma LongerShrinks(files: seq<string>, name: string)
    requires name in files
    ensures |Longer(files, "x" + name)| < |Longer(files, name)|
  {
    var a := Longer(files, "x" + name);
    var b := Longer(files, name);
    assert name in b && name !in a;
    SubsetSize(a, b - {name});
  }

  lemma {:induction false} SubsetSize<T>(a: set<T>, b: set<T>)
    requires a <= b
    ensures |a| <= |b|
    decreases b
  {
    if a != {} {
      var x :| x in a;
      SubsetSize(a - {x}, b - {x});
    }
  }

  /** The name the loop of the file loader gives a file: `x`s are prefixed until it is unused. */
  function FreshName(files: seq<string>, name: string): (r: string)
    ensures r !in files
    decreases |Longer(files, name)|
  {
    if name in files then
      LongerShrinks(files, name);
      FreshName(files, "x" + name)
    else name
  }

  /** `k` letters x. */
  function Xs(k: nat): (r: string)
    ensures |r| == k && forall i :: 0 <= i < k ==> r[i] == 'x'
  {
    seq(k, _ => 'x')
  }

  /** The fresh name is the first of name, xname, xxname, ... that no file has. */
  lemma {:induction false} FreshNameSpec(files: seq<string>, name: string) returns (k: nat)
    ensures FreshName(files, name) == Xs(k) + name
    ensures forall j :: 0 <= j < k ==> Xs(j) + name in files
    decreases |Longer(files, name)|
  {
    if name in files {
      LongerShrinks(files, name);
      var k' := FreshNameSpec(files, "x" + name);
      k := k' + 1;
      assert Xs(k') + ("x" + name) == Xs(k) + name;
      forall j | 0 <= j < k
        ensures Xs(j) + name in files
      {
        if j == 0 {
          assert Xs(0) + name == name;
        } else {
          assert Xs(j - 1) + ("x" + name) == Xs(j) + name;
        }
      }
    } else {
      k := 0;
      assert Xs(0) + name == name;
    }
  }

  /** The table after assignColors(n): the next colour of the palette for `n`, cyclically. */
  lemma HandedAppend(start: map<string, FileColor>, names: seq<string>, n: string)
    ensures Handed(start, names + [n]) == Handed(start, names)[n := NextColor(|Handed(start, names)|)]
  {
    assert (names + [n])[..|names|] == names;
  }

  // ---------------------------------------------------------------------------------------
  // Deleting gold-standard rows: the link cascade
  // ---------------------------------------------------------------------------------------

  /** The link table without the links of `file` whose (type, id) is one of `pairs`. */
  function LinksMinus(links: seq<LinkRow>, file: string, pairs: set<(string, string)>): (r: seq<LinkRow>)
    ensures forall l :: l in r <==> l in links && !(l.file == file && (l.elemName, l.id) in pairs)
    decreases |links|
  {
    if |links| == 0 then []
    else
      var rest := LinksMinus(links[1..], file, pairs);
      assert forall l :: l in links <==> l == links[0] || l in links[1..];
      if links[0].file == file && (links[0].elemName, links[0].id) in pairs then rest else [links[0]] + rest
  }

  lemma {:induction false} LinksMinusTwice(links: seq<LinkRow>, file: string, a: set<(string, string)>, b: set<(string, string)>)
    ensures LinksMinus(LinksMinus(links, file, a), file, b) == LinksMinus(links, file, a + b)
    decreases |links|
  {
    if |links| > 0 {
      LinksMinusTwice(links[1..], file, a, b);
      var rest := LinksMinus(links[1..], file, a);
      assert ([links[0]] + rest)[0] == links[0];
      assert ([links[0]] + rest)[1..] == rest;
    }
  }

  lemma {:induction false} LinksWithoutIsMinus(links: seq<LinkRow>, file: string, t: string, id: string)
    ensures LinksWithout(links, file, t, id) == LinksMinus(links, file, {(t, id)})
    decreases |links|
  {
    if |links| > 0 {
      LinksWithoutIsMinus(links[1..], file, t, id);
    }
  }

  /** The (type, id) of each link of `file` that has the extent (elemName, id) as an anchor. */
  function Anchored(links: seq<LinkRow>, file: string, elemName: string, id: string): set<(string, string)>
  {
    set l | l in links && l.file == file
      && ((l.fromId == id && l.fromName == elemName) || (l.toId == id && l.toName == elemName))
      :: (l.elemName, l.id)
  }

  /**
   * After the cascade no link of the file has the deleted extent as an anchor, and the
   * links of other files, and those whose (type, id) no anchoring link has, all stay.
   */
  lemma CascadeSpec(links: seq<LinkRow>, file: string, elemName: string, id: string)
    ensures var after := LinksMinus(links, file, Anchored(links, file, elemName, id));
      forall l :: l in after && l.file == file ==>
        !(l.fromId == id && l.fromName == elemName) && !(l.toId == id && l.toName == elemName)
    ensures var pairs := Anchored(links, file, elemName, id);
      forall l :: l in links && (l.file != file || (l.elemName, l.id) !in pairs) ==> l in LinksMinus(links, file, pairs)
  {
    var pairs := Anchored(links, file, elemName, id);
    forall l | l in LinksMinus(links, file, pairs) && l.file == file
      ensures !(l.fromId == id && l.fromName == elemName) && !(l.toId == id && l.toName == elemName)
    {
    }
  }

  /** Every (key, value) pair of a multi-map. */
  function PairsOf(h: map<string, seq<string>>): set<(string, string)>
  {
    set t, v | t in h && v in h[t] :: (t, v)
  }

  /** The pairs of the keys in `keys`. */
  function PairsUpTo(h: map<string, seq<string>>, keys: seq<string>): set<(string, string)>
  {
    set t, v | t in h && t in keys && v in h[t] :: (t, v)
  }

  /** getLinksByFileAndExtentID's answer, as pairs, is the set of anchoring links. */
  lemma PairsOfAnchored(h: map<string, seq<string>>, links: seq<LinkRow>, file: string, elemName: string, id: string)
    requires forall t, lid :: lid in Lookup(h, t) <==>
      exists i :: 0 <= i < |links| && links[i].file == file && links[i].elemName == t && links[i].id == lid
        && ((links[i].fromId == id && links[i].fromName == elemName)
            || (links[i].toId == id && links[i].toName == elemName))
    ensures PairsOf(h) == Anchored(links, file, elemName, id)
  {
    var a := PairsOf(h);
    var b := Anchored(links, file, elemName, id);
    forall p | p in a
      ensures p in b
    {
      var t, v :| t in h && v in h[t] && p == (t, v);
      assert v in Lookup(h, t);
      var i :| 0 <= i < |links| && links[i].file == file && links[i].elemName == t && links[i].id == v
        && ((links[i].fromId == id && links[i].fromName == elemName)
            || (links[i].toId == id && links[i].toName == elemName));
      assert links[i] in links;
    }
    forall p | p in b
      ensures p in a
    {
      var l :| l in links && l.file == file
        && ((l.fromId == id && l.fromName == elemName) || (l.toId == id && l.toName == elemName))
        && p == (l.elemName, l.id);
      var i :| 0 <= i < |links| && links[i] == l;
      assert l.id in Lookup(h, l.elemName);
    }
  }

  /** The inner loop of the cascade: each link id of one link type is deleted in turn. */
  method RemoveLinksOfType(task: AdjudicationTask, file: string, t: string, ids: seq<string>)
    modifies task.db
    ensures task.db.links == LinksMinus(old(task.db.links), file, TypedIds(t, ids))
    ensures task.db.extents == old(task.db.extents) && task.db.overlaps == old(task.db.overlaps)
    ensures old(task.db.Valid()) ==> task.db.Valid()
  {
    ghost var links0 := task.db.links;
    ghost var valid0 := task.db.Valid();
    var j := 0;
    LinksMinusNone(links0, file);
    assert TypedIds(t, ids[..0]) == {};
    while j < |ids|
      invariant 0 <= j <= |ids|
      invariant task.db.links == LinksMinus(links0, file, TypedIds(t, ids[..j]))
      invariant task.db.extents == old(task.db.extents) && task.db.overlaps == old(task.db.overlaps)
      invariant valid0 ==> task.db.Valid()
    {
      ghost var done := TypedIds(t, ids[..j]);
      task.RemoveLinkByFileAndId(file, t, ids[j]);
      LinksWithoutIsMinus(LinksMinus(links0, file, done), file, t, ids[j]);
      LinksMinusTwice(links0, file, done, {(t, ids[j])});
      TaggedIdsStep(t, ids, j);
      j := j + 1;
    }
    assert ids[..j] == ids;
  }

  /** The (type, id) pairs of the ids `ids` of link type `t`. */
  function TypedIds(t: string, ids: seq<string>): set<(string, string)>
  {
    set lid | lid in ids :: (t, lid)
  }

  lemma TaggedIdsStep(t: string, ids: seq<string>, j: nat)
    requires j < |ids|
    ensures TypedIds(t, ids[..j + 1]) == TypedIds(t, ids[..j]) + {(t, ids[j])}
  {
    assert ids[..j + 1] == ids[..j] + [ids[j]];
  }

  lemma {:induction false} LinksMinusNone(links: seq<LinkRow>, file: string)
    ensures LinksMinus(links, file, {}) == links
    decreases |links|
  {
    if |links| > 0 {
      LinksMinusNone(links[1..], file);
    }
  }

  /** The outer loop of the cascade: the link ids of each link type of `c` are deleted. */
  method RemoveAnchoredLinks(task: AdjudicationTask, file: string, c: HashCollection<string, string>)
    modifies task.db
    ensures task.db.links == LinksMinus(old(task.db.links), file, PairsOf(c.hash))
    ensures task.db.extents == old(task.db.extents) && task.db.overlaps == old(task.db.overlaps)
    ensures old(task.db.Valid()) ==> task.db.Valid()
  {
    ghost var links0 := task.db.links;
    ghost var valid0 := task.db.Valid();
    var keys := c.GetKeyList();
    var i := 0;
    LinksMinusNone(links0, file);
    assert PairsUpTo(c.hash, keys[..0]) == {};
    while i < |keys|
      invariant 0 <= i <= |keys|
      invariant task.db.links == LinksMinus(links0, file, PairsUpTo(c.hash, keys[..i]))
      invariant task.db.extents == old(task.db.extents) && task.db.overlaps == old(task.db.overlaps)
      invariant valid0 ==> task.db.Valid()
    {
      ghost var done := PairsUpTo(c.hash, keys[..i]);
      var t := keys[i];
      var ids := c.hash[t];
      RemoveLinksOfType(task, file, t, ids);
      LinksMinusTwice(links0, file, done, TypedIds(t, ids));
      PairsUpToStep(c.hash, keys, i);
      i := i + 1;
    }
    assert keys[..i] == keys;
    PairsUpToAll(c.hash, keys);
  }

  lemma PairsUpToStep(h: map<string, seq<string>>, keys: seq<string>, i: nat)
    requires i < |keys| && keys[i] in h
    ensures PairsUpTo(h, keys[..i + 1]) == PairsUpTo(h, keys[..i]) + TypedIds(keys[i], h[keys[i]])
  {
    assert keys[..i + 1] == keys[..i] + [keys[i]];
    var a := PairsUpTo(h, keys[..i + 1]);
    var b := PairsUpTo(h, keys[..i]) + TypedIds(keys[i], h[keys[i]]);
    forall p | p in a
      ensures p in b
    {
      var t, v :| t in h && t in keys[..i + 1] && v in h[t] && p == (t, v);
    }
  }

  lemma PairsUpToAll(h: map<string, seq<string>>, keys: seq<string>)
    requires forall k :: k in keys <==> k in h
    ensures PairsUpTo(h, keys) == PairsOf(h)
  {
  }

  // ---------------------------------------------------------------------------------------
  // Writing a row to the gold standard
  // ---------------------------------------------------------------------------------------

  /** The row already has an id: it edits a gold-standard tag rather than creating one. */
  predicate HasId(row: map<string, string>)
  {
    "id" in row && row["id"] != ""
  }

  /** The index rows an added extent contributes; none when it is skipped or fails. */
  function Indexed(file: string, name: string, tag: map<string, string>): seq<ExtentRow>
  {
    var ix := TagIndexRows(file, name, tag);
    if ix.Ok? then ix.value else []
  }

  /** The row an added link contributes to the link table, if any. */
  function LinkAdded(extents: seq<ExtentRow>, file: string, name: string, tag: map<string, string>): seq<LinkRow>
  {
    match LinkRowOf(extents, file, name, tag)
    case Some(l) => [l]
    case None => []
  }

  /** An element is known to the task and is an extent type. */
  predicate ExtentType(e: Option<Elem>)
  {
    e.Some? && e.value.kind == ElemKind.Extent
  }

  /** A row of the tag table as the delete action reads it: its id, source and spans cells. */
  datatype TableRow = TableRow(id: string, source: string, spans: string)

  /**
   * Nothing of `row`'s tag is left in the gold standard: for an extent, no index row and no
   * link of that file anchored at it; for a link, no link row. Rows of other files: no claim.
   */
  predicate Gone(extents: seq<ExtentRow>, links: seq<LinkRow>, tagName: string, isExtent: bool, row: TableRow)
  {
    EqualsIgnoreCase(row.source, GS_FILE) ==>
      if isExtent then
        (forall x :: x in extents ==> !(x.file == row.source && x.elemName == tagName && x.id == row.id))
        && (forall l :: l in links && l.file == row.source ==>
              !(l.fromId == row.id && l.fromName == tagName) && !(l.toId == row.id && l.toName == tagName))
      else forall l :: l in links ==> !(l.file == row.source && l.elemName == tagName && l.id == row.id)
  }

  /** Going from (e0, l0) to (e1, l1) only deletes rows, and only gold-standard rows. */
  predicate Shrunk(e0: seq<ExtentRow>, l0: seq<LinkRow>, e1: seq<ExtentRow>, l1: seq<LinkRow>)
  {
    (forall x :: x in e1 ==> x in e0)
    && (forall l :: l in l1 ==> l in l0)
    && (forall x :: x in e0 && !EqualsIgnoreCase(x.file, GS_FILE) ==> x in e1)
    && (forall l :: l in l0 && !EqualsIgnoreCase(l.file, GS_FILE) ==> l in l1)
  }

  lemma ShrunkTrans(e0: seq<ExtentRow>, l0: seq<LinkRow>, e1: seq<ExtentRow>, l1: seq<LinkRow>,
                    e2: seq<ExtentRow>, l2: seq<LinkRow>)
    requires Shrunk(e0, l0, e1, l1) && Shrunk(e1, l1, e2, l2)
    ensures Shrunk(e0, l0, e2, l2)
  {
  }

  /** Deleting more rows keeps a deleted tag deleted. */
  lemma GoneShrinks(e0: seq<ExtentRow>, l0: seq<LinkRow>, e1: seq<ExtentRow>, l1: seq<LinkRow>,
                    tagName: string, isExtent: bool, row: TableRow)
    requires Gone(e0, l0, tagName, isExtent, row)
    requires forall x :: x in e1 ==> x in e0
    requires forall l :: l in l1 ==> l in l0
    ensures Gone(e1, l1, tagName, isExtent, row)
  {
  }

  /** The renaming loop of a newly loaded file: `x` is prefixed while the name is taken. */
  method FreshNameOf(files: seq<string>, fileName: string) returns (name: string)
    ensures name == FreshName(files, fileName)
  {
    name := fileName;
    while name in files
      invariant FreshName(files, name) == FreshName(files, fileName)
      decreases |Longer(files, name)|
    {
      LongerShrinks(files, name);
      name := "x" + name;
    }
  }

  /** MaiMain's state apart from the window itself. */
  class MaiMain {
    const task: AdjudicationTask
    var mode: Mode
    /** mSpans: the current selection. */
    var spans: seq<Span>
    var isTextSelected: bool
    /** mFiles: the files under adjudication, the gold standard among them. */
    var files: seq<string>
    /** mColorTable: the colour of each file. */
    var colorTable: map<string, FileColor>
    /** The colour the text pane last gave each offset. */
    var textColors: map<int, Shade>

    predicate Valid()
      reads this, task, task.db
    {
      task.db.Valid()
    }

    /** A window in normal mode with nothing selected and only the gold standard loaded. */
    constructor (t: AdjudicationTask)
      ensures task == t && mode == Normal && spans == [NON_CONSUMING] && !isTextSelected
      ensures files == [GS_FILE] && colorTable == map[] && textColors == map[]
    {
      task := t;
      mode := Normal;
      spans := [NON_CONSUMING];
      isTextSelected := false;
      files := [GS_FILE];
      colorTable := map[];
      textColors := map[];
    }

    /**
     * Starting a new adjudication on `fileName` (the "start adjud" command, which is enabled
     * only once a DTD is loaded): the opened file and the gold standard are the files, the
     * store is emptied and given the DTD's tables, the id counters are reset, the colour table
     * holds only its three fixed entries, so the opened file has no colour, and the window
     * returns to normal mode. The store is reset last here (addDTDtoDB is AddDtd of the element
     * types read on entry): it shares no state with the window.
     */
    method StartAdjudication(fileName: string)
      requires task.dtd != null
      modifies this, task
      ensures files == [fileName, GS_FILE]
      ensures colorTable == START_COLORS && |colorTable| == 3
      ensures fileName in colorTable <==> fileName == GS_FILE || fileName == ALL_OTHER_FILES || fileName == SOME_OTHER_FILES
      ensures fresh(task.db) && Valid()
      ensures task.db.extents == [] && task.db.links == [] && task.db.overlaps == []
      ensures task.dtd == old(task.dtd) && task.elements == old(task.elements)
      ensures task.db.tables == EmptyTables(old(TypesOf(task.dtd.elements)))
      ensures task.idTracker == TrackerOf(task.dtd.elements)
      ensures mode == Normal && spans == [NON_CONSUMING]
      ensures isTextSelected == old(isTextSelected) && textColors == old(textColors)
    {
      var types := TypesOf(task.dtd.elements);
      OpenFiles(fileName);
      ResetStore(types);
    }

    /** The window's part of starting an adjudication: the files, the colour table and the mode. */
    method OpenFiles(fileName: string)
      modifies this
      ensures files == [fileName, GS_FILE]
      ensures colorTable == START_COLORS && |colorTable| == 3
      ensures mode == Normal && spans == [NON_CONSUMING]
      ensures isTextSelected == old(isTextSelected) && textColors == old(textColors)
    {
      files := [fileName, GS_FILE];
      colorTable := map[];
      colorTable := colorTable[GS_FILE := Yellow];
      colorTable := colorTable[ALL_OTHER_FILES := Cyan];
      colorTable := colorTable[SOME_OTHER_FILES := Pink];
      StartColorsSize();
      ReturnToNormalMode();
    }

    /**
     * The store's part of starting an adjudication: reset_db, addDTDtoDB (the tables of
     * `types`, the schema's element types) and reset_IDTracker.
     */
    method ResetStore(types: seq<TagType>)
      requires task.dtd != null
      modifies task
      ensures fresh(task.db) && task.db.Valid()
      ensures task.db.extents == [] && task.db.links == [] && task.db.overlaps == []
      ensures task.dtd == old(task.dtd) && task.elements == old(task.elements)
      ensures task.db.tables == EmptyTables(types)
      ensures task.idTracker == TrackerOf(task.dtd.elements)
    {
      task.ResetDb();
      task.db.AddDtd(types);
      var _ := task.ResetIdTracker();
    }

    /** resetSpans */
    method ResetSpans()
      modifies this
      ensures spans == ResetValue(mode) && SpansEmpty(spans)
      ensures mode == old(mode) && isTextSelected == old(isTextSelected) && files == old(files)
      ensures colorTable == old(colorTable) && textColors == old(textColors)
    {
      spans := [];
      if mode != MultiSpan {
        spans := spans + [NON_CONSUMING];
      }
    }

    /** MultiSpanListener: multi-span mode, with no span selected yet. */
    method EnterMultiSpanMode()
      modifies this
      ensures mode == MultiSpan && spans == [] && SpansEmpty(spans)
      ensures isTextSelected == old(isTextSelected) && files == old(files)
      ensures colorTable == old(colorTable) && textColors == old(textColors)
    {
      mode := MultiSpan;
      spans := [];
    }

    /** returnToNormalMode: normal mode, with the selection reset. */
    method ReturnToNormalMode()
      modifies this
      ensures mode == Normal && spans == [NON_CONSUMING]
      ensures isTextSelected == old(isTextSelected) && files == old(files)
      ensures colorTable == old(colorTable) && textColors == old(textColors)
    {
      mode := Normal;
      ResetSpans();
    }

    /** AnnCaretListener's handling of the selection for a caret at `dot` with anchor `mark`. */
    method CaretUpdate(dot: Int32, mark: Int32)
      modifies this
      ensures spans == AfterCaret(old(spans), mode, dot, mark)
      ensures isTextSelected == (if dot != mark then true else if mode != MultiSpan then false else old(isTextSelected))
      ensures mode == old(mode) && files == old(files)
      ensures colorTable == old(colorTable) && textColors == old(textColors)
    {
      if SpansEmpty(spans) {
        spans := [];
      }
      if dot != mark {
        isTextSelected := true;
        var sp := Selected(dot, mark);
        var dup := ContainsSpan(spans, sp);
        if !dup {
          spans := spans + [sp];
        }
      } else if mode != MultiSpan {
        isTextSelected := false;
        ResetSpans();
      }
    }

    /** UndoSelectListener: the last selected span is dropped. */
    method UndoLastSpan()
      modifies this
      ensures spans == UndoValue(old(spans))
      ensures mode == old(mode) && isTextSelected == old(isTextSelected) && files == old(files)
      ensures colorTable == old(colorTable) && textColors == old(textColors)
    {
      if |spans| > 0 {
        spans := spans[..|spans| - 1];
      }
    }

    /** assignTextColor(tagName, start, end): each offset of the span gets its colour. */
    method AssignTextColor(tagName: string, start: int, end: int)
      modifies this
      ensures textColors == old(textColors) + Shades(task.db.extents, tagName, Range(start, end), files)
      ensures mode == old(mode) && spans == old(spans) && isTextSelected == old(isTextSelected)
      ensures files == old(files) && colorTable == old(colorTable)
    {
      var m := SpanShades(task, tagName, start, end, files);
      textColors := textColors + m;
    }

    /** assignTextColor(tagName, spans): for an extent type, each offset of the spans gets its colour. */
    method AssignSpansColor(tagName: string, sps: seq<Span>)
      modifies this
      ensures textColors == old(textColors)
        + (if ExtentType(task.GetElem(tagName)) then Shades(task.db.extents, tagName, Covered(sps), files) else map[])
      ensures mode == old(mode) && spans == old(spans) && isTextSelected == old(isTextSelected)
      ensures files == old(files) && colorTable == old(colorTable)
    {
      var e := task.GetElem(tagName);
      if e.Some? && e.value.kind == ElemKind.Extent {
        var m := SpansShades(task, tagName, sps, files);
        textColors := textColors + m;
      } else {
        assert textColors == textColors + map[];
      }
    }

    /** assignColors: the new file gets the next colour of the palette, cyclically. */
    method AssignColors(fileName: string)
      modifies this
      ensures colorTable == old(colorTable)[fileName := NextColor(|old(colorTable)|)]
      ensures mode == old(mode) && spans == old(spans) && isTextSelected == old(isTextSelected)
      ensures files == old(files) && textColors == old(textColors)
    {
      var col := |colorTable|;
      NextColorMod(col);
      if col >= |PALETTE| {
        col := col % |PALETTE|;
      }
      colorTable := colorTable[fileName := PALETTE[col]];
    }

    /**
     * The end of loading a file for adjudication: `x` is prefixed to its name until no file
     * has that name, the name goes to the front of the list and gets a colour.
     */
    method AddFile(fileName: string) returns (name: string)
      modifies this
      ensures name == FreshName(old(files), fileName) && name !in old(files)
      ensures files == [name] + old(files)
      ensures colorTable == old(colorTable)[name := NextColor(|old(colorTable)|)]
      ensures mode == old(mode) && spans == old(spans) && isTextSelected == old(isTextSelected)
      ensures textColors == old(textColors)
    {
      name := FreshNameOf(files, fileName);
      files := [name] + files;
      AssignColors(name);
    }

    /**
     * addRowToGoldStandard, up to building the tag: an edited row (one with an id) has its
     * old tag deleted; a new row gets the next free id of its type in its "id" cell, which
     * throws when the type has no counter or the table has no "id" column.
     */
    method SettleId(e: Elem, row: map<string, string>) returns (r: Result<map<string, string>>)
      requires Valid()
      modifies task, task.db
      ensures task.db == old(task.db) && Valid()
      ensures task.elements == old(task.elements) && task.dtd == old(task.dtd)
      ensures task.db.tables.Keys == old(task.db.tables).Keys
      ensures HasId(row) ==> r == Ok(row) && task.idTracker == old(task.idTracker)
      ensures HasId(row) && e.kind == ElemKind.Extent ==>
        task.db.extents == ExtentsWithout(old(task.db.extents), GS_FILE, e.name, row["id"])
        && task.db.links == old(task.db.links)
      ensures HasId(row) && e.kind == ElemKind.Link ==>
        task.db.links == LinksWithout(old(task.db.links), GS_FILE, e.name, row["id"])
        && task.db.extents == old(task.db.extents)
      ensures !HasId(row) ==> task.db.extents == old(task.db.extents) && task.db.links == old(task.db.links)
      ensures !HasId(row) && e.name !in old(task.idTracker) ==>
        r == Fail(NullPointer) && task.idTracker == old(task.idTracker)
      ensures !HasId(row) && e.name in old(task.idTracker) ==>
        var c := old(task.idTracker)[e.name];
        var m := FirstFree(old(task.db.extents), old(task.db.links), GS_FILE, c.prefix, c.number);
        task.idTracker == old(task.idTracker)[e.name := IdCounter(c.prefix, m + 1)]
        && r == (if "id" in row then Ok(row["id" := c.prefix + NatToString(m)]) else Fail(IndexOutOfBounds))
    {
      if HasId(row) {
        if e.kind == ElemKind.Extent {
          task.RemoveExtentByFileAndId(GS_FILE, e.name, row["id"]);
        } else {
          task.RemoveLinkByFileAndId(GS_FILE, e.name, row["id"]);
        }
        return Ok(row);
      }
      var next := task.GetNextId(e.name, GS_FILE);
      if next.Fail? {
        return Fail(next.exc);
      }
      if "id" !in row {
        return Fail(IndexOutOfBounds);
      }
      r := Ok(row["id" := next.value]);
    }

    /**
     * addRowToGoldStandard, from the tag on: an extent's "spans" cell becomes the selection
     * (a malformed one throws), the tag is stored, its spans are coloured and the selection
     * reset; a link is stored.
     */
    method StoreRow(e: Elem, row: map<string, string>) returns (r: Result<()>)
      requires Valid()
      modifies this, task.db
      ensures Valid()
      ensures files == old(files) && mode == old(mode)
      ensures e.kind == ElemKind.Extent ==>
        var ix := TagIndexRows(GS_FILE, e.name, row);
        (r.Fail? <==> ix.Fail? && ix.exc != MissingId)
        && task.db.extents == old(task.db.extents) + Indexed(GS_FILE, e.name, row)
        && task.db.links == old(task.db.links)
      ensures e.kind == ElemKind.Extent && r.Ok? ==>
        var sel := if "spans" in row && Parse(row["spans"]).Ok? then Parse(row["spans"]).value else old(spans);
        spans == ResetValue(mode)
        && textColors == old(textColors)
          + (if ExtentType(task.GetElem(e.name)) then Shades(task.db.extents, e.name, Covered(sel), files) else map[])
      ensures e.kind == ElemKind.Link ==>
        r.Ok? && task.db.extents == old(task.db.extents)
        && task.db.links == old(task.db.links)
          + (if e.name in old(task.db.tables) then LinkAdded(old(task.db.extents), GS_FILE, e.name, row) else [])
    {
      if e.kind == ElemKind.Extent {
        if "spans" in row {
          var parsed := ParseSpansString(row["spans"]);
          if parsed.Fail? {
            ParseFails(row["spans"]);
            return Fail(parsed.exc);
          }
          spans := parsed.value;
        }
        var added := task.AddTagFromHash(GS_FILE, e, row);
        if added.Fail? {
          return added;
        }
        AssignSpansColor(e.name, spans);
        ResetSpans();
      } else {
        var _ := task.AddTagFromHash(GS_FILE, e, row);
      }
      r := Ok(());
    }

    /**
     * addRowToGoldStandard: the row's tag replaces its earlier version in the gold standard,
     * or is added under a fresh id of its type.
     */
    method AddRowToGoldStandard(e: Elem, row: map<string, string>) returns (r: Result<map<string, string>>)
      requires Valid()
      modifies this, task, task.db
      ensures Valid()
      ensures HasId(row) ==> task.idTracker == old(task.idTracker) && (r.Ok? ==> r.value == row)
      ensures !HasId(row) && r.Ok? ==>
        e.name in old(task.idTracker) && "id" in row
        && var c := old(task.idTracker)[e.name];
           var m := FirstFree(old(task.db.extents), old(task.db.links), GS_FILE, c.prefix, c.number);
           r.value == row["id" := c.prefix + NatToString(m)]
           && task.idTracker == old(task.idTracker)[e.name := IdCounter(c.prefix, m + 1)]
      ensures !HasId(row) && r.Ok? ==>
        "id" in r.value && !IdIn(old(task.db.extents), old(task.db.links), r.value["id"], GS_FILE)
      ensures !HasId(row) && e.name !in old(task.idTracker) ==>
        r == Fail(NullPointer) && task.db.extents == old(task.db.extents) && task.db.links == old(task.db.links)
      ensures e.kind == ElemKind.Extent && r.Ok? ==>
        task.db.extents == (if HasId(row) then ExtentsWithout(old(task.db.extents), GS_FILE, e.name, row["id"])
                            else old(task.db.extents)) + Indexed(GS_FILE, e.name, r.value)
        && task.db.links == old(task.db.links)
      ensures e.kind == ElemKind.Link && r.Ok? ==>
        task.db.extents == old(task.db.extents)
        && task.db.links == (if HasId(row) then LinksWithout(old(task.db.links), GS_FILE, e.name, row["id"])
                             else old(task.db.links))
          + (if e.name in old(task.db.tables) then LinkAdded(old(task.db.extents), GS_FILE, e.name, r.value) else [])
    {
      var settled := SettleId(e, row);
      if settled.Fail? {
        return Fail(settled.exc);
      }
      var stored := StoreRow(e, settled.value);
      if stored.Fail? {
        return Fail(stored.exc);
      }
      r := settled;
    }

    /**
     * RemoveSelectedTableRows, for one row: a row of an adjudicated file is kept; a
     * gold-standard extent is deleted, its spans recoloured and every gold-standard link
     * anchored at it deleted; a gold-standard link is deleted.
     */
    method RemoveRow(tagName: string, isExtent: bool, row: TableRow) returns (r: Result<()>)
      requires Valid()
      modifies this, task.db
      ensures Valid()
      ensures files == old(files)
      ensures forall x :: x in task.db.extents ==> x in old(task.db.extents)
      ensures forall l :: l in task.db.links ==> l in old(task.db.links)
      ensures forall x :: x in old(task.db.extents) && x.file != row.source ==> x in task.db.extents
      ensures forall l :: l in old(task.db.links) && l.file != row.source ==> l in task.db.links
      ensures !EqualsIgnoreCase(row.source, GS_FILE) ==>
        r.Ok? && task.db.extents == old(task.db.extents) && task.db.links == old(task.db.links)
      ensures EqualsIgnoreCase(row.source, GS_FILE) && isExtent ==>
        task.db.extents == ExtentsWithout(old(task.db.extents), row.source, tagName, row.id)
        && (r.Fail? <==> Parse(row.spans).Fail?)
        && (r.Fail? ==> task.db.links == old(task.db.links))
        && (r.Ok? ==> task.db.links == LinksMinus(old(task.db.links), row.source,
                                                  Anchored(old(task.db.links), row.source, tagName, row.id)))
      ensures EqualsIgnoreCase(row.source, GS_FILE) && !isExtent ==>
        r.Ok? && task.db.extents == old(task.db.extents)
        && task.db.links == LinksWithout(old(task.db.links), row.source, tagName, row.id)
      ensures r.Ok? ==> Gone(task.db.extents, task.db.links, tagName, isExtent, row)
    {
      if !EqualsIgnoreCase(row.source, GS_FILE) {
        return Ok(());
      }
      if isExtent {
        task.RemoveExtentByFileAndId(row.source, tagName, row.id);
        var parsed := ParseSpansString(row.spans);
        if parsed.Fail? {
          return Fail(parsed.exc);
        }
        AssignSpansColor(tagName, parsed.value);
        var links := task.GetLinksByFileAndExtentId(row.source, tagName, row.id);
        PairsOfAnchored(links.hash, task.db.links, row.source, tagName, row.id);
        CascadeSpec(task.db.links, row.source, tagName, row.id);
        RemoveAnchoredLinks(task, row.source, links);
      } else {
        task.RemoveLinkByFileAndId(row.source, tagName, row.id);
      }
      r := Ok(());
    }

    /**
     * RemoveSelectedTableRows: the selected rows are handled from the last to the first, and
     * an exception ends the action. Only gold-standard tags go; afterwards none of the
     * selected gold-standard tags, nor a gold-standard link anchored at a deleted extent,
     * is left.
     */
    method RemoveSelectedRows(tagName: string, rows: seq<TableRow>) returns (r: Result<()>)
      requires Valid()
      modifies this, task.db
      ensures Valid()
      ensures files == old(files)
      ensures forall x :: x in task.db.extents ==> x in old(task.db.extents)
      ensures forall l :: l in task.db.links ==> l in old(task.db.links)
      ensures forall x :: x in old(task.db.extents) && !EqualsIgnoreCase(x.file, GS_FILE) ==> x in task.db.extents
      ensures forall l :: l in old(task.db.links) && !EqualsIgnoreCase(l.file, GS_FILE) ==> l in task.db.links
      ensures r.Ok? ==> forall k :: 0 <= k < |rows| ==>
        Gone(task.db.extents, task.db.links, tagName, ExtentType(task.GetElem(tagName)), rows[k])
    {
      var e := task.GetElem(tagName);
      var isExtent := e.Some? && e.value.kind == ElemKind.Extent;
      var i := |rows|;
      while i > 0
        invariant 0 <= i <= |rows|
        invariant Valid() && files == old(files)
        invariant Shrunk(old(task.db.extents), old(task.db.links), task.db.extents, task.db.links)
        invariant forall k :: i <= k < |rows| ==> Gone(task.db.extents, task.db.links, tagName, isExtent, rows[k])
      {
        i := i - 1;
        ghost var extents0, links0 := task.db.extents, task.db.links;
        var one := RemoveStep(tagName, isExtent, rows, i);
        if one.Fail? {
          ShrunkTrans(old(task.db.extents), old(task.db.links), extents0, links0, task.db.extents, task.db.links);
          return one;
        }
        ShrunkTrans(old(task.db.extents), old(task.db.links), extents0, links0, task.db.extents, task.db.links);
      }
      r := Ok(());
    }

    /** One turn of removeSelectedRows: row `i` goes, and the rows after it stay gone. */
    method RemoveStep(tagName: string, isExtent: bool, rows: seq<TableRow>, i: nat) returns (r: Result<()>)
      requires Valid() && i < |rows|
      requires forall k :: i < k < |rows| ==> Gone(task.db.extents, task.db.links, tagName, isExtent, rows[k])
      modifies this, task.db
      ensures Valid() && files == old(files)
      ensures Shrunk(old(task.db.extents), old(task.db.links), task.db.extents, task.db.links)
      ensures r.Ok? ==> forall k :: i <= k < |rows| ==> Gone(task.db.extents, task.db.links, tagName, isExtent, rows[k])
    {
      ghost var extents0, links0 := task.db.extents, task.db.links;
      r := RemoveRow(tagName, isExtent, rows[i]);
      if r.Ok? {
        forall k | i < k < |rows|
          ensures Gone(task.db.extents, task.db.links, tagName, isExtent, rows[k])
        {
          GoneShrinks(extents0, links0, task.db.extents, task.db.links, tagName, isExtent, rows[k]);
        }
      }
    }
  }
}

/**
 * Character spans of extent tags and their text form `start~end,start~end,...`
 * (MaiMain.parseSpansString / spansToString), the overlap test of AdjudDB.isOverlapped, and the
 * coalescing of stored character offsets back into spans (AdjudDB.getLocByFileAndID).
 */
module Spans {
  import opened Common
  import opened JavaStrings

  const SPAN_DELIMITER: char := '~'
  const SPAN_SEPARATOR: char := ','

  /** A span `[start, end)` of character offsets; `(-1, -1)` marks a non-consuming tag. */
  datatype Span = Span(start: Int32, end: Int32)

  const NON_CONSUMING: Span := Span(-1, -1)

  /** The text `start~end` of one span. */
  function SpanText(sp: Span): string
  {
    IntToString(sp.start) + [SPAN_DELIMITER] + IntToString(sp.end)
  }

  function SpanTexts(spans: seq<Span>): (r: seq<string>)
    ensures |r| == |spans|
    ensures forall i :: 0 <= i < |r| ==> r[i] == SpanText(spans[i])
  {
    seq(|spans|, i requires 0 <= i < |spans| => SpanText(spans[i]))
  }

  /** The text form of a list of spans: the span texts separated by commas. */
  function Format(spans: seq<Span>): string
  {
    if |spans| == 0 then "" else Join(SpanTexts(spans), SPAN_SEPARATOR)
  }

  /**
   * One `start~end` pair: split at `~`, then parse field 0 and field 1, failing on the first
   * missing field or malformed number in that order.
   */
  function ParsePair(pair: string): Result<Span>
  {
    var fields := Split(pair, [SPAN_DELIMITER]);
    if |fields| < 1 then Fail(IndexOutOfBounds)
    else
      var a := ParseInt(fields[0]);
      if a.Fail? then Fail(a.exc)
      else if |fields| < 2 then Fail(IndexOutOfBounds)
      else
        var b := ParseInt(fields[1]);
        if b.Fail? then Fail(b.exc) else Ok(Span(a.value, b.value))
  }

  /** The pairs parsed left to right; the first failure is the result. */
  function ParsePairs(pairs: seq<string>): Result<seq<Span>>
  {
    if |pairs| == 0 then Ok([])
    else
      var p := ParsePair(pairs[0]);
      if p.Fail? then Fail(p.exc)
      else
        var rest := ParsePairs(pairs[1..]);
        if rest.Fail? then rest else Ok([p.value] + rest.value)
  }

  /** The spans denoted by a span string; `-1~-1` is recognised before any splitting. */
  function Parse(s: string): Result<seq<Span>>
  {
    if s == "-1~-1" then Ok([NON_CONSUMING]) else ParsePairs(Split(s, [SPAN_SEPARATOR]))
  }

  /** `xs` prepended to a successful result; a failure stays a failure. */
  function Prepend(xs: seq<Span>, r: Result<seq<Span>>): Result<seq<Span>>
  {
    if r.Ok? then Ok(xs + r.value) else r
  }

  /** MaiMain.parseSpansString: the loop over the comma-separated pairs. */
  method ParseSpansString(spanString: string) returns (r: Result<seq<Span>>)
    ensures r == Parse(spanString)
  {
    if spanString == "-1~-1" {
      return Ok([NON_CONSUMING]);
    }
    var pairs := Split(spanString, [SPAN_SEPARATOR]);
    var spans: seq<Span> := [];
    var i := 0;
    PrependNothing(ParsePairs(pairs));
    assert pairs[i..] == pairs;
    while i < |pairs|
      invariant 0 <= i <= |pairs|
      invariant ParsePairs(pairs) == Prepend(spans, ParsePairs(pairs[i..]))
    {
      var span := ParsePair(pairs[i]);
      ParsePairsStep(pairs, i);
      if span.Fail? {
        return Fail(span.exc);
      }
      PrependTwice(spans, span.value, ParsePairs(pairs[i + 1..]));
      spans := spans + [span.value];
      i := i + 1;
    }
    assert pairs[i..] == [];
    PrependNothing(Ok(spans));
    r := Ok(spans);
  }

  lemma PrependNothing(r: Result<seq<Span>>)
    ensures Prepend([], r) == r
    ensures r.Ok? ==> Prepend(r.value, Ok([])) == r
  {
    if r.Ok? {
      assert [] + r.value == r.value;
      assert r.value + [] == r.value;
    }
  }

  lemma PrependTwice(xs: seq<Span>, x: Span, r: Result<seq<Span>>)
    ensures Prepend(xs, Prepend([x], r)) == Prepend(xs + [x], r)
  {
    if r.Ok? {
      assert xs + ([x] + r.value) == (xs + [x]) + r.value;
    }
  }

  lemma ParsePairsStep(pairs: seq<string>, i: nat)
    requires i < |pairs|
    ensures ParsePair(pairs[i]).Fail? ==> ParsePairs(pairs[i..]) == Fail(ParsePair(pairs[i]).exc)
    ensures ParsePair(pairs[i]).Ok? ==>
      ParsePairs(pairs[i..]) == Prepend([ParsePair(pairs[i]).value], ParsePairs(pairs[i + 1..]))
  {
    assert pairs[i..][0] == pairs[i];
    assert pairs[i..][1..] == pairs[i + 1..];
  }

  /** The text built after `i` spans when more follow: those spans each followed by a comma. */
  function Prefix(spans: seq<Span>, i: nat): string
    requires i <= |spans|
  {
    if i == 0 then "" else Format(spans[..i]) + [SPAN_SEPARATOR]
  }

  /** One more span: its text follows a comma, or stands alone after none. */
  lemma FormatSnoc(spans: seq<Span>, sp: Span)
    ensures Format(spans + [sp]) == if |spans| == 0 then SpanText(sp) else Format(spans) + [SPAN_SEPARATOR] + SpanText(sp)
  {
    assert SpanTexts(spans + [sp]) == SpanTexts(spans) + [SpanText(sp)];
    if |spans| > 0 {
      JoinAppend(SpanTexts(spans), SpanText(sp), SPAN_SEPARATOR);
    }
  }

  /** MaiMain.spansToString: `start~end` per span, a comma after every span but the last. */
  method SpansToString(spans: seq<Span>) returns (r: string)
    ensures r == Format(spans)
  {
    r := "";
    var i := 0;
    while i < |spans|
      invariant 0 <= i <= |spans|
      invariant i < |spans| ==> r == Prefix(spans, i)
      invariant i == |spans| ==> r == Format(spans)
    {
      var text := SpanText(spans[i]);
      assert spans[..i + 1] == spans[..i] + [spans[i]];
      FormatSnoc(spans[..i], spans[i]);
      if i + 1 < |spans| {
        r := r + text + [SPAN_SEPARATOR];
      } else {
        r := r + text;
        assert spans[..i + 1] == spans;
      }
      i := i + 1;
    }
  }

  lemma NoSeparatorInInt(x: int, c: char)
    requires c != '-' && !IsDigit(c)
    ensures c !in IntToString(x)
  {
  }

  lemma {:induction false} ParsePairText(sp: Span)
    ensures ParsePair(SpanText(sp)) == Ok(sp)
  {
    var parts := [IntToString(sp.start), IntToString(sp.end)];
    NoSeparatorInInt(sp.start, SPAN_DELIMITER);
    NoSeparatorInInt(sp.end, SPAN_DELIMITER);
    assert Join(parts, SPAN_DELIMITER) == SpanText(sp);
    SplitJoin(parts, SPAN_DELIMITER);
    ParseIntToString(sp.start);
    ParseIntToString(sp.end);
  }

  lemma {:induction false} ParsePairsTexts(spans: seq<Span>)
    ensures ParsePairs(SpanTexts(spans)) == Ok(spans)
    decreases |spans|
  {
    if |spans| > 0 {
      var texts := SpanTexts(spans);
      ParsePairText(spans[0]);
      ParsePairsStep(texts, 0);
      assert texts[0..] == texts;
      assert texts[1..] == SpanTexts(spans[1..]);
      ParsePairsTexts(spans[1..]);
      assert [spans[0]] + spans[1..] == spans;
    }
  }

  lemma SpanTextSeparatorFree(sp: Span)
    ensures SPAN_SEPARATOR !in SpanText(sp)
  {
    NoSeparatorInInt(sp.start, SPAN_SEPARATOR);
    NoSeparatorInInt(sp.end, SPAN_SEPARATOR);
  }

  /** The non-consuming marker prints as the special string the parser recognises. */
  lemma NonConsumingText()
    ensures Format([NON_CONSUMING]) == "-1~-1"
  {
    assert IntToString(-1) == "-1";
  }

  /**
   * Parsing the text of a non-empty list of spans gives the list back (the text of an empty
   * list is "", whose single empty field is not a number).
   */
  lemma {:induction false} ParseFormat(spans: seq<Span>)
    requires |spans| > 0
    ensures Parse(Format(spans)) == Ok(spans)
  {
    var texts := SpanTexts(spans);
    var s := Format(spans);
    forall i | 0 <= i < |texts|
      ensures SPAN_SEPARATOR !in texts[i]
    {
      SpanTextSeparatorFree(spans[i]);
    }
    SplitJoin(texts, SPAN_SEPARATOR);
    ParsePairsTexts(spans);
    if s == "-1~-1" {
      NonConsumingText();
      NoMatchWithout(s, SPAN_SEPARATOR);
      assert Split(s, [SPAN_SEPARATOR]) == [s];
      assert texts == [s];
      assert |spans| == 1;
      assert SpanText(spans[0]) == SpanText(NON_CONSUMING);
      ParsePairText(NON_CONSUMING);
      ParsePairText(spans[0]);
      assert spans == [NON_CONSUMING];
    }
  }

  lemma EmptyFormatFails()
    ensures Parse(Format([])).Fail?
  {
    assert Split("", [SPAN_SEPARATOR]) == [""];
  }

  /** The three-clause test of AdjudDB.isOverlapped: does `target` touch `source`? */
  predicate Overlaps(target: Span, source: Span)
  {
    (source.start <= target.start <= source.end)
    || (source.start <= target.end <= source.end)
    || (source.end <= target.end && target.start <= source.start)
  }

  predicate WellFormed(sp: Span)
  {
    sp.start <= sp.end
  }

  function Max(a: int, b: int): int { if a < b then b else a }

  function Min(a: int, b: int): int { if a < b then a else b }

  /**
   * For well-formed spans the test holds exactly when the closed ranges share an offset:
   * end points are compared inclusively, so `(0, 5)` and `(5, 9)` overlap.
   */
  lemma OverlapsIffSharedPoint(target: Span, source: Span)
    requires WellFormed(target) && WellFormed(source)
    ensures Overlaps(target, source)
        <==> Max(target.start, source.start) <= Min(target.end, source.end)
  {
  }

  lemma OverlapsSymmetric(a: Span, b: Span)
    requires WellFormed(a) && WellFormed(b)
    ensures Overlaps(a, b) == Overlaps(b, a)
  {
    OverlapsIffSharedPoint(a, b);
    OverlapsIffSharedPoint(b, a);
  }

  lemma TouchingSpansOverlap()
    ensures Overlaps(Span(0, 5), Span(5, 9))
    ensures !Overlaps(Span(0, 4), Span(5, 9))
  {
  }

  /** The first target that overlaps `source`, if any. */
  function FirstOverlap(targets: seq<Span>, source: Span): (r: Option<Span>)
    ensures r.None? <==> forall i :: 0 <= i < |targets| ==> !Overlaps(targets[i], source)
    ensures r.Some? ==>
      exists k :: 0 <= k < |targets| && targets[k] == r.value && Overlaps(r.value, source)
        && forall j :: 0 <= j < k ==> !Overlaps(targets[j], source)
  {
    if |targets| == 0 then None
    else if Overlaps(targets[0], source) then Some(targets[0])
    else
      var r := FirstOverlap(targets[1..], source);
      assert forall i :: 1 <= i < |targets| ==> targets[i] == targets[1..][i - 1];
      if r.Some? then
        var k :| 0 <= k < |targets[1..]| && targets[1..][k] == r.value
          && Overlaps(r.value, source) && forall j :: 0 <= j < k ==> !Overlaps(targets[1..][j], source);
        assert targets[k + 1] == r.value;
        r
      else r
  }

  predicate SortedInts(xs: seq<int>)
  {
    forall i, j :: 0 <= i < j < |xs| ==> xs[i] <= xs[j]
  }

  /** Stored offsets: -1 for non-consuming tags, otherwise below the largest `int`. */
  predicate StoredLocations(xs: seq<int>)
  {
    forall i :: 0 <= i < |xs| ==> -1 <= xs[i] < INT_MAX
  }

  /** A prefix of sorted stored offsets is sorted stored offsets. */
  lemma SortedPrefix(locs: seq<int>, n: nat)
    requires SortedInts(locs) && StoredLocations(locs) && n <= |locs|
    ensures SortedInts(locs[..n]) && StoredLocations(locs[..n])
  {
  }

  /**
   * The maximal runs of a sorted list of offsets as spans `[first, last + 1)`: an offset at
   * most one past the current run's last offset extends it, any other starts a new run.
   */
  function Runs(locs: seq<int>): (r: seq<Span>)
    requires |locs| > 0 && SortedInts(locs) && StoredLocations(locs)
    ensures |r| > 0 && r[|r| - 1].end == locs[|locs| - 1] + 1
    ensures r[0].start == locs[0]
    decreases |locs|
  {
    if |locs| == 1 then [Span(locs[0], locs[0] + 1)]
    else
      var prev := Runs(locs[..|locs| - 1]);
      var x := locs[|locs| - 1];
      var last := prev[|prev| - 1];
      if x <= last.end then prev[..|prev| - 1] + [Span(last.start, x + 1)]
      else prev + [Span(x, x + 1)]
  }

  predicate Covers(runs: seq<Span>, y: int)
  {
    exists k :: 0 <= k < |runs| && runs[k].start <= y < runs[k].end
  }

  /** Each run is non-empty, and consecutive runs leave at least one uncovered offset between them. */
  lemma {:induction false} RunsShape(locs: seq<int>)
    requires |locs| > 0 && SortedInts(locs) && StoredLocations(locs)
    ensures forall k :: 0 <= k < |Runs(locs)| ==> Runs(locs)[k].start < Runs(locs)[k].end
    ensures forall k :: 0 <= k < |Runs(locs)| - 1 ==> Runs(locs)[k].end < Runs(locs)[k + 1].start
    decreases |locs|
  {
    if |locs| > 1 {
      var init := locs[..|locs| - 1];
      SortedPrefix(locs, |locs| - 1);
      RunsShape(init);
      var prev := Runs(init);
      var x := locs[|locs| - 1];
      var last := prev[|prev| - 1];
      assert init[|init| - 1] <= x;
      var r := Runs(locs);
      if x <= last.end {
        assert r == prev[..|prev| - 1] + [Span(last.start, x + 1)];
        forall k | 0 <= k < |r|
          ensures r[k].start < r[k].end
        {
          if k < |prev| - 1 {
            assert r[k] == prev[k];
          }
        }
        forall k | 0 <= k < |r| - 1
          ensures r[k].end < r[k + 1].start
        {
          assert r[k] == prev[k];
          assert r[k + 1].start == prev[k + 1].start;
        }
      } else {
        assert r == prev + [Span(x, x + 1)];
        forall k | 0 <= k < |r|
          ensures r[k].start < r[k].end
        {
          if k < |prev| {
            assert r[k] == prev[k];
          }
        }
        forall k | 0 <= k < |r| - 1
          ensures r[k].end < r[k + 1].start
        {
          assert r[k] == prev[k];
          if k + 1 < |prev| {
            assert r[k + 1] == prev[k + 1];
          }
        }
      }
    }
  }

  lemma CoversAppend(runs: seq<Span>, sp: Span, y: int)
    ensures Covers(runs + [sp], y) <==> Covers(runs, y) || sp.start <= y < sp.end
  {
    var r := runs + [sp];
    if Covers(runs, y) {
      var k :| 0 <= k < |runs| && runs[k].start <= y < runs[k].end;
      assert r[k] == runs[k];
    }
    if sp.start <= y < sp.end {
      assert r[|runs|] == sp;
    }
    if Covers(r, y) {
      var k :| 0 <= k < |r| && r[k].start <= y < r[k].end;
      if k < |runs| {
        assert runs[k] == r[k];
      }
    }
  }

  /** The runs cover exactly the given offsets. */
  lemma {:induction false} RunsCover(locs: seq<int>)
    requires |locs| > 0 && SortedInts(locs) && StoredLocations(locs)
    ensures forall y :: Covers(Runs(locs), y) <==> y in locs
    decreases |locs|
  {
    var r := Runs(locs);
    if |locs| == 1 {
      forall y
        ensures Covers(r, y) <==> y in locs
      {
        CoversAppend([], r[0], y);
        assert [] + [r[0]] == r;
      }
    } else {
      var init := locs[..|locs| - 1];
      var prev := Runs(init);
      RunsCover(init);
      RunsShape(init);
      var x := locs[|locs| - 1];
      var last := prev[|prev| - 1];
      var front := prev[..|prev| - 1];
      assert prev == front + [last];
      assert init[|init| - 1] <= x;
      assert locs == init + [x];
      forall y
        ensures Covers(r, y) <==> y in locs
      {
        CoversAppend(front, last, y);
        if x <= last.end {
          CoversAppend(front, Span(last.start, x + 1), y);
        } else {
          CoversAppend(prev, Span(x, x + 1), y);
        }
      }
    }
  }

  /** Some run, with its end point included, reaches offset `y`. */
  predicate ScanReaches(runs: seq<Span>, y: int)
  {
    exists k :: 0 <= k < |runs| && runs[k].start <= y <= runs[k].end
  }

  /**
   * Scanning each run with its end point included (as findAllOverlaps does with the text of
   * getLocByFileAndID) reaches exactly the stored offsets and the offsets one past them.
   */
  lemma InclusiveScan(locs: seq<int>, y: int)
    requires |locs| > 0 && SortedInts(locs) && StoredLocations(locs)
    ensures ScanReaches(Runs(locs), y) <==> y in locs || y - 1 in locs
  {
    var r := Runs(locs);
    RunsCover(locs);
    RunsShape(locs);
    if ScanReaches(r, y) {
      var k :| 0 <= k < |r| && r[k].start <= y <= r[k].end;
      assert r[k].start < r[k].end;
      if y < r[k].end {
        assert Covers(r, y);
        assert y in locs;
      } else {
        assert r[k].start <= y - 1 < r[k].end;
        assert Covers(r, y - 1);
        assert y - 1 in locs;
      }
    }
    if y in locs {
      assert Covers(r, y);
      var k :| 0 <= k < |r| && r[k].start <= y < r[k].end;
      assert r[k].start <= y <= r[k].end;
    }
    if y - 1 in locs {
      assert Covers(r, y - 1);
      var k :| 0 <= k < |r| && r[k].start <= y - 1 < r[k].end;
      assert r[k].start <= y <= r[k].end;
    }
  }
}

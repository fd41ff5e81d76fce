/**
 * Reading a tag back out of its type's table: the attribute values of one tag
 * (getTagsByFileAndID) and the XML text of each stored tag (makeTagStringsForOutput), with
 * the escaping of attribute values.
 */
module TagOutput {
  import opened Common
  import opened AdjudTables

  // ---------------------------------------------------------------------------------------
  // Escaping attribute values
  // ---------------------------------------------------------------------------------------

  /** String.replace of one character: every `c` in `s` becomes `rep`. */
  function ReplaceChar(s: string, c: char, rep: string): (r: string)
    ensures c !in s ==> r == s
  {
    if |s| == 0 then []
    else (if s[0] == c then rep else [s[0]]) + ReplaceChar(s[1..], c, rep)
  }

  lemma {:induction false} ReplaceCharAppend(a: string, b: string, c: char, rep: string)
    ensures ReplaceChar(a + b, c, rep) == ReplaceChar(a, c, rep) + ReplaceChar(b, c, rep)
  {
    if |a| > 0 {
      assert (a + b)[1..] == a[1..] + b;
      ReplaceCharAppend(a[1..], b, c, rep);
    } else {
      assert a + b == b;
    }
  }

  lemma ReplaceCharOne(x: char, c: char, rep: string)
    ensures ReplaceChar([x], c, rep) == if x == c then rep else [x]
  {
    assert [x][1..] == [];
  }

  /**
   * The escaping makeTagStringsForOutput applies, in its order: newline to space, `<`, `>`,
   * then `&`, then double quote to single quote.
   */
  function EscapeAsWritten(s: string): string
  {
    ReplaceChar(ReplaceChar(ReplaceChar(ReplaceChar(ReplaceChar(s, '\n', " "), '<', "&lt;"), '>', "&gt;"),
                            '&', "&amp;"), '"', "'")
  }

  lemma EscapeAsWrittenAppend(a: string, b: string)
    ensures EscapeAsWritten(a + b) == EscapeAsWritten(a) + EscapeAsWritten(b)
  {
    var a1, b1 := ReplaceChar(a, '\n', " "), ReplaceChar(b, '\n', " ");
    ReplaceCharAppend(a, b, '\n', " ");
    var a2, b2 := ReplaceChar(a1, '<', "&lt;"), ReplaceChar(b1, '<', "&lt;");
    ReplaceCharAppend(a1, b1, '<', "&lt;");
    var a3, b3 := ReplaceChar(a2, '>', "&gt;"), ReplaceChar(b2, '>', "&gt;");
    ReplaceCharAppend(a2, b2, '>', "&gt;");
    var a4, b4 := ReplaceChar(a3, '&', "&amp;"), ReplaceChar(b3, '&', "&amp;");
    ReplaceCharAppend(a3, b3, '&', "&amp;");
    ReplaceCharAppend(a4, b4, '"', "'");
  }

  /** As written, `<` comes out as `&amp;lt;`: the `&` of the entity is escaped again. */
  lemma EscapeAsWrittenDoubles()
    ensures EscapeAsWritten("<") == "&amp;lt;"
  {
    var s1 := ReplaceChar("<", '\n', " ");
    assert s1 == "<";
    var s2 := ReplaceChar(s1, '<', "&lt;");
    ReplaceCharOne('<', '<', "&lt;");
    assert s2 == "&lt;";
    var s3 := ReplaceChar(s2, '>', "&gt;");
    assert s3 == "&lt;";
    var s4 := ReplaceChar(s3, '&', "&amp;");
    assert "&lt;" == "&" + "lt;";
    ReplaceCharAppend("&", "lt;", '&', "&amp;");
    ReplaceCharOne('&', '&', "&amp;");
    assert s4 == "&amp;" + "lt;" == "&amp;lt;";
    assert ReplaceChar(s4, '"', "'") == s4;
  }

  /** The escaping of one character, `&` handled so that entities are not escaped again. */
  function EscapeChar(c: char): string
  {
    if c == '&' then "&amp;"
    else if c == '<' then "&lt;"
    else if c == '>' then "&gt;"
    else if c == '"' then "'"
    else if c == '\n' then " "
    else [c]
  }

  /** The escaping makeTagStringsForOutput evidently intends: `&` replaced before `<` and `>`. */
  function Escape(s: string): (r: string)
    ensures forall i :: 0 <= i < |r| ==> r[i] != '<' && r[i] != '>' && r[i] != '"' && r[i] != '\n'
  {
    if |s| == 0 then []
    else
      var rest := Escape(s[1..]);
      var r := EscapeChar(s[0]) + rest;
      assert forall i :: |EscapeChar(s[0])| <= i < |r| ==> r[i] == rest[i - |EscapeChar(s[0])|];
      r
  }

  /** Reading the entities back: `&amp;`, `&lt;` and `&gt;` become the characters they name. */
  function Unescape(s: string): string
    decreases |s|
  {
    if |s| == 0 then []
    else if |s| >= 5 && s[..5] == "&amp;" then "&" + Unescape(s[5..])
    else if |s| >= 4 && s[..4] == "&lt;" then "<" + Unescape(s[4..])
    else if |s| >= 4 && s[..4] == "&gt;" then ">" + Unescape(s[4..])
    else [s[0]] + Unescape(s[1..])
  }

  /** What survives escaping: newlines become spaces and double quotes single quotes. */
  function Normalized(s: string): (r: string)
    ensures |r| == |s|
  {
    if |s| == 0 then []
    else [if s[0] == '\n' then ' ' else if s[0] == '"' then '\'' else s[0]] + Normalized(s[1..])
  }

  /** Reading the escaped text back gives the value, up to newlines and double quotes. */
  lemma {:induction false} UnescapeEscape(s: string)
    ensures Unescape(Escape(s)) == Normalized(s)
  {
    if |s| > 0 {
      var c := s[0];
      var rest := Escape(s[1..]);
      assert Escape(s) == EscapeChar(c) + rest;
      UnescapeEscape(s[1..]);
      if c == '&' || c == '<' || c == '>' {
        UnescapeEntity(EscapeChar(c), c, rest);
      } else {
        UnescapePlain(EscapeChar(c)[0], rest);
      }
    }
  }

  /** An entity at the front of a text reads back as the character it names. */
  lemma UnescapeEntity(e: string, c: char, rest: string)
    requires (e == "&amp;" && c == '&') || (e == "&lt;" && c == '<') || (e == "&gt;" && c == '>')
    ensures Unescape(e + rest) == [c] + Unescape(rest)
  {
    var t := e + rest;
    assert t[..|e|] == e && t[|e|..] == rest;
    if c != '&' {
      assert t[1] == e[1] != 'a';
      assert |t| < 5 || t[..5] != "&amp;";
      if c == '>' {
        assert t[..4] != "&lt;";
      }
    }
  }

  /** A character other than `&` at the front of a text reads back as itself. */
  lemma UnescapePlain(c: char, rest: string)
    requires c != '&'
    ensures Unescape([c] + rest) == [c] + Unescape(rest)
  {
    var t := [c] + rest;
    assert t[0] == c && t[1..] == rest;
  }

  lemma EscapeAsWrittenChar(c: char)
    requires c != '<' && c != '>'
    ensures EscapeAsWritten([c]) == EscapeChar(c)
  {
    var c1 := if c == '\n' then ' ' else c;
    var s1 := ReplaceChar([c], '\n', " ");
    ReplaceCharOne(c, '\n', " ");
    assert s1 == [c1];
    var s2 := ReplaceChar(s1, '<', "&lt;");
    assert s2 == s1;
    var s3 := ReplaceChar(s2, '>', "&gt;");
    assert s3 == s1;
    var s4 := ReplaceChar(s3, '&', "&amp;");
    ReplaceCharOne(c1, '&', "&amp;");
    if c1 == '&' {
      assert s4 == "&amp;";
      assert ReplaceChar(s4, '"', "'") == s4;
    } else {
      assert s4 == [c1];
      ReplaceCharOne(c1, '"', "'");
    }
  }

  /** The two escapings differ only on `<` and `>`. */
  lemma {:induction false} EscapeAsWrittenAgrees(s: string)
    requires '<' !in s && '>' !in s
    ensures EscapeAsWritten(s) == Escape(s)
  {
    if |s| > 0 {
      assert s == [s[0]] + s[1..];
      EscapeAsWrittenAppend([s[0]], s[1..]);
      EscapeAsWrittenAgrees(s[1..]);
      EscapeAsWrittenChar(s[0]);
    } else {
      assert EscapeAsWritten(s) == "";
    }
  }

  // ---------------------------------------------------------------------------------------
  // Tags as XML text
  // ---------------------------------------------------------------------------------------

  /** The value a row holds in column `name`, or None for SQL NULL. */
  function Column(row: TagRow, name: string): Option<string>
  {
    if name in row.values then Some(row.values[name]) else None
  }

  /** The ` name="value"` parts of one row, or None when a value is NULL. */
  function AttributeText(atts: seq<AttDef>, row: TagRow): (r: Option<string>)
    ensures r.None? <==> exists i :: 0 <= i < |atts| && Column(row, atts[i].name).None?
    decreases |atts|
  {
    if |atts| == 0 then Some("")
    else
      var init := AttributeText(atts[..|atts| - 1], row);
      var last := atts[|atts| - 1];
      assert forall i :: 0 <= i < |atts| - 1 ==> atts[..|atts| - 1][i] == atts[i];
      match Column(row, last.name)
      case None => None
      case Some(v) =>
        if init.None? then None
        else Some(init.value + last.name + "=\"" + Escape(v) + "\" ")
  }

  /** One stored tag as an empty XML element, or None when a value is NULL. */
  function TagText(name: string, atts: seq<AttDef>, row: TagRow): (r: Option<string>)
    ensures r.None? <==> exists i :: 0 <= i < |atts| && Column(row, atts[i].name).None?
    ensures r.Some? ==> "<" + name <= r.value
  {
    match AttributeText(atts, row)
    case None => None
    case Some(body) => Some("<" + name + " " + body + "/>\n")
  }

  /**
   * makeTagStringsForOutput: the text of each row in turn. The first NULL value raises an
   * exception that ends the loop, so the rows before it are all that is returned.
   */
  function TagTexts(name: string, atts: seq<AttDef>, rows: seq<TagRow>): (r: seq<string>)
    ensures |r| <= |rows|
    ensures forall i :: 0 <= i < |r| ==> TagText(name, atts, rows[i]) == Some(r[i])
    ensures |r| < |rows| ==> TagText(name, atts, rows[|r|]).None?
    ensures (forall i, j :: 0 <= i < |rows| && 0 <= j < |atts| ==> atts[j].name in rows[i].values) ==> |r| == |rows|
  {
    if |rows| == 0 then []
    else match TagText(name, atts, rows[0])
      case None => []
      case Some(t) =>
        var rest := TagTexts(name, atts, rows[1..]);
        assert forall i :: 1 <= i < |rows| ==> rows[i] == rows[1..][i - 1];
        [t] + rest
  }

  /** TagTexts is the only list of texts of a prefix of the rows that stops at a NULL. */
  lemma {:induction false} TagTextsUnique(name: string, atts: seq<AttDef>, rows: seq<TagRow>, tags: seq<string>)
    requires |tags| <= |rows|
    requires forall i :: 0 <= i < |tags| ==> TagText(name, atts, rows[i]) == Some(tags[i])
    requires |tags| < |rows| ==> TagText(name, atts, rows[|tags|]).None?
    ensures tags == TagTexts(name, atts, rows)
  {
    if |rows| > 0 && |tags| > 0 {
      assert forall i :: 1 <= i < |rows| ==> rows[i] == rows[1..][i - 1];
      TagTextsUnique(name, atts, rows[1..], tags[1..]);
    }
  }

  // ---------------------------------------------------------------------------------------
  // getTagsByFileAndID
  // ---------------------------------------------------------------------------------------

  /** The rows of (file, id) in a type table. */
  function RowsOf(rows: seq<TagRow>, file: string, id: string): seq<TagRow>
  {
    Filter(rows, (r: TagRow) => r.file == file && "id" in r.values && r.values["id"] == id)
  }

  /** One row's values by attribute: NULL becomes "", or None when the attribute is required. */
  function RowValues(atts: seq<AttDef>, row: TagRow): (r: Option<map<string, string>>)
    ensures r.None? <==> exists i :: 0 <= i < |atts| && atts[i].required && Column(row, atts[i].name).None?
    ensures r.Some? ==> forall k :: k in r.value <==> k in AttNames(atts)
    ensures r.Some? ==> forall k :: k in r.value ==> r.value[k] == (if k in row.values then row.values[k] else "")
    decreases |atts|
  {
    if |atts| == 0 then Some(map[])
    else
      var init := RowValues(atts[..|atts| - 1], row);
      var last := atts[|atts| - 1];
      assert forall i :: 0 <= i < |atts| - 1 ==> atts[..|atts| - 1][i] == atts[i];
      if last.required && Column(row, last.name).None? then None
      else if init.None? then None
      else Some(init.value[last.name := if last.name in row.values then row.values[last.name] else ""])
  }

  /**
   * getTagsByFileAndID on the matching rows: each row's values overwrite the previous ones,
   * and a NULL in a required attribute of any row makes the answer null.
   */
  function TagValues(atts: seq<AttDef>, rows: seq<TagRow>): (r: Option<map<string, string>>)
    ensures r.None? <==> exists i :: 0 <= i < |rows| && RowValues(atts, rows[i]).None?
    ensures r.Some? && |rows| > 0 ==> r == RowValues(atts, rows[|rows| - 1])
    ensures r.Some? && |rows| == 0 ==> r.value == map[]
    decreases |rows|
  {
    if |rows| == 0 then Some(map[])
    else
      var init := TagValues(atts, rows[..|rows| - 1]);
      var last := RowValues(atts, rows[|rows| - 1]);
      assert forall i :: 0 <= i < |rows| - 1 ==> rows[..|rows| - 1][i] == rows[i];
      if init.None? then
        ghost var i :| 0 <= i < |rows| - 1 && RowValues(atts, rows[..|rows| - 1][i]).None?;
        assert RowValues(atts, rows[i]).None?;
        None
      else if last.None? then None
      else
        assert forall i :: 0 <= i < |rows| - 1 ==> RowValues(atts, rows[i]).Some?;
        last
  }

  /** One more row of getTagsByFileAndID's loop: a required NULL answers null, other rows' values replace the map's. */
  lemma TagValuesStep(atts: seq<AttDef>, rows: seq<TagRow>, i: nat, ht: map<string, string>)
    requires i < |rows| && TagValues(atts, rows[..i]) == Some(ht)
    ensures RowValues(atts, rows[i]).None? ==> TagValues(atts, rows) == None
    ensures RowValues(atts, rows[i]).Some? ==> TagValues(atts, rows[..i + 1]) == Some(ht + RowValues(atts, rows[i]).value)
  {
    var next := RowValues(atts, rows[i]);
    if next.Some? {
      assert rows[..i + 1][..i] == rows[..i];
      assert rows[..i + 1][i] == rows[i];
      assert ht + next.value == next.value;
    }
  }
}

/**
 * DTDLoader: builds a DTD from declarations, one already-joined declaration string at a time.
 * It covers a small subset of the element type, attribute-list and entity declarations of
 * the W3C XML 1.0 Recommendation (sections 3.2, 3.3 and 4.2). Every exception the Java code
 * raises on a malformed declaration escapes the loader; here it is the `Fail` result.
 */
module DtdLoading {
  import opened Common
  import opened JavaStrings
  import opened Schema

  /** `s.split(sep)[i]`, failing when the split has no field `i`. */
  function Field(s: string, sep: string, i: nat): (r: Result<string>)
    requires |sep| > 0
    ensures r.Ok? <==> i < |Split(s, sep)|
    ensures r.Ok? ==> r.value == Split(s, sep)[i]
    ensures r.Fail? ==> r.exc == IndexOutOfBounds
  {
    var fs := Split(s, sep);
    if i < |fs| then Ok(fs[i]) else Fail(IndexOutOfBounds)
  }

  /** `n` dashes. */
  function Dashes(n: nat): (r: string)
    ensures |r| == n && forall i :: 0 <= i < n ==> r[i] == '-'
  {
    seq(n, _ => '-')
  }

  /**
   * The k-th id prefix getIDString tries for `name`: the first k+1 characters while the name
   * has that many, then the whole name followed by dashes.
   */
  function Candidate(name: string, k: nat): (r: string)
    requires |name| > 0
    ensures |r| == k + 1
  {
    if k + 1 <= |name| then name[..k + 1] else name + Dashes(k + 1 - |name|)
  }

  /** Distinct attempts are distinct strings, so the search never revisits a prefix. */
  lemma CandidatesDistinct(name: string, j: nat, k: nat)
    requires |name| > 0 && j != k
    ensures Candidate(name, j) != Candidate(name, k)
  {
  }

  /** One step of the search: extend by a character of the name, or by a dash past its end. */
  lemma CandidateStep(name: string, k: nat)
    requires |name| > 0
    ensures |Candidate(name, k)| >= |name| ==> Candidate(name, k + 1) == Candidate(name, k) + "-"
    ensures |Candidate(name, k)| < |name| ==> Candidate(name, k + 1) == name[..|Candidate(name, k)| + 1]
  {
    if k + 1 >= |name| {
      if k + 1 == |name| {
        assert name[..k + 1] == name;
        assert Dashes(1) == "-";
      } else {
        assert Dashes(k + 2 - |name|) == Dashes(k + 1 - |name|) + "-";
      }
    }
  }

  /** The options of a list declaration: the text between `(` and `)`, split at `|`, trimmed. */
  function ListOptions(tag: string): Result<seq<string>>
  {
    var afterOpen := Field(tag, "(", 1);
    if afterOpen.Fail? then Fail(afterOpen.exc)
    else
      var inside := Field(afterOpen.value, ")", 0);
      if inside.Fail? then Fail(inside.exc)
      else
        var items := Split(inside.value, "|");
        Ok(seq(|items|, i requires 0 <= i < |items| => Trim(items[i])))
  }

  /**
   * The default of a list attribute from the matches of the default-value pattern: kept only
   * when there is exactly one match and its quoted text is one of the options, otherwise "".
   */
  function ListDefault(matches: seq<string>, options: seq<string>): (r: Result<string>)
    ensures r.Ok? && r.value != "" ==> |matches| == 1 && r.value in options
    ensures r.Ok? && r.value != "" ==> Field(matches[0], "\"", 1) == r
    ensures |matches| != 1 ==> r == Ok("")
    ensures r.Fail? <==> |matches| == 1 && |Split(matches[0], "\"")| < 2
  {
    if |matches| > 1 then Ok("")
    else if |matches| == 1 then
      var d := Field(matches[0], "\"", 1);
      if d.Fail? then Fail(d.exc)
      else if d.value in options then Ok(d.value)
      else Ok("")
    else Ok("")
  }

  /** The default of a data attribute: the quoted text of the single match, else "". */
  function DataDefault(matches: seq<string>): (r: Result<string>)
    ensures |matches| != 1 ==> r == Ok("")
    ensures |matches| == 1 ==> r == Field(matches[0], "\"", 1)
  {
    if |matches| == 1 then Field(matches[0], "\"", 1) else Ok("")
  }

  /**
   * `id` is the first candidate prefix for `name` that is not in `ids`: every earlier
   * candidate is taken.
   */
  ghost predicate FreshPrefix(name: string, ids: seq<string>, id: string)
    requires |name| > 0
  {
    id !in ids
    && exists k: nat :: id == Candidate(name, k) && forall j :: 0 <= j < k ==> Candidate(name, j) in ids
  }

  /**
   * The search loop of getIDString. It ends because every attempt is one character longer
   * than the last and only the finitely many strings in `ids` send it on.
   */
  method FirstUnused(name: string, ids: seq<string>) returns (id: string)
    requires |name| > 0
    ensures FreshPrefix(name, ids, id)
  {
    id := name[..1];
    ghost var k: nat := 0;
    while id in ids
      invariant id == Candidate(name, k)
      invariant forall j :: 0 <= j < k ==> Candidate(name, j) in ids
      decreases MaxLen(ids) - k
    {
      CandidateStep(name, k);
      if |id| >= |name| {
        id := id + "-";
      } else {
        id := name[..|id| + 1];
      }
      k := k + 1;
    }
  }

  /** The loop of addListAtt that trims each option. */
  method TrimAll(list: seq<string>) returns (atts: seq<string>)
    ensures |atts| == |list| && forall j :: 0 <= j < |list| ==> atts[j] == Trim(list[j])
  {
    atts := [];
    var i := 0;
    while i < |list|
      invariant 0 <= i <= |list|
      invariant |atts| == i && forall j :: 0 <= j < i ==> atts[j] == Trim(list[j])
    {
      atts := atts + [Trim(list[i])];
      i := i + 1;
    }
  }

  /**
   * The part of addListAtt that reads the options between the parentheses and the default
   * value; it fails exactly where the declaration lacks them.
   */
  method ListValues(tag: string, matches: seq<string>) returns (r: Result<(seq<string>, string)>)
    ensures r.Ok? <==> ListOptions(tag).Ok? && ListDefault(matches, ListOptions(tag).value).Ok?
    ensures r.Ok? ==> ListOptions(tag) == Ok(r.value.0) && ListDefault(matches, r.value.0) == Ok(r.value.1)
  {
    var afterOpen := Field(tag, "(", 1);
    if afterOpen.Fail? {
      return Fail(afterOpen.exc);
    }
    var inside := Field(afterOpen.value, ")", 0);
    if inside.Fail? {
      return Fail(inside.exc);
    }
    var list := Split(inside.value, "|");
    var atts := TrimAll(list);
    assert atts == seq(|list|, i requires 0 <= i < |list| => Trim(list[i]));
    var defaultValue := "";
    if |matches| == 1 {
      var d := Field(matches[0], "\"", 1);
      if d.Fail? {
        return Fail(d.exc);
      }
      defaultValue := d.value;
      if defaultValue !in atts {
        defaultValue := "";
      }
    }
    r := Ok((atts, defaultValue));
  }

  class DtdLoader {
    /** mDtd */
    const dtd: DTD

    /** The loader with an empty DTD; reading the file is not part of this model. */
    constructor ()
      ensures fresh(dtd) && dtd.elements == [] && dtd.name == "XML"
    {
      dtd := new DTD();
    }

    /**
     * process: dispatch on the declaration keyword; `matches` are the matches of the
     * default-value pattern in `tag`. Anything else is ignored.
     */
    method Process(tag: string, matches: seq<string>) returns (r: Result<()>)
      modifies dtd, dtd.elements, AttribsOf(dtd.elements)
      ensures (!StartsWith(tag, "<!ELEMENT") && !StartsWith(tag, "<!ATTLIST")
               && !StartsWith(tag, "<!ENTITY")) ==>
                r == Ok(()) && dtd.elements == old(dtd.elements) && dtd.name == old(dtd.name)
    {
      r := Ok(());
      if StartsWith(tag, "<!ELEMENT") {
        r := CreateElement(tag);
        if r.Fail? {
          return;
        }
      }
      if StartsWith(tag, "<!ATTLIST") {
        r := AddAttribute(tag, matches);
        if r.Fail? {
          return;
        }
      }
      if StartsWith(tag, "<!ENTITY") {
        r := AddMeta(tag);
      }
    }

    /**
     * createElement: the second space-separated token names a new extent type when the
     * declaration mentions #PCDATA, a new link type otherwise, with a fresh id prefix.
     */
    method CreateElement(tag: string) returns (r: Result<()>)
      modifies dtd
      ensures dtd.name == old(dtd.name)
      ensures r.Fail? ==> dtd.elements == old(dtd.elements)
      ensures |Split(tag, " ")| < 2 ==> r == Fail(IndexOutOfBounds)
      ensures r.Ok? ==>
        |dtd.elements| == |old(dtd.elements)| + 1 && dtd.elements[..|old(dtd.elements)|] == old(dtd.elements)
      ensures r.Ok? ==>
        var e := dtd.elements[|old(dtd.elements)|];
        fresh(e) && e.name == Split(tag, " ")[1]
        && (e.kind == ElemKind.Extent <==> Contains(tag, "#PCDATA"))
        && |e.attributes| > 0 && e.attributes[0].name == "id" && e.attributes[0].kind == IdAtt
        && old(ElementIds(dtd.elements)).Ok? && |e.name| > 0
        && FreshPrefix(e.name, old(ElementIds(dtd.elements)).value, e.attributes[0].prefix)
    {
      var name := Field(tag, " ", 1);
      if name.Fail? {
        return Fail(name.exc);
      }
      ghost var es := dtd.elements;
      ghost var attribs := AttribsOf(es);
      ghost var ids := ElementIds(es);
      var id := GetIdString(name.value);
      assert dtd.elements == es && AttribsOf(es) == attribs && ElementIds(es) == ids;
      if id.Fail? {
        return Fail(id.exc);
      }
      var e: Elem;
      if Contains(tag, "#PCDATA") {
        e := new Elem.Extent(name.value, id.value);
      } else {
        e := new Elem.Link(name.value, id.value);
      }
      dtd.AddElem(e);
      r := Ok(());
    }

    /**
     * getIDString: the first of name[..1], name[..2], ..., name, name + "-", name + "--", ...
     * that is not already an element's id prefix.
     */
    method GetIdString(name: string) returns (r: Result<string>)
      ensures ElementIds(dtd.elements).Fail? ==> r == Fail(ElementIds(dtd.elements).exc)
      ensures ElementIds(dtd.elements).Ok? ==>
        if name == "" then r == Fail(IndexOutOfBounds)
        else r.Ok? && FreshPrefix(name, ElementIds(dtd.elements).value, r.value)
    {
      var found := dtd.GetElementIds();
      ghost var es := dtd.elements;
      ghost var attribs := AttribsOf(es);
      if found.Fail? {
        return Fail(found.exc);
      }
      if |name| < 1 {
        return Fail(IndexOutOfBounds);
      }
      var id := FirstUnused(name, found.value);
      assert dtd.elements == es && AttribsOf(es) == attribs;
      r := Ok(id);
    }

    /** addMeta: an entity declaration with `name "..."` renames the DTD. */
    method AddMeta(tag: string) returns (r: Result<()>)
      modifies dtd
      ensures dtd.elements == old(dtd.elements)
      ensures !Contains(tag, "name ") ==> r == Ok(()) && dtd.name == old(dtd.name)
      ensures r.Fail? ==> dtd.name == old(dtd.name)
      ensures r.Ok? && Contains(tag, "name ") ==>
        Field(tag, "name \"", 1).Ok? && Field(Field(tag, "name \"", 1).value, "\"", 0) == Ok(dtd.name)
    {
      if Contains(tag, "name ") {
        var after := Field(tag, "name \"", 1);
        if after.Fail? {
          return Fail(after.exc);
        }
        var name := Field(after.value, "\"", 0);
        if name.Fail? {
          return Fail(name.exc);
        }
        dtd.SetName(name.value);
      }
      r := Ok(());
    }

    /** addAttribute: a declaration with `(` lists its options; any other declares data. */
    method AddAttribute(tag: string, matches: seq<string>) returns (r: Result<()>)
      modifies dtd.elements, AttribsOf(dtd.elements)
      ensures dtd.elements == old(dtd.elements) && dtd.name == old(dtd.name)
    {
      if Contains(tag, "(") {
        r := AddListAtt(tag, matches);
      } else {
        r := AddDataAtt(tag, matches);
      }
    }

    /**
     * addListAtt: on the element named by the second token (ignoring case), append a list
     * attribute named by the third token with the trimmed options, the checked default and
     * required iff the declaration says #REQUIRED. An unknown element is reported and skipped.
     */
    method AddListAtt(tag: string, matches: seq<string>) returns (r: Result<()>)
      modifies dtd.elements
      ensures dtd.elements == old(dtd.elements) && dtd.name == old(dtd.name)
      ensures |Split(tag, " ")| < 3 ==> r == Fail(IndexOutOfBounds)
      ensures forall e :: e in dtd.elements ==> e.spans == old(e.spans)
      ensures r.Fail? || ElemNamed(dtd.elements, Split(tag, " ")[1]).None? ==>
        forall e :: e in dtd.elements ==> e.attributes == old(e.attributes)
      ensures r.Ok? && ElemNamed(dtd.elements, Split(tag, " ")[1]).Some? ==>
        var elem := ElemNamed(dtd.elements, Split(tag, " ")[1]).value;
        var opts := ListOptions(tag);
        opts.Ok? && ListDefault(matches, opts.value).Ok?
        && (forall e :: e in dtd.elements && e != elem ==> e.attributes == old(e.attributes))
        && |elem.attributes| == |old(elem.attributes)| + 1
        && elem.attributes[..|old(elem.attributes)|] == old(elem.attributes)
        && var a := elem.attributes[|old(elem.attributes)|];
        fresh(a) && a.name == Split(tag, " ")[2] && a.kind == ListAtt(opts.value)
        && a.required == Contains(tag, "#REQUIRED")
        && a.defaultValue == Some(ListDefault(matches, opts.value).value)
    {
      var elemName := Field(tag, " ", 1);
      if elemName.Fail? {
        return Fail(elemName.exc);
      }
      var attName := Field(tag, " ", 2);
      if attName.Fail? {
        return Fail(attName.exc);
      }
      var elem := dtd.GetElem(elemName.value);
      if elem.None? {
        return Ok(());
      }
      var values := ListValues(tag, matches);
      if values.Fail? {
        return Fail(values.exc);
      }
      var (atts, defaultValue) := values.value;
      var req := Contains(tag, "#REQUIRED");
      var a := new Attrib.List(attName.value, req, atts, defaultValue);
      elem.value.AddAttribute(a);
      r := Ok(());
    }

    /**
     * addDataAtt: on a known element (ignoring case), a `start` or `spans` declaration only sets
     * the required flag of an extent's existing `spans` attribute; an ` ID ` declaration with
     * `prefix` sets the id prefix to the first quoted text; any other declaration appends a
     * data attribute with the single matched default, or "".
     */
    method AddDataAtt(tag: string, matches: seq<string>) returns (r: Result<()>)
      modifies dtd.elements, AttribsOf(dtd.elements)
      ensures dtd.elements == old(dtd.elements) && dtd.name == old(dtd.name)
      ensures |Split(tag, " ")| < 3 ==> r == Fail(IndexOutOfBounds)
      ensures forall e :: e in dtd.elements ==> e.spans == old(e.spans)
      ensures forall a :: a in old(AttribsOf(dtd.elements)) ==>
        a.name == old(a.name) && a.defaultValue == old(a.defaultValue) && a.number == old(a.number)
      ensures r.Fail? || ElemNamed(dtd.elements, Split(tag, " ")[1]).None? ==>
        (forall e :: e in dtd.elements ==> e.attributes == old(e.attributes))
        && forall a :: a in old(AttribsOf(dtd.elements)) ==> a.required == old(a.required) && a.prefix == old(a.prefix)
      ensures r.Ok? && ElemNamed(dtd.elements, Split(tag, " ")[1]).Some? ==>
        var elem := ElemNamed(dtd.elements, Split(tag, " ")[1]).value;
        (forall e :: e in dtd.elements && e != elem ==> e.attributes == old(e.attributes))
        && (forall a :: a in old(AttribsOf(dtd.elements)) && Some(a) != old(elem.GetAttribute("spans")) ==>
              a.required == old(a.required))
        && (forall a :: a in old(AttribsOf(dtd.elements)) && Some(a) != old(elem.GetAttribute("id")) ==>
              a.prefix == old(a.prefix))
      ensures (r.Ok? && ElemNamed(dtd.elements, Split(tag, " ")[1]).Some?
               && (EqualsIgnoreCase(Split(tag, " ")[2], "start") || EqualsIgnoreCase(Split(tag, " ")[2], "spans"))) ==>
          var elem := ElemNamed(dtd.elements, Split(tag, " ")[1]).value;
          elem.attributes == old(elem.attributes)
          && (elem.kind == ElemKind.Extent ==>
                old(elem.GetAttribute("spans")).Some?
                && old(elem.GetAttribute("spans")).value.required == Contains(tag, "#REQUIRED"))
      ensures (r.Ok? && ElemNamed(dtd.elements, Split(tag, " ")[1]).Some?
               && !EqualsIgnoreCase(Split(tag, " ")[2], "start") && !EqualsIgnoreCase(Split(tag, " ")[2], "spans")
               && Contains(tag, " ID ")) ==>
          var elem := ElemNamed(dtd.elements, Split(tag, " ")[1]).value;
          elem.attributes == old(elem.attributes)
          && (Contains(tag, "prefix") ==>
                old(elem.GetAttribute("id")).Some?
                && Field(tag, "\"", 1) == Ok(old(elem.GetAttribute("id")).value.prefix))
      ensures (r.Ok? && ElemNamed(dtd.elements, Split(tag, " ")[1]).Some?
               && !EqualsIgnoreCase(Split(tag, " ")[2], "start") && !EqualsIgnoreCase(Split(tag, " ")[2], "spans")
               && !Contains(tag, " ID ")) ==>
          var elem := ElemNamed(dtd.elements, Split(tag, " ")[1]).value;
          DataDefault(matches).Ok?
          && |elem.attributes| == |old(elem.attributes)| + 1
          && elem.attributes[..|old(elem.attributes)|] == old(elem.attributes)
          && var a := elem.attributes[|old(elem.attributes)|];
          fresh(a) && a.name == Split(tag, " ")[2] && a.kind == DataAtt
          && a.required == Contains(tag, "#REQUIRED")
          && a.defaultValue == Some(DataDefault(matches).value)
    {
      var elemName := Field(tag, " ", 1);
      if elemName.Fail? {
        return Fail(elemName.exc);
      }
      var attName := Field(tag, " ", 2);
      if attName.Fail? {
        return Fail(attName.exc);
      }
      var req := Contains(tag, "#REQUIRED");
      r := DataAttOn(elemName.value, attName.value, tag, req, matches);
    }

    /** addDataAtt once the element and attribute names are read: an unknown element is skipped. */
    method DataAttOn(elemName: string, attName: string, tag: string, req: bool, matches: seq<string>)
      returns (r: Result<()>)
      modifies dtd.elements, AttribsOf(dtd.elements)
      ensures dtd.elements == old(dtd.elements) && dtd.name == old(dtd.name)
      ensures forall e :: e in dtd.elements ==> e.spans == old(e.spans)
      ensures forall a :: a in old(AttribsOf(dtd.elements)) ==>
        a.name == old(a.name) && a.defaultValue == old(a.defaultValue) && a.number == old(a.number)
      ensures r.Fail? || ElemNamed(dtd.elements, elemName).None? ==>
        (forall e :: e in dtd.elements ==> e.attributes == old(e.attributes))
        && forall a :: a in old(AttribsOf(dtd.elements)) ==> a.required == old(a.required) && a.prefix == old(a.prefix)
      ensures ElemNamed(dtd.elements, elemName).None? ==> r.Ok?
      ensures r.Ok? && ElemNamed(dtd.elements, elemName).Some? ==>
        var elem := ElemNamed(dtd.elements, elemName).value;
        (forall e :: e in dtd.elements && e != elem ==> e.attributes == old(e.attributes))
        && (forall a :: a in old(AttribsOf(dtd.elements)) && Some(a) != old(elem.GetAttribute("spans")) ==>
              a.required == old(a.required))
        && (forall a :: a in old(AttribsOf(dtd.elements)) && Some(a) != old(elem.GetAttribute("id")) ==>
              a.prefix == old(a.prefix))
      ensures (r.Ok? && ElemNamed(dtd.elements, elemName).Some?
               && (EqualsIgnoreCase(attName, "start") || EqualsIgnoreCase(attName, "spans"))) ==>
          var elem := ElemNamed(dtd.elements, elemName).value;
          elem.attributes == old(elem.attributes)
          && (elem.kind == ElemKind.Extent ==>
                old(elem.GetAttribute("spans")).Some? && old(elem.GetAttribute("spans")).value.required == req)
      ensures (r.Ok? && ElemNamed(dtd.elements, elemName).Some?
               && !EqualsIgnoreCase(attName, "start") && !EqualsIgnoreCase(attName, "spans")
               && Contains(tag, " ID ")) ==>
          var elem := ElemNamed(dtd.elements, elemName).value;
          elem.attributes == old(elem.attributes)
          && (Contains(tag, "prefix") ==>
                old(elem.GetAttribute("id")).Some?
                && Field(tag, "\"", 1) == Ok(old(elem.GetAttribute("id")).value.prefix))
      ensures (r.Ok? && ElemNamed(dtd.elements, elemName).Some?
               && !EqualsIgnoreCase(attName, "start") && !EqualsIgnoreCase(attName, "spans")
               && !Contains(tag, " ID ")) ==>
          var elem := ElemNamed(dtd.elements, elemName).value;
          DataDefault(matches).Ok?
          && |elem.attributes| == |old(elem.attributes)| + 1
          && elem.attributes[..|old(elem.attributes)|] == old(elem.attributes)
          && var a := elem.attributes[|old(elem.attributes)|];
          fresh(a) && a.name == attName && a.kind == DataAtt && a.required == req
          && a.defaultValue == Some(DataDefault(matches).value)
    {
      ghost var attribs := AttribsOf(dtd.elements);
      var known := dtd.HasElem(elemName);
      if !known {
        return Ok(());
      }
      var found := dtd.GetElem(elemName);
      var elem := found.value;
      assert AttribsOf(dtd.elements) == attribs;
      AttribsOfElem(dtd.elements, elem);
      r := ApplyDataAtt(elem, attName, tag, req, matches);
    }

    /** The three branches of addDataAtt on the element found. */
    method ApplyDataAtt(elem: Elem, attName: string, tag: string, req: bool, matches: seq<string>) returns (r: Result<()>)
      modifies elem, elem.attributes
      ensures elem.spans == old(elem.spans)
      ensures forall a :: a in old(elem.attributes) ==>
        a.name == old(a.name) && a.defaultValue == old(a.defaultValue) && a.number == old(a.number)
      ensures !EqualsIgnoreCase(attName, "start") && !EqualsIgnoreCase(attName, "spans") ==>
        forall a :: a in old(elem.attributes) ==> a.required == old(a.required)
      ensures EqualsIgnoreCase(attName, "start") || EqualsIgnoreCase(attName, "spans") || !Contains(tag, " ID ") ==>
        forall a :: a in old(elem.attributes) ==> a.prefix == old(a.prefix)
      ensures forall a :: a in old(elem.attributes) && Some(a) != old(elem.GetAttribute("spans")) ==>
        a.required == old(a.required)
      ensures forall a :: a in old(elem.attributes) && Some(a) != old(elem.GetAttribute("id")) ==>
        a.prefix == old(a.prefix)
      ensures r.Fail? ==>
        elem.attributes == old(elem.attributes)
        && forall a :: a in old(elem.attributes) ==> a.required == old(a.required) && a.prefix == old(a.prefix)
      ensures (r.Ok? && (EqualsIgnoreCase(attName, "start") || EqualsIgnoreCase(attName, "spans"))) ==>
          elem.attributes == old(elem.attributes)
          && (elem.kind == ElemKind.Extent ==>
                old(elem.GetAttribute("spans")).Some? && old(elem.GetAttribute("spans")).value.required == req)
      ensures (r.Ok? && !EqualsIgnoreCase(attName, "start") && !EqualsIgnoreCase(attName, "spans")
               && Contains(tag, " ID ")) ==>
          elem.attributes == old(elem.attributes)
          && (Contains(tag, "prefix") ==>
                old(elem.GetAttribute("id")).Some? && Field(tag, "\"", 1) == Ok(old(elem.GetAttribute("id")).value.prefix))
      ensures (r.Ok? && !EqualsIgnoreCase(attName, "start") && !EqualsIgnoreCase(attName, "spans")
               && !Contains(tag, " ID ")) ==>
          DataDefault(matches).Ok?
          && |elem.attributes| == |old(elem.attributes)| + 1
          && elem.attributes[..|old(elem.attributes)|] == old(elem.attributes)
          && var a := elem.attributes[|old(elem.attributes)|];
          fresh(a) && a.name == attName && a.kind == DataAtt && a.required == req
          && a.defaultValue == Some(DataDefault(matches).value)
    {
      if EqualsIgnoreCase(attName, "start") || EqualsIgnoreCase(attName, "spans") {
        r := SetSpansRequired(elem, req);
      } else if Contains(tag, " ID ") {
        r := SetIdPrefix(elem, tag);
      } else {
        r := AppendDataAtt(elem, attName, req, matches);
      }
    }

    /** The `start`/`spans` branch of addDataAtt: only an extent's `spans` flag changes. */
    method SetSpansRequired(elem: Elem, req: bool) returns (r: Result<()>)
      modifies elem.attributes
      ensures r.Fail? <==> elem.kind == ElemKind.Extent && old(elem.GetAttribute("spans")).None?
      ensures r.Fail? ==> r.exc == NullPointer
      ensures r.Ok? && elem.kind == ElemKind.Extent ==> old(elem.GetAttribute("spans")).value.required == req
      ensures forall a :: a in elem.attributes ==>
        a.name == old(a.name) && a.defaultValue == old(a.defaultValue)
        && a.prefix == old(a.prefix) && a.number == old(a.number)
      ensures forall a :: a in elem.attributes && (r.Fail? || Some(a) != old(elem.GetAttribute("spans"))) ==>
        a.required == old(a.required)
    {
      r := Ok(());
      if elem.kind == ElemKind.Extent {
        var att := elem.GetAttribute("spans");
        if att.None? {
          return Fail(NullPointer);
        }
        att.value.SetRequired(req);
      }
    }

    /**
     * The ` ID ` branch of addDataAtt: the `id` attribute must be an id attribute; with
     * `prefix`, its prefix becomes the first quoted text.
     */
    method SetIdPrefix(elem: Elem, tag: string) returns (r: Result<()>)
      modifies elem.attributes
      ensures old(elem.GetAttribute("id")).Some? && old(elem.GetAttribute("id")).value.kind != IdAtt ==>
        r == Fail(ClassCast)
      ensures r.Ok? && Contains(tag, "prefix") ==>
        old(elem.GetAttribute("id")).Some? && Field(tag, "\"", 1) == Ok(old(elem.GetAttribute("id")).value.prefix)
      ensures forall a :: a in elem.attributes ==>
        a.name == old(a.name) && a.required == old(a.required)
        && a.defaultValue == old(a.defaultValue) && a.number == old(a.number)
      ensures forall a :: a in elem.attributes && (r.Fail? || Some(a) != old(elem.GetAttribute("id"))) ==>
        a.prefix == old(a.prefix)
    {
      var att := elem.GetAttribute("id");
      if att.Some? && att.value.kind != IdAtt {
        return Fail(ClassCast);
      }
      if Contains(tag, "prefix") {
        var prefix := Field(tag, "\"", 1);
        if prefix.Fail? {
          return Fail(prefix.exc);
        }
        if att.None? {
          return Fail(NullPointer);
        }
        att.value.SetPrefix(prefix.value);
      }
      r := Ok(());
    }

    /** The last branch of addDataAtt: append a data attribute with the matched default. */
    method AppendDataAtt(elem: Elem, attName: string, req: bool, matches: seq<string>) returns (r: Result<()>)
      modifies elem
      ensures r.Fail? <==> DataDefault(matches).Fail?
      ensures r.Fail? ==> elem.attributes == old(elem.attributes)
      ensures r.Ok? ==>
        |elem.attributes| == |old(elem.attributes)| + 1
        && elem.attributes[..|old(elem.attributes)|] == old(elem.attributes)
        && var a := elem.attributes[|old(elem.attributes)|];
        fresh(a) && a.name == attName && a.kind == DataAtt && a.required == req
        && a.defaultValue == Some(DataDefault(matches).value)
      ensures elem.spans == old(elem.spans)
    {
      var defaultValue := "";
      if |matches| == 1 {
        var d := Field(matches[0], "\"", 1);
        if d.Fail? {
          return Fail(d.exc);
        }
        defaultValue := d.value;
      }
      var a := new Attrib.DataWithDefault(attName, req, defaultValue);
      elem.AddAttribute(a);
      r := Ok(());
    }
  }

  lemma AttribsOfElem(es: seq<Elem>, e: Elem)
    requires e in es
    ensures forall a :: a in e.attributes ==> a in AttribsOf(es)
  {
  }
}

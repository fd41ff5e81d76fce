/**
 * The tag schema: attribute definitions (Attrib and its AttID / AttData / AttList kinds),
 * elements (Elem with its ElemExtent and ElemLink kinds) and the DTD registry.
 */
module Schema {
  import opened Common
  import opened JavaStrings

  /** Which subclass of Attrib an attribute is. */
  datatype AttKind = DataAtt | ListAtt(options: seq<string>) | IdAtt

  /**
   * An attribute definition. `prefix` and `number` belong to the AttID kind: the id prefix
   * and the counter of the next id (AttID is not part of this model; see README).
   */
  class Attrib {
    var name: string
    var required: bool
    /** None while the Java field is still null. */
    var defaultValue: Option<string>
    const kind: AttKind
    var prefix: string
    var number: nat

    /** AttID(name, prefix, required): an id attribute whose counter starts at 0. */
    constructor Id(name: string, prefix: string, required: bool)
      ensures this.name == name && this.prefix == prefix && this.required == required
      ensures kind == IdAtt && number == 0 && defaultValue == None
    {
      this.name := name;
      this.prefix := prefix;
      this.required := required;
      kind := IdAtt;
      number := 0;
      defaultValue := None;
    }

    /** AttData(name, required): a free-text attribute with no default set. */
    constructor Data(name: string, required: bool)
      ensures this.name == name && this.required == required
      ensures kind == DataAtt && defaultValue == None
    {
      this.name := name;
      this.required := required;
      kind := DataAtt;
      prefix := "";
      number := 0;
      defaultValue := None;
    }

    /** AttData(name, required, default). */
    constructor DataWithDefault(name: string, required: bool, default: string)
      ensures this.name == name && this.required == required
      ensures kind == DataAtt && defaultValue == Some(default)
    {
      this.name := name;
      this.required := required;
      kind := DataAtt;
      prefix := "";
      number := 0;
      defaultValue := Some(default);
    }

    /** AttList(name, required, options, default). */
    constructor List(name: string, required: bool, options: seq<string>, default: string)
      ensures this.name == name && this.required == required
      ensures kind == ListAtt(options) && defaultValue == Some(default)
    {
      this.name := name;
      this.required := required;
      kind := ListAtt(options);
      prefix := "";
      number := 0;
      defaultValue := Some(default);
    }

    function GetName(): string
      reads this
    {
      name
    }

    method SetName(n: string)
      modifies this
      ensures GetName() == n
      ensures required == old(required) && defaultValue == old(defaultValue)
      ensures prefix == old(prefix) && number == old(number)
    {
      name := n;
    }

    function GetRequired(): bool
      reads this
    {
      required
    }

    method SetRequired(r: bool)
      modifies this
      ensures GetRequired() == r
      ensures name == old(name) && defaultValue == old(defaultValue)
      ensures prefix == old(prefix) && number == old(number)
    {
      required := r;
    }

    function GetDefaultValue(): Option<string>
      reads this
    {
      defaultValue
    }

    method SetDefaultValue(d: string)
      modifies this
      ensures GetDefaultValue() == Some(d)
      ensures name == old(name) && required == old(required)
      ensures prefix == old(prefix) && number == old(number)
    {
      defaultValue := Some(d);
    }

    /** hasDefaultValue: the default is non-empty; a default never set is a null dereference. */
    function HasDefaultValue(): (r: Result<bool>)
      reads this
      ensures r.Fail? <==> defaultValue.None?
      ensures r.Fail? ==> r.exc == NullPointer
      ensures r.Ok? ==> (r.value <==> defaultValue.value != "")
    {
      match defaultValue
      case None => Fail(NullPointer)
      case Some(d) => Ok(|d| != 0)
    }

    /** AttID.setPrefix */
    method SetPrefix(p: string)
      modifies this
      ensures prefix == p
      ensures name == old(name) && required == old(required)
      ensures defaultValue == old(defaultValue) && number == old(number)
    {
      prefix := p;
    }

    /** AttID.getID: the prefix followed by the counter in decimal. */
    function GetId(): string
      reads this
    {
      prefix + NatToString(number)
    }

    /** AttID.incrementNumber */
    method IncrementNumber()
      modifies this
      ensures number == old(number) + 1
      ensures name == old(name) && required == old(required)
      ensures defaultValue == old(defaultValue) && prefix == old(prefix)
    {
      number := number + 1;
    }
  }

  /** The first attribute of `attrs` whose name is `n` (Elem.getAttribute). */
  function AttributeNamed(attrs: seq<Attrib>, n: string): (r: Option<Attrib>)
    reads attrs
    ensures r.Some? ==> r.value in attrs && r.value.name == n
    ensures r.None? <==> forall i :: 0 <= i < |attrs| ==> attrs[i].name != n
  {
    if |attrs| == 0 then None
    else if attrs[0].name == n then Some(attrs[0])
    else AttributeNamed(attrs[1..], n)
  }

  datatype ElemKind = Extent | Link

  /**
   * A tag type. `kind` tells ElemExtent from ElemLink; `spans` is ElemExtent.mSpans (None while
   * it is still null).
   */
  class Elem {
    const name: string
    const kind: ElemKind
    var attributes: seq<Attrib>
    var spans: Option<string>

    /**
     * ElemExtent(name, pre): a required `id` attribute with prefix `pre`, a `spans` attribute
     * that starts out required, and a non-required `text` attribute, in that order.
     */
    constructor Extent(name: string, pre: string)
      ensures this.name == name && kind == ElemKind.Extent && spans == None
      ensures |attributes| == 3 && fresh(attributes[0]) && fresh(attributes[1]) && fresh(attributes[2])
      ensures attributes[0].name == "id" && attributes[0].kind == IdAtt
      ensures attributes[0].prefix == pre && attributes[0].required && attributes[0].number == 0
      ensures attributes[1].name == "spans" && attributes[1].kind == DataAtt && attributes[1].required
      ensures attributes[2].name == "text" && attributes[2].kind == DataAtt && !attributes[2].required
    {
      this.name := name;
      kind := ElemKind.Extent;
      spans := None;
      var id := new Attrib.Id("id", pre, true);
      var sp := new Attrib.Data("spans", true);
      var text := new Attrib.Data("text", false);
      attributes := [id, sp, text];
    }

    /**
     * ElemLink(name, pre), which is not part of this model: assumed to add a required `id`
     * attribute with prefix `pre`, then the anchors `fromID`, `fromText`, `toID`, `toText`.
     */
    constructor Link(name: string, pre: string)
      ensures this.name == name && kind == ElemKind.Link && spans == None
      ensures |attributes| == 5 && forall i :: 0 <= i < 5 ==> fresh(attributes[i])
      ensures attributes[0].name == "id" && attributes[0].kind == IdAtt
      ensures attributes[0].prefix == pre && attributes[0].required && attributes[0].number == 0
      ensures attributes[1].name == "fromID" && attributes[2].name == "fromText"
      ensures attributes[3].name == "toID" && attributes[4].name == "toText"
    {
      this.name := name;
      kind := ElemKind.Link;
      spans := None;
      var id := new Attrib.Id("id", pre, true);
      var fromId := new Attrib.Data("fromID", true);
      var fromText := new Attrib.Data("fromText", false);
      var toId := new Attrib.Data("toID", true);
      var toText := new Attrib.Data("toText", false);
      attributes := [id, fromId, fromText, toId, toText];
    }

    function GetAttribute(n: string): Option<Attrib>
      reads this, attributes
    {
      AttributeNamed(attributes, n)
    }

    /** The attribute names, in declaration order (the columns of the tag type's table). */
    function AttributeNames(): (r: seq<string>)
      reads this, attributes
      ensures |r| == |attributes|
      ensures forall i :: 0 <= i < |r| ==> r[i] == attributes[i].name
    {
      seq(|attributes|, i reads this, attributes requires 0 <= i < |attributes| => attributes[i].name)
    }

    method AddAttribute(a: Attrib)
      modifies this
      ensures attributes == old(attributes) + [a]
      ensures spans == old(spans)
    {
      attributes := attributes + [a];
    }

    method SetSpans(s: string)
      modifies this
      ensures GetSpans() == Some(s)
      ensures attributes == old(attributes)
    {
      spans := Some(s);
    }

    function GetSpans(): Option<string>
      reads this
    {
      spans
    }
  }

  /** The first element named `n`, ignoring case. */
  function ElemNamed(es: seq<Elem>, n: string): (r: Option<Elem>)
    ensures r.None? <==> forall i :: 0 <= i < |es| ==> !EqualsIgnoreCase(es[i].name, n)
    ensures r.Some? ==>
      exists k :: 0 <= k < |es| && es[k] == r.value && EqualsIgnoreCase(r.value.name, n)
        && forall j :: 0 <= j < k ==> !EqualsIgnoreCase(es[j].name, n)
  {
    if |es| == 0 then None
    else if EqualsIgnoreCase(es[0].name, n) then Some(es[0])
    else
      var r := ElemNamed(es[1..], n);
      if r.Some? then
        var k :| 0 <= k < |es[1..]| && es[1..][k] == r.value && EqualsIgnoreCase(r.value.name, n)
          && forall j :: 0 <= j < k ==> !EqualsIgnoreCase(es[1..][j].name, n);
        assert es[k + 1] == r.value;
        r
      else r
  }

  /** Every attribute object of the elements in `es`. */
  ghost function AttribsOf(es: seq<Elem>): set<Attrib>
    reads es
  {
    set e, a | e in es && a in e.attributes :: a
  }

  lemma AttribsOfFacts(es: seq<Elem>)
    requires |es| > 0
    ensures forall a :: a in es[0].attributes ==> a in AttribsOf(es)
    ensures AttribsOf(es[1..]) <= AttribsOf(es)
  {
    forall a | a in es[0].attributes
      ensures a in AttribsOf(es)
    {
      assert es[0] in es;
    }
    forall a | a in AttribsOf(es[1..])
      ensures a in AttribsOf(es)
    {
      var e :| e in es[1..] && a in e.attributes;
      assert e in es;
    }
  }

  /** The id prefix of `e`: its `id` attribute cast to AttID; null and wrong kind are errors. */
  function IdPrefix(e: Elem): (r: Result<string>)
    reads e, e.attributes
    ensures r.Ok? <==> e.GetAttribute("id").Some? && e.GetAttribute("id").value.kind == IdAtt
    ensures r.Ok? ==> r.value == e.GetAttribute("id").value.prefix
  {
    match e.GetAttribute("id")
    case None => Fail(NullPointer)
    case Some(a) => if a.kind != IdAtt then Fail(ClassCast) else Ok(a.prefix)
  }

  /** getElementIDs: one prefix per element in order, or the first element's failure. */
  function ElementIds(es: seq<Elem>): Result<seq<string>>
    reads es, AttribsOf(es)
  {
    if |es| == 0 then Ok([])
    else
      AttribsOfFacts(es);
      var p := IdPrefix(es[0]);
      if p.Fail? then Fail(p.exc)
      else
        var rest := ElementIds(es[1..]);
        if rest.Fail? then rest else Ok([p.value] + rest.value)
  }

  /**
   * getElementIDs succeeds exactly when every element has an AttID `id` attribute, and then
   * lists their prefixes in element order.
   */
  lemma {:induction false} ElementIdsInOrder(es: seq<Elem>)
    ensures ElementIds(es).Ok? <==> forall i :: 0 <= i < |es| ==> IdPrefix(es[i]).Ok?
    ensures ElementIds(es).Ok? ==> |ElementIds(es).value| == |es|
    ensures ElementIds(es).Ok? ==>
      forall i :: 0 <= i < |es| ==> ElementIds(es).value[i] == IdPrefix(es[i]).value
    decreases |es|
  {
    if |es| > 0 {
      ElementIdsInOrder(es[1..]);
      assert forall i :: 1 <= i < |es| ==> es[i] == es[1..][i - 1];
    }
  }

  /** An extent whose `spans` attribute is optional, i.e. a non-consuming tag type. */
  predicate NonConsuming(e: Elem)
    reads e, e.attributes
  {
    e.kind == ElemKind.Extent && e.GetAttribute("spans").Some? && !e.GetAttribute("spans").value.required
  }

  /** The positions from `lo` on where `flags` holds, in increasing order. */
  function Marked(flags: seq<bool>, lo: nat): (r: seq<nat>)
    requires lo <= |flags|
    ensures forall k :: 0 <= k < |r| ==> lo <= r[k] < |flags|
    ensures forall k, l :: 0 <= k < l < |r| ==> r[k] < r[l]
    ensures forall i :: lo <= i < |flags| ==> (i in r <==> flags[i])
    decreases |flags| - lo
  {
    if lo == |flags| then []
    else
      var rest := Marked(flags, lo + 1);
      if flags[lo] then [lo] + rest else rest
  }

  /**
   * getNCElements keeps the order of the DTD: with `flags[i]` telling whether element `i` is
   * a non-consuming extent type, its answer lists the elements at the marked positions, in
   * increasing order, each once.
   */
  lemma {:induction false} NcElementsInOrder(es: seq<Elem>, flags: seq<bool>, lo: nat)
    requires |flags| == |es| && lo <= |es|
    requires forall i :: 0 <= i < |es| ==> flags[i] == NonConsuming(es[i])
    ensures NcElements(es[lo..]).Ok? ==>
      |NcElements(es[lo..]).value| == |Marked(flags, lo)|
      && forall k :: 0 <= k < |Marked(flags, lo)| ==> NcElements(es[lo..]).value[k] == es[Marked(flags, lo)[k]]
    decreases |es| - lo
  {
    if lo < |es| {
      NcElementsInOrder(es, flags, lo + 1);
      var s := es[lo..];
      assert s[0] == es[lo] && s[1..] == es[lo + 1..];
      var r := NcElements(s);
      if r.Ok? {
        var rest := NcElements(es[lo + 1..]);
        assert rest.Ok?;
        if flags[lo] {
          assert r.value == [es[lo]] + rest.value;
        } else {
          assert r.value == rest.value;
        }
      }
    }
  }

  /** getNCElements: the non-consuming extent types, in order; an extent without `spans` fails. */
  function NcElements(es: seq<Elem>): (r: Result<seq<Elem>>)
    reads es, AttribsOf(es)
    ensures r.Ok? <==>
      forall i :: 0 <= i < |es| && es[i].kind == ElemKind.Extent ==> es[i].GetAttribute("spans").Some?
    ensures r.Ok? ==> forall i :: 0 <= i < |r.value| ==> r.value[i] in es && NonConsuming(r.value[i])
    ensures r.Ok? ==> forall i :: 0 <= i < |es| && NonConsuming(es[i]) ==> es[i] in r.value
  {
    if |es| == 0 then Ok([])
    else
      AttribsOfFacts(es);
      var e := es[0];
      if e.kind == ElemKind.Extent && e.GetAttribute("spans").None? then Fail(NullPointer)
      else
        var rest := NcElements(es[1..]);
        assert forall i :: 1 <= i < |es| ==> es[i] == es[1..][i - 1];
        if rest.Fail? then rest
        else if e.kind == ElemKind.Extent && !e.GetAttribute("spans").value.required then
          Ok([e] + rest.value)
        else rest
  }

  /** The schema registry: the tag types in declaration order and the task name. */
  class DTD {
    var elements: seq<Elem>
    var name: string

    constructor ()
      ensures elements == [] && name == "XML"
    {
      elements := [];
      name := "XML";
    }

    function GetName(): string
      reads this
    {
      name
    }

    method SetName(t: string)
      modifies this
      ensures GetName() == t && elements == old(elements)
    {
      name := t;
    }

    method AddElem(e: Elem)
      modifies this
      ensures elements == old(elements) + [e] && name == old(name)
      ensures GetElements()[|GetElements()| - 1] == e
    {
      elements := elements + [e];
    }

    function GetElements(): seq<Elem>
      reads this
    {
      elements
    }

    /** getElem: the first element whose name matches ignoring case, or null. */
    method GetElem(n: string) returns (r: Option<Elem>)
      ensures r == ElemNamed(elements, n)
    {
      var i := 0;
      while i < |elements|
        invariant 0 <= i <= |elements|
        invariant ElemNamed(elements, n) == ElemNamed(elements[i..], n)
      {
        assert elements[i..][1..] == elements[i + 1..];
        if EqualsIgnoreCase(elements[i].name, n) {
          return Some(elements[i]);
        }
        i := i + 1;
      }
      return None;
    }

    /** hasElem: some element's name matches ignoring case. */
    method HasElem(n: string) returns (b: bool)
      ensures b <==> ElemNamed(elements, n).Some?
      ensures b <==> exists i :: 0 <= i < |elements| && EqualsIgnoreCase(elements[i].name, n)
    {
      var i := 0;
      while i < |elements|
        invariant 0 <= i <= |elements|
        invariant forall j :: 0 <= j < i ==> !EqualsIgnoreCase(elements[j].name, n)
      {
        if EqualsIgnoreCase(elements[i].name, n) {
          return true;
        }
        i := i + 1;
      }
      return false;
    }

    /** getElementIDs */
    method GetElementIds() returns (r: Result<seq<string>>)
      ensures r == ElementIds(elements)
    {
      var ids: seq<string> := [];
      var i := 0;
      while i < |elements|
        invariant 0 <= i <= |elements|
        invariant forall j :: 0 <= j < i ==> IdPrefix(elements[j]).Ok?
        invariant |ids| == i && forall j :: 0 <= j < i ==> ids[j] == IdPrefix(elements[j]).value
      {
        var p := IdPrefix(elements[i]);
        if p.Fail? {
          FirstFailure(elements, i);
          return Fail(p.exc);
        }
        ids := ids + [p.value];
        i := i + 1;
      }
      IdsAgree(elements, ids);
      return Ok(ids);
    }

    /** getNCElements */
    method GetNcElements() returns (r: Result<seq<Elem>>)
      ensures r == NcElements(elements)
    {
      r := CollectNc(elements);
    }
  }

  /** The loop of getNCElements over the element list. */
  method CollectNc(elements: seq<Elem>) returns (r: Result<seq<Elem>>)
    ensures r == NcElements(elements)
  {
    var nc: seq<Elem> := [];
    var i := 0;
    assert elements[i..] == elements;
    PrependElemsNothing(NcElements(elements));
    while i < |elements|
      invariant 0 <= i <= |elements|
      invariant NcElements(elements) == PrependElems(nc, NcElements(elements[i..]))
    {
      var e := elements[i];
      NcElementsStep(elements, i);
      if e.kind == ElemKind.Extent {
        var sp := e.GetAttribute("spans");
        if sp.None? {
          return Fail(NullPointer);
        }
        if !sp.value.required {
          PrependElemsTwice(nc, e, NcElements(elements[i + 1..]));
          nc := nc + [e];
        } else {
          PrependElemsNone(nc, NcElements(elements[i + 1..]));
        }
      } else {
        PrependElemsNone(nc, NcElements(elements[i + 1..]));
      }
      i := i + 1;
    }
    assert elements[i..] == [];
    assert nc + [] == nc;
    return Ok(nc);
  }

  lemma PrependElemsNothing(r: Result<seq<Elem>>)
    ensures PrependElems([], r) == r
  {
    if r.Ok? {
      assert [] + r.value == r.value;
    }
  }

  function PrependElems(xs: seq<Elem>, r: Result<seq<Elem>>): Result<seq<Elem>>
  {
    if r.Ok? then Ok(xs + r.value) else r
  }

  lemma PrependElemsNone(xs: seq<Elem>, r: Result<seq<Elem>>)
    ensures PrependElems(xs, PrependElems([], r)) == PrependElems(xs, r)
  {
    if r.Ok? {
      assert [] + r.value == r.value;
    }
  }

  /** One element of getNCElements' loop: it fails, is skipped, or is taken. */
  lemma NcElementsStep(es: seq<Elem>, i: nat)
    requires i < |es|
    ensures es[i].kind == ElemKind.Extent && es[i].GetAttribute("spans").None? ==>
      NcElements(es[i..]) == Fail(NullPointer)
    ensures !(es[i].kind == ElemKind.Extent && es[i].GetAttribute("spans").None?) ==>
      NcElements(es[i..]) == PrependElems(if NonConsuming(es[i]) then [es[i]] else [], NcElements(es[i + 1..]))
  {
    var s := es[i..];
    assert s[0] == es[i] && s[1..] == es[i + 1..];
    var rest := NcElements(es[i + 1..]);
    if rest.Ok? && !NonConsuming(es[i]) {
      assert [] + rest.value == rest.value;
    }
  }

  lemma PrependElemsTwice(xs: seq<Elem>, x: Elem, r: Result<seq<Elem>>)
    ensures PrependElems(xs, PrependElems([x], r)) == PrependElems(xs + [x], r)
  {
    if r.Ok? {
      assert xs + ([x] + r.value) == (xs + [x]) + r.value;
    }
  }

  lemma {:induction false} FirstFailure(es: seq<Elem>, i: nat)
    requires i < |es| && IdPrefix(es[i]).Fail?
    requires forall j :: 0 <= j < i ==> IdPrefix(es[j]).Ok?
    ensures ElementIds(es) == Fail(IdPrefix(es[i]).exc)
    decreases i
  {
    if i > 0 {
      assert es[1..][i - 1] == es[i];
      FirstFailure(es[1..], i - 1);
    }
  }

  lemma {:induction false} IdsAgree(es: seq<Elem>, ids: seq<string>)
    requires forall j :: 0 <= j < |es| ==> IdPrefix(es[j]).Ok?
    requires |ids| == |es| && forall j :: 0 <= j < |es| ==> ids[j] == IdPrefix(es[j]).value
    ensures ElementIds(es) == Ok(ids)
    decreases |es|
  {
    if |es| > 0 {
      IdsAgree(es[1..], ids[1..]);
      assert [ids[0]] + ids[1..] == ids;
    }
  }
}

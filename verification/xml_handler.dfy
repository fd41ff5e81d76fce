/**
 * XMLHandler: the SAX callbacks that collect the tags of an annotation file. Each non-text
 * element becomes an attribute table filed under its tag name; the first character chunk
 * after the `text` element is the document text. Legacy `start`/`end` attributes are folded
 * into the `spans` attribute.
 */
module XmlHandling {
  import opened Common
  import opened JavaStrings
  import opened Spans
  import opened Collections

  /**
   * The legacy conversion on a value: a table with both `start` and `end` and no `spans`
   * loses the first two and gains `spans = start~end`; any other table is left alone.
   */
  function LegacyConverted(m: map<string, string>): (r: map<string, string>)
    ensures "spans" in m ==> r == m
    ensures !("start" in m && "end" in m) ==> r == m
    ensures "spans" !in m && "start" in m && "end" in m ==>
      "start" !in r && "end" !in r && "spans" in r
      && r["spans"] == m["start"] + [SPAN_DELIMITER] + m["end"]
      && forall k :: k != "start" && k != "end" && k != "spans" ==>
        (k in r <==> k in m) && (k in m ==> r[k] == m[k])
  {
    if "spans" !in m && "start" in m && "end" in m then
      (m - {"start", "end"})["spans" := m["start"] + [SPAN_DELIMITER] + m["end"]]
    else m
  }

  /** Converting twice is converting once: a converted table never qualifies again. */
  lemma LegacyConvertedIdempotent(m: map<string, string>)
    ensures LegacyConverted(LegacyConverted(m)) == LegacyConverted(m)
  {
  }

  /** A table after conversion never holds `start` and `end` without `spans`. */
  predicate Settled(m: map<string, string>)
  {
    "spans" in m || !("start" in m && "end" in m)
  }

  lemma ConvertedIsSettled(m: map<string, string>)
    ensures Settled(LegacyConverted(m))
    ensures Settled(m) <==> LegacyConverted(m) == m
  {
  }

  /**
   * The table startElement has built after the attributes `atts`: each one is put, and the
   * conversion runs after each put.
   */
  function TableAfter(atts: seq<(string, string)>): (r: map<string, string>)
    ensures |atts| > 0 ==> Settled(r)
  {
    if |atts| == 0 then map[]
    else
      var last := atts[|atts| - 1];
      ConvertedIsSettled(TableAfter(atts[..|atts| - 1])[last.0 := last.1]);
      LegacyConverted(TableAfter(atts[..|atts| - 1])[last.0 := last.1])
  }

  /** An attribute name that the conversion never touches. */
  predicate Plain(k: string)
  {
    k != "start" && k != "end" && k != "spans"
  }

  /** A plain attribute is in the table exactly when some attribute carries its name. */
  lemma {:induction false} PlainAttributesKept(atts: seq<(string, string)>, k: string)
    requires Plain(k)
    ensures k in TableAfter(atts) <==> exists i :: 0 <= i < |atts| && atts[i].0 == k
    decreases |atts|
  {
    if |atts| > 0 {
      var init := atts[..|atts| - 1];
      PlainAttributesKept(init, k);
      if exists i :: 0 <= i < |init| && init[i].0 == k {
        var i :| 0 <= i < |init| && init[i].0 == k;
        assert atts[i] == init[i];
      }
      if exists i :: 0 <= i < |atts| && atts[i].0 == k {
        var i :| 0 <= i < |atts| && atts[i].0 == k;
        if i < |init| {
          assert init[i] == atts[i];
        }
      }
    }
  }

  /** The last value given to a plain attribute is the one the table keeps. */
  lemma {:induction false} PlainAttributeLastValue(atts: seq<(string, string)>, i: nat)
    requires i < |atts| && Plain(atts[i].0)
    requires forall j :: i < j < |atts| ==> atts[j].0 != atts[i].0
    ensures atts[i].0 in TableAfter(atts) && TableAfter(atts)[atts[i].0] == atts[i].1
    decreases |atts|
  {
    if i < |atts| - 1 {
      var init := atts[..|atts| - 1];
      assert init[i] == atts[i];
      PlainAttributeLastValue(init, i);
    }
  }

  /** One attribute table (a Hashtable<String, String> in the Java code), shared by reference. */
  class AttributeTable {
    var entries: map<string, string>

    constructor ()
      ensures entries == map[]
    {
      entries := map[];
    }

    method Put(k: string, v: string)
      modifies this
      ensures entries == old(entries)[k := v]
    {
      entries := entries[k := v];
    }

    /** convertLegXml: the legacy conversion, in place. */
    method ConvertLegXml()
      modifies this
      ensures entries == LegacyConverted(old(entries))
    {
      if "spans" !in entries {
        if "start" in entries && "end" in entries {
          var start := entries["start"];
          var end := entries["end"];
          entries := entries - {"start", "end"};
          entries := entries["spans" := start + [SPAN_DELIMITER] + end];
        }
      }
    }
  }

  /** `n` copies of `x`. */
  function Copies<T>(x: T, n: nat): (r: seq<T>)
    ensures |r| == n && forall i :: 0 <= i < n ==> r[i] == x
  {
    seq(n, _ => x)
  }

  class XMLHandler {
    /** newTags: the attribute tables of each tag name, in document order. */
    const newTags: HashCollection<string, AttributeTable>
    /** mHasText */
    var hasText: bool
    /** mText */
    var text: string

    constructor ()
      ensures fresh(newTags) && newTags.hash == map[]
      ensures !hasText && text == ""
    {
      newTags := new HashCollection();
      hasText := false;
      text := "";
    }

    /**
     * startElement: a `text` element (ignoring case) only raises the text flag. Any other
     * element gets one new table; every attribute is put into it, the table is converted and
     * then filed again under the tag name. So a tag with n attributes is filed n times, all
     * n entries being the same table, and a tag without attributes is not filed at all.
     */
    method StartElement(tagName: string, atts: seq<(string, string)>)
      modifies this, newTags
      ensures EqualsIgnoreCase(tagName, "text") ==>
        hasText && newTags.hash == old(newTags.hash)
      ensures !EqualsIgnoreCase(tagName, "text") ==> hasText == old(hasText)
      ensures !EqualsIgnoreCase(tagName, "text") && |atts| == 0 ==> newTags.hash == old(newTags.hash)
      ensures !EqualsIgnoreCase(tagName, "text") && |atts| > 0 ==>
        exists t: AttributeTable ::
          fresh(t) && t.entries == TableAfter(atts)
          && newTags.hash == Appended(old(newTags.hash), tagName, Copies(t, |atts|))
      ensures text == old(text)
    {
      if EqualsIgnoreCase(tagName, "text") {
        hasText := true;
      } else {
        var tag := new AttributeTable();
        var i := 0;
        while i < |atts|
          invariant 0 <= i <= |atts|
          invariant tag.entries == TableAfter(atts[..i])
          invariant newTags.hash == Appended(old(newTags.hash), tagName, Copies(tag, i))
          invariant hasText == old(hasText) && text == old(text)
        {
          assert atts[..i + 1][..i] == atts[..i];
          tag.Put(atts[i].0, atts[i].1);
          tag.ConvertLegXml();
          assert Copies(tag, i + 1) == Copies(tag, i) + [tag];
          AppendedTwice(old(newTags.hash), tagName, Copies(tag, i), tag);
          newTags.PutEnt(tagName, tag);
          i := i + 1;
        }
        assert atts[..i] == atts;
      }
    }

    /** characters: keep the chunk only when it is the first one after a `text` start. */
    method Characters(chunk: string)
      modifies this
      ensures !hasText
      ensures text == (if old(hasText) then chunk else old(text))
    {
      if hasText {
        text := chunk;
        hasText := false;
      }
    }
  }
}

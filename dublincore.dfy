/** The `dublin_core` document `Item.toXML(schema)` produces
    (item.py:119-140), as functions of the attribute dictionary. */
module DublinCore {
  import opened Text
  import opened Html
  import opened FieldNames
  import opened Attributes
  import opened Sequences

  /** `os.linesep`, fixed to its POSIX value. */
  const LineSeparator := "\n"

  const CloseTag := "</dcvalue>" + LineSeparator

  /** The opening line; the schema name is inserted as given, unescaped. */
  function Header(schema: string): string
  {
    "<dublin_core schema=\"" + schema + "\">" + LineSeparator
  }

  const Footer := "</dublin_core>" + LineSeparator

  /** One `<dcvalue>` element: start tag, the text stripped and escaped,
      close tag and line separator. */
  function DcValue(tag: string, text: string): string
  {
    tag + Escape(Strip(text)) + CloseTag
  }

  /** What one delimiter-separated segment contributes: nothing when the
      segment is exactly empty, otherwise one element holding the segment
      stripped and escaped. The emptiness test comes before the strip, so
      a segment of whitespace gives an element with no content. */
  function ValueElement(tag: string, segment: string): string
  {
    if segment == "" then "" else DcValue(tag, segment)
  }

  /** The elements for a run of segments, in order. */
  function ValueElements(tag: string, segments: seq<string>): string
  {
    if segments == [] then ""
    else ValueElements(tag, segments[..|segments| - 1]) + ValueElement(tag, segments[|segments| - 1])
  }

  /** The elements for one attribute: its value split on the delimiter,
      all under the start tag derived from its name. */
  function FieldXml(name: string, value: string, delimiter: string): string
    requires |delimiter| > 0
  {
    ValueElements(OpenAttributeTag(name), Split(value, delimiter))
  }

  /** The elements for the attributes `keys`, in that order, skipping
      attributes whose schema is not `schema`. */
  function BodyXml(keys: seq<string>, entries: map<string, string>, schema: string, delimiter: string): string
    requires |delimiter| > 0
    requires forall k :: 0 <= k < |keys| ==> keys[k] in entries
  {
    if keys == [] then ""
    else
      var name := keys[|keys| - 1];
      BodyXml(keys[..|keys| - 1], entries, schema, delimiter) +
      (if GetSchema(name) == schema then FieldXml(name, entries[name], delimiter) else "")
  }

  /** One step of building the body key by key: the next attribute adds
      its elements when its schema is `schema`, and nothing otherwise. */
  lemma BodyXmlStep(head: string, keys: seq<string>, entries: map<string, string>, schema: string, delimiter: string, i: nat)
    requires |delimiter| > 0
    requires forall k :: 0 <= k < |keys| ==> keys[k] in entries
    requires i < |keys|
    ensures GetSchema(keys[i]) != schema ==>
      head + BodyXml(keys[..i + 1], entries, schema, delimiter) == head + BodyXml(keys[..i], entries, schema, delimiter)
    ensures GetSchema(keys[i]) == schema ==>
      head + BodyXml(keys[..i + 1], entries, schema, delimiter) ==
      (head + BodyXml(keys[..i], entries, schema, delimiter)) + FieldXml(keys[i], entries[keys[i]], delimiter)
  {
    TakeSnoc(keys, i);
    assert keys[..i + 1][..i] == keys[..i];
    var body := BodyXml(keys[..i], entries, schema, delimiter);
    if GetSchema(keys[i]) != schema {
      assert body + "" == body;
    } else {
      AppendAssoc(head, body, FieldXml(keys[i], entries[keys[i]], delimiter));
    }
  }

  /** The whole document for `schema`. */
  function DublinCoreXml(attributes: Dict, schema: string, delimiter: string): string
    requires attributes.Valid() && |delimiter| > 0
  {
    Header(schema) + BodyXml(attributes.keys, attributes.entries, schema, delimiter) + Footer
  }

  /** Adding a segment at the end adds its element at the end. */
  lemma ValueElementsSnoc(tag: string, s: seq<string>, x: string)
    ensures ValueElements(tag, s + [x]) == ValueElements(tag, s) + ValueElement(tag, x)
  {
    assert (s + [x])[..|s|] == s;
  }

  /** One step of building the elements of `segments` left to right:
      appending the next segment's element, in the three pieces a writer
      emits it in, extends the elements of the prefix to one more segment. */
  lemma ValueElementsStep(before: string, tag: string, segments: seq<string>, j: nat)
    requires j < |segments|
    ensures segments[j] == "" ==>
      before + ValueElements(tag, segments[..j + 1]) == before + ValueElements(tag, segments[..j])
    ensures segments[j] != "" ==>
      before + ValueElements(tag, segments[..j + 1]) ==
      ((before + ValueElements(tag, segments[..j]) + tag) + Escape(Strip(segments[j]))) + CloseTag
  {
    TakeSnoc(segments, j);
    ValueElementsSnoc(tag, segments[..j], segments[j]);
    var prefix := ValueElements(tag, segments[..j]);
    if segments[j] == "" {
      assert prefix + "" == prefix;
    } else {
      AppendAssoc3(before + prefix, tag, Escape(Strip(segments[j])), CloseTag);
      AppendAssoc(before, prefix, DcValue(tag, segments[j]));
    }
  }

  /** The elements of two runs of segments are the elements of each, in
      order. */
  lemma {:induction false} ValueElementsAppend(tag: string, a: seq<string>, b: seq<string>)
    ensures ValueElements(tag, a + b) == ValueElements(tag, a) + ValueElements(tag, b)
    decreases |b|
  {
    if b == [] {
      assert a + b == a;
    } else {
      var init, last := b[..|b| - 1], b[|b| - 1];
      assert a + b == (a + init) + [last];
      ValueElementsSnoc(tag, a + init, last);
      ValueElementsSnoc(tag, init, last);
      ValueElementsAppend(tag, a, init);
      Text.AppendAssoc(ValueElements(tag, a), ValueElements(tag, init), ValueElement(tag, last));
    }
  }

  /** An exactly empty segment, wherever it stands, adds nothing. */
  lemma EmptySegmentSkipped(tag: string, a: seq<string>, b: seq<string>)
    ensures ValueElements(tag, a + [""] + b) == ValueElements(tag, a + b)
  {
    ValueElementsAppend(tag, a + [""], b);
    ValueElementsSnoc(tag, a, "");
    ValueElementsAppend(tag, a, b);
    assert ValueElements(tag, a) + "" == ValueElements(tag, a);
  }

  /** A segment of whitespace only still gives an element, with no content. */
  lemma BlankSegmentKept(tag: string, segment: string)
    requires segment != "" && AllIn(segment, Whitespace)
    ensures ValueElements(tag, [segment]) == tag + CloseTag
  {
    assert ValueElements(tag, [segment]) == ValueElements(tag, []) + ValueElement(tag, segment);
    TrimAllIn(segment, Whitespace);
  }

  /** The segments that are not exactly empty, in order. */
  function NonEmptySegments(segments: seq<string>): (r: seq<string>)
    ensures forall k :: 0 <= k < |r| ==> r[k] != "" && r[k] in segments
    ensures forall k :: 0 <= k < |segments| && segments[k] != "" ==> segments[k] in r
  {
    if segments == [] then []
    else (if segments[0] == "" then [] else [segments[0]]) + NonEmptySegments(segments[1..])
  }

  /** One element per value, in order, each under `tag`. */
  function ElementList(tag: string, values: seq<string>): string
  {
    if values == [] then ""
    else DcValue(tag, values[0]) + ElementList(tag, values[1..])
  }

  lemma {:induction false} NonEmptySegmentsAppend(a: seq<string>, b: seq<string>)
    ensures NonEmptySegments(a + b) == NonEmptySegments(a) + NonEmptySegments(b)
  {
    if a == [] {
      assert a + b == b;
    } else {
      assert (a + b)[1..] == a[1..] + b;
      NonEmptySegmentsAppend(a[1..], b);
    }
  }

  lemma {:induction false} ElementListAppend(tag: string, a: seq<string>, b: seq<string>)
    ensures ElementList(tag, a + b) == ElementList(tag, a) + ElementList(tag, b)
  {
    if a == [] {
      assert a + b == b;
    } else {
      assert (a + b)[0] == a[0] && (a + b)[1..] == a[1..] + b;
      ElementListAppend(tag, a[1..], b);
      calc {
        ElementList(tag, a + b);
        DcValue(tag, a[0]) + ElementList(tag, a[1..] + b);
        DcValue(tag, a[0]) + (ElementList(tag, a[1..]) + ElementList(tag, b));
        ElementList(tag, a) + ElementList(tag, b);
      }
    }
  }

  /** The elements of one attribute are exactly one element per segment
      that is not exactly empty, left to right. */
  lemma {:induction false} OneElementPerNonEmptySegment(tag: string, segments: seq<string>)
    ensures ValueElements(tag, segments) == ElementList(tag, NonEmptySegments(segments))
  {
    if segments != [] {
      var init := segments[..|segments| - 1];
      var last := segments[|segments| - 1];
      assert segments == init + [last];
      OneElementPerNonEmptySegment(tag, init);
      NonEmptySegmentsAppend(init, [last]);
      ElementListAppend(tag, NonEmptySegments(init), NonEmptySegments([last]));
      if last != "" {
        assert NonEmptySegments([last]) == [last];
      } else {
        assert NonEmptySegments([last]) == [];
      }
    }
  }

  /** The attributes among `keys` whose schema is `schema`, in order. */
  function WithSchema(keys: seq<string>, schema: string): (r: seq<string>)
    ensures forall k :: 0 <= k < |r| ==> r[k] in keys && GetSchema(r[k]) == schema
  {
    if keys == [] then []
    else
      var name := keys[|keys| - 1];
      WithSchema(keys[..|keys| - 1], schema) + (if GetSchema(name) == schema then [name] else [])
  }

  /** Attributes of other schemas add nothing: the body is the same as for
      the attributes of the requested schema alone. */
  lemma {:induction false} OtherSchemasIgnored(keys: seq<string>, entries: map<string, string>, schema: string, delimiter: string)
    requires |delimiter| > 0
    requires forall k :: 0 <= k < |keys| ==> keys[k] in entries
    ensures forall k :: 0 <= k < |WithSchema(keys, schema)| ==> WithSchema(keys, schema)[k] in entries
    ensures BodyXml(keys, entries, schema, delimiter) == BodyXml(WithSchema(keys, schema), entries, schema, delimiter)
  {
    if keys != [] {
      var init := keys[..|keys| - 1];
      var name := keys[|keys| - 1];
      OtherSchemasIgnored(init, entries, schema, delimiter);
      var w := WithSchema(init, schema);
      if GetSchema(name) == schema {
        assert (w + [name])[..|w|] == w;
      } else {
        assert w + [] == w;
      }
    }
  }

  /** A schema no attribute uses yields a document with no elements. */
  lemma {:induction false} UnusedSchemaEmptyBody(keys: seq<string>, entries: map<string, string>, schema: string, delimiter: string)
    requires |delimiter| > 0
    requires forall k :: 0 <= k < |keys| ==> keys[k] in entries
    requires forall k :: 0 <= k < |keys| ==> GetSchema(keys[k]) != schema
    ensures BodyXml(keys, entries, schema, delimiter) == ""
  {
    if keys != [] {
      UnusedSchemaEmptyBody(keys[..|keys| - 1], entries, schema, delimiter);
    }
  }
}

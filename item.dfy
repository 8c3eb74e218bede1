/** `Item` (item.py:12-203): the in-memory record of one DSpace Simple
    Archive Format item. Metadata fields live in an insertion-ordered
    dictionary; the pseudo-fields `files` and `collections` have slots of
    their own. The pure helpers the class uses (`getSchema` and the tag
    builders) are in FieldNames, the document it serializes to in
    DublinCore. */
module Items {
  import opened Results
  import opened Text
  import opened Html
  import opened Sequences
  import opened FieldNames
  import opened Attributes
  import opened Handles
  import opened DublinCore

  /** The separator an `Item` uses unless it is given another. */
  const DefaultDelimiter := "||"

  /** The schema of each attribute name, in order. */
  function Schemas(keys: seq<string>): (r: seq<string>)
    ensures |r| == |keys|
  {
    if keys == [] then [] else Schemas(keys[..|keys| - 1]) + [GetSchema(keys[|keys| - 1])]
  }

  /** Key by key, the schemas are the keys' schemas. */
  lemma {:induction false} SchemasElementwise(keys: seq<string>)
    ensures forall i :: 0 <= i < |keys| ==> Schemas(keys)[i] == GetSchema(keys[i])
  {
    if keys != [] {
      var init := keys[..|keys| - 1];
      SchemasElementwise(init);
      forall i | 0 <= i < |init|
        ensures Schemas(keys)[i] == GetSchema(keys[i])
      {
        assert keys[i] == init[i];
      }
    }
  }

  /** What `getUsedSchemas` promises about its result: no schema twice,
      the schema of every attribute present, nothing else present, and
      the schemas ordered by the first attribute that uses each. */
  lemma UsedSchemas(keys: seq<string>)
    ensures var used := Dedup(Schemas(keys));
      && Distinct(used)
      && (forall k :: 0 <= k < |keys| ==> GetSchema(keys[k]) in used)
      && (forall i :: 0 <= i < |used| ==> exists k :: 0 <= k < |keys| && used[i] == GetSchema(keys[k]))
      && (forall i, j :: 0 <= i < j < |used| ==>
            FirstIndex(Schemas(keys), used[i]) < FirstIndex(Schemas(keys), used[j]))
  {
    var schemas := Schemas(keys);
    var used := Dedup(schemas);
    SchemasElementwise(keys);
    assert forall k :: 0 <= k < |keys| ==> schemas[k] == GetSchema(keys[k]);
    forall i | 0 <= i < |used|
      ensures exists k :: 0 <= k < |keys| && used[i] == GetSchema(keys[k])
    {
      var k := FirstIndex(schemas, used[i]);
      assert used[i] == GetSchema(keys[k]);
    }
    DedupFirstSeenOrder(schemas);
  }

  /** The name `getFiles` reports for one entry of `files`: the part
      after the last `/`, stripped. */
  function FileName(entry: string): string
  {
    Strip(Basename(entry))
  }

  /** A file name holds no `/`. */
  lemma FileNameHasNoSlash(entry: string)
    ensures '/' !in FileName(entry)
  {
    BasenameShape(entry);
    TrimKeepsAbsent(Basename(entry), Whitespace, '/');
  }

  /** What `getFiles` returns for the entries of `files`. */
  function FileNames(entries: seq<string>): (r: seq<string>)
    ensures |r| == |entries|
  {
    if entries == [] then []
    else FileNames(entries[..|entries| - 1]) + [FileName(entries[|entries| - 1])]
  }

  /** What `getFilePaths` returns for the entries of `files`. */
  function FilePaths(entries: seq<string>): (r: seq<string>)
    ensures |r| == |entries|
  {
    if entries == [] then []
    else FilePaths(entries[..|entries| - 1]) + [Strip(entries[|entries| - 1])]
  }

  /** What `getCollections` returns for the types in `dc.type`. */
  function Collections(types: seq<string>): (r: seq<string>)
    ensures |r| == |types|
  {
    if types == [] then []
    else Collections(types[..|types| - 1]) + [ResolveCollection(Strip(types[|types| - 1]))]
  }

  /** Entry by entry, the file names are the names of the entries (so
      none holds a `/`). */
  lemma {:induction false} FileNamesElementwise(entries: seq<string>)
    ensures forall i :: 0 <= i < |entries| ==> FileNames(entries)[i] == FileName(entries[i])
  {
    if entries != [] {
      var init := entries[..|entries| - 1];
      FileNamesElementwise(init);
      forall i | 0 <= i < |init|
        ensures FileNames(entries)[i] == FileName(entries[i])
      {
        assert entries[i] == init[i];
      }
    }
  }

  /** Entry by entry, the file paths are the entries stripped, and
      stripping them again changes nothing. */
  lemma {:induction false} FilePathsElementwise(entries: seq<string>)
    ensures forall i :: 0 <= i < |entries| ==>
      FilePaths(entries)[i] == Strip(entries[i]) && Strip(FilePaths(entries)[i]) == FilePaths(entries)[i]
  {
    if entries != [] {
      var init := entries[..|entries| - 1];
      FilePathsElementwise(init);
      assert forall i :: 0 <= i < |init| ==> entries[i] == init[i];
      TrimIdempotent(entries[|entries| - 1], Whitespace);
    }
  }

  /** Type by type, a known type becomes its handle and an unknown one
      stays as it is, stripped. */
  lemma {:induction false} CollectionsElementwise(types: seq<string>)
    ensures forall i :: 0 <= i < |types| ==>
      var t := Strip(types[i]);
      Collections(types)[i] == if t in TypeHandles then TypeHandles[t] else t
  {
    if types != [] {
      var init := types[..|types| - 1];
      CollectionsElementwise(init);
      assert forall i :: 0 <= i < |init| ==> types[i] == init[i];
    }
  }

  class Item {
    /** Separates the values within one attribute, the file paths in
        `files`, and the types in `dc.type`. */
    var delimiter: string
    /** `_attributes`: the metadata fields. */
    var attributes: Dict
    /** The delimiter-joined bitstream paths. */
    var files: string
    /** The delimiter-joined collection list; stored, never read. */
    var collections: string

    /** The dictionary is well formed, the delimiter can split, and the
        two slot names never become dictionary keys. */
    ghost predicate Valid()
      reads this
    {
      && |delimiter| > 0
      && attributes.Valid()
      && "files" !in attributes.keys
      && "collections" !in attributes.keys
    }

    /** A fresh item with no attributes and empty `files` and
        `collections`. */
    constructor (delimiter: string := DefaultDelimiter)
      requires |delimiter| > 0
      ensures Valid()
      ensures this.delimiter == delimiter && attributes == Empty
      ensures files == "" && collections == ""
    {
      this.delimiter := delimiter;
      attributes := Empty;
      files := "";
      collections := "";
    }

    /** `getAttributes`: the whole dictionary, keys in insertion order. */
    method GetAttributes() returns (d: Dict)
      requires Valid()
      ensures d.Valid() && d == attributes
      ensures "files" !in d.keys && "collections" !in d.keys
    {
      d := attributes;
    }

    /** `setAttribute`: the names `files` and `collections` go to their own
        slots and leave the dictionary alone; any other name is stored in
        the dictionary, and then the slots are left alone. */
    method SetAttribute(attribute: string, value: string)
      requires Valid()
      modifies this
      ensures Valid() && delimiter == old(delimiter)
      ensures attribute == "files" ==>
        files == value && collections == old(collections) && attributes == old(attributes)
      ensures attribute == "collections" ==>
        collections == value && files == old(files) && attributes == old(attributes)
      ensures attribute != "files" && attribute != "collections" ==>
        attributes == old(attributes).Put(attribute, value) && files == old(files) && collections == old(collections)
    {
      if attribute == "files" {
        files := value;
      } else if attribute == "collections" {
        collections := value;
      } else {
        attributes := attributes.Put(attribute, value);
      }
    }

    /** `getAttribute`: the stored value, or a `KeyError` for a name that
        was never set (or was one of the two slot names). */
    method GetAttribute(attribute: string) returns (r: Result<string>)
      requires Valid()
      ensures r.Ok? <==> attribute in attributes.keys
      ensures r.Ok? ==> r.value == attributes.entries[attribute]
      ensures r.KeyError? ==> r.key == attribute
      ensures attribute == "files" || attribute == "collections" ==> r == KeyError(attribute)
    {
      r := attributes.Get(attribute);
    }

    /** `getFiles`: one bare file name per delimiter-separated entry of
        `files`, in order. */
    method GetFiles() returns (values: seq<string>)
      requires Valid()
      ensures values == FileNames(Split(files, delimiter))
    {
      var entries := Split(files, delimiter);
      values := [];
      for i := 0 to |entries|
        invariant values == FileNames(entries[..i])
      {
        var file := Strip(Basename(entries[i]));
        TakeSnoc(entries, i);
        values := values + [file];
      }
      TakeAll(entries);
    }

    /** `getFilePaths`: one path per delimiter-separated entry of `files`,
        in order. */
    method GetFilePaths() returns (values: seq<string>)
      requires Valid()
      ensures values == FilePaths(Split(files, delimiter))
    {
      var entries := Split(files, delimiter);
      values := [];
      for i := 0 to |entries|
        invariant values == FilePaths(entries[..i])
      {
        var file := Strip(entries[i]);
        TakeSnoc(entries, i);
        values := values + [file];
      }
      TakeAll(entries);
    }

    /** `getCollections`: reads `dc.type` (a `KeyError` when it is not
        set) and gives one collection per delimiter-separated type, in
        order. The `collections` slot plays no part. */
    method GetCollections() returns (r: Result<seq<string>>)
      requires Valid()
      ensures "dc.type" !in attributes.keys ==> r == KeyError("dc.type")
      ensures "dc.type" in attributes.keys ==>
        r == Ok(Collections(Split(attributes.entries["dc.type"], delimiter)))
    {
      var lookup := attributes.Get("dc.type");
      if lookup.KeyError? {
        return KeyError("dc.type");
      }
      var types := Split(lookup.value, delimiter);
      var values := [];
      for i := 0 to |types|
        invariant values == Collections(types[..i])
      {
        var collection := Strip(types[i]);
        collection := ResolveCollection(collection);
        TakeSnoc(types, i);
        values := values + [collection];
      }
      TakeAll(types);
      r := Ok(values);
    }

    /** `getUsedSchemas`: every schema some attribute belongs to, each
        once, in the order of the attribute that first uses it. */
    method GetUsedSchemas() returns (values: seq<string>)
      requires Valid()
      ensures values == Dedup(Schemas(attributes.keys))
    {
      var keys := attributes.keys;
      values := [];
      for i := 0 to |keys|
        invariant values == Dedup(Schemas(keys[..i]))
      {
        var schema := GetSchema(keys[i]);
        TakeSnoc(keys, i);
        DedupSnoc(Schemas(keys[..i]), schema);
        if schema in values {
          continue;
        }
        values := values + [schema];
      }
      TakeAll(keys);
    }

    /** `toXML`: the `dublin_core` document for `mdschema`. */
    method ToXML(mdschema: string) returns (output: string)
      requires Valid()
      ensures output == DublinCoreXml(attributes, mdschema, delimiter)
    {
      output := "";
      output := output + Header(mdschema);
      var keys := attributes.keys;
      for i := 0 to |keys|
        invariant output == Header(mdschema) + BodyXml(keys[..i], attributes.entries, mdschema, delimiter)
      {
        var name := keys[i];
        var value := attributes.entries[name];
        BodyXmlStep(Header(mdschema), keys, attributes.entries, mdschema, delimiter, i);
        if GetSchema(name) != mdschema {
          continue;
        }
        var tagOpen := OpenAttributeTag(name);
        var values := Split(value, delimiter);
        output := AppendValueElements(output, tagOpen, values);
      }
      TakeAll(keys);
      output := output + Footer;
    }

    /** The inner loop of `toXML`: appends to `output` one element per
        non-empty segment of an attribute's value. */
    static method AppendValueElements(output: string, tagOpen: string, values: seq<string>) returns (r: string)
      ensures r == output + ValueElements(tagOpen, values)
    {
      var tagClose := CloseTag;
      r := output;
      for j := 0 to |values|
        invariant r == output + ValueElements(tagOpen, values[..j])
      {
        var val := values[j];
        ValueElementsStep(output, tagOpen, values, j);
        if val == "" {
          continue;
        }
        r := r + tagOpen;
        r := r + Escape(Strip(val));
        r := r + tagClose;
      }
      TakeAll(values);
    }
  }
}

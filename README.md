# DSpace item model

This project models `Item`, the in-memory record that the DSpace CSV
importer builds for each CSV row before writing it out as a Simple Archive
Format item. An item holds:

- an insertion-ordered dictionary of Dublin Core metadata fields, keyed by
  names such as `dc.contributor.author[en]`;
- a `files` slot and a `collections` slot;
- the delimiter (default `||`) that separates several values inside one
  field.

The model covers all the operations the item offers:

- setting and reading fields;
- listing its files, file paths, collections and used schemas;
- the helpers that turn a field name into a schema and a `<dcvalue ...>`
  start tag;
- `toXML`, which serializes the fields of one schema into a
  `dublin_core` document.

`Item` updates its fields in place, so it is a Dafny `class`. Its
list-building loops are methods with loop invariants. Each method is proved
equal to a recursive specification function (`FileNames`, `FilePaths`,
`Collections`, `Dedup(Schemas(..))`, `DublinCoreXml`). The
string-processing helpers are pure, so they are functions, and lemmas prove
what they mean.

Modules:

- `Results`: `Option` and `Result`. A `KeyError` stands for Python's
  exception on a missing dictionary key.
- `Text`: `str.split` with a separator, and `Join` as its inverse.
  `strip()` and `strip('_')`, and POSIX `os.path.basename`.
- `Html`: `html.escape(s, quote=True)`, and `Unescape` as its inverse.
- `Sequences`: first-seen de-duplication, the `if x in values: continue`
  idiom.
- `Attributes`: the insertion-ordered `dict`.
- `FieldNames`: `getSchema`, `stripAttributeLang`, and the element,
  qualifier and language fragments and start tag.
  - `QualifiedNames`: lemmas about names built from segments and a
    language tag.
- `Handles`: the publication-type to collection-handle table of
  `getCollections`.
- `DublinCore`: the document `toXML` produces, as functions, with lemmas
  about it.
- `Items`: the `Item` class.

Notes on the code as written, which the model follows:

- `getSchema` does not remove the `[lang]` suffix; the call that would do
  so is commented out (item.py:200). A name without a `.` therefore keeps
  its language tag in its schema: the schema of `dc[en]` is `dc[en]`.
- In `toXML`, a value segment is skipped only when it is exactly empty
  (item.py:132-133). The strip comes afterwards (item.py:136). A segment made
  only of whitespace therefore still yields a `<dcvalue>` element, with no
  text.
- The attribute fragments carry a space on each side (` element="x" `).
  The start tag of `dc.contributor.author` is therefore
  `<dcvalue element="contributor"  qualifier="author" >`.
- `getCollections` reads the `dc.type` field, not the `collections` slot.
  It raises `KeyError` when `dc.type` was never set. Any type missing from
  the table passes through unchanged.

## Model

| member | source | states |
|---|---|---|
| Items.Item.constructor | item.py:15-19 | a new item has the given delimiter (`||` when none is given), an empty dictionary, and empty `files` and `collections` |
| Items.Item.GetAttributes | item.py:24-25 | returns the item's dictionary, keys in insertion order; `files` and `collections` are never among its keys |
| Items.Item.SetAttribute | item.py:30-36 | `files` and `collections` go to their own slots and leave the dictionary alone; any other name is stored in the dictionary and both slots stay unchanged |
| Items.Item.GetAttribute | item.py:40-41 | the stored value when the name was set, otherwise `KeyError` carrying that name; `files` and `collections` always give `KeyError` |
| Attributes.Dict.Get | item.py:41 | `Ok` with the stored value exactly when the key is present; a missing key gives `KeyError(key)` |
| Attributes.Dict.Put | item.py:36 | the key maps to the new value and every other key keeps its value; a new key goes last in the order, an existing key keeps its place |
| Attributes.PutAllKeyOrder | item.py:36 | after a series of writes, the keys are the distinct names written, in order of first write |
| Items.Item.GetFiles | item.py:53-59 | the result is `FileNames` of the `files` slot split on the delimiter |
| Items.FileNamesElementwise | item.py:53-59 | entry `i` of the result is the base name of split entry `i`, stripped |
| Items.FileNameHasNoSlash | item.py:57 | a reported file name never contains `/` |
| Text.Basename | item.py:57 | no contract of its own: `BasenameShape` characterizes it |
| Text.BasenameShape | item.py:57 | the base name is the suffix after the last `/`: it holds no `/`, and a `/` comes just before it when it is shorter than the path |
| Items.Item.GetFilePaths | item.py:65-71 | the result is `FilePaths` of the `files` slot split on the delimiter |
| Items.FilePathsElementwise | item.py:65-71 | entry `i` is split entry `i` stripped, and stripping it again changes nothing |
| Items.Item.GetCollections | item.py:77-98 | `KeyError("dc.type")` when `dc.type` is unset; otherwise `Collections` of its value split on the delimiter |
| Items.CollectionsElementwise | item.py:92-97 | for each type, the stripped type's handle when the table knows the type, else the stripped type itself |
| Handles.ResolveCollection | item.py:79-94 | a type the table knows becomes one of the table's handles, any other type stays as it is; the result is never a type the table knows, so resolving it again changes nothing |
| Items.Item.GetUsedSchemas | item.py:104-113 | the result is the first-seen de-duplication of the attributes' schemas, in key order |
| Items.UsedSchemas | item.py:104-113 | the used schemas are distinct and include every attribute's schema; each is some attribute's schema; they are ordered by the first attribute that uses each |
| Sequences.Dedup | item.py:105-111 | the de-duplicated list has no repeats; every element of the input is in it, and nothing else |
| Sequences.DedupFirstSeenOrder | item.py:105-111 | de-duplication keeps elements in the order of their first occurrence |
| DublinCore.DublinCoreXml | item.py:120-140 | no contract of its own: the document `toXML` returns, header, the elements of the matching attributes in key order, footer; `OneElementPerNonEmptySegment`, `OtherSchemasIgnored` and `UnusedSchemaEmptyBody` state what it contains |
| Items.Item.ToXML | item.py:119-140 | the output is the `dublin_core` header, then the body for the attributes of `mdschema`, then the footer (`DublinCoreXml`) |
| Items.Item.AppendValueElements | item.py:127-137 | appends one element per segment of a value that is not exactly empty, left to right, to the running output |
| DublinCore.OneElementPerNonEmptySegment | item.py:127-137 | an attribute contributes exactly one element per segment that is not exactly empty, in order |
| DublinCore.EmptySegmentSkipped | item.py:132-133 | an empty segment anywhere among the values adds nothing |
| DublinCore.BlankSegmentKept | item.py:132-136 | a segment of only whitespace still yields an element, with no text |
| DublinCore.ValueElementsAppend | item.py:127-137 | the elements of two runs of segments are the elements of each, concatenated |
| DublinCore.OtherSchemasIgnored | item.py:123-125 | attributes of other schemas contribute nothing: the body equals the body of the matching attributes alone |
| DublinCore.UnusedSchemaEmptyBody | item.py:123-125 | a schema no attribute uses gives a document with no elements |
| FieldNames.OpenAttributeTag | item.py:145-152 | the start tag begins with `<dcvalue`, ends with `>`, and has no other `<` or `>` |
| FieldNames.AttributeLangString | item.py:158-164 | the language fragment is non-empty exactly when the name contains a bracketed run of word characters; it contains no `<` or `>` |
| FieldNames.SearchLang | item.py:159 | no contract of its own: the scan for `\[(\w+)\]`, characterized by `SearchLangLeftmost` |
| FieldNames.SearchLangLeftmost | item.py:159-161 | the regular-expression search finds nothing when no bracketed word run exists; otherwise it gives the leftmost one's text |
| FieldNames.StripAttributeLang | item.py:169-171 | the result is the prefix of the name before its first `[`, or the whole name when there is none |
| FieldNames.AttributeElementString | item.py:177-184 | the element fragment is non-empty exactly when the language-stripped name contains a `.`; it contains no `<` or `>` |
| FieldNames.AttributeQualifierString | item.py:190-197 | the qualifier fragment is non-empty exactly when the language-stripped name contains at least two `.`; it contains no `<` or `>` |
| FieldNames.Fragment | item.py:162 | an attribute fragment is non-empty and, once its value is escaped, contains no `<` or `>` |
| FieldNames.GetSchema | item.py:199-203 | the schema holds no raw `<`, `>`, `"` or `'`, being escaped; `SchemaIsTrimmedFirstSegment` gives its exact value |
| FieldNames.SchemaIsTrimmedFirstSegment | item.py:199-203 | the schema is exactly the escaped text before the first `.` (all of the name when there is none) with `_` trimmed from both ends, and unescaping it gives that trimmed text back |
| QualifiedNames.StripLangOfQualifiedName | item.py:169-171 | for a name built from segments and a language tag, stripping the language gives back the joined segments |
| QualifiedNames.ElementAndQualifierOfQualifiedName | item.py:177-197 | the element fragment carries the second segment and the qualifier fragment the third; each is empty when that segment is absent |
| QualifiedNames.LangOfQualifiedName | item.py:158-164 | the language fragment carries the bracketed tag, and is empty when there is none |
| QualifiedNames.SchemaOfQualifiedName | item.py:199-203 | the schema is the first segment trimmed of `_` and escaped; a one-segment name keeps its `[lang]` suffix |
| QualifiedNames.OpenTagOfQualifiedName | item.py:145-152 | the start tag lists element, qualifier and language, in that order, each only when the name carries it |
| Html.Escape | item.py:136 | no contract of its own: `html.escape(s, quote=True)`, characterized by `EscapeNoRawDelimiters`, `EscapeIdentity` and `UnescapeEscape` |
| Html.EscapeNoRawDelimiters | item.py:136 | escaped text contains no raw `<`, `>`, `"` or `'` |
| Html.EscapeIdentity | item.py:136 | escaping never shortens, and leaves a string unchanged exactly when it has no `&`, `<`, `>`, `"` or `'` |
| Html.UnescapeEscape | item.py:136 | escaping loses nothing: unescaping an escaped string gives the original |
| Text.Split | item.py:55 | a split has at least one piece, and joining the pieces with the separator gives back the input |
| Text.SplitLeftmost | item.py:55 | the first piece ends at the leftmost occurrence of the separator; there is one piece exactly when the separator does not occur; the other pieces are the split of the rest |
| Text.SplitPiecesFree | item.py:55 | no piece of a split contains the separator |
| Text.SplitJoinChar | item.py:179 | splitting on a one-character separator undoes joining pieces that do not contain it |
| Text.SplitCountChar | item.py:179-181 | splitting on a character gives one piece more than the character's occurrences |
| Text.TrimInfix | item.py:203 | the trimmed string is the longest infix that neither starts nor ends with a character of the stripped class; everything cut off belongs to that class |
| Text.Strip | item.py:136 | `str.strip()`: the result is no longer than the input and neither starts nor ends with whitespace; `TrimInfix` and `TrimIdempotent` characterize it fully |
| Text.TrimIdempotent | item.py:136 | stripping twice is the same as stripping once |

## Left out

- `dspace-csv-archive.py`, the command-line driver that reads the CSV and writes the archive, is not part of this model.
- `Item.__str__` (item.py:46-47) is left out. It is Python's `repr` formatting of a dict.
- The `print` warning for an unknown type in `getCollections` (item.py:96) is console output and is left out. The value it falls back to is modelled.
- `os.linesep` is fixed to `"\n"`, its POSIX value.
- Items.Item.constructor: requires a non-empty delimiter. With an empty one, Python's `str.split` raises `ValueError` in `getFiles` and `getFilePaths`, in `getCollections` once `dc.type` is set (before that it raises `KeyError`, item.py:90), and in `toXML` only when some attribute has the requested schema (item.py:124-129); that `ValueError` is not modelled.
- Items.Item.GetAttributes: returns the dictionary as a value. Python returns the live `dict`, so changes made through that reference are not modelled.
- FieldNames.AttributeLangString: `\w` is taken as ASCII `[A-Za-z0-9_]`. Python's default Unicode `\w` also matches non-ASCII letters and digits.
- Text.Strip: whitespace is the fixed set of characters for which Python's `str.isspace()` holds. Strings are sequences of Dafny `char`s, with no encoding step.
- Text.Basename: POSIX `os.path.basename`, splitting on `/` only.
- Items.Item.AppendValueElements: this is the inner loop of `toXML`, written as a separate method. It performs the same three appends per non-empty segment, in the same order.
- Attribute names and values are strings only; Python would accept other key and value types.

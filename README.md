# carbon-json-to-html, modelled in Dafny

This project models the two parts of the PHP library
`candybanana/carbon-json-to-html` that carry real logic, and proves
properties of the model.

- **The converter** (`Converter`). It turns a decoded Carbon editor document into
  HTML. `convert` rejects input that did not decode and input without a
  `sections` list. It then walks the node tree in pre-order:
  - Each node's component name is upper-cased at its first character and
    looked up among the registered renderers. A missing renderer stops the
    walk with a structural error.
  - The renderer is called with the current parent element.
  - The node's children are walked with the renderer's element as their parent.
  - Before a paragraph (component `Paragraph`, `paragraphType` `p`) is
    rendered, the converter looks up a caller-supplied custom-insert callback
    under the current value of its paragraph counter. If one is registered and
    the firing rule holds, the callback is called. The element it returns
    becomes the parent for this paragraph and for the later siblings at the
    same level.
  - Only after that check does the counter advance by one. The counter
    belongs to the converter, starts at 1 and is never reset.
- **The inline format compositor** (`Formats`). A paragraph's text carries
  format ranges (`type`, `from`, `to`, optional `attrs`). `render` splices an
  opening tag at `from + offset` and a closing tag at `to + offset` into the
  text, one range after the other. After each tag the running offset grows by
  that tag's `strlen`. `attributes` builds a tag's attribute string. It starts
  from the declared attributes and merges a per-type custom generator's result
  over them; the generator sees the current text. It then writes each entry as
  ` key="escaped value"`.

Layout (one module per file):

- `wrappers.dfy` holds `Option`.
- `sequences.dfy` holds one associativity lemma.
- `document.dfy` holds nodes, formats, UTF-8 byte length and `ucfirst`.
- `conversion.dfy` holds the class `Converter`, and its reference function
  `Walk`, a recursive function that defines what a walk produces.
- `conversion_proofs.dfy` holds the lemmas about `Walk`: pre-order, the
  counter, the inserts, growth of the trace, and the layout without inserts.
- `inline_formats.dfy` holds the class `Formats` and the reference function
  `Compose`, along with attribute arrays and merging.
- `formats_proofs.dfy` holds lemmas on merging, attribute strings, tag pairs,
  lengths and offsets, plus worked examples.
- `formats_placement.dfy` holds a model of the composed text in which every
  character remembers where it came from. `Lift` marks the characters of a
  string with one origin and `Chars` drops the marks. Both are proof devices
  with no counterpart in the source. On this model the lemmas show that no
  original character is lost, and that each tag character follows as many
  original characters as its range names.
- `formats_interleaving.dfy` states the composed text in closed form for
  ascending, disjoint ranges: the text cut at every range boundary, with
  each tag whole and in place.
- `formats_units.dfy` compares counting the offset in bytes with counting it
  in code points, and holds the discrepancy described under Findings.

The model represents the external parts abstractly:

- The DOM is represented by a trace of events.
  - `Rendered(node, renderer, parent, element)` is recorded for every renderer call.
  - `Inserted(paragraph, callback, parent, element)` is recorded for every callback that fires.
  - Every call returns a fresh element id from a counter.
- Renderers, callbacks and attribute generators are opaque values.
- `htmlentities` is a function parameter `escape`.
- PHP's `strlen` is the UTF-8 byte length of a string of code points.
- `UTF8::substr_replace(s, ins, pos, 0)` inserts `ins` at position `pos`,
  counted in code points.

Where the code and its description differ, the model follows the code:

- The "first key" of the custom inserts is the first key in insertion order,
  not the smallest key.
- Text lengths are byte lengths, not character counts.
- The paragraph counter carries over from one `convert` call to the next on
  the same converter.
- PHP's `empty` treats the text `"0"` as empty, so that text adds nothing to
  the preceding-text sum.

## Model

| member | source | states |
|---|---|---|
| Conversion.Converter.constructor | src/Converter.php:74-92 | the registry maps the name each default component reports to its renderer, the inserts are an empty array, the counter starts at 1 and the document is empty |
| Conversion.Converter.AddComponent | src/Converter.php:101-106 | the name maps to the new renderer, every other name keeps its renderer, and no name is added or removed |
| Conversion.Converter.Convert | src/Converter.php:115-134 | the inserts are stored; undecodable input fails with NotTraversable and its message, and input without `sections` fails with InvalidStructure and its message, both leaving the walk state untouched; otherwise the result is the walk over the sections with a null parent |
| Conversion.Converter.ConvertRecursive | src/Converter.php:144-189 | the loop over the siblings yields exactly the reference walk `Walk`: counter, fresh ids, trace and error; registry and inserts are unchanged |
| Conversion.Converter.InsertCustom | src/Converter.php:151-174 | for a paragraph the counter advances by one and the parent becomes the callback's element when the rule fires; for any other node nothing changes |
| Conversion.Converter.InsertDue | src/Converter.php:153-168 | decides to fire exactly when an insert exists at the counter and either the paragraph's text exceeds 120 bytes, or the counter is the first key in insertion order and the preceding-text sum exceeds 120; it then names the callback stored under the counter |
| Conversion.Converter.CallInsert | src/Converter.php:169 | the callback gets the current parent and the counter value, and returns a fresh element recorded in the trace |
| Conversion.Converter.Parse | src/Converter.php:183 | the renderer is called on the node under the given parent and returns a fresh element recorded in the trace |
| Conversion.SumPrevious | src/Converter.php:156-161 | the sum of the byte lengths of the non-empty texts of siblings `0..key`, the current one included |
| Conversion.Find | src/Converter.php:153 | a callback is found exactly when some entry has that key, and the one found is stored under it |
| Conversion.Inject | src/Converter.php:151-174 | a non-paragraph leaves parent and state alone; a paragraph advances the counter by exactly one |
| Conversion.IsParagraph | src/Converter.php:148-151 | definition: a node is a paragraph when its upper-cased-first component is `Paragraph` and its `paragraphType` is `p` |
| Conversion.PhpEmpty | src/Converter.php:158 | definition: PHP's `empty` on a string, true for `""` and `"0"` |
| Conversion.TextBytes | src/Converter.php:158-159 | definition: what one sibling adds to `$totalPrev`, its text's byte length unless the text is unset or empty |
| Conversion.SumTextBytes | src/Converter.php:156-161 | definition: the sum of `TextBytes` over a list of siblings |
| Conversion.PrevTextBytes | src/Converter.php:156-161 | definition: `$totalPrev` after the backward loop at sibling `key`, the sum of `TextBytes` over siblings `0..key`, the current one included |
| Conversion.InvalidJsonMessage | src/Converter.php:122 | definition: the message of the NotTraversable error for input that did not decode |
| Conversion.NotCarbonMessage | src/Converter.php:130 | definition: the message of the InvalidStructure error for input without `sections` |
| Conversion.NotLoadedMessage | src/Converter.php:179 | definition: the message of the InvalidStructure error naming the upper-cased-first component that has no renderer |
| Conversion.Fires | src/Converter.php:153-168 | definition: the firing rule, an insert registered at the counter, and a paragraph text over 120 bytes, or the counter equal to the first key in insertion order with more than 120 bytes of sibling text up to this one |
| Conversion.Walk | src/Converter.php:146-187 | definition: the reference walk over the siblings from `key` on, with insert check, renderer lookup by upper-cased-first name, the not-loaded error, the render under the parent in effect, the children under the new element and the next sibling under this level's parent |
| Conversion.RegistryOf | src/Converter.php:79-91 | definition: the registry after registering the (name, renderer) pairs in order, later names overwriting earlier ones |
| Conversion.RegistryOfLast | src/Converter.php:90-103 | a name is registered exactly when some pair carries it, and then with the renderer of the last such pair |
| Conversion.FindDistinct | src/Converter.php:153-169 | on an array with distinct keys, as every PHP array has, the callback found under a key is the one stored under it |
| Document.TextOf | src/Converter.php:158-159 | definition: `$node->text` as a string, the empty string when the text is unset |
| Document.ByteLength | src/Converter.php:159 | `strlen` lies between one and four bytes per code point |
| Document.ByteLengthAppend | src/Converter.php:159 | `strlen` is additive over concatenation |
| Document.ByteLengthAscii | src/Components/Formats.php:105-109 | byte length equals code-point length exactly on ASCII strings |
| Document.UcFirst | src/Converter.php:148 | only the first character changes, and only an ASCII lower-case letter, which becomes upper-case |
| ConversionProofs.WalkFollowsPreorder | src/Converter.php:146-187 | the renders are the loaded prefix of the pre-order of the tree; the walk fails exactly at the first unloaded node and names its upper-cased component; the counter advances by one per paragraph visited in pre-order, the failing node included, with no render for that node |
| ConversionProofs.WalkSucceedsIffAllLoaded | src/Converter.php:176-187 | the walk succeeds if and only if every component in the tree is loaded, and then renders every node in pre-order and counts every paragraph |
| ConversionProofs.NodeStep | src/Converter.php:148-183 | one node: the insert check, then either the not-loaded error with the counter already advanced, or one render under the parent in effect |
| ConversionProofs.FollowsCompose | src/Converter.php:185-187 | walking one list after another, stopping at the first error, follows the pre-order of their concatenation |
| ConversionProofs.InjectRendersNothing | src/Converter.php:151-174 | the insert check adds no render call |
| ConversionProofs.WalkUnfold | src/Converter.php:146-187 | one loop iteration: check, render, walk of the children under the new element, then the next sibling under the level's parent |
| ConversionProofs.NoInsertsNeverFire | src/Converter.php:153 | with null or empty inserts, every event of the walk is a render call |
| ConversionProofs.InsertsFireOncePerConverter | src/Converter.php:173 | over two successive walks on one converter, even with different inserts, the callbacks fire at strictly increasing paragraph numbers and the counter never goes back |
| ConversionProofs.WalkGrows | src/Converter.php:146-187 | the walk only appends to the trace, advances the counter and ids, and each fired callback was registered under the paragraph number it fired at |
| ConversionProofs.RenderStaysInTrace | src/Converter.php:183-187 | a render call, once made, is never taken back by the rest of the walk |
| ConversionProofs.InsertTakesEffectBeforeRender | src/Converter.php:169-183 | a callback that fires gets the current parent, and its element is the parent of that paragraph's own render call |
| ConversionProofs.FirstEventOfWalk | src/Converter.php:146-183 | for a loaded first node, the first event of a walk is under the caller's parent, and when it is a render it is of the first node |
| ConversionProofs.ChildrenUnderNodeElement | src/Converter.php:183-187 | for a loaded node whose first child is loaded, the first event after the node's render is under that node's element, and when it is a render it is of the first child |
| ConversionProofs.SiblingsContinueUnderLevelParent | src/Converter.php:146-187 | after a node and its subtree, the walk continues with the next sibling under the parent chosen by that node's own insert check, whatever happened below; only the node and its subtree need to succeed, so a later sibling may still fail |
| ConversionProofs.InjectWithoutInserts | src/Converter.php:153-173 | without inserts, the check only counts the paragraph |
| ConversionProofs.SubtreeIsLayout | src/Converter.php:185-187 | without inserts, a node's subtree yields its reference layout, with every child under its node's element |
| ConversionProofs.NoInsertsWalkIsLayout | src/Converter.php:146-187 | with null or empty inserts and every component loaded, the walk yields the reference layout: each node under the parent its caller passed, and children under their node's element |
| InlineFormats.Formats.constructor | src/Components/Formats.php:75-87 | the text is always set; with no formats (unset or empty), formats, document, paragraph and generators stay unset, and otherwise all four are taken from the arguments |
| InlineFormats.Formats.Attributes | src/Components/Formats.php:140-160 | the string written is the attribute string of the declared attributes, or none, merged with this instance's generator result for the type on the current text |
| InlineFormats.Formats.Render | src/Components/Formats.php:92-110 | the text after the loop is the reference composition with offsets in bytes; after each format, the text and offset are those of the reference loop over the formats so far, so the offset is the total `strlen` of the tags inserted |
| InlineFormats.ComposeSnoc | src/Components/Formats.php:96-110 | the loop over one more format is the loop so far followed by one step |
| InlineFormats.Formats.InsertTags | src/Components/Formats.php:98-109 | one iteration: the text and the new offset are those of one reference step |
| InlineFormats.Merge | src/Components/Formats.php:149 | definition: PHP's `array_merge` on arrays with string keys, storing each entry of the second array over the first, in order |
| InlineFormats.ResolveAttrs | src/Components/Formats.php:142-150 | definition: the declared attributes, or none, merged with the type's generator result on the current text when a generator is registered |
| InlineFormats.Attribute | src/Components/Formats.php:156 | definition: one attribute as written, a space, the name, `="`, the escaped value and `"` |
| InlineFormats.AttrString | src/Components/Formats.php:152-159 | definition: the attributes written one after the other in array order |
| InlineFormats.OpeningTag | src/Components/Formats.php:100 | definition: `<`, the type, the attribute string and `>` |
| InlineFormats.ClosingTag | src/Components/Formats.php:101 | definition: `</`, the type and `>` |
| InlineFormats.OpeningFor | src/Components/Formats.php:98-100 | definition: the opening tag of a format on the current text |
| InlineFormats.ApplyFormat | src/Components/Formats.php:98-109 | definition: one loop iteration, with the opening tag at `from + offset`, the offset advanced by its width, the closing tag at `to + offset` and the offset advanced again |
| InlineFormats.Compose | src/Components/Formats.php:94-110 | definition: the reference loop over all formats, with the offset in either unit |
| InlineFormats.Tags | src/Components/Formats.php:96-110 | definition: the tags the loop builds, in insertion order |
| InlineFormats.Width | src/Components/Formats.php:105-109 | definition: a tag's width, its length in code points or its `strlen` in bytes; the width equals the length exactly when the unit is code points or the tag is ASCII, so the two units agree only on ASCII tags |
| InlineFormats.IndexOf | src/Components/Formats.php:149 | the first position holding the key |
| InlineFormats.Lookup | src/Components/Formats.php:149 | a value is found exactly when the key is present, and it is stored under that key |
| InlineFormats.Put | src/Components/Formats.php:149 | an existing key keeps its place and takes the new value; a new key is appended; no other entry changes |
| InlineFormats.Clamp | src/Components/Formats.php:103-107 | definition: the splice position, unchanged inside the text, the end past it, counted from the end when negative; always within the text |
| InlineFormats.InsertAt | src/Components/Formats.php:103-107 | a zero-length splice adds exactly the inserted length |
| FormatsProofs.IndexOfSameKeys | src/Components/Formats.php:149 | the position of a key depends only on the key sequence |
| FormatsProofs.PutLookup | src/Components/Formats.php:149 | after storing an entry its key finds its value, and every other key finds its old value |
| FormatsProofs.MergeKeepsPlaces | src/Components/Formats.php:149-154 | merging keeps every declared attribute at its place in the written order |
| FormatsProofs.MergeKeys | src/Components/Formats.php:149 | the merged keys are those of either array and no other |
| FormatsProofs.MergeLookup | src/Components/Formats.php:149 | on a key collision the generator's value wins; every other declared value is kept |
| FormatsProofs.MergeFresh | src/Components/Formats.php:149 | merging a new key appends it |
| FormatsProofs.AttrStringAppend | src/Components/Formats.php:152-159 | the attribute string is the concatenation of the entries' attributes in array order |
| FormatsProofs.PlainOpeningTag | src/Components/Formats.php:142-159 | without declared attributes and without a generator for the type, the opening tag is the bare `<type>` |
| FormatsProofs.NofollowLink | src/Components/Formats.php:142-159 | with a `rel="nofollow"` generator for `a`, a link declared with `href` gets `href` first and then `rel` |
| FormatsProofs.InsertAtWidth | src/Components/Formats.php:103-109 | a splice adds the inserted width to the text's width, in either unit |
| FormatsProofs.ApplyFormatInserts | src/Components/Formats.php:100-109 | one format inserts one opening tag of its type and its closing tag, and the offset advances by exactly their widths |
| FormatsProofs.TagsArePairs | src/Components/Formats.php:96-110 | the tags inserted are, per format and in order, an opening tag of its type followed by its closing tag |
| FormatsProofs.ComposeGrowth | src/Components/Formats.php:94-110 | the final length is the original length plus all tag lengths, and the offset is the total width of all tags so far |
| InlineFormats.ComposeAppend | src/Components/Formats.php:96-110 | the loop over two lists of formats is the loop over the first, then the loop over the second from where the first stopped |
| FormatsProofs.InsertAtStart | src/Components/Formats.php:103 | a splice at 0 prepends |
| FormatsProofs.InsertAtEnd | src/Components/Formats.php:107 | a splice at or past the end appends |
| FormatsProofs.BoldWholeText | src/Components/Formats.php:96-110 | a single `b` range over the whole text without attributes gives `<b>` + text + `</b>` |
| FormatsPlacement.CharsInsertAt | src/Components/Formats.php:103-107 | splicing marked characters and then forgetting the marks is splicing the characters |
| FormatsPlacement.MarkedChars | src/Components/Formats.php:96-110 | the marked loop spells exactly the composed text |
| FormatsPlacement.MarkedOriginals | src/Components/Formats.php:103-107 | the loop leaves the original characters untouched and in order |
| FormatsPlacement.TagsDeletedLeaveText | src/Components/Formats.php:94-110 | deleting the inserted tag characters from the composed text recovers the original text |
| FormatsPlacement.PlaceTag | src/Components/Formats.php:103-107 | one tag spliced at its position lands after exactly the intended number of originals and moves no earlier tag |
| FormatsPlacement.PlacePair | src/Components/Formats.php:103-109 | both tags of one format land in place |
| FormatsPlacement.MarkedPlaced | src/Components/Formats.php:96-110 | the counts of `Placed` are kept over the rest of the loop |
| FormatsPlacement.Placement | src/Components/Formats.php:94-110 | with ascending disjoint ranges and the offset in code points, every character of format `i`'s opening tag follows exactly `from` original characters and every character of its closing tag exactly `to`; this counts only, and the closed form is `FormatsInterleaving.Interleaving` |
| FormatsInterleaving.Interleaved | src/Components/Formats.php:94-110 | definition: the reference interleaving, the text cut at each range's `from` and `to` with the format's opening tag at `from` and closing tag at `to`, range by range, and the rest of the text at the end |
| FormatsInterleaving.DisjointAscending | src/Components/Formats.php:96 | ascending, disjoint ranges inside the text satisfy the recursive range condition of the interleaving |
| FormatsInterleaving.InsertAtJoin | src/Components/Formats.php:103-107 | a zero-length splice at the end of a prefix puts the inserted text between the prefix and the rest |
| FormatsInterleaving.StepJoins | src/Components/Formats.php:103-109 | one iteration on a finished prefix followed by the untouched rest of the text appends the text up to `to` with both tags whole to the prefix, and the prefix's length is `to` plus the new offset |
| FormatsInterleaving.ComposeInterleaves | src/Components/Formats.php:96-110 | the loop over ascending ranges from a finished prefix appends the reference interleaving of the rest of the text |
| FormatsInterleaving.Interleaving | src/Components/Formats.php:94-110 | with ascending disjoint ranges and the offset in code points, the composed text is exactly the reference interleaving with the tags built: per format and in order, its whole opening tag right before original character `from` and its whole closing tag right before original character `to`, or at the end; tags at one position, as for adjacent ranges, keep the loop's order |
| FormatsUnits.ComposeUnitsAgree | src/Components/Formats.php:105-109 | when every tag the loop can build is ASCII, byte and code-point offsets compose the same text and build the same tags; the text and the escaping of other strings may hold any characters |
| FormatsUnits.ApplyFormatAscii | src/Components/Formats.php:100-109 | when the tags built are ASCII, one iteration is the same in either unit |
| FormatsUnits.TagsAscii | src/Components/Formats.php:100-101 | an ASCII type, and ASCII names and escaped values of the attributes resolved on the current text, give ASCII tags |
| FormatsUnits.AttrStringAscii | src/Components/Formats.php:152-159 | attributes with ASCII names and ASCII escaped values give an ASCII attribute string |
| FormatsUnits.AsciiTagsHold | src/Components/Formats.php:98-101 | every tag is ASCII when every type is and the attributes of every format, resolved on any text, are ASCII once escaped |
| FormatsUnits.PlainTagsAscii | src/Components/Formats.php:98-101 | formats of ASCII types without attributes and without generators build ASCII tags whatever the escaping does |
| FormatsUnits.MarkedUnitsAgree | src/Components/Formats.php:105-109 | when the tags built are ASCII, the marked loop is the same in either unit |
| FormatsUnits.PlacementWithAsciiTags | src/Components/Formats.php:94-110 | when every tag built is ASCII, the loop as written, with byte offsets, yields exactly the reference interleaving for ascending disjoint ranges, and keeps the original text in order |
| FormatsUnits.WideCharBytes | src/Components/Formats.php:105 | a character from U+0800 to U+FFFF adds three bytes to `strlen` |
| FormatsUnits.TitleTag | src/Components/Formats.php:100-105 | a link whose title is one three-byte character has an opening tag of 13 code points and 15 bytes |
| FormatsUnits.TitleLinkInBytes | src/Components/Formats.php:103-109 | with byte offsets that link closes after four characters |
| FormatsUnits.TitleLinkInCodePoints | src/Components/Formats.php:103-109 | with code-point offsets it closes after the intended two |
| FormatsUnits.ByteOffsetMisplacesClosingTag | src/Components/Formats.php:103-109 | the loop as written closes a two-character link two characters late; with code-point offsets it closes in place |

## Left out

- JSON decoding and HTML output (`json_decode`, `saveHTML`, `trim`). These are
  library calls. `Convert` takes the decoded document, or none, as a parameter
  and returns only the error; the document is the event trace.
- Loading the default components (src/Converter.php:79-91). A class is
  instantiated by name and asked for `getName`. The constructor instead takes
  the list of (reported name, renderer) pairs. The DOMDocument is not modelled.
- The component renderers (`parse`), the custom-insert closures and the
  attribute generators. These are code the caller supplies. They are opaque
  ids or function values, and each renderer or callback call returns a fresh
  element. Their effects on the document beyond that event are not modelled.
- Node fields of other JSON types. `component`, `paragraphType` and `text`
  are modelled as strings (or unset). PHP's loose `==` and its conversions of
  a number, boolean or null in those fields are not modelled: `true ==
  'p'` holds at src/Converter.php:151, `strlen` converts a number at
  line 168, and a missing `component` becomes `ucfirst(null)`, the empty
  name, which then fails as not loaded.
- The exception classes. They are the variants of an `Error` datatype that
  carry the messages.
- The empty `insertCustomCode` stub (src/Converter.php:191-194). It does nothing.
- The rest of `render` after the loop (src/Components/Formats.php:112-130).
  This covers the HTMLPurifier pass, the temporary DOMDocument,
  `loadHTML`, `importNode` and `appendChild`. These are external libraries
  and DOM plumbing.
- `htmlentities` is an uninterpreted function `escape`. Attribute values are
  strings. Numeric attribute keys, which `array_merge` would renumber, are
  not modelled.
- `UTF8::substr_replace` with length 0 is modelled with `array_splice`
  semantics on code points. A negative position counts from the end, and a
  position past the end appends.
- The node shapes PHP rejects or warns about: a `sections` or `components`
  value that is present but not an array raises a TypeError at the
  `array $json` type hint (src/Converter.php:144). A `Paragraph` node without
  `paragraphType` or `text` raises an undefined-property warning
  (src/Converter.php:151, 168). The node datatype holds either no children
  or a list of nodes, and reads an unset text as empty.
- The PHP warning that `render` emits when called on an instance built
  without formats is not modelled. That call would iterate over `null`; the
  model's loop runs over no formats.
- InsertAt: its contract states only the length. Where the inserted
  characters land is stated by FormatsInterleaving.InsertAtJoin, for a
  splice at the end of a prefix, which is how the loop uses it.
- FormatsUnits.ByteOffsetMisplacesClosingTag: the counterexample is stated
  for any text of at least four characters and any title character from
  U+0800 to U+FFFF that escaping leaves alone, such as U+65E5. It is not
  stated for one literal string.

## Findings

| source | as written | input that shows it | evidently intended | confidence | as-written member | corrected member |
|---|---|---|---|---|---|---|
| src/Components/Formats.php:103-109 | the offset advances by each tag's `strlen` (bytes), while `UTF8::substr_replace` counts positions in code points | text `abcd`, one `a` format over 0..2 with attribute `title` = U+65E5: the opening tag is 13 code points but 15 bytes, so the closing tag is inserted after `abcd` instead of after `ab` | the offset counts the inserted tags in code points, so every tag lands before the original character its range names | not executed | FormatsUnits.ByteOffsetMisplacesClosingTag | FormatsInterleaving.Interleaving |

`InlineFormats.Formats.Render` models the loop as written, with byte offsets.
`Compose` with `CodePoints` is the corrected definition.
`FormatsInterleaving.Interleaving` proves that it yields the reference
interleaving. When every tag the loop can build is ASCII, the two definitions
compose the same text (`FormatsUnits.ComposeUnitsAgree`), and the text itself
may hold any characters. Formats whose type is ASCII, with no attributes
and no generator for their type, meet that condition whatever the escaping
does (`FormatsUnits.PlainTagsAscii`). In
that case the loop as written places its tags correctly
(`FormatsUnits.PlacementWithAsciiTags`). A tag with a non-ASCII attribute
value, which `htmlentities` leaves alone for CJK characters, breaks the
condition.

/** The inline format compositor: tag strings for the format ranges of a
    text are spliced into it one range at a time, and a running offset
    accounts for what has been inserted so far. */
module InlineFormats {
  import opened Wrappers
  import opened Document
  import opened Sequences

  /** A caller-supplied custom attribute generator for one tag type: given the
      declared attributes and the current (partially tagged) text, it returns
      the attributes to merge over the declared ones. */
  type Generator = (Attrs, string) -> Attrs

  /** The escaping applied to attribute values (PHP's `htmlentities`). */
  type Escape = string -> string

  /** How the running offset measures an inserted tag: `Bytes` is PHP's
      `strlen`, `CodePoints` the unit in which insertion positions count. */
  datatype Unit = Bytes | CodePoints

  /** The width of `s` in unit `u`. It is the length of `s` exactly when
      the unit is code points or `s` is ASCII. */
  function Width(u: Unit, s: string): (w: nat)
    ensures w == |s| <==> u == CodePoints || IsAscii(s)
  {
    ByteLengthAscii(s);
    match u
    case Bytes => ByteLength(s)
    case CodePoints => |s|
  }

  /*** Attribute arrays (PHP arrays with string keys, in insertion order) ***/

  function Keys(a: Attrs): (ks: seq<string>)
    ensures |ks| == |a|
    ensures forall i :: 0 <= i < |a| ==> ks[i] == a[i].0
  {
    seq(|a|, i requires 0 <= i < |a| => a[i].0)
  }

  /** No key occurs twice, as in every PHP array. */
  predicate UniqueKeys(a: Attrs) {
    forall i, j :: 0 <= i < j < |a| ==> a[i].0 != a[j].0
  }

  /** Index of `k` in `a`, when present: its first occurrence. */
  function IndexOf(a: Attrs, k: string): (i: nat)
    requires k in Keys(a)
    ensures i < |a| && a[i].0 == k
    ensures forall j :: 0 <= j < i ==> a[j].0 != k
  {
    if a[0].0 == k then 0
    else
      assert Keys(a) == [a[0].0] + Keys(a[1..]);
      1 + IndexOf(a[1..], k)
  }

  /** The value stored under `k`. */
  function Lookup(a: Attrs, k: string): (r: Option<string>)
    ensures r.None? <==> k !in Keys(a)
    ensures r.Some? ==> (k, r.value) in a
  {
    if k in Keys(a) then Some(a[IndexOf(a, k)].1) else None
  }

  /** Storing one entry: an existing key keeps its place and takes the new
      value; a new key is appended. */
  function Put(a: Attrs, entry: (string, string)): (r: Attrs)
    ensures entry.0 in Keys(a) ==> |r| == |a| && Keys(r) == Keys(a)
    ensures entry.0 !in Keys(a) ==> r == a + [entry]
    ensures entry in r
    ensures forall i :: 0 <= i < |a| && a[i].0 != entry.0 ==> r[i] == a[i]
    ensures forall i :: 0 <= i < |a| ==> r[i].0 == a[i].0
    ensures forall k :: k in Keys(r) <==> k in Keys(a) || k == entry.0
  {
    if entry.0 in Keys(a) then a[IndexOf(a, entry.0) := entry] else a + [entry]
  }

  /** PHP's `array_merge` on two arrays with string keys: the entries of `b`
      are stored over those of `a`, in order. */
  function Merge(a: Attrs, b: Attrs): Attrs
    decreases |b|
  {
    if b == [] then a else Merge(Put(a, b[0]), b[1..])
  }

  /** The attribute array of one tag: the declared attributes (none when
      unset), merged with the generator's result when a generator is
      registered for the tag type. The generator sees the current text. */
  function ResolveAttrs(kind: string, declared: Option<Attrs>, custom: Option<map<string, Generator>>,
                        current: string): Attrs
  {
    var base := declared.GetOr([]);
    if custom.Some? && kind in custom.value then Merge(base, custom.value[kind](base, current)) else base
  }

  /** One attribute as written into a tag: ` key="escaped value"`. */
  function Attribute(entry: (string, string), escape: Escape): string {
    " " + entry.0 + "=\"" + escape(entry.1) + "\""
  }

  /** The attribute string of a tag: its attributes, in array order. */
  function AttrString(a: Attrs, escape: Escape): string {
    if a == [] then "" else AttrString(a[..|a| - 1], escape) + Attribute(a[|a| - 1], escape)
  }

  function OpeningTag(kind: string, attrs: string): string {
    "<" + kind + attrs + ">"
  }

  function ClosingTag(kind: string): string {
    "</" + kind + ">"
  }

  /** The opening tag of format `f` when the text is `current`. */
  function OpeningFor(f: Format, custom: Option<map<string, Generator>>, escape: Escape, current: string): string {
    OpeningTag(f.kind, AttrString(ResolveAttrs(f.kind, f.attrs, custom, current), escape))
  }

  /*** Splicing ***/

  /** The position at which a zero-length splice at `pos` takes effect in a
      sequence of length `n`: a negative position counts from the end (and
      stops at the start), a position past the end appends. */
  function Clamp(pos: int, n: nat): (p: nat)
    ensures p <= n
  {
    if pos < 0 then (if n + pos < 0 then 0 else n + pos)
    else if pos > n then n
    else pos
  }

  /** `substr_replace(s, ins, pos, 0)` on code points: `ins` is inserted at
      the clamped position and nothing of `s` is removed. */
  function InsertAt<T>(s: seq<T>, ins: seq<T>, pos: int): (r: seq<T>)
    ensures |r| == |s| + |ins|
  {
    var p := Clamp(pos, |s|);
    s[..p] + ins + s[p..]
  }

  /*** The compositor ***/

  /** The effect of one format range: the new text and offset, and the two
      tags inserted. */
  datatype Step = Step(text: string, offset: int, opening: string, closing: string)

  /** One iteration of the loop: build the opening tag (attributes resolved
      against the current text), insert it at `from + offset`, advance the
      offset by its width, insert the closing tag at `to + offset`, advance
      the offset again. */
  function ApplyFormat(u: Unit, text: string, f: Format, offset: int,
                       custom: Option<map<string, Generator>>, escape: Escape): Step
  {
    var opening := OpeningFor(f, custom, escape, text);
    var closing := ClosingTag(f.kind);
    var t1 := InsertAt(text, opening, f.from + offset);
    var o1 := offset + Width(u, opening);
    var t2 := InsertAt(t1, closing, f.to + o1);
    Step(t2, o1 + Width(u, closing), opening, closing)
  }

  datatype Composed = Composed(text: string, offset: int)

  /** The whole loop over `fs`, starting from `text` and `offset`. */
  function Compose(u: Unit, text: string, fs: seq<Format>, offset: int,
                   custom: Option<map<string, Generator>>, escape: Escape): Composed
    decreases |fs|
  {
    if fs == [] then Composed(text, offset)
    else
      var st := ApplyFormat(u, text, fs[0], offset, custom, escape);
      Compose(u, st.text, fs[1..], st.offset, custom, escape)
  }

  /** The loop over `a + b` is the loop over `a` followed by the loop over
      `b` from where the first one stopped. */
  lemma {:induction false} ComposeAppend(u: Unit, text: string, a: seq<Format>, b: seq<Format>, offset: int,
                                         custom: Option<map<string, Generator>>, escape: Escape)
    ensures var mid := Compose(u, text, a, offset, custom, escape);
            Compose(u, text, a + b, offset, custom, escape) == Compose(u, mid.text, b, mid.offset, custom, escape)
    decreases |a|
  {
    if a == [] {
      assert a + b == b;
    } else {
      var st := ApplyFormat(u, text, a[0], offset, custom, escape);
      assert (a + b)[0] == a[0] && (a + b)[1..] == a[1..] + b;
      ComposeAppend(u, st.text, a[1..], b, st.offset, custom, escape);
    }
  }

  /** The loop over the first `i + 1` formats is the loop over the first
      `i` followed by one more step. */
  lemma ComposeSnoc(u: Unit, text: string, fs: seq<Format>, i: nat, current: string, offset: int,
                    custom: Option<map<string, Generator>>, escape: Escape)
    requires i < |fs| && Composed(current, offset) == Compose(u, text, fs[..i], 0, custom, escape)
    ensures var st := ApplyFormat(u, current, fs[i], offset, custom, escape);
            Composed(st.text, st.offset) == Compose(u, text, fs[..i + 1], 0, custom, escape)
  {
    var st := ApplyFormat(u, current, fs[i], offset, custom, escape);
    ComposeAppend(u, text, fs[..i], [fs[i]], 0, custom, escape);
    TakeSnoc(fs, i);
    assert [fs[i]][0] == fs[i] && [fs[i]][1..] == [];
    assert Compose(u, current, [fs[i]], offset, custom, escape) == Compose(u, st.text, [], st.offset, custom, escape);
  }

  /** The tags the loop inserts, in insertion order (opening, closing, ...). */
  function Tags(u: Unit, text: string, fs: seq<Format>, offset: int,
                custom: Option<map<string, Generator>>, escape: Escape): seq<string>
    decreases |fs|
  {
    if fs == [] then []
    else
      var st := ApplyFormat(u, text, fs[0], offset, custom, escape);
      [st.opening, st.closing] + Tags(u, st.text, fs[1..], st.offset, custom, escape)
  }

  /** The text renderer of one node: its text, and when it has formats, the
      formats, the target document and paragraph and the custom attribute
      generators. */
  class Formats {
    var text: string
    var formats: Option<seq<Format>>
    var dom: Option<DocumentId>
    var paragraph: Option<ElementId>
    var customAttrs: Option<map<string, Generator>>

    /** Takes the node's text; when the node has no formats (unset or an
        empty array) nothing else is set. */
    constructor(json: Node, document: DocumentId, para: ElementId, custom: Option<map<string, Generator>>)
      ensures text == TextOf(json)
      ensures json.formats.None? || json.formats.value == [] ==>
                formats.None? && dom.None? && paragraph.None? && customAttrs.None?
      ensures json.formats.Some? && json.formats.value != [] ==>
                formats == json.formats && dom == Some(document) && paragraph == Some(para) && customAttrs == custom
    {
      text := TextOf(json);
      if json.formats.None? || json.formats.value == [] {
        formats := None;
        dom := None;
        paragraph := None;
        customAttrs := None;
      } else {
        formats := json.formats;
        dom := Some(document);
        paragraph := Some(para);
        customAttrs := custom;
      }
    }

    /** The attribute string of a tag of type `kind`: declared attributes,
        overridden by this instance's generator for `kind` called on the
        current text, written in array order. */
    method Attributes(kind: string, declared: Option<Attrs>, escape: Escape) returns (s: string)
      ensures s == AttrString(ResolveAttrs(kind, declared, customAttrs, text), escape)
    {
      var attrs := declared.GetOr([]);
      if customAttrs.Some? && kind in customAttrs.value {
        var generator := customAttrs.value[kind];
        attrs := Merge(attrs, generator(attrs, text));
      }
      s := "";
      for i := 0 to |attrs|
        invariant s == AttrString(attrs[..i], escape)
      {
        assert attrs[..i + 1][..i] == attrs[..i];
        s := s + Attribute(attrs[i], escape);
      }
      assert attrs[..|attrs|] == attrs;
    }

    /** The tag-insertion loop of `render`: every format range in turn,
        offsets advanced by each tag's byte length. After `i` formats the
        text and the offset are those of the reference loop over the first
        `i` formats, so the offset is the total byte length of the tags
        inserted so far. */
    method Render(escape: Escape)
      modifies this`text
      ensures text == Compose(Bytes, old(text), formats.GetOr([]), 0, customAttrs, escape).text
    {
      var fs := formats.GetOr([]);
      var offset := 0;
      for i := 0 to |fs|
        invariant Composed(text, offset) == Compose(Bytes, old(text), fs[..i], 0, customAttrs, escape)
      {
        ComposeSnoc(Bytes, old(text), fs, i, text, offset, customAttrs, escape);
        offset := InsertTags(fs[i], offset, escape);
      }
      assert fs[..|fs|] == fs;
    }

    /** One iteration of the loop: the opening tag at `from + offset`, the
        closing tag at `to + offset`, the offset advanced by both byte
        lengths. */
    method InsertTags(format: Format, offset: int, escape: Escape) returns (next: int)
      modifies this`text
      ensures var st := ApplyFormat(Bytes, old(text), format, offset, customAttrs, escape);
              text == st.text && next == st.offset
    {
      var attrs := Attributes(format.kind, format.attrs, escape);
      var opening := "<" + format.kind + attrs + ">";
      var closing := "</" + format.kind + ">";
      assert opening == OpeningTag(format.kind, attrs) && closing == ClosingTag(format.kind);
      text := InsertAt(text, opening, format.from + offset);
      next := offset + ByteLength(opening);
      text := InsertAt(text, closing, format.to + next);
      next := next + ByteLength(closing);
    }
  }
}

/** Bytes against code points. The loop advances its offset by each tag's
    byte length while the splice counts positions in code points. The two
    agree whenever every tag the loop builds is ASCII (the text itself may
    hold any characters); a single non-ASCII character in a tag shifts every
    later insertion of the same text. */
module FormatsUnits {
  import opened Wrappers
  import opened Document
  import opened InlineFormats
  import opened FormatsPlacement
  import opened FormatsProofs
  import opened FormatsInterleaving

  /** Every tag the loop can build for `fs` is ASCII, whatever the current
      text its attribute generators see. */
  ghost predicate AsciiTags(fs: seq<Format>, custom: Option<map<string, Generator>>, escape: Escape) {
    forall i, t :: 0 <= i < |fs| ==> IsAscii(OpeningFor(fs[i], custom, escape, t)) && IsAscii(ClosingTag(fs[i].kind))
  }

  /** The attributes of `a` have ASCII names and escape to ASCII values. */
  predicate AsciiAttrs(a: Attrs, escape: Escape) {
    forall i :: 0 <= i < |a| ==> IsAscii(a[i].0) && IsAscii(escape(a[i].1))
  }

  lemma AsciiAppend(a: string, b: string)
    requires IsAscii(a) && IsAscii(b)
    ensures IsAscii(a + b)
  {
    forall i | 0 <= i < |a + b| ensures ((a + b)[i] as int) < 0x80 {
      if i >= |a| { assert (a + b)[i] == b[i - |a|]; }
    }
  }

  lemma {:induction false} AttrStringAscii(a: Attrs, escape: Escape)
    requires AsciiAttrs(a, escape)
    ensures IsAscii(AttrString(a, escape))
    decreases |a|
  {
    if a != [] {
      var init := a[..|a| - 1];
      var e := a[|a| - 1];
      assert AsciiAttrs(init, escape) by {
        forall i | 0 <= i < |init| ensures IsAscii(init[i].0) && IsAscii(escape(init[i].1)) {
          assert init[i] == a[i];
        }
      }
      AttrStringAscii(init, escape);
      AsciiAppend(" ", e.0);
      AsciiAppend(" " + e.0, "=\"");
      AsciiAppend(" " + e.0 + "=\"", escape(e.1));
      AsciiAppend(" " + e.0 + "=\"" + escape(e.1), "\"");
      AsciiAppend(AttrString(init, escape), Attribute(e, escape));
    }
  }

  /** Both tags of a format are ASCII when its type is, and the attributes
      resolved on the current text have ASCII names and escape to ASCII
      values; escaping may map other strings to anything. */
  lemma TagsAscii(text: string, f: Format, custom: Option<map<string, Generator>>, escape: Escape)
    requires IsAscii(f.kind) && AsciiAttrs(ResolveAttrs(f.kind, f.attrs, custom, text), escape)
    ensures IsAscii(OpeningFor(f, custom, escape, text)) && IsAscii(ClosingTag(f.kind))
  {
    var attrs := AttrString(ResolveAttrs(f.kind, f.attrs, custom, text), escape);
    AttrStringAscii(ResolveAttrs(f.kind, f.attrs, custom, text), escape);
    AsciiAppend("<", f.kind);
    AsciiAppend("<" + f.kind, attrs);
    AsciiAppend("<" + f.kind + attrs, ">");
    AsciiAppend("</", f.kind);
    AsciiAppend("</" + f.kind, ">");
  }

  /** `AsciiTags` holds when every type is ASCII and the attributes every
      format resolves to, on any current text, are ASCII once escaped. */
  lemma AsciiTagsHold(fs: seq<Format>, custom: Option<map<string, Generator>>, escape: Escape)
    requires forall i :: 0 <= i < |fs| ==> IsAscii(fs[i].kind)
    requires forall i, t :: 0 <= i < |fs| ==> AsciiAttrs(ResolveAttrs(fs[i].kind, fs[i].attrs, custom, t), escape)
    ensures AsciiTags(fs, custom, escape)
  {
    forall i, t | 0 <= i < |fs|
      ensures IsAscii(OpeningFor(fs[i], custom, escape, t)) && IsAscii(ClosingTag(fs[i].kind))
    {
      TagsAscii(t, fs[i], custom, escape);
    }
  }

  /** Formats of ASCII types without attributes and without generators
      build ASCII tags whatever the escaping does, as `htmlentities` does on
      text outside ASCII. */
  lemma PlainTagsAscii(fs: seq<Format>, custom: Option<map<string, Generator>>, escape: Escape)
    requires forall i :: 0 <= i < |fs| ==> IsAscii(fs[i].kind)
    requires forall i :: 0 <= i < |fs| ==> fs[i].attrs.None? || fs[i].attrs.value == []
    requires forall i :: 0 <= i < |fs| ==> custom.None? || fs[i].kind !in custom.value
    ensures AsciiTags(fs, custom, escape)
  {
    forall i, t | 0 <= i < |fs| ensures AsciiAttrs(ResolveAttrs(fs[i].kind, fs[i].attrs, custom, t), escape) {
      assert ResolveAttrs(fs[i].kind, fs[i].attrs, custom, t) == [];
    }
    AsciiTagsHold(fs, custom, escape);
  }

  /** With ASCII tags one step is the same whichever unit the offset uses. */
  lemma ApplyFormatAscii(text: string, fs: seq<Format>, k: nat, offset: int,
                         custom: Option<map<string, Generator>>, escape: Escape)
    requires k < |fs| && AsciiTags(fs, custom, escape)
    ensures ApplyFormat(Bytes, text, fs[k], offset, custom, escape) == ApplyFormat(CodePoints, text, fs[k], offset, custom, escape)
  {
    var f := fs[k];
    assert IsAscii(OpeningFor(f, custom, escape, text)) && IsAscii(ClosingTag(f.kind));
    ByteLengthAscii(OpeningFor(f, custom, escape, text));
    ByteLengthAscii(ClosingTag(f.kind));
  }

  lemma AsciiTagsTail(fs: seq<Format>, custom: Option<map<string, Generator>>, escape: Escape)
    requires fs != [] && AsciiTags(fs, custom, escape)
    ensures AsciiTags(fs[1..], custom, escape)
  {
    forall i, t | 0 <= i < |fs[1..]|
      ensures IsAscii(OpeningFor(fs[1..][i], custom, escape, t)) && IsAscii(ClosingTag(fs[1..][i].kind))
    {
      assert fs[1..][i] == fs[i + 1];
    }
  }

  /** With ASCII tags, counting the offset in bytes (as the loop does) and
      in code points composes the same text. */
  lemma {:induction false} ComposeUnitsAgree(text: string, fs: seq<Format>, offset: int,
                                             custom: Option<map<string, Generator>>, escape: Escape)
    requires AsciiTags(fs, custom, escape)
    ensures Compose(Bytes, text, fs, offset, custom, escape) == Compose(CodePoints, text, fs, offset, custom, escape)
    ensures Tags(Bytes, text, fs, offset, custom, escape) == Tags(CodePoints, text, fs, offset, custom, escape)
    decreases |fs|
  {
    if fs != [] {
      ApplyFormatAscii(text, fs, 0, offset, custom, escape);
      AsciiTagsTail(fs, custom, escape);
      var st := ApplyFormat(Bytes, text, fs[0], offset, custom, escape);
      ComposeUnitsAgree(st.text, fs[1..], st.offset, custom, escape);
    }
  }

  /** With ASCII tags one marked step is the same in either unit. */
  lemma MarkAscii(cs: seq<Cell>, fs: seq<Format>, k: nat, index: nat, offset: int,
                  custom: Option<map<string, Generator>>, escape: Escape)
    requires k < |fs| && AsciiTags(fs, custom, escape)
    ensures Mark(Bytes, cs, fs[k], index, offset, custom, escape) == Mark(CodePoints, cs, fs[k], index, offset, custom, escape)
  {
    assert IsAscii(OpeningFor(fs[k], custom, escape, Chars(cs))) && IsAscii(ClosingTag(fs[k].kind));
    ByteLengthAscii(OpeningFor(fs[k], custom, escape, Chars(cs)));
    ByteLengthAscii(ClosingTag(fs[k].kind));
  }

  lemma {:induction false} MarkedUnitsAgree(cs: seq<Cell>, fs: seq<Format>, index: nat, offset: int,
                                            custom: Option<map<string, Generator>>, escape: Escape)
    requires AsciiTags(fs, custom, escape)
    ensures Marked(Bytes, cs, fs, index, offset, custom, escape) == Marked(CodePoints, cs, fs, index, offset, custom, escape)
    decreases |fs|
  {
    if fs != [] {
      AsciiTagsTail(fs, custom, escape);
      MarkAscii(cs, fs, 0, index, offset, custom, escape);
      var m := Mark(Bytes, cs, fs[0], index, offset, custom, escape);
      MarkedUnitsAgree(m.0, fs[1..], index + 1, m.1, custom, escape);
    }
  }

  /** The loop as written, with ascending, disjoint ranges whose tags are
      all ASCII: the composed text is the reference interleaving of the text
      with the tags built, each tag right before the original character its
      range names, and the original text survives in order. */
  lemma PlacementWithAsciiTags(text: string, fs: seq<Format>, custom: Option<map<string, Generator>>, escape: Escape)
    requires Disjoint(fs, |text|) && AsciiTags(fs, custom, escape)
    ensures var ts := Tags(Bytes, text, fs, 0, custom, escape);
            && Ascending(fs, 0, |text|)
            && PairsFor(ts, fs)
            && Compose(Bytes, text, fs, 0, custom, escape).text == Interleaved(text, fs, ts, 0)
    ensures var cs := Marked(Bytes, Lift(text, Original), fs, 0, 0, custom, escape);
            && Placed(cs, fs)
            && Chars(cs) == Compose(Bytes, text, fs, 0, custom, escape).text
            && Originals(cs) == text
  {
    ComposeUnitsAgree(text, fs, 0, custom, escape);
    Interleaving(text, fs, custom, escape);
    MarkedUnitsAgree(Lift(text, Original), fs, 0, 0, custom, escape);
    Placement(text, fs, custom, escape);
    TagsDeletedLeaveText(Bytes, text, fs, custom, escape);
  }

  /*** A non-ASCII attribute value ***/

  /** A character from U+0800 to U+FFFF takes three bytes. */
  lemma WideCharBytes(p: string, c: char, q: string)
    requires 0x800 <= c as int < 0x10000
    ensures ByteLength(p + [c] + q) == ByteLength(p) + 3 + ByteLength(q)
  {
    ByteLengthAppend(p, [c]);
    ByteLengthAppend(p + [c], q);
    assert [c][1..] == [];
  }

  /** The link of the example below, with title `c`. */
  function TitleLink(c: char): Format {
    Format("a", 0, 2, Some([("title", [c])]))
  }

  lemma TitleAttrs(c: char, escape: Escape)
    requires escape([c]) == [c]
    ensures AttrString(ResolveAttrs("a", Some([("title", [c])]), None, ""), escape) == " title=\"" + [c] + "\""
  {
    var attrs := [("title", [c])];
    assert attrs[..0] == [];
  }

  lemma TitleOpening(c: char, escape: Escape)
    requires escape([c]) == [c]
    ensures OpeningTag("a", AttrString(ResolveAttrs("a", Some([("title", [c])]), None, ""), escape))
            == "<a title=\"" + [c] + "\">"
  {
    TitleAttrs(c, escape);
    var a := " title=\"" + [c] + "\"";
    assert "<" + "a" + a == "<a title=\"" + [c] + "\"";
    assert "<a title=\"" + [c] + "\"" + ">" == "<a title=\"" + [c] + "\">";
  }

  /** Its opening tag: 13 code points, and 15 bytes for a three-byte `c`. */
  lemma TitleTag(text: string, c: char, escape: Escape)
    requires 0x800 <= c as int < 0x10000 && escape([c]) == [c]
    ensures var st := ApplyFormat(Bytes, text, TitleLink(c), 0, None, escape);
            && st.opening == "<a title=\"" + [c] + "\">"
            && |st.opening| == 13 && ByteLength(st.opening) == 15
  {
    TitleOpening(c, escape);
    var p, q := "<a title=\"", "\">";
    assert ByteLength(p) == 10 && ByteLength(q) == 2;
    WideCharBytes(p, c, q);
  }

  lemma TitleLinkInBytes(text: string, c: char, escape: Escape)
    requires |text| >= 4 && 0x800 <= c as int < 0x10000 && escape([c]) == [c]
    ensures var tag := "<a title=\"" + [c] + "\">";
            ApplyFormat(Bytes, text, TitleLink(c), 0, None, escape).text == tag + text[..4] + "</a>" + text[4..]
  {
    TitleTag(text, c, escape);
    var tag := "<a title=\"" + [c] + "\">";
    InsertAtStart(text, tag);
    var t1 := tag + text;
    assert t1[..17] == tag + text[..4] && t1[17..] == text[4..];
  }

  lemma TitleLinkInCodePoints(text: string, c: char, escape: Escape)
    requires |text| >= 2 && 0x800 <= c as int < 0x10000 && escape([c]) == [c]
    ensures var tag := "<a title=\"" + [c] + "\">";
            ApplyFormat(CodePoints, text, TitleLink(c), 0, None, escape).text == tag + text[..2] + "</a>" + text[2..]
  {
    TitleTag(text, c, escape);
    var tag := "<a title=\"" + [c] + "\">";
    InsertAtStart(text, tag);
    var t1 := tag + text;
    assert t1[..15] == tag + text[..2] && t1[15..] == text[2..];
  }

  lemma ComposeSingle(u: Unit, text: string, f: Format, custom: Option<map<string, Generator>>, escape: Escape)
    ensures var st := ApplyFormat(u, text, f, 0, custom, escape);
            Compose(u, text, [f], 0, custom, escape) == Composed(st.text, st.offset)
  {
    assert [f][1..] == [];
  }

  /** A link over the first two characters of a text whose title is one
      three-byte character (such as U+65E5, which escaping leaves alone):
      counted in bytes, the offset overshoots by two and the link covers four
      characters; counted in code points, it covers the intended two. */
  lemma ByteOffsetMisplacesClosingTag(text: string, c: char, escape: Escape)
    requires |text| >= 4 && 0x800 <= c as int < 0x10000 && escape([c]) == [c]
    ensures var tag := "<a title=\"" + [c] + "\">";
            && Compose(Bytes, text, [TitleLink(c)], 0, None, escape).text == tag + text[..4] + "</a>" + text[4..]
            && Compose(CodePoints, text, [TitleLink(c)], 0, None, escape).text == tag + text[..2] + "</a>" + text[2..]
  {
    ComposeSingle(Bytes, text, TitleLink(c), None, escape);
    ComposeSingle(CodePoints, text, TitleLink(c), None, escape);
    TitleLinkInBytes(text, c, escape);
    TitleLinkInCodePoints(text, c, escape);
  }
}

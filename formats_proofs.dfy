/** Properties of the inline format compositor: how attribute arrays are
    merged and written, what the loop inserts and where. */
module FormatsProofs {
  import opened Wrappers
  import opened Document
  import opened InlineFormats
  import opened Sequences

  /*** Attribute arrays ***/

  /** The first occurrence of a key depends only on the sequence of keys. */
  lemma IndexOfSameKeys(a: Attrs, r: Attrs, k: string)
    requires Keys(a) == Keys(r) && k in Keys(a)
    ensures IndexOf(a, k) == IndexOf(r, k)
  {
    var i, j := IndexOf(a, k), IndexOf(r, k);
    assert Keys(a)[i] == k && Keys(r)[j] == k;
  }

  /** Storing an entry makes its value the one found under its key and
      leaves every other key's value alone. */
  lemma PutLookup(a: Attrs, entry: (string, string), k: string)
    ensures Lookup(Put(a, entry), k) == if k == entry.0 then Some(entry.1) else Lookup(a, k)
  {
    var r := Put(a, entry);
    if entry.0 in Keys(a) {
      var idx := IndexOf(a, entry.0);
      assert r == a[idx := entry];
      if k in Keys(a) {
        IndexOfSameKeys(a, r, k);
      }
    } else {
      assert Keys(r) == Keys(a) + [entry.0];
      if k in Keys(a) {
        assert IndexOf(r, k) == IndexOf(a, k) by {
          var i, j := IndexOf(a, k), IndexOf(r, k);
          assert Keys(r)[i] == k;
        }
      }
    }
  }

  /** A merge keeps the entries of `a` in place, with their keys. */
  lemma {:induction false} MergeKeepsPlaces(a: Attrs, b: Attrs)
    ensures |Merge(a, b)| >= |a|
    ensures forall i :: 0 <= i < |a| ==> Merge(a, b)[i].0 == a[i].0
    decreases |b|
  {
    if b != [] {
      MergeKeepsPlaces(Put(a, b[0]), b[1..]);
    }
  }

  /** A key of a non-empty array is its first key or a key of the rest. */
  lemma KeysCons(b: Attrs, k: string)
    requires b != []
    ensures k in Keys(b) <==> k == b[0].0 || k in Keys(b[1..])
  {
    assert Keys(b) == [b[0].0] + Keys(b[1..]);
  }

  /** The keys of a merge are those of either array, and no other. */
  lemma {:induction false} MergeKeys(a: Attrs, b: Attrs, k: string)
    ensures k in Keys(Merge(a, b)) <==> k in Keys(a) || k in Keys(b)
    decreases |b|
  {
    if b != [] {
      MergeKeys(Put(a, b[0]), b[1..], k);
      KeysCons(b, k);
    }
  }

  /** `array_merge` with string keys: a key of the second array takes its
      value from it, every other key keeps its value from the first. */
  lemma {:induction false} MergeLookup(a: Attrs, b: Attrs, k: string)
    requires UniqueKeys(b)
    ensures Lookup(Merge(a, b), k) == if k in Keys(b) then Lookup(b, k) else Lookup(a, k)
    decreases |b|
  {
    if b != [] {
      var rest := b[1..];
      assert Keys(b) == [b[0].0] + Keys(rest);
      assert UniqueKeys(rest) by {
        forall i, j | 0 <= i < j < |rest| ensures rest[i].0 != rest[j].0 {
          assert rest[i] == b[i + 1] && rest[j] == b[j + 1];
        }
      }
      MergeLookup(Put(a, b[0]), rest, k);
      PutLookup(a, b[0], k);
      if k == b[0].0 {
        assert k !in Keys(rest) by {
          forall j | 0 <= j < |rest| ensures Keys(rest)[j] != k {
            assert rest[j] == b[j + 1];
          }
        }
        assert IndexOf(b, k) == 0;
      } else if k in Keys(rest) {
        var j := IndexOf(rest, k);
        assert IndexOf(b, k) == j + 1 by {
          assert b[j + 1] == rest[j];
          forall m | 0 <= m < j + 1 ensures b[m].0 != k {
            if m > 0 { assert b[m] == rest[m - 1]; }
          }
        }
      }
    }
  }

  /** The attribute string is written entry by entry, in array order. */
  lemma {:induction false} AttrStringAppend(a: Attrs, b: Attrs, escape: Escape)
    ensures AttrString(a + b, escape) == AttrString(a, escape) + AttrString(b, escape)
    decreases |b|
  {
    if b == [] {
      assert a + b == a;
    } else {
      var init := b[..|b| - 1];
      assert (a + b)[..|a + b| - 1] == a + init;
      AttrStringAppend(a, init, escape);
      AppendAssoc(AttrString(a, escape), AttrString(init, escape), Attribute(b[|b| - 1], escape));
    }
  }

  /** Without declared attributes and without a generator for the type, the
      opening tag is the bare `<type>`. */
  lemma PlainOpeningTag(kind: string, declared: Option<Attrs>, custom: Option<map<string, Generator>>,
                        current: string, escape: Escape)
    requires declared.None? || declared.value == []
    requires custom.None? || kind !in custom.value
    ensures OpeningTag(kind, AttrString(ResolveAttrs(kind, declared, custom, current), escape)) == "<" + kind + ">"
  {
    assert "<" + kind + "" + ">" == "<" + kind + ">";
  }

  /** A generator for links that adds `rel="nofollow"`. */
  function Nofollow(): Generator {
    (attrs, text) => [("rel", "nofollow")]
  }

  lemma NofollowResolves(href: string, current: string)
    ensures ResolveAttrs("a", Some([("href", href)]), Some(map["a" := Nofollow()]), current)
            == [("href", href), ("rel", "nofollow")]
  {
    assert Nofollow()([("href", href)], current) == [("rel", "nofollow")];
    MergeFresh([("href", href)], ("rel", "nofollow"));
  }

  lemma AttrStringPair(x: (string, string), y: (string, string), escape: Escape)
    ensures AttrString([x, y], escape) == Attribute(x, escape) + Attribute(y, escape)
  {
    AttrStringAppend([x], [y], escape);
    assert [x] + [y] == [x, y];
    assert [x][..0] == [] && [y][..0] == [];
  }

  /** With the nofollow generator registered for `a`, a link declared with
      an `href` gets both attributes, the declared one first. */
  lemma NofollowLink(href: string, current: string, escape: Escape)
    requires escape("nofollow") == "nofollow"
    ensures OpeningTag("a", AttrString(ResolveAttrs("a", Some([("href", href)]), Some(map["a" := Nofollow()]), current), escape))
            == "<a href=\"" + escape(href) + "\" rel=\"nofollow\">"
  {
    NofollowResolves(href, current);
    AttrStringPair(("href", href), ("rel", "nofollow"), escape);
    LinkSpelling(escape(href));
  }

  /** The spelling of the link tag, as one string. */
  lemma LinkSpelling(v: string)
    ensures "<" + "a" + ((" " + "href" + "=\"" + v + "\"") + (" " + "rel" + "=\"" + "nofollow" + "\"")) + ">"
            == "<a href=\"" + v + "\" rel=\"nofollow\">"
  {
  }

  lemma MergeFresh(a: Attrs, entry: (string, string))
    requires entry.0 !in Keys(a)
    ensures Merge(a, [entry]) == a + [entry]
  {
    assert [entry][1..] == [];
  }

  /*** What the loop inserts ***/

  function TotalLength(ts: seq<string>): nat {
    if ts == [] then 0 else |ts[0]| + TotalLength(ts[1..])
  }

  function TotalWidth(u: Unit, ts: seq<string>): nat {
    if ts == [] then 0 else Width(u, ts[0]) + TotalWidth(u, ts[1..])
  }

  /** `tag` is an opening tag of type `kind`: `<kind`, then anything, then `>`. */
  predicate OpensWith(tag: string, kind: string) {
    |tag| >= |kind| + 2 && tag[..|kind| + 1] == "<" + kind && tag[|tag| - 1] == '>'
  }

  /** Inserting adds the inserted string's width, in either unit. */
  lemma InsertAtWidth(u: Unit, s: string, ins: string, pos: int)
    ensures Width(u, InsertAt(s, ins, pos)) == Width(u, s) + Width(u, ins)
  {
    var p := Clamp(pos, |s|);
    if u == Bytes {
      assert s == s[..p] + s[p..];
      ByteLengthAppend(s[..p], s[p..]);
      ByteLengthAppend(s[..p], ins);
      ByteLengthAppend(s[..p] + ins, s[p..]);
    }
  }

  /** One format inserts one opening tag of its type and its closing tag,
      and advances the offset by exactly what it inserted. */
  lemma ApplyFormatInserts(u: Unit, text: string, f: Format, offset: int,
                           custom: Option<map<string, Generator>>, escape: Escape)
    ensures var st := ApplyFormat(u, text, f, offset, custom, escape);
            && OpensWith(st.opening, f.kind) && st.closing == ClosingTag(f.kind)
            && |st.text| == |text| + |st.opening| + |st.closing|
            && st.offset == offset + Width(u, st.opening) + Width(u, st.closing)
            && Width(u, st.text) == Width(u, text) + Width(u, st.opening) + Width(u, st.closing)
  {
    var st := ApplyFormat(u, text, f, offset, custom, escape);
    var attrs := AttrString(ResolveAttrs(f.kind, f.attrs, custom, text), escape);
    assert st.opening == "<" + f.kind + attrs + ">";
    assert st.opening[..|f.kind| + 1] == "<" + f.kind;
    var t1 := InsertAt(text, st.opening, f.from + offset);
    InsertAtWidth(u, text, st.opening, f.from + offset);
    InsertAtWidth(u, t1, st.closing, f.to + offset + Width(u, st.opening));
  }

  /** `ts` holds, per format of `fs` and in order, one opening tag of its
      type and its closing tag. */
  predicate PairsFor(ts: seq<string>, fs: seq<Format>) {
    && |ts| == 2 * |fs|
    && forall i :: 0 <= i < |fs| ==> OpensWith(ts[2 * i], fs[i].kind) && ts[2 * i + 1] == ClosingTag(fs[i].kind)
  }

  lemma PairsForCons(opening: string, closing: string, rest: seq<string>, fs: seq<Format>)
    requires fs != [] && PairsFor(rest, fs[1..])
    requires OpensWith(opening, fs[0].kind) && closing == ClosingTag(fs[0].kind)
    ensures PairsFor([opening, closing] + rest, fs)
  {
    var ts := [opening, closing] + rest;
    forall i | 0 <= i < |fs| ensures OpensWith(ts[2 * i], fs[i].kind) && ts[2 * i + 1] == ClosingTag(fs[i].kind) {
      if i > 0 {
        assert ts[2 * i] == rest[2 * (i - 1)] && ts[2 * i + 1] == rest[2 * (i - 1) + 1];
        assert fs[i] == fs[1..][i - 1];
      }
    }
  }

  /** The loop inserts, per format and in order, one opening tag of its type
      and its closing tag. */
  lemma {:induction false} TagsArePairs(u: Unit, text: string, fs: seq<Format>, offset: int,
                                        custom: Option<map<string, Generator>>, escape: Escape)
    ensures PairsFor(Tags(u, text, fs, offset, custom, escape), fs)
    decreases |fs|
  {
    if fs != [] {
      var st := ApplyFormat(u, text, fs[0], offset, custom, escape);
      ApplyFormatInserts(u, text, fs[0], offset, custom, escape);
      TagsArePairs(u, st.text, fs[1..], st.offset, custom, escape);
      PairsForCons(st.opening, st.closing, Tags(u, st.text, fs[1..], st.offset, custom, escape), fs);
    }
  }

  lemma TotalsCons(u: Unit, opening: string, closing: string, rest: seq<string>)
    ensures TotalLength([opening, closing] + rest) == |opening| + |closing| + TotalLength(rest)
    ensures TotalWidth(u, [opening, closing] + rest) == Width(u, opening) + Width(u, closing) + TotalWidth(u, rest)
  {
    var ts := [opening, closing] + rest;
    assert ts[1..] == [closing] + rest && ts[1..][1..] == rest;
  }

  /** The text grows by exactly the inserted tags, and the offset by their
      total width, which is the text's growth in the offset's own unit. */
  lemma {:induction false} ComposeGrowth(u: Unit, text: string, fs: seq<Format>, offset: int,
                                         custom: Option<map<string, Generator>>, escape: Escape)
    ensures var r := Compose(u, text, fs, offset, custom, escape);
            var ts := Tags(u, text, fs, offset, custom, escape);
            && |r.text| == |text| + TotalLength(ts)
            && r.offset == offset + TotalWidth(u, ts)
            && r.offset - offset == Width(u, r.text) - Width(u, text)
    decreases |fs|
  {
    if fs != [] {
      var st := ApplyFormat(u, text, fs[0], offset, custom, escape);
      ApplyFormatInserts(u, text, fs[0], offset, custom, escape);
      ComposeGrowth(u, st.text, fs[1..], st.offset, custom, escape);
      TotalsCons(u, st.opening, st.closing, Tags(u, st.text, fs[1..], st.offset, custom, escape));
    }
  }

  lemma InsertAtStart<T>(s: seq<T>, ins: seq<T>)
    ensures InsertAt(s, ins, 0) == ins + s
  {
    assert s[..0] == [] && s[0..] == s;
  }

  lemma InsertAtEnd<T>(s: seq<T>, ins: seq<T>, pos: int)
    requires pos >= |s|
    ensures InsertAt(s, ins, pos) == s + ins
  {
    assert s[..|s|] == s && s[|s|..] == [];
  }

  /** A single bold range over the whole text, without attributes, wraps the
      text in `<b>` and `</b>`. */
  lemma BoldWholeText(u: Unit, text: string, custom: Option<map<string, Generator>>, escape: Escape)
    requires custom.None? || "b" !in custom.value
    ensures Compose(u, text, [Format("b", 0, |text|, None)], 0, custom, escape).text == "<b>" + text + "</b>"
  {
    var f := Format("b", 0, |text|, None);
    PlainOpeningTag("b", None, custom, text, escape);
    BoldSpelling();
    assert OpeningFor(f, custom, escape, text) == "<b>" && Width(u, "<b>") == 3;
    InsertAtStart(text, "<b>");
    InsertAtEnd("<b>" + text, "</b>", |text| + 3);
    assert ApplyFormat(u, text, f, 0, custom, escape).text == "<b>" + text + "</b>";
    assert [f][1..] == [];
  }

  lemma BoldSpelling()
    ensures "<" + "b" + ">" == "<b>" && ClosingTag("b") == "</b>" && ByteLength("<b>") == 3
  {
    assert ByteLength("<b>") == Utf8Width('<') + ByteLength("b>");
  }
}

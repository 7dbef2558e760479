/** Where the compositor's tags land. Every character of the composed text
    is marked with its origin: a character of the original text, or a
    character of the opening or closing tag of the format with a given index.
    The marked run of the loop spells the composed text; its original
    characters spell the input text; and when the ranges are ascending and
    disjoint and the offset counts code points, every tag sits right before
    the original character its range names. */
module FormatsPlacement {
  import opened Wrappers
  import opened Document
  import opened InlineFormats

  datatype Origin = Original | Opening(index: nat) | Closing(index: nat)

  datatype Cell = Cell(c: char, origin: Origin)

  function Chars(cs: seq<Cell>): (s: string)
    ensures |s| == |cs|
    ensures forall i :: 0 <= i < |cs| ==> s[i] == cs[i].c
  {
    seq(|cs|, i requires 0 <= i < |cs| => cs[i].c)
  }

  /** The characters of `s`, all marked with origin `o`. */
  function Lift(s: string, o: Origin): (cs: seq<Cell>)
    ensures |cs| == |s|
    ensures forall i :: 0 <= i < |s| ==> cs[i] == Cell(s[i], o)
  {
    seq(|s|, i requires 0 <= i < |s| => Cell(s[i], o))
  }

  /** What is left once every tag character is deleted. */
  function Originals(cs: seq<Cell>): string {
    if cs == [] then []
    else Originals(cs[..|cs| - 1]) + (if cs[|cs| - 1].origin == Original then [cs[|cs| - 1].c] else [])
  }

  /** One format on marked text: the tags are built from the plain text and
      inserted, marked with the format's index, where the loop inserts them. */
  function Mark(u: Unit, cs: seq<Cell>, f: Format, index: nat, offset: int,
                custom: Option<map<string, Generator>>, escape: Escape): (seq<Cell>, int)
  {
    var opening, closing := OpeningFor(f, custom, escape, Chars(cs)), ClosingTag(f.kind);
    var c1 := InsertAt(cs, Lift(opening, Opening(index)), f.from + offset);
    var o1 := offset + Width(u, opening);
    (InsertAt(c1, Lift(closing, Closing(index)), f.to + o1), o1 + Width(u, closing))
  }

  /** The loop on marked text; the first format gets index `index`. */
  function Marked(u: Unit, cs: seq<Cell>, fs: seq<Format>, index: nat, offset: int,
                  custom: Option<map<string, Generator>>, escape: Escape): seq<Cell>
    decreases |fs|
  {
    if fs == [] then cs
    else
      var m := Mark(u, cs, fs[0], index, offset, custom, escape);
      Marked(u, m.0, fs[1..], index + 1, m.1, custom, escape)
  }

  /*** The marked run spells the composed text ***/

  lemma CharsInsertAt(cs: seq<Cell>, ins: seq<Cell>, pos: int)
    ensures Chars(InsertAt(cs, ins, pos)) == InsertAt(Chars(cs), Chars(ins), pos)
  {
  }

  lemma CharsLift(s: string, o: Origin)
    ensures Chars(Lift(s, o)) == s
  {
  }

  lemma MarkChars(u: Unit, cs: seq<Cell>, f: Format, index: nat, offset: int,
                  custom: Option<map<string, Generator>>, escape: Escape)
    ensures var m := Mark(u, cs, f, index, offset, custom, escape);
            var st := ApplyFormat(u, Chars(cs), f, offset, custom, escape);
            Chars(m.0) == st.text && m.1 == st.offset
  {
    var opening, closing := OpeningFor(f, custom, escape, Chars(cs)), ClosingTag(f.kind);
    var l1, l2 := Lift(opening, Opening(index)), Lift(closing, Closing(index));
    var c1 := InsertAt(cs, l1, f.from + offset);
    CharsInsertAt(cs, l1, f.from + offset);
    CharsLift(opening, Opening(index));
    CharsInsertAt(c1, l2, f.to + (offset + Width(u, opening)));
    CharsLift(closing, Closing(index));
  }

  lemma {:induction false} MarkedChars(u: Unit, cs: seq<Cell>, fs: seq<Format>, index: nat, offset: int,
                                       custom: Option<map<string, Generator>>, escape: Escape)
    ensures Chars(Marked(u, cs, fs, index, offset, custom, escape)) == Compose(u, Chars(cs), fs, offset, custom, escape).text
    decreases |fs|
  {
    if fs != [] {
      var m := Mark(u, cs, fs[0], index, offset, custom, escape);
      MarkChars(u, cs, fs[0], index, offset, custom, escape);
      MarkedChars(u, m.0, fs[1..], index + 1, m.1, custom, escape);
    }
  }

  /*** Deleting the tags gives back the text ***/

  lemma {:induction false} OriginalsAppend(a: seq<Cell>, b: seq<Cell>)
    ensures Originals(a + b) == Originals(a) + Originals(b)
    decreases |b|
  {
    if b == [] {
      assert a + b == a;
    } else {
      var ab := a + b;
      assert ab[..|ab| - 1] == a + b[..|b| - 1];
      assert ab[|ab| - 1] == b[|b| - 1];
      OriginalsAppend(a, b[..|b| - 1]);
    }
  }

  /** A run of cells all of one tag origin has no original character. */
  lemma {:induction false} OriginalsOfTag(s: string, o: Origin)
    requires o != Original
    ensures Originals(Lift(s, o)) == []
    decreases |s|
  {
    if s != [] {
      assert Lift(s, o)[..|s| - 1] == Lift(s[..|s| - 1], o);
      OriginalsOfTag(s[..|s| - 1], o);
    }
  }

  /** A run of original cells is all original characters. */
  lemma {:induction false} OriginalsOfOriginal(cs: seq<Cell>)
    requires forall q :: 0 <= q < |cs| ==> cs[q].origin == Original
    ensures Originals(cs) == Chars(cs)
    decreases |cs|
  {
    if cs != [] {
      OriginalsOfOriginal(cs[..|cs| - 1]);
      assert Chars(cs) == Chars(cs[..|cs| - 1]) + [cs[|cs| - 1].c];
    }
  }

  lemma OriginalsInsertTag(cs: seq<Cell>, s: string, o: Origin, pos: int)
    requires o != Original
    ensures Originals(InsertAt(cs, Lift(s, o), pos)) == Originals(cs)
  {
    var p := Clamp(pos, |cs|);
    var l := Lift(s, o);
    OriginalsAppend(cs[..p] + l, cs[p..]);
    OriginalsAppend(cs[..p], l);
    OriginalsOfTag(s, o);
    OriginalsAppend(cs[..p], cs[p..]);
    assert cs[..p] + cs[p..] == cs;
  }

  lemma {:induction false} MarkedOriginals(u: Unit, cs: seq<Cell>, fs: seq<Format>, index: nat, offset: int,
                                           custom: Option<map<string, Generator>>, escape: Escape)
    ensures Originals(Marked(u, cs, fs, index, offset, custom, escape)) == Originals(cs)
    decreases |fs|
  {
    if fs != [] {
      var opening, closing := OpeningFor(fs[0], custom, escape, Chars(cs)), ClosingTag(fs[0].kind);
      var c1 := InsertAt(cs, Lift(opening, Opening(index)), fs[0].from + offset);
      OriginalsInsertTag(cs, opening, Opening(index), fs[0].from + offset);
      OriginalsInsertTag(c1, closing, Closing(index), fs[0].to + (offset + Width(u, opening)));
      var m := Mark(u, cs, fs[0], index, offset, custom, escape);
      MarkedOriginals(u, m.0, fs[1..], index + 1, m.1, custom, escape);
    }
  }

  /** Deleting the inserted tag characters from the composed text recovers
      the original text: the marked run of the loop spells the composed text,
      and its original characters spell the input, in order. */
  lemma TagsDeletedLeaveText(u: Unit, text: string, fs: seq<Format>,
                             custom: Option<map<string, Generator>>, escape: Escape)
    ensures var cs := Marked(u, Lift(text, Original), fs, 0, 0, custom, escape);
            Chars(cs) == Compose(u, text, fs, 0, custom, escape).text && Originals(cs) == text
  {
    var start := Lift(text, Original);
    CharsLift(text, Original);
    MarkedChars(u, start, fs, 0, 0, custom, escape);
    MarkedOriginals(u, start, fs, 0, 0, custom, escape);
    OriginalsOfOriginal(start);
  }

  /*** Placement for ascending, disjoint ranges ***/

  /** Ranges inside a text of length `n`, ascending and pairwise disjoint
      (each range ends at or before the next one starts). */
  predicate Disjoint(fs: seq<Format>, n: nat) {
    && (forall i :: 0 <= i < |fs| ==> 0 <= fs[i].from <= fs[i].to <= n)
    && (forall i :: 0 <= i < |fs| - 1 ==> fs[i].to <= fs[i + 1].from)
  }

  /** The number of original characters a tag of origin `o` must follow. */
  function Target(fs: seq<Format>, o: Origin): int
    requires o != Original && o.index < |fs|
  {
    match o
    case Opening(i) => fs[i].from
    case Closing(i) => fs[i].to
  }

  /** Every tag character belongs to a format of `fs` and is preceded by
      exactly as many original characters as its range names: the opening
      tag of format `i` sits right before original character `from`, its
      closing tag right before original character `to` (at the end when `to`
      is the text length). */
  ghost predicate Placed(cs: seq<Cell>, fs: seq<Format>) {
    forall p :: 0 <= p < |cs| && cs[p].origin != Original ==>
      cs[p].origin.index < |fs| && |Originals(cs[..p])| == Target(fs, cs[p].origin)
  }

  /** From position `start` on, only original characters. */
  ghost predicate OriginalFrom(cs: seq<Cell>, start: nat) {
    forall q :: start <= q < |cs| ==> cs[q].origin == Original
  }

  /** With `off` tags before original character `b` and only originals
      after them, the first `x + off` cells hold `x` originals, for `b <= x`. */
  lemma PrefixOriginals(cs: seq<Cell>, off: nat, b: nat, x: nat)
    requires b <= x && x + off <= |cs|
    requires OriginalFrom(cs, b + off) && |Originals(cs[..b + off])| == b
    ensures |Originals(cs[..x + off])| == x
  {
    OriginalsOfOriginal(cs[b + off..x + off]);
    OriginalsAppend(cs[..b + off], cs[b + off..x + off]);
    assert cs[..b + off] + cs[b + off..x + off] == cs[..x + off];
  }

  /** Earlier tags keep their count after an insertion at `p`; the inserted
      tag characters all follow what the first `p` cells hold. */
  lemma PlacedAfterInsert(cs: seq<Cell>, fs: seq<Format>, x: nat, s: string, o: Origin, p: nat)
    requires p <= |cs| && o != Original && o.index < |fs| && Target(fs, o) == x
    requires |Originals(cs[..p])| == x && OriginalFrom(cs, p)
    requires Placed(cs, fs)
    ensures Placed(cs[..p] + Lift(s, o) + cs[p..], fs)
  {
    var l := Lift(s, o);
    var r := cs[..p] + l + cs[p..];
    forall q | 0 <= q < |r| && r[q].origin != Original
      ensures r[q].origin.index < |fs| && |Originals(r[..q])| == Target(fs, r[q].origin)
    {
      if q < p {
        assert r[q] == cs[q] && r[..q] == cs[..q];
      } else if q < p + |s| {
        assert r[q] == l[q - p];
        assert r[..q] == cs[..p] + l[..q - p];
        assert l[..q - p] == Lift(s[..q - p], o);
        OriginalsOfTag(s[..q - p], o);
        OriginalsAppend(cs[..p], l[..q - p]);
      }
    }
  }

  /** One tag inserted at `x + off`, where `off` tags are already in place
      before original character `b <= x`, lands after exactly `x` original
      characters and disturbs no earlier tag. */
  lemma PlaceTag(cs: seq<Cell>, fs: seq<Format>, n: nat, off: nat, b: nat, x: nat, s: string, o: Origin, pos: int)
    requires pos == x + off
    requires o != Original && o.index < |fs| && Target(fs, o) == x
    requires b <= x <= n && |cs| == n + off
    requires OriginalFrom(cs, b + off) && |Originals(cs[..b + off])| == b
    requires Placed(cs, fs)
    ensures var r := InsertAt(cs, Lift(s, o), pos);
            && |r| == n + (off + |s|)
            && OriginalFrom(r, x + (off + |s|))
            && |Originals(r[..x + (off + |s|)])| == x
            && Placed(r, fs)
  {
    var p := x + off;
    var l := Lift(s, o);
    var r := InsertAt(cs, l, p);
    assert r == cs[..p] + l + cs[p..];
    PrefixOriginals(cs, off, b, x);
    OriginalsOfTag(s, o);
    assert r[..p + |s|] == cs[..p] + l;
    OriginalsAppend(cs[..p], l);
    assert OriginalFrom(r, p + |s|) by {
      forall q | p + |s| <= q < |r| ensures r[q].origin == Original {
        assert r[q] == cs[q - |s|];
      }
    }
    PlacedAfterInsert(cs, fs, x, s, o, p);
  }

  /** The two tags of one format, placed with the offset counted in code
      points. */
  lemma PlacePair(cs: seq<Cell>, fs: seq<Format>, k: nat, n: nat, off: nat, b: nat, opening: string, closing: string,
                  closeAt: int)
    requires k < |fs| && 0 <= b <= fs[k].from <= fs[k].to <= n
    requires closeAt == fs[k].to + off + |opening|
    requires |cs| == n + off && OriginalFrom(cs, b + off) && |Originals(cs[..b + off])| == b
    requires Placed(cs, fs)
    ensures var c1 := InsertAt(cs, Lift(opening, Opening(k)), fs[k].from + off);
            var r := InsertAt(c1, Lift(closing, Closing(k)), closeAt);
            var next := off + |opening| + |closing|;
            && |r| == n + next
            && OriginalFrom(r, fs[k].to + next)
            && |Originals(r[..fs[k].to + next])| == fs[k].to
            && Placed(r, fs)
  {
    assert Target(fs, Opening(k)) == fs[k].from && Target(fs, Closing(k)) == fs[k].to;
    assert Clamp(fs[k].from + off, |cs|) == fs[k].from + off;
    PlaceTag(cs, fs, n, off, b, fs[k].from, opening, Opening(k), fs[k].from + off);
    var c1 := InsertAt(cs, Lift(opening, Opening(k)), fs[k].from + off);
    assert Clamp(closeAt, |c1|) == closeAt;
    PlaceTag(c1, fs, n, off + |opening|, fs[k].from, fs[k].to, closing, Closing(k), closeAt);
  }

  lemma MarkPlaced(cs: seq<Cell>, fs: seq<Format>, k: nat, n: nat, off: nat, b: nat,
                   custom: Option<map<string, Generator>>, escape: Escape)
    requires k < |fs| && 0 <= b <= fs[k].from <= fs[k].to <= n
    requires |cs| == n + off && OriginalFrom(cs, b + off) && |Originals(cs[..b + off])| == b
    requires Placed(cs, fs)
    ensures var m := Mark(CodePoints, cs, fs[k], k, off, custom, escape);
            && m.1 >= 0
            && |m.0| == n + m.1
            && OriginalFrom(m.0, fs[k].to + m.1)
            && |Originals(m.0[..fs[k].to + m.1])| == fs[k].to
            && Placed(m.0, fs)
  {
    var opening, closing := OpeningFor(fs[k], custom, escape, Chars(cs)), ClosingTag(fs[k].kind);
    var closeAt := fs[k].to + (off + Width(CodePoints, opening));
    var c1 := InsertAt(cs, Lift(opening, Opening(k)), fs[k].from + off);
    var r := InsertAt(c1, Lift(closing, Closing(k)), closeAt);
    var m := Mark(CodePoints, cs, fs[k], k, off, custom, escape);
    assert m == (r, off + |opening| + |closing|);
    PlacePair(cs, fs, k, n, off, b, opening, closing, closeAt);
  }

  lemma {:induction false} MarkedPlaced(cs: seq<Cell>, fs: seq<Format>, k: nat, n: nat, off: nat, b: nat,
                                        custom: Option<map<string, Generator>>, escape: Escape)
    requires k <= |fs| && Disjoint(fs, n) && b <= n
    requires k < |fs| ==> b <= fs[k].from
    requires |cs| == n + off && OriginalFrom(cs, b + off) && |Originals(cs[..b + off])| == b
    requires Placed(cs, fs)
    ensures Placed(Marked(CodePoints, cs, fs[k..], k, off, custom, escape), fs)
    decreases |fs| - k
  {
    if k < |fs| {
      assert fs[k..][0] == fs[k] && fs[k..][1..] == fs[k + 1..];
      MarkPlaced(cs, fs, k, n, off, b, custom, escape);
      var m := Mark(CodePoints, cs, fs[k], k, off, custom, escape);
      MarkedPlaced(m.0, fs, k + 1, n, m.1, fs[k].to, custom, escape);
    }
  }

  /** With ascending, disjoint ranges and the offset counted in code points,
      every opening tag of format `i` follows exactly `from` original
      characters and every closing tag exactly `to`. */
  lemma Placement(text: string, fs: seq<Format>, custom: Option<map<string, Generator>>, escape: Escape)
    requires Disjoint(fs, |text|)
    ensures Placed(Marked(CodePoints, Lift(text, Original), fs, 0, 0, custom, escape), fs)
  {
    var start := Lift(text, Original);
    assert start[..0] == [];
    assert fs[0..] == fs;
    MarkedPlaced(start, fs, 0, |text|, 0, 0, custom, escape);
  }
}

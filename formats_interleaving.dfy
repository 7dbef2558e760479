/** The composed text in closed form: for ascending, disjoint ranges the
    loop yields the original text cut at every `from` and `to`, with each
    format's opening tag at its `from` and its closing tag at its `to`, the
    tags of one format whole and in the loop's order. */
module FormatsInterleaving {
  import opened Wrappers
  import opened Document
  import opened InlineFormats
  import opened FormatsProofs
  import opened FormatsPlacement
  import opened Sequences

  /** Ranges inside a text of length `n`, each starting at or after the end
      of the one before, the first at or after `b`. */
  predicate Ascending(fs: seq<Format>, b: int, n: nat)
    decreases |fs|
  {
    0 <= b <= n && (fs != [] ==> b <= fs[0].from <= fs[0].to <= n && Ascending(fs[1..], fs[0].to, n))
  }

  /** The reference interleaving of `text` from position `b` on with the
      tags `ts`, two per format: the text up to `from`, the opening tag, the
      range, the closing tag, and so on to the end of the text. */
  function Interleaved(text: string, fs: seq<Format>, ts: seq<string>, b: nat): string
    requires Ascending(fs, b, |text|) && |ts| == 2 * |fs|
    decreases |fs|
  {
    if fs == [] then text[b..]
    else text[b..fs[0].from] + ts[0] + text[fs[0].from..fs[0].to] + ts[1] + Interleaved(text, fs[1..], ts[2..], fs[0].to)
  }

  lemma {:induction false} DisjointAscending(fs: seq<Format>, b: nat, n: nat)
    requires Disjoint(fs, n) && b <= n && (fs != [] ==> b <= fs[0].from)
    ensures Ascending(fs, b, n)
    decreases |fs|
  {
    if fs != [] {
      assert Disjoint(fs[1..], n) by {
        forall i | 0 <= i < |fs[1..]| ensures 0 <= fs[1..][i].from <= fs[1..][i].to <= n {
          assert fs[1..][i] == fs[i + 1];
        }
        forall i | 0 <= i < |fs[1..]| - 1 ensures fs[1..][i].to <= fs[1..][i + 1].from {
          assert fs[1..][i] == fs[i + 1] && fs[1..][i + 1] == fs[i + 2];
        }
      }
      assert 0 <= fs[0].from <= fs[0].to <= n;
      if |fs| > 1 {
        assert fs[0].to <= fs[1].from && fs[1..][0] == fs[1];
      }
      DisjointAscending(fs[1..], fs[0].to, n);
    }
  }

  /** A zero-length splice at the end of a prefix. */
  lemma InsertAtJoin(x: string, y: string, ins: string, pos: int)
    requires pos == |x|
    ensures InsertAt(x + y, ins, pos) == x + ins + y
  {
    assert (x + y)[..pos] == x && (x + y)[pos..] == y;
  }

  /** A suffix of `text` cut at `m`. */
  lemma SuffixSplit(p: string, text: string, b: nat, m: nat)
    requires b <= m <= |text|
    ensures p + text[b..] == (p + text[b..m]) + text[m..]
  {
    assert text[b..] == text[b..m] + text[m..];
    AppendAssoc(p, text[b..m], text[m..]);
  }

  lemma Regroup(p: string, a: string, o: string, r: string, c: string, rest: string)
    ensures p + (a + o + r + c + rest) == p + a + o + r + c + rest
  {
    AppendAssoc(a + o + r, c, rest);
    AppendAssoc(a + o, r, c + rest);
    AppendAssoc(a, o, r + (c + rest));
    AppendAssoc(p, a, o + (r + (c + rest)));
    AppendAssoc(p + a, o, r + (c + rest));
    AppendAssoc(p + a + o, r, c + rest);
    AppendAssoc(p + a + o + r, c, rest);
  }

  /** One format of an ascending list: the text so far is a finished prefix
      `p` of the right length followed by the untouched rest of the text;
      the step appends up to the range's end to the prefix. */
  lemma StepJoins(text: string, f: Format, p: string, b: nat, off: int,
                  custom: Option<map<string, Generator>>, escape: Escape)
    requires b <= f.from <= f.to <= |text| && |p| == b + off
    ensures var st := ApplyFormat(CodePoints, p + text[b..], f, off, custom, escape);
            var q := p + text[b..f.from] + st.opening + text[f.from..f.to] + st.closing;
            && st.closing == ClosingTag(f.kind)
            && st.opening == OpeningFor(f, custom, escape, p + text[b..])
            && st.text == q + text[f.to..]
            && |q| == f.to + st.offset
  {
    var t := p + text[b..];
    var opening := OpeningFor(f, custom, escape, t);
    var closing := ClosingTag(f.kind);
    var x := p + text[b..f.from];
    SuffixSplit(p, text, b, f.from);
    InsertAtJoin(x, text[f.from..], opening, f.from + off);
    var x2 := x + opening + text[f.from..f.to];
    SuffixSplit(x + opening, text, f.from, f.to);
    InsertAtJoin(x2, text[f.to..], closing, f.to + off + |opening|);
  }

  /** The loop over an ascending list from a finished prefix `p` appends the
      reference interleaving of the rest of the text to `p`. */
  lemma {:induction false} ComposeInterleaves(text: string, fs: seq<Format>, p: string, b: nat, off: int,
                                              custom: Option<map<string, Generator>>, escape: Escape)
    requires Ascending(fs, b, |text|) && |p| == b + off
    ensures var ts := Tags(CodePoints, p + text[b..], fs, off, custom, escape);
            && |ts| == 2 * |fs|
            && Compose(CodePoints, p + text[b..], fs, off, custom, escape).text == p + Interleaved(text, fs, ts, b)
    decreases |fs|
  {
    var t := p + text[b..];
    if fs == [] {
    } else {
      var f := fs[0];
      var st := ApplyFormat(CodePoints, t, f, off, custom, escape);
      StepJoins(text, f, p, b, off, custom, escape);
      var q := p + text[b..f.from] + st.opening + text[f.from..f.to] + st.closing;
      ComposeInterleaves(text, fs[1..], q, f.to, st.offset, custom, escape);
      var rest := Tags(CodePoints, st.text, fs[1..], st.offset, custom, escape);
      var ts := Tags(CodePoints, t, fs, off, custom, escape);
      assert ts == [st.opening, st.closing] + rest;
      assert ts[0] == st.opening && ts[1] == st.closing && ts[2..] == rest;
      Regroup(p, text[b..f.from], st.opening, text[f.from..f.to], st.closing, Interleaved(text, fs[1..], rest, f.to));
    }
  }

  /** With ascending, disjoint ranges and the offset counted in code points,
      the composed text is the reference interleaving of the text with the
      tags the loop builds: per format, in order, one opening tag of its type
      right before original character `from` and its closing tag right
      before original character `to` (at the end when `to` is the length). */
  lemma Interleaving(text: string, fs: seq<Format>, custom: Option<map<string, Generator>>, escape: Escape)
    requires Disjoint(fs, |text|)
    ensures var ts := Tags(CodePoints, text, fs, 0, custom, escape);
            && Ascending(fs, 0, |text|)
            && PairsFor(ts, fs)
            && Compose(CodePoints, text, fs, 0, custom, escape).text == Interleaved(text, fs, ts, 0)
  {
    DisjointAscending(fs, 0, |text|);
    ComposeInterleaves(text, fs, [], 0, 0, custom, escape);
    assert [] + text[0..] == text;
    TagsArePairs(CodePoints, text, fs, 0, custom, escape);
  }
}

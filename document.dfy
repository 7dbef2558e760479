/** The decoded Carbon document: nodes, format ranges, and the two string
    primitives of PHP that the converter relies on (`strlen` and `ucfirst`). */
module Document {
  import opened Wrappers

  /** Identifies an element of the markup document under construction. */
  type ElementId = nat

  /** Identifies a markup document. */
  type DocumentId = nat

  /** A PHP array with string keys, in insertion order: the decoded `attrs`
      object of a format range, or the result of a custom attribute generator. */
  type Attrs = seq<(string, string)>

  /** One entry of a node's `formats` array. `kind` is the JSON field `type`
      (the tag name); `from` and `to` are code-point offsets into the text. */
  datatype Format = Format(kind: string, from: int, to: int, attrs: Option<Attrs>)

  /** The `components` property of a node: unset, or an array of child nodes. */
  datatype Children = NoComponents | Components(nodes: seq<Node>)

  /** A decoded node of the document tree. */
  datatype Node = Node(
    component: string,
    paragraphType: Option<string>,
    text: Option<string>,
    formats: Option<seq<Format>>,
    components: Children)

  /** `$node->text` read as a string: an unset text reads as `null`, which
      PHP's string functions treat as the empty string. */
  function TextOf(n: Node): string {
    n.text.GetOr("")
  }

  /** Number of bytes the UTF-8 encoding of `c` takes. */
  function Utf8Width(c: char): (w: nat)
    ensures 1 <= w <= 4
    ensures w == 1 <==> (c as int) < 0x80
  {
    if (c as int) < 0x80 then 1
    else if (c as int) < 0x800 then 2
    else if (c as int) < 0x10000 then 3
    else 4
  }

  /** PHP's `strlen` of a UTF-8 string given as code points: its byte length. */
  function ByteLength(s: string): (n: nat)
    ensures |s| <= n <= 4 * |s|
  {
    if s == [] then 0 else Utf8Width(s[0]) + ByteLength(s[1..])
  }

  predicate IsAscii(s: string) {
    forall i :: 0 <= i < |s| ==> (s[i] as int) < 0x80
  }

  /** `strlen` is additive over concatenation. */
  lemma {:induction false} ByteLengthAppend(a: string, b: string)
    ensures ByteLength(a + b) == ByteLength(a) + ByteLength(b)
  {
    if a == [] {
      assert a + b == b;
    } else {
      assert (a + b)[0] == a[0];
      assert (a + b)[1..] == a[1..] + b;
      ByteLengthAppend(a[1..], b);
    }
  }

  /** On ASCII text, bytes and code points agree, and only there. */
  lemma {:induction false} ByteLengthAscii(s: string)
    ensures ByteLength(s) == |s| <==> IsAscii(s)
  {
    if s != [] {
      ByteLengthAscii(s[1..]);
      if IsAscii(s) {
        assert IsAscii(s[1..]) by {
          forall i | 0 <= i < |s[1..]| ensures (s[1..][i] as int) < 0x80 {
            assert s[1..][i] == s[i + 1];
          }
        }
      }
    }
  }

  /** PHP's `ucfirst`: upper-cases the first character when it is an ASCII
      lower-case letter and leaves the rest of the string alone. */
  function UcFirst(s: string): (r: string)
    ensures |r| == |s|
    ensures |s| > 0 ==> r[1..] == s[1..]
    ensures |s| > 0 && 'a' <= s[0] <= 'z' ==> r[0] as int == s[0] as int - 32
    ensures |s| > 0 && !('a' <= s[0] <= 'z') ==> r[0] == s[0]
  {
    if |s| > 0 && 'a' <= s[0] <= 'z' then [(s[0] as int - 32) as char] + s[1..] else s
  }
}

/** The document walker of `Converter`: the component registry, the guards of
    `convert`, and the recursive walk that counts paragraphs, fires custom
    inserts and dispatches every node to its renderer.

    The markup document is abstract. A renderer or a custom-insert callback is
    an opaque identifier; calling one creates a fresh element, whose id is
    taken from `nextElement`, and appends an `Event` to `trace`. */
module Conversion {
  import opened Wrappers
  import opened Document

  /** Identifies a loaded component renderer (an object with a `parse` method). */
  type RendererId = nat

  /** Identifies a caller-supplied custom-insert closure. */
  type CallbackId = nat

  /** The parent element handed to a renderer; `None` is PHP's `null`. */
  type Parent = Option<ElementId>

  /** The `components` array: component name to renderer. */
  type Registry = map<string, RendererId>

  /** The `customInserts` array: paragraph number to callback, in insertion
      order. A PHP array holds each key once (`DistinctKeys`); the model
      does not demand it of its callers, and on a list with a repeated key
      the lookup takes the first entry. */
  type Inserts = seq<(int, CallbackId)>

  predicate DistinctKeys(ins: Inserts) {
    forall i, j :: 0 <= i < j < |ins| ==> ins[i].0 != ins[j].0
  }

  /** What the walk does to the markup document, in order. */
  datatype Event =
    | Inserted(paragraph: int, callback: CallbackId, parent: Parent, element: ElementId)
    | Rendered(node: Node, renderer: RendererId, parent: Parent, element: ElementId)
  {
    function Element(): ElementId {
      match this
      case Inserted(_, _, _, e) => e
      case Rendered(_, _, _, e) => e
    }
  }

  /** The two exceptions the converter throws, with their messages. */
  datatype Error = NotTraversable(message: string) | InvalidStructure(message: string)

  /** The mutable state of a converter that a walk changes: the paragraph
      counter, the next fresh element id, and the events so far. */
  datatype State = State(count: int, next: ElementId, trace: seq<Event>)

  /** The state after a walk, and the exception that stopped it, if any. */
  datatype Outcome = Outcome(state: State, error: Option<Error>)

  /** The decoded JSON document: its `sections` property, `None` when it is
      unset or null (including when the decoded value is not an object). */
  datatype Decoded = Decoded(sections: Option<seq<Node>>)

  /** The message of the error for input that did not decode. */
  const InvalidJsonMessage := "The JSON provided is not valid"
  /** The message of the error for input without `sections`. */
  const NotCarbonMessage := "The JSON provided is not in a Carbon Editor format."

  /** The message of the error for a component with no renderer. */
  function NotLoadedMessage(component: string): string {
    "The JSON contains the component '" + component + "', but that isn't loaded."
  }

  /** A node that counts as a paragraph for custom inserts. */
  predicate IsParagraph(n: Node) {
    UcFirst(n.component) == "Paragraph" && n.paragraphType == Some("p")
  }

  /** `$customInserts[$k]`: the callback stored under key `k`, if any. */
  function Find(ins: Inserts, k: int): (r: Option<CallbackId>)
    ensures r.Some? <==> exists i :: 0 <= i < |ins| && ins[i].0 == k
    ensures r.Some? ==> (k, r.value) in ins
  {
    if ins == [] then None
    else if ins[0].0 == k then Some(ins[0].1)
    else Find(ins[1..], k)
  }

  /** Under distinct keys, as in a PHP array, the callback found under a key
      is the one stored under it. */
  lemma {:induction false} FindDistinct(ins: Inserts, k: int, c: CallbackId)
    requires DistinctKeys(ins) && (k, c) in ins
    ensures Find(ins, k) == Some(c)
    decreases |ins|
  {
    var j :| 0 <= j < |ins| && ins[j] == (k, c);
    if ins[0].0 != k {
      assert DistinctKeys(ins[1..]) by {
        forall i, l | 0 <= i < l < |ins[1..]| ensures ins[1..][i].0 != ins[1..][l].0 {
          assert ins[1..][i] == ins[i + 1] && ins[1..][l] == ins[l + 1];
        }
      }
      assert ins[1..][j - 1] == (k, c);
      FindDistinct(ins[1..], k, c);
    } else {
      assert j == 0;
    }
  }

  /** PHP's `empty` on a string: true for "" and for "0". */
  predicate PhpEmpty(s: string) {
    s == "" || s == "0"
  }

  /** What one sibling adds to `$totalPrev`: the byte length of its text,
      or nothing when the text is unset or empty. */
  function TextBytes(n: Node): nat {
    if n.text.Some? && !PhpEmpty(n.text.value) then ByteLength(n.text.value) else 0
  }

  /** Sum of `TextBytes` over a list of nodes. */
  function SumTextBytes(ns: seq<Node>): nat {
    if ns == [] then 0 else TextBytes(ns[0]) + SumTextBytes(ns[1..])
  }

  /** `$totalPrev` at sibling `key`: siblings 0 to `key`, the current one included. */
  function PrevTextBytes(siblings: seq<Node>, key: nat): nat
    requires key < |siblings|
  {
    SumTextBytes(siblings[..key + 1])
  }

  /** Whether the callback registered at paragraph number `count` fires for
      sibling `key`: there is one, and the paragraph is itself longer than 120
      bytes, or `count` is the first key of `customInserts` in insertion order
      and the siblings up to this one hold more than 120 bytes of text. */
  predicate Fires(ins: Option<Inserts>, siblings: seq<Node>, key: nat, count: int)
    requires key < |siblings|
  {
    && ins.Some?
    && Find(ins.value, count).Some?
    && (|| ByteLength(TextOf(siblings[key])) > 120
        || (count == ins.value[0].0 && PrevTextBytes(siblings, key) > 120))
  }

  /** The parent in effect at this level and the state, after the
      custom-insert check for one node. */
  datatype Injection = Injection(parent: Parent, state: State)

  /** The custom-insert check for sibling `key`, run before its renderer. */
  function Inject(ins: Option<Inserts>, siblings: seq<Node>, key: nat, parent: Parent, s: State): (r: Injection)
    requires key < |siblings|
    ensures !IsParagraph(siblings[key]) ==> r == Injection(parent, s)
    ensures IsParagraph(siblings[key]) ==> r.state.count == s.count + 1
  {
    if !IsParagraph(siblings[key]) then Injection(parent, s)
    else if Fires(ins, siblings, key, s.count) then
      var callback := Find(ins.value, s.count).value;
      Injection(Some(s.next), State(s.count + 1, s.next + 1,
                                    s.trace + [Inserted(s.count, callback, parent, s.next)]))
    else
      Injection(parent, s.(count := s.count + 1))
  }

  /** The walk over `siblings[key..]` under `parent`, starting in state `s`:
      each node gets the custom-insert check, then its renderer is looked up
      by the first-char-upper-cased component name (a missing one stops the
      walk with InvalidStructure), called with the parent in effect, and the
      node's children are walked with the new element as their parent. */
  function Walk(reg: Registry, ins: Option<Inserts>, siblings: seq<Node>, key: nat, parent: Parent, s: State): Outcome
    decreases siblings, |siblings| - key
  {
    if key >= |siblings| then Outcome(s, None)
    else
      var node := siblings[key];
      var component := UcFirst(node.component);
      var inj := Inject(ins, siblings, key, parent, s);
      if component !in reg then
        Outcome(inj.state, Some(InvalidStructure(NotLoadedMessage(component))))
      else
        var s1 := inj.state;
        var element := s1.next;
        var s2 := State(s1.count, element + 1,
                        s1.trace + [Rendered(node, reg[component], inj.parent, element)]);
        var inner := if node.components.Components?
                     then Walk(reg, ins, node.components.nodes, 0, Some(element), s2)
                     else Outcome(s2, None);
        if inner.error.Some? then inner
        else Walk(reg, ins, siblings, key + 1, inj.parent, inner.state)
  }

  /** The components array after registering `pairs` in order; a later
      registration under the same name overwrites an earlier one. */
  function RegistryOf(pairs: seq<(string, RendererId)>): Registry {
    if pairs == [] then map[]
    else RegistryOf(pairs[..|pairs| - 1])[pairs[|pairs| - 1].0 := pairs[|pairs| - 1].1]
  }

  /** A name is registered exactly when some pair carries it, and then with
      the renderer of the last such pair. */
  lemma {:induction false} RegistryOfLast(pairs: seq<(string, RendererId)>, name: string)
    ensures name in RegistryOf(pairs) <==> exists i :: 0 <= i < |pairs| && pairs[i].0 == name
    ensures forall i :: 0 <= i < |pairs| && pairs[i].0 == name && (forall j :: i < j < |pairs| ==> pairs[j].0 != name) ==>
              name in RegistryOf(pairs) && RegistryOf(pairs)[name] == pairs[i].1
    decreases |pairs|
  {
    if pairs != [] {
      var init := pairs[..|pairs| - 1];
      var last := pairs[|pairs| - 1];
      RegistryOfLast(init, name);
      assert forall i :: 0 <= i < |init| ==> init[i] == pairs[i];
      if last.0 != name {
        assert (exists i :: 0 <= i < |pairs| && pairs[i].0 == name) ==> exists i :: 0 <= i < |init| && init[i].0 == name;
      }
    }
  }

  /** The `$totalPrev` loop: sums the siblings' text lengths from `key` down to 0. */
  method SumPrevious(siblings: seq<Node>, key: nat) returns (totalPrev: nat)
    requires key < |siblings|
    ensures totalPrev == PrevTextBytes(siblings, key)
  {
    totalPrev := 0;
    for i := 0 to key + 1
      invariant totalPrev == SumTextBytes(siblings[key + 1 - i..key + 1])
    {
      var j := key - i;
      assert siblings[j..key + 1] == [siblings[j]] + siblings[j + 1..key + 1];
      if siblings[j].text.Some? && !PhpEmpty(siblings[j].text.value) {
        totalPrev := totalPrev + ByteLength(siblings[j].text.value);
      }
    }
    assert siblings[0..key + 1] == siblings[..key + 1];
  }

  class Converter {
    /** Loaded renderers by component name. */
    var components: Registry
    /** The inserts of the latest `convert` call. */
    var customInserts: Option<Inserts>
    /** The paragraph counter: starts at 1 and is never reset. */
    var parentParagraphCount: int
    /** The abstract markup document: next fresh element id, events so far. */
    var nextElement: ElementId
    var trace: seq<Event>

    function Current(): State
      reads this
    {
      State(parentParagraphCount, nextElement, trace)
    }

    /** Registers the default renderers; `loaded` lists, in order, the name
        each default component class (`Section`, `Layout`, `Paragraph`,
        `Figure`, `ListComponent`, `EmbeddedComponent`, `HTMLComponent`)
        reports and the renderer itself. */
    constructor (loaded: seq<(string, RendererId)>)
      ensures components == RegistryOf(loaded)
      ensures customInserts == Some([])
      ensures Current() == State(1, 0, [])
    {
      components := map[];
      customInserts := Some([]);
      parentParagraphCount := 1;
      nextElement := 0;
      trace := [];
      new;
      for i := 0 to |loaded|
        invariant components == RegistryOf(loaded[..i])
        invariant customInserts == Some([]) && Current() == State(1, 0, [])
      {
        assert loaded[..i + 1][..i] == loaded[..i];
        AddComponent(loaded[i].0, loaded[i].1);
      }
      assert loaded[..|loaded|] == loaded;
    }

    /** Registers `component` under `name`, replacing any earlier renderer of
        that name and keeping every other entry. */
    method AddComponent(name: string, component: RendererId)
      modifies this`components
      ensures name in components && components[name] == component
      ensures forall n :: n != name ==> (n in components <==> n in old(components))
      ensures forall n :: n != name && n in components ==> components[n] == old(components)[n]
    {
      components := components[name := component];
    }

    /** `convert`: stores the inserts, rejects a document that did not decode
        or has no `sections`, then walks the sections with a `null` parent. */
    method Convert(decoded: Option<Decoded>, inserts: Option<Inserts>) returns (err: Option<Error>)
      modifies this
      ensures customInserts == inserts && components == old(components)
      ensures decoded.None? ==>
                err == Some(NotTraversable(InvalidJsonMessage)) && Current() == old(Current())
      ensures decoded.Some? && decoded.value.sections.None? ==>
                err == Some(InvalidStructure(NotCarbonMessage)) && Current() == old(Current())
      ensures decoded.Some? && decoded.value.sections.Some? ==>
                Outcome(Current(), err)
                == Walk(components, inserts, decoded.value.sections.value, 0, None, old(Current()))
    {
      customInserts := inserts;
      if decoded.None? {
        return Some(NotTraversable(InvalidJsonMessage));
      }
      if decoded.value.sections.None? {
        return Some(InvalidStructure(NotCarbonMessage));
      }
      err := ConvertRecursive(decoded.value.sections.value, None);
    }

    /** The custom-insert check of `convertRecursive` for sibling `key`:
        counts the paragraph and, when the rule of `Fires` holds, calls the
        callback and returns its element as the new parent. */
    method InsertCustom(nodes: seq<Node>, key: nat, parentElement: Parent) returns (parent: Parent)
      requires key < |nodes|
      modifies this`parentParagraphCount, this`nextElement, this`trace
      ensures Injection(parent, Current()) == Inject(customInserts, nodes, key, parentElement, old(Current()))
    {
      parent := parentElement;
      if IsParagraph(nodes[key]) {
        var fire, callback := InsertDue(nodes, key);
        if fire {
          var element := CallInsert(callback, parent);
          parent := Some(element);
        }
        parentParagraphCount := parentParagraphCount + 1;
      }
    }

    /** Whether the callback registered under the current paragraph number
        fires for sibling `key`, and which callback that is: there must be
        one, and the paragraph must be longer than 120 bytes, or the number
        must be the first key of `customInserts` with more than 120 bytes of
        text in the siblings up to this one. */
    method InsertDue(nodes: seq<Node>, key: nat) returns (fire: bool, callback: CallbackId)
      requires key < |nodes|
      ensures fire == Fires(customInserts, nodes, key, parentParagraphCount)
      ensures fire ==> callback == Find(customInserts.value, parentParagraphCount).value
    {
      fire, callback := false, 0;
      var found := if customInserts.Some? then Find(customInserts.value, parentParagraphCount) else None;
      if found.Some? {
        callback := found.value;
        var totalPrev := SumPrevious(nodes, key);
        var firstKey := customInserts.value[0].0;
        fire := ByteLength(TextOf(nodes[key])) > 120 || (parentParagraphCount == firstKey && totalPrev > 120);
      }
    }

    /** Calls the custom-insert `callback` under `parent` at the current
        paragraph number; the callback creates a fresh element. */
    method CallInsert(callback: CallbackId, parent: Parent) returns (element: ElementId)
      modifies this`nextElement, this`trace
      ensures element == old(nextElement) && nextElement == element + 1
      ensures trace == old(trace) + [Inserted(parentParagraphCount, callback, parent, element)]
    {
      element := nextElement;
      trace := trace + [Inserted(parentParagraphCount, callback, parent, element)];
      nextElement := nextElement + 1;
    }

    /** Calls `renderer` on `node` under `parent`; the renderer creates a
        fresh element. */
    method Parse(node: Node, renderer: RendererId, parent: Parent) returns (element: ElementId)
      modifies this`nextElement, this`trace
      ensures element == old(nextElement) && nextElement == element + 1
      ensures trace == old(trace) + [Rendered(node, renderer, parent, element)]
    {
      element := nextElement;
      trace := trace + [Rendered(node, renderer, parent, element)];
      nextElement := nextElement + 1;
    }

    /** `convertRecursive`: the walk over one list of sibling nodes. */
    method ConvertRecursive(nodes: seq<Node>, parentElement: Parent) returns (err: Option<Error>)
      modifies this
      ensures components == old(components) && customInserts == old(customInserts)
      ensures Outcome(Current(), err)
              == Walk(components, customInserts, nodes, 0, parentElement, old(Current()))
      decreases nodes
    {
      var key := 0;
      var parent := parentElement;
      while key < |nodes|
        invariant key <= |nodes|
        invariant components == old(components) && customInserts == old(customInserts)
        invariant Walk(components, customInserts, nodes, key, parent, Current())
                  == Walk(components, customInserts, nodes, 0, parentElement, old(Current()))
        decreases |nodes| - key
      {
        var node := nodes[key];
        var component := UcFirst(node.component);
        ghost var whole := Walk(components, customInserts, nodes, key, parent, Current());
        parent := InsertCustom(nodes, key, parent);
        if component !in components {
          return Some(InvalidStructure(NotLoadedMessage(component)));
        }
        var element := Parse(node, components[component], parent);
        if node.components.Components? {
          err := ConvertRecursive(node.components.nodes, Some(element));
          if err.Some? {
            return;
          }
        }
        assert whole == Walk(components, customInserts, nodes, key + 1, parent, Current());
        key := key + 1;
      }
      err := None;
    }
  }
}

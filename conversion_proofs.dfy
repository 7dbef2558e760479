/** Properties of the document walk: it visits the tree in pre-order, the
    paragraph counter advances once per paragraph and survives subtrees and
    successive walks, an unknown component stops the walk after the counter
    update and before the render, and custom inserts fire only under the
    registered key and re-parent only the rest of their own level. */
module ConversionProofs {
  import opened Wrappers
  import opened Document
  import opened Conversion
  import opened Sequences

  /** The children of a node, empty when `components` is unset. */
  function Kids(n: Node): seq<Node> {
    match n.components
    case NoComponents => []
    case Components(kids) => kids
  }

  /** The nodes of a forest in pre-order: each node, then its subtree, then
      its later siblings. */
  function Preorder(ns: seq<Node>): seq<Node>
    decreases ns
  {
    if ns == [] then []
    else
      [ns[0]]
      + (match ns[0].components
         case NoComponents => []
         case Components(kids) => Preorder(kids))
      + Preorder(ns[1..])
  }

  /** The nodes handed to a renderer, in order of the render calls. */
  function Renders(es: seq<Event>): seq<Node> {
    if es == [] then []
    else (if es[0].Rendered? then [es[0].node] else []) + Renders(es[1..])
  }

  /** The number of paragraphs (in the custom-insert sense) among `ns`. */
  function Paragraphs(ns: seq<Node>): nat {
    if ns == [] then 0 else (if IsParagraph(ns[0]) then 1 else 0) + Paragraphs(ns[1..])
  }

  predicate Loaded(reg: Registry, n: Node) {
    UcFirst(n.component) in reg
  }

  /** The longest prefix of `ns` whose components are all loaded. */
  function LoadedPrefix(reg: Registry, ns: seq<Node>): seq<Node> {
    if ns == [] || !Loaded(reg, ns[0]) then [] else [ns[0]] + LoadedPrefix(reg, ns[1..])
  }

  /** The first node of `ns` whose component is not loaded. */
  function FirstUnloaded(reg: Registry, ns: seq<Node>): Option<Node> {
    if ns == [] then None
    else if !Loaded(reg, ns[0]) then Some(ns[0])
    else FirstUnloaded(reg, ns[1..])
  }

  /** The error a walk over the pre-order `p` ends with. */
  function ExpectedError(reg: Registry, p: seq<Node>): Option<Error> {
    match FirstUnloaded(reg, p)
    case None => None
    case Some(n) => Some(InvalidStructure(NotLoadedMessage(UcFirst(n.component))))
  }

  /** How much the counter advances on a walk over the pre-order `p`: every
      paragraph up to and including the node that stops the walk. */
  function CounterAdvance(reg: Registry, p: seq<Node>): nat {
    Paragraphs(LoadedPrefix(reg, p))
    + (match FirstUnloaded(reg, p)
       case None => 0
       case Some(n) => if IsParagraph(n) then 1 else 0)
  }

  lemma PreorderAt(siblings: seq<Node>, key: nat)
    requires key < |siblings|
    ensures Preorder(siblings[key..])
            == [siblings[key]] + (Preorder(Kids(siblings[key])) + Preorder(siblings[key + 1..]))
  {
    var ns := siblings[key..];
    assert ns[0] == siblings[key];
    assert ns[1..] == siblings[key + 1..];
    AppendAssoc([siblings[key]], Preorder(Kids(siblings[key])), Preorder(siblings[key + 1..]));
  }

  lemma {:induction false} RendersAppend(a: seq<Event>, b: seq<Event>)
    ensures Renders(a + b) == Renders(a) + Renders(b)
  {
    if a == [] {
      assert a + b == b;
    } else {
      assert (a + b)[0] == a[0];
      assert (a + b)[1..] == a[1..] + b;
      RendersAppend(a[1..], b);
    }
  }

  lemma {:induction false} ParagraphsAppend(a: seq<Node>, b: seq<Node>)
    ensures Paragraphs(a + b) == Paragraphs(a) + Paragraphs(b)
  {
    if a == [] {
      assert a + b == b;
    } else {
      assert (a + b)[0] == a[0];
      assert (a + b)[1..] == a[1..] + b;
      ParagraphsAppend(a[1..], b);
    }
  }

  /** Splitting a pre-order at a node: the stopping node and the loaded
      prefix of a concatenation. */
  lemma {:induction false} StopAppend(reg: Registry, a: seq<Node>, b: seq<Node>)
    ensures FirstUnloaded(reg, a + b)
            == if FirstUnloaded(reg, a).Some? then FirstUnloaded(reg, a) else FirstUnloaded(reg, b)
    ensures LoadedPrefix(reg, a + b)
            == if FirstUnloaded(reg, a).Some? then LoadedPrefix(reg, a) else a + LoadedPrefix(reg, b)
  {
    if a == [] {
      assert a + b == b;
    } else {
      assert (a + b)[0] == a[0];
      assert (a + b)[1..] == a[1..] + b;
      StopAppend(reg, a[1..], b);
      if Loaded(reg, a[0]) && FirstUnloaded(reg, a[1..]).None? {
        AppendAssoc([a[0]], a[1..], LoadedPrefix(reg, b));
        assert [a[0]] + a[1..] == a;
      }
    }
  }

  lemma CounterAdvanceAppend(reg: Registry, a: seq<Node>, b: seq<Node>)
    ensures CounterAdvance(reg, a + b)
            == if FirstUnloaded(reg, a).Some? then CounterAdvance(reg, a)
               else Paragraphs(a) + CounterAdvance(reg, b)
    ensures ExpectedError(reg, a + b)
            == if FirstUnloaded(reg, a).Some? then ExpectedError(reg, a) else ExpectedError(reg, b)
  {
    StopAppend(reg, a, b);
    if FirstUnloaded(reg, a).None? {
      ParagraphsAppend(a, LoadedPrefix(reg, b));
    }
  }

  /** What a walk over the pre-order `p` does, taking state `s` to outcome `r`. */
  ghost predicate Follows(reg: Registry, p: seq<Node>, s: State, r: Outcome) {
    && Renders(r.state.trace) == Renders(s.trace) + LoadedPrefix(reg, p)
    && r.error == ExpectedError(reg, p)
    && r.state.count == s.count + CounterAdvance(reg, p)
  }

  /** Walking `a` and then, unless that failed, `b` is walking `a + b`. */
  lemma FollowsCompose(reg: Registry, a: seq<Node>, b: seq<Node>, s: State, mid: Outcome, r: Outcome)
    requires Follows(reg, a, s, mid)
    requires mid.error.None? ==> Follows(reg, b, mid.state, r)
    requires mid.error.Some? ==> r == mid
    ensures Follows(reg, a + b, s, r)
  {
    if FirstUnloaded(reg, a).None? {
      FollowsComposeThrough(reg, a, b, s, mid, r);
    } else {
      CounterAdvanceAppend(reg, a, b);
      StopAppend(reg, a, b);
    }
  }

  /** `FollowsCompose` when the walk of `a` succeeds. */
  lemma FollowsComposeThrough(reg: Registry, a: seq<Node>, b: seq<Node>, s: State, mid: Outcome, r: Outcome)
    requires Follows(reg, a, s, mid) && FirstUnloaded(reg, a).None?
    requires Follows(reg, b, mid.state, r)
    ensures Follows(reg, a + b, s, r)
  {
    RendersThrough(reg, a, b, Renders(s.trace), Renders(mid.state.trace), Renders(r.state.trace));
    CountThrough(reg, a, b, s.count, mid.state.count, r.state.count);
    CounterAdvanceAppend(reg, a, b);
  }

  lemma RendersThrough(reg: Registry, a: seq<Node>, b: seq<Node>, before: seq<Node>, mid: seq<Node>, after: seq<Node>)
    requires FirstUnloaded(reg, a).None?
    requires mid == before + LoadedPrefix(reg, a) && after == mid + LoadedPrefix(reg, b)
    ensures after == before + LoadedPrefix(reg, a + b)
  {
    StopAppend(reg, a, b);
    NoStopLoadedPrefix(reg, a);
    AppendAssoc(before, a, LoadedPrefix(reg, b));
  }

  lemma CountThrough(reg: Registry, a: seq<Node>, b: seq<Node>, before: int, mid: int, after: int)
    requires FirstUnloaded(reg, a).None?
    requires mid == before + CounterAdvance(reg, a) && after == mid + CounterAdvance(reg, b)
    ensures after == before + CounterAdvance(reg, a + b)
  {
    CounterAdvanceAppend(reg, a, b);
    NoStopLoadedPrefix(reg, a);
  }

  /** The custom-insert check adds no render. */
  lemma InjectRendersNothing(ins: Option<Inserts>, siblings: seq<Node>, key: nat, parent: Parent, s: State)
    requires key < |siblings|
    ensures Renders(Inject(ins, siblings, key, parent, s).state.trace) == Renders(s.trace)
  {
    var t := Inject(ins, siblings, key, parent, s).state.trace;
    if t != s.trace {
      RendersAppend(s.trace, [t[|s.trace|]]);
      assert t == s.trace + [t[|s.trace|]];
    }
  }

  /** The check and render of one node, before its children. */
  lemma NodeStep(reg: Registry, ins: Option<Inserts>, siblings: seq<Node>, key: nat, parent: Parent, s: State)
    requires key < |siblings|
    ensures var node := siblings[key];
            var component := UcFirst(node.component);
            var inj := Inject(ins, siblings, key, parent, s);
            var element := inj.state.next;
            Follows(reg, [node], s,
                    if component !in reg
                    then Outcome(inj.state, Some(InvalidStructure(NotLoadedMessage(component))))
                    else Outcome(State(inj.state.count, element + 1,
                                       inj.state.trace + [Rendered(node, reg[component], inj.parent, element)]),
                                 None))
  {
    var node := siblings[key];
    var component := UcFirst(node.component);
    var inj := Inject(ins, siblings, key, parent, s);
    InjectRendersNothing(ins, siblings, key, parent, s);
    assert [node][1..] == [];
    assert Paragraphs([node]) == if IsParagraph(node) then 1 else 0;
    if Loaded(reg, node) {
      assert FirstUnloaded(reg, [node]) == None;
      assert LoadedPrefix(reg, [node]) == [node];
    } else {
      assert FirstUnloaded(reg, [node]) == Some(node);
      assert LoadedPrefix(reg, [node]) == [];
    }
    if component in reg {
      var ev := Rendered(node, reg[component], inj.parent, inj.state.next);
      RendersAppend(inj.state.trace, [ev]);
      assert Renders([ev]) == [node];
    }
  }

  /** The outcome of the walk from sibling `key` on, given the outcome of its
      first node's subtree: a failure inside stops the walk, otherwise it
      goes on with the next sibling under the parent chosen at this level. */
  lemma WalkUnfold(reg: Registry, ins: Option<Inserts>, siblings: seq<Node>, key: nat, parent: Parent, s: State)
    requires key < |siblings| && UcFirst(siblings[key].component) in reg
    ensures var node := siblings[key];
            var inj := Inject(ins, siblings, key, parent, s);
            AfterRender(reg, ins, siblings, key, parent, s)
            == State(inj.state.count, inj.state.next + 1,
                     inj.state.trace + [Rendered(node, reg[UcFirst(node.component)], inj.parent, inj.state.next)])
    ensures var inj := Inject(ins, siblings, key, parent, s);
            var inner := SubtreeWalk(reg, ins, siblings[key], inj.state.next, AfterRender(reg, ins, siblings, key, parent, s));
            Walk(reg, ins, siblings, key, parent, s)
            == if inner.error.Some? then inner else Walk(reg, ins, siblings, key + 1, inj.parent, inner.state)
  {
  }

  /** The walk of a node's children, under the node's own element. */
  function SubtreeWalk(reg: Registry, ins: Option<Inserts>, node: Node, element: ElementId, s: State): Outcome {
    match node.components
    case NoComponents => Outcome(s, None)
    case Components(kids) => Walk(reg, ins, kids, 0, Some(element), s)
  }

  /** The walk follows the pre-order of the tree: its renders are the loaded
      prefix of the pre-order, it fails exactly at the first node whose
      component is not loaded (naming that component), and the counter
      advances by one per paragraph visited, the failing node included. */
  lemma {:induction false} WalkFollowsPreorder(reg: Registry, ins: Option<Inserts>, siblings: seq<Node>,
                                               key: nat, parent: Parent, s: State)
    requires key <= |siblings|
    ensures Follows(reg, Preorder(siblings[key..]), s, Walk(reg, ins, siblings, key, parent, s))
    decreases siblings, |siblings| - key
  {
    var r := Walk(reg, ins, siblings, key, parent, s);
    if key == |siblings| {
      assert siblings[key..] == [];
    } else {
      var node := siblings[key];
      var component := UcFirst(node.component);
      var pk := Preorder(Kids(node));
      var ps := Preorder(siblings[key + 1..]);
      PreorderAt(siblings, key);
      NodeStep(reg, ins, siblings, key, parent, s);
      if component !in reg {
        FollowsCompose(reg, [node], pk + ps, s, r, r);
      } else {
        var inj := Inject(ins, siblings, key, parent, s);
        var element := inj.state.next;
        var s2 := State(inj.state.count, element + 1,
                        inj.state.trace + [Rendered(node, reg[component], inj.parent, element)]);
        var inner := SubtreeWalk(reg, ins, node, element, s2);
        WalkUnfold(reg, ins, siblings, key, parent, s);
        match node.components {
          case NoComponents =>
            assert pk == [];
          case Components(kids) =>
            assert kids[0..] == kids;
            WalkFollowsPreorder(reg, ins, kids, 0, Some(element), s2);
        }
        assert Follows(reg, pk, s2, inner);
        if inner.error.None? {
          WalkFollowsPreorder(reg, ins, siblings, key + 1, inj.parent, inner.state);
        }
        FollowsCompose(reg, pk, ps, s2, inner, r);
        FollowsCompose(reg, [node], pk + ps, s, Outcome(s2, None), r);
      }
    }
  }

  /** The walk succeeds exactly when every component in the tree is loaded,
      and then renders every node in pre-order. */
  lemma WalkSucceedsIffAllLoaded(reg: Registry, ins: Option<Inserts>, nodes: seq<Node>, parent: Parent, s: State)
    ensures var r := Walk(reg, ins, nodes, 0, parent, s);
            var p := Preorder(nodes);
            && (r.error.None? <==> forall i :: 0 <= i < |p| ==> Loaded(reg, p[i]))
            && (r.error.None? ==> Renders(r.state.trace) == Renders(s.trace) + p
                                  && r.state.count == s.count + Paragraphs(p))
  {
    assert nodes[0..] == nodes;
    WalkFollowsPreorder(reg, ins, nodes, 0, parent, s);
    NoStopMeansAllLoaded(reg, Preorder(nodes));
  }

  /** A pre-order without an unloaded node is its own loaded prefix. */
  lemma {:induction false} NoStopLoadedPrefix(reg: Registry, p: seq<Node>)
    requires FirstUnloaded(reg, p).None?
    ensures LoadedPrefix(reg, p) == p
  {
    if p != [] {
      NoStopLoadedPrefix(reg, p[1..]);
      assert [p[0]] + p[1..] == p;
    }
  }

  lemma {:induction false} NoStopMeansAllLoaded(reg: Registry, p: seq<Node>)
    ensures FirstUnloaded(reg, p).None? <==> forall i :: 0 <= i < |p| ==> Loaded(reg, p[i])
    ensures FirstUnloaded(reg, p).None? ==> LoadedPrefix(reg, p) == p
    ensures FirstUnloaded(reg, p).Some? ==> !Loaded(reg, FirstUnloaded(reg, p).value)
  {
    if p != [] {
      NoStopMeansAllLoaded(reg, p[1..]);
      if Loaded(reg, p[0]) && FirstUnloaded(reg, p[1..]).None? {
        forall i | 0 <= i < |p| ensures Loaded(reg, p[i]) {
          if i > 0 {
            assert p[i] == p[1..][i - 1];
          }
        }
      }
      if Loaded(reg, p[0]) && FirstUnloaded(reg, p[1..]).Some? {
        var i :| 0 <= i < |p[1..]| && !Loaded(reg, p[1..][i]);
        assert p[i + 1] == p[1..][i];
      }
    }
  }

  /** How the state may change from `s` to `t`: the trace only grows; every
      new event creates the next fresh element id; the counter never goes
      back; each new insert fires at a counter value reached in between, and
      the new inserts fire at strictly increasing paragraph numbers. */
  ghost predicate Grows(s: State, t: State) {
    && |s.trace| <= |t.trace| && t.trace[..|s.trace|] == s.trace
    && t.next == s.next + (|t.trace| - |s.trace|)
    && (forall i :: |s.trace| <= i < |t.trace| ==> t.trace[i].Element() == s.next + (i - |s.trace|))
    && s.count <= t.count
    && (forall i :: |s.trace| <= i < |t.trace| && t.trace[i].Inserted? ==>
          s.count <= t.trace[i].paragraph < t.count)
    && (forall i, j :: |s.trace| <= i < j < |t.trace| && t.trace[i].Inserted? && t.trace[j].Inserted? ==>
          t.trace[i].paragraph < t.trace[j].paragraph)
  }

  /** Every insert fired between `s` and `t` is the callback registered in
      `ins` under the paragraph number it fired at. */
  ghost predicate FiresRegistered(ins: Option<Inserts>, s: State, t: State)
    requires |s.trace| <= |t.trace|
  {
    forall i :: |s.trace| <= i < |t.trace| && t.trace[i].Inserted? ==>
      ins.Some? && Find(ins.value, t.trace[i].paragraph) == Some(t.trace[i].callback)
  }

  lemma GrowsTrans(s: State, t: State, u: State)
    requires Grows(s, t) && Grows(t, u)
    ensures Grows(s, u)
    ensures forall i :: |s.trace| <= i < |t.trace| ==> u.trace[i] == t.trace[i]
  {
    assert u.trace[..|s.trace|] == u.trace[..|t.trace|][..|s.trace|];
    forall i | |s.trace| <= i < |t.trace| ensures u.trace[i] == t.trace[i] {
      assert u.trace[i] == u.trace[..|t.trace|][i];
    }
  }

  lemma GrowsTransFires(ins: Option<Inserts>, s: State, t: State, u: State)
    requires Grows(s, t) && Grows(t, u)
    requires FiresRegistered(ins, s, t) && FiresRegistered(ins, t, u)
    ensures Grows(s, u) && FiresRegistered(ins, s, u)
  {
    GrowsTrans(s, t, u);
  }

  lemma InjectGrows(ins: Option<Inserts>, siblings: seq<Node>, key: nat, parent: Parent, s: State)
    requires key < |siblings|
    ensures var t := Inject(ins, siblings, key, parent, s).state;
            Grows(s, t) && FiresRegistered(ins, s, t)
  {
    var t := Inject(ins, siblings, key, parent, s).state;
    assert t.trace[..|s.trace|] == s.trace;
  }

  /** Every walk grows the state, and fires only registered callbacks. */
  lemma {:induction false} WalkGrows(reg: Registry, ins: Option<Inserts>, siblings: seq<Node>,
                                     key: nat, parent: Parent, s: State)
    requires key <= |siblings|
    ensures var t := Walk(reg, ins, siblings, key, parent, s).state;
            Grows(s, t) && FiresRegistered(ins, s, t)
    decreases siblings, |siblings| - key, 1
  {
    if key < |siblings| {
      var node := siblings[key];
      var inj := Inject(ins, siblings, key, parent, s);
      if UcFirst(node.component) in reg {
        var element := inj.state.next;
        var s2 := State(inj.state.count, element + 1,
                        inj.state.trace + [Rendered(node, reg[UcFirst(node.component)], inj.parent, element)]);
        var inner := SubtreeWalk(reg, ins, node, element, s2);
        NodeGrows(reg, ins, siblings, key, parent, s);
        WalkUnfold(reg, ins, siblings, key, parent, s);
        if inner.error.None? {
          WalkGrows(reg, ins, siblings, key + 1, inj.parent, inner.state);
          GrowsTransFires(ins, s, inner.state, Walk(reg, ins, siblings, key + 1, inj.parent, inner.state).state);
        }
      } else {
        InjectGrows(ins, siblings, key, parent, s);
      }
    }
  }

  /** The check, the render and the subtree of one node grow the state. */
  lemma {:induction false} NodeGrows(reg: Registry, ins: Option<Inserts>, siblings: seq<Node>,
                                     key: nat, parent: Parent, s: State)
    requires key < |siblings| && UcFirst(siblings[key].component) in reg
    ensures var node := siblings[key];
            var inj := Inject(ins, siblings, key, parent, s);
            var element := inj.state.next;
            var s2 := State(inj.state.count, element + 1,
                            inj.state.trace + [Rendered(node, reg[UcFirst(node.component)], inj.parent, element)]);
            var t := SubtreeWalk(reg, ins, node, element, s2).state;
            Grows(s, t) && FiresRegistered(ins, s, t)
    decreases siblings, |siblings| - key, 0
  {
    var node := siblings[key];
    var inj := Inject(ins, siblings, key, parent, s);
    var element := inj.state.next;
    var s2 := State(inj.state.count, element + 1,
                    inj.state.trace + [Rendered(node, reg[UcFirst(node.component)], inj.parent, element)]);
    RenderGrows(ins, siblings, key, parent, s, reg[UcFirst(node.component)]);
    match node.components {
      case NoComponents =>
      case Components(kids) =>
        WalkGrows(reg, ins, kids, 0, Some(element), s2);
        GrowsTransFires(ins, s, s2, SubtreeWalk(reg, ins, node, element, s2).state);
    }
  }

  /** The check and the render of one node grow the state. */
  lemma RenderGrows(ins: Option<Inserts>, siblings: seq<Node>, key: nat, parent: Parent, s: State,
                    renderer: RendererId)
    requires key < |siblings|
    ensures var inj := Inject(ins, siblings, key, parent, s);
            var t := State(inj.state.count, inj.state.next + 1,
                           inj.state.trace + [Rendered(siblings[key], renderer, inj.parent, inj.state.next)]);
            Grows(s, t) && FiresRegistered(ins, s, t)
  {
    var inj := Inject(ins, siblings, key, parent, s);
    var t := State(inj.state.count, inj.state.next + 1,
                   inj.state.trace + [Rendered(siblings[key], renderer, inj.parent, inj.state.next)]);
    InjectGrows(ins, siblings, key, parent, s);
    AppendGrows(ins, inj.state, Rendered(siblings[key], renderer, inj.parent, inj.state.next));
    GrowsTransFires(ins, s, inj.state, t);
  }

  /** Appending one render event that creates the next element. */
  lemma AppendGrows(ins: Option<Inserts>, s: State, ev: Event)
    requires ev.Rendered? && ev.element == s.next
    ensures var t := State(s.count, s.next + 1, s.trace + [ev]);
            Grows(s, t) && FiresRegistered(ins, s, t)
  {
    assert (s.trace + [ev])[..|s.trace|] == s.trace;
  }

  /** Without custom inserts (`null` or an empty array) no callback ever fires. */
  lemma NoInsertsNeverFire(reg: Registry, ins: Option<Inserts>, nodes: seq<Node>, parent: Parent, s: State)
    requires ins.None? || ins.value == []
    ensures var t := Walk(reg, ins, nodes, 0, parent, s).state;
            |s.trace| <= |t.trace|
            && forall i :: |s.trace| <= i < |t.trace| ==> t.trace[i].Rendered?
  {
    WalkGrows(reg, ins, nodes, 0, parent, s);
  }

  /** The paragraph counter belongs to the converter and is not reset between
      `convert` calls: over two successive walks, even with different
      inserts, the inserts fire at strictly increasing paragraph numbers, so
      no paragraph number ever fires twice on one converter. */
  lemma InsertsFireOncePerConverter(reg: Registry, ins1: Option<Inserts>, sections1: seq<Node>,
                                    ins2: Option<Inserts>, sections2: seq<Node>, s: State)
    ensures var t := Walk(reg, ins1, sections1, 0, None, s).state;
            var u := Walk(reg, ins2, sections2, 0, None, t).state;
            && |s.trace| <= |t.trace| <= |u.trace|
            && s.count <= t.count <= u.count
            && forall i, j :: |s.trace| <= i < j < |u.trace| && u.trace[i].Inserted? && u.trace[j].Inserted? ==>
                                u.trace[i].paragraph < u.trace[j].paragraph
  {
    var t := Walk(reg, ins1, sections1, 0, None, s).state;
    var u := Walk(reg, ins2, sections2, 0, None, t).state;
    WalkGrows(reg, ins1, sections1, 0, None, s);
    WalkGrows(reg, ins2, sections2, 0, None, t);
    GrowsTrans(s, t, u);
  }

  /** The renderer of a loaded node (0 stands in for one that is not loaded). */
  function RendererOf(reg: Registry, n: Node): RendererId {
    if Loaded(reg, n) then reg[UcFirst(n.component)] else 0
  }

  /** The state right after the render call for sibling `key`. */
  function AfterRender(reg: Registry, ins: Option<Inserts>, siblings: seq<Node>, key: nat, parent: Parent, s: State): State
    requires key < |siblings|
  {
    var inj := Inject(ins, siblings, key, parent, s);
    State(inj.state.count, inj.state.next + 1,
          inj.state.trace + [Rendered(siblings[key], RendererOf(reg, siblings[key]), inj.parent, inj.state.next)])
  }

  /** Nothing later in the walk takes back the render call of a loaded node. */
  lemma RenderStaysInTrace(reg: Registry, ins: Option<Inserts>, siblings: seq<Node>, key: nat, parent: Parent, s: State)
    requires key < |siblings| && Loaded(reg, siblings[key])
    ensures var s2 := AfterRender(reg, ins, siblings, key, parent, s);
            var t := Walk(reg, ins, siblings, key, parent, s).state;
            Grows(s2, t)
  {
    var node := siblings[key];
    var inj := Inject(ins, siblings, key, parent, s);
    var element := inj.state.next;
    var s2 := AfterRender(reg, ins, siblings, key, parent, s);
    WalkUnfold(reg, ins, siblings, key, parent, s);
    var inner := SubtreeWalk(reg, ins, node, element, s2);
    var r := Walk(reg, ins, siblings, key, parent, s);
    assert Grows(s2, inner.state) by {
      match node.components {
        case NoComponents =>
        case Components(kids) => WalkGrows(reg, ins, kids, 0, Some(element), s2);
      }
    }
    if inner.error.None? {
      WalkGrows(reg, ins, siblings, key + 1, inj.parent, inner.state);
    }
    GrowsTrans(s2, inner.state, r.state);
  }

  /** A callback that fires takes effect before its paragraph is attached:
      the callback gets the current parent, and the element it returns is
      the parent of that paragraph's own render call. */
  lemma InsertTakesEffectBeforeRender(reg: Registry, ins: Option<Inserts>, siblings: seq<Node>,
                                      key: nat, parent: Parent, s: State)
    requires key < |siblings| && IsParagraph(siblings[key]) && Fires(ins, siblings, key, s.count)
    requires "Paragraph" in reg
    ensures var t := Walk(reg, ins, siblings, key, parent, s).state.trace;
            && |t| >= |s.trace| + 2
            && t[|s.trace|] == Inserted(s.count, Find(ins.value, s.count).value, parent, s.next)
            && t[|s.trace| + 1] == Rendered(siblings[key], reg["Paragraph"], Some(s.next), s.next + 1)
  {
    RenderStaysInTrace(reg, ins, siblings, key, parent, s);
    var s2 := AfterRender(reg, ins, siblings, key, parent, s);
    var t := Walk(reg, ins, siblings, key, parent, s).state.trace;
    assert t[|s.trace|] == t[..|s2.trace|][|s.trace|];
    assert t[|s.trace| + 1] == t[..|s2.trace|][|s.trace| + 1];
  }

  /** The first event of a walk over a list whose first node is loaded: the
      render of that node, or a callback, either of them under `parent`. */
  lemma FirstEventOfWalk(reg: Registry, ins: Option<Inserts>, nodes: seq<Node>, parent: Parent, s: State)
    requires |nodes| > 0 && Loaded(reg, nodes[0])
    ensures var t := Walk(reg, ins, nodes, 0, parent, s).state.trace;
            && |t| > |s.trace|
            && t[|s.trace|].parent == parent
            && (t[|s.trace|].Rendered? ==> t[|s.trace|].node == nodes[0])
  {
    RenderStaysInTrace(reg, ins, nodes, 0, parent, s);
    var s2 := AfterRender(reg, ins, nodes, 0, parent, s);
    var t := Walk(reg, ins, nodes, 0, parent, s).state.trace;
    assert t[|s.trace|] == t[..|s2.trace|][|s.trace|];
  }

  /** The children of a node see the node's own element as their parent: the
      first event after the node's render is the render of its first child
      under that element, or a callback handed that element. */
  lemma ChildrenUnderNodeElement(reg: Registry, ins: Option<Inserts>, siblings: seq<Node>,
                                 key: nat, parent: Parent, s: State)
    requires key < |siblings| && Loaded(reg, siblings[key])
    requires |Kids(siblings[key])| > 0 && Loaded(reg, Kids(siblings[key])[0])
    ensures var inj := Inject(ins, siblings, key, parent, s);
            var e := inj.state.next;
            var t := Walk(reg, ins, siblings, key, parent, s).state.trace;
            var at := |inj.state.trace|;
            && |t| > at + 1
            && t[at] == Rendered(siblings[key], RendererOf(reg, siblings[key]), inj.parent, e)
            && t[at + 1].parent == Some(e)
            && (t[at + 1].Rendered? ==> t[at + 1].node == Kids(siblings[key])[0])
  {
    var node := siblings[key];
    var inj := Inject(ins, siblings, key, parent, s);
    var element := inj.state.next;
    var s2 := AfterRender(reg, ins, siblings, key, parent, s);
    WalkUnfold(reg, ins, siblings, key, parent, s);
    var kids := node.components.nodes;
    var inner := Walk(reg, ins, kids, 0, Some(element), s2);
    FirstEventOfWalk(reg, ins, kids, Some(element), s2);
    var r := Walk(reg, ins, siblings, key, parent, s);
    if inner.error.None? {
      WalkGrows(reg, ins, siblings, key + 1, inj.parent, inner.state);
    }
    assert Grows(inner.state, r.state);
    WalkGrows(reg, ins, kids, 0, Some(element), s2);
    GrowsTrans(s2, inner.state, r.state);
    var at := |inj.state.trace|;
    assert r.state.trace[at] == s2.trace[at];
    assert r.state.trace[at + 1] == inner.state.trace[at + 1];
  }

  /** Re-parenting is local to one level: after a node and its whole
      subtree, the walk goes on with the next sibling under the parent chosen
      by that node's own insert check (the callback's element if one fired
      for it, the caller's parent otherwise), whatever happened below. Only
      the node itself and its subtree need to succeed; a later sibling may
      still fail. */
  lemma SiblingsContinueUnderLevelParent(reg: Registry, ins: Option<Inserts>, siblings: seq<Node>,
                                         key: nat, parent: Parent, s: State)
    requires key < |siblings| && Loaded(reg, siblings[key])
    requires SubtreeWalk(reg, ins, siblings[key], Inject(ins, siblings, key, parent, s).state.next,
                         AfterRender(reg, ins, siblings, key, parent, s)).error.None?
    ensures exists t: State ::
              && Grows(s, t)
              && Walk(reg, ins, siblings, key, parent, s)
                 == Walk(reg, ins, siblings, key + 1, Inject(ins, siblings, key, parent, s).parent, t)
  {
    var node := siblings[key];
    var inj := Inject(ins, siblings, key, parent, s);
    InjectGrows(ins, siblings, key, parent, s);
    var element := inj.state.next;
    var s2 := AfterRender(reg, ins, siblings, key, parent, s);
    assert s2.trace[..|inj.state.trace|] == inj.state.trace;
    GrowsTrans(s, inj.state, s2);
    WalkUnfold(reg, ins, siblings, key, parent, s);
    var inner := SubtreeWalk(reg, ins, node, element, s2);
    match node.components {
      case NoComponents =>
      case Components(kids) =>
        WalkGrows(reg, ins, kids, 0, Some(element), s2);
        GrowsTrans(s, s2, inner.state);
    }
  }

  /** Reference layout of the siblings from `key` on, without custom
      inserts, element ids counted from `next` in pre-order: each sibling is
      rendered under `parent`, and its children under its own element. */
  function Layout(reg: Registry, siblings: seq<Node>, key: nat, parent: Parent, next: ElementId): seq<Event>
    decreases siblings, |siblings| - key
  {
    if key >= |siblings| then []
    else
      var kids := match siblings[key].components
                  case NoComponents => []
                  case Components(children) => Layout(reg, children, 0, Some(next), next + 1);
      [Rendered(siblings[key], RendererOf(reg, siblings[key]), parent, next)]
      + kids
      + Layout(reg, siblings, key + 1, parent, next + 1 + |kids|)
  }

  /** The layout of a node's children, under the node's element `next`. */
  function KidsLayout(reg: Registry, n: Node, next: ElementId): seq<Event> {
    match n.components
    case NoComponents => []
    case Components(children) => Layout(reg, children, 0, Some(next), next + 1)
  }

  /** Without custom inserts the check only counts the paragraph. */
  lemma InjectWithoutInserts(ins: Option<Inserts>, siblings: seq<Node>, key: nat, parent: Parent, s: State)
    requires key < |siblings| && (ins.None? || ins.value == [])
    ensures Inject(ins, siblings, key, parent, s)
            == Injection(parent, s.(count := s.count + if IsParagraph(siblings[key]) then 1 else 0))
  {
  }

  /** The loaded-ness of a forest splits over a node, its subtree and its
      later siblings. */
  lemma AllLoadedAt(reg: Registry, siblings: seq<Node>, key: nat)
    requires key < |siblings|
    requires FirstUnloaded(reg, Preorder(siblings[key..])).None?
    ensures Loaded(reg, siblings[key])
    ensures FirstUnloaded(reg, Preorder(Kids(siblings[key]))).None?
    ensures FirstUnloaded(reg, Preorder(siblings[key + 1..])).None?
    ensures Paragraphs(Preorder(siblings[key..]))
            == (if IsParagraph(siblings[key]) then 1 else 0)
               + Paragraphs(Preorder(Kids(siblings[key]))) + Paragraphs(Preorder(siblings[key + 1..]))
  {
    var node := siblings[key];
    var pk := Preorder(Kids(node));
    var ps := Preorder(siblings[key + 1..]);
    PreorderAt(siblings, key);
    StopAppend(reg, [node], pk + ps);
    StopAppend(reg, pk, ps);
    assert [node][1..] == [];
    ParagraphsAppend([node], pk + ps);
    ParagraphsAppend(pk, ps);
  }

  /** The outcome the reference layout predicts for a walk without inserts. */
  function LayoutOutcome(reg: Registry, siblings: seq<Node>, key: nat, parent: Parent, s: State): Outcome
    requires key <= |siblings|
  {
    var lay := Layout(reg, siblings, key, parent, s.next);
    Outcome(State(s.count + Paragraphs(Preorder(siblings[key..])), s.next + |lay|, s.trace + lay), None)
  }

  /** The subtree of a node, walked without inserts, is its reference layout. */
  lemma {:induction false} SubtreeIsLayout(reg: Registry, ins: Option<Inserts>, node: Node, element: ElementId, s: State)
    requires ins.None? || ins.value == []
    requires FirstUnloaded(reg, Preorder(Kids(node))).None?
    requires s.next == element + 1
    ensures var kidsLay := KidsLayout(reg, node, element);
            SubtreeWalk(reg, ins, node, element, s)
            == Outcome(State(s.count + Paragraphs(Preorder(Kids(node))), s.next + |kidsLay|, s.trace + kidsLay), None)
    decreases node, 1
  {
    match node.components {
      case NoComponents =>
        assert s.trace + [] == s.trace;
      case Components(children) =>
        assert children[0..] == children;
        NoInsertsWalkIsLayout(reg, ins, children, 0, Some(element), s);
    }
  }

  /** With no custom inserts and every component loaded, the walk produces
      exactly the reference layout: each node is rendered under the parent
      its caller passed, and children under their node's element. */
  lemma {:induction false} NoInsertsWalkIsLayout(reg: Registry, ins: Option<Inserts>, siblings: seq<Node>,
                                                 key: nat, parent: Parent, s: State)
    requires key <= |siblings|
    requires ins.None? || ins.value == []
    requires FirstUnloaded(reg, Preorder(siblings[key..])).None?
    ensures Walk(reg, ins, siblings, key, parent, s) == LayoutOutcome(reg, siblings, key, parent, s)
    decreases siblings, |siblings| - key, 1
  {
    if key == |siblings| {
      assert siblings[key..] == [];
      assert s.trace + [] == s.trace;
    } else {
      NoInsertsNode(reg, ins, siblings, key, parent, s);
      NoInsertsWalkIsLayout(reg, ins, siblings, key + 1, parent, AfterNode(reg, siblings, key, parent, s));
      LayoutOutcomeStep(reg, siblings, key, parent, s);
    }
  }

  /** The state after one node and its subtree, as its reference layout
      predicts. */
  function AfterNode(reg: Registry, siblings: seq<Node>, key: nat, parent: Parent, s: State): State
    requires key < |siblings|
  {
    var node := siblings[key];
    var kidsLay := KidsLayout(reg, node, s.next);
    State(s.count + (if IsParagraph(node) then 1 else 0) + Paragraphs(Preorder(Kids(node))),
          s.next + 1 + |kidsLay|,
          s.trace + [Rendered(node, RendererOf(reg, node), parent, s.next)] + kidsLay)
  }

  /** Without inserts, one loaded node and its subtree take the walk to the
      next sibling in the state its reference layout predicts. */
  lemma {:induction false} NoInsertsNode(reg: Registry, ins: Option<Inserts>, siblings: seq<Node>,
                                         key: nat, parent: Parent, s: State)
    requires key < |siblings|
    requires ins.None? || ins.value == []
    requires FirstUnloaded(reg, Preorder(siblings[key..])).None?
    ensures FirstUnloaded(reg, Preorder(siblings[key + 1..])).None?
    ensures Walk(reg, ins, siblings, key, parent, s)
            == Walk(reg, ins, siblings, key + 1, parent, AfterNode(reg, siblings, key, parent, s))
    decreases siblings, |siblings| - key, 0
  {
    var node := siblings[key];
    AllLoadedAt(reg, siblings, key);
    InjectWithoutInserts(ins, siblings, key, parent, s);
    var ev := Rendered(node, RendererOf(reg, node), parent, s.next);
    var s2 := State(s.count + (if IsParagraph(node) then 1 else 0), s.next + 1, s.trace + [ev]);
    assert s2 == AfterRender(reg, ins, siblings, key, parent, s);
    WalkUnfold(reg, ins, siblings, key, parent, s);
    SubtreeIsLayout(reg, ins, node, s.next, s2);
    var inner := SubtreeWalk(reg, ins, node, s.next, s2);
    assert inner.error.None?;
    assert inner.state.trace == s.trace + [ev] + KidsLayout(reg, node, s.next);
    assert inner.state == AfterNode(reg, siblings, key, parent, s);
  }

  /** The reference outcome of a level splits after one node and its subtree. */
  lemma LayoutOutcomeStep(reg: Registry, siblings: seq<Node>, key: nat, parent: Parent, s: State)
    requires key < |siblings|
    ensures LayoutOutcome(reg, siblings, key + 1, parent, AfterNode(reg, siblings, key, parent, s))
            == LayoutOutcome(reg, siblings, key, parent, s)
  {
    var node := siblings[key];
    var kidsLay := KidsLayout(reg, node, s.next);
    var ev := Rendered(node, RendererOf(reg, node), parent, s.next);
    ParagraphsAt(siblings, key);
    var rest := Layout(reg, siblings, key + 1, parent, s.next + 1 + |kidsLay|);
    var lay := Layout(reg, siblings, key, parent, s.next);
    assert lay == [ev] + kidsLay + rest;
    OutcomeSplit(s, AfterNode(reg, siblings, key, parent, s), ev, kidsLay, rest, lay,
                 if IsParagraph(node) then 1 else 0,
                 Paragraphs(Preorder(Kids(node))), Paragraphs(Preorder(siblings[key + 1..])),
                 Paragraphs(Preorder(siblings[key..])));
  }

  /** The arithmetic of `LayoutOutcomeStep`, on plain values. */
  lemma OutcomeSplit(s: State, t: State, ev: Event, kidsLay: seq<Event>, rest: seq<Event>, lay: seq<Event>,
                     own: nat, inKids: nat, inRest: nat, total: nat)
    requires lay == [ev] + kidsLay + rest
    requires total == own + inKids + inRest
    requires t == State(s.count + own + inKids, s.next + 1 + |kidsLay|, s.trace + [ev] + kidsLay)
    ensures Outcome(State(t.count + inRest, t.next + |rest|, t.trace + rest), None)
            == Outcome(State(s.count + total, s.next + |lay|, s.trace + lay), None)
  {
    AppendAssoc(s.trace + [ev], kidsLay, rest);
    AppendAssoc(s.trace, [ev], kidsLay + rest);
    AppendAssoc([ev], kidsLay, rest);
  }

  /** The paragraph count of a level splits over a node, its subtree and
      its later siblings. */
  lemma ParagraphsAt(siblings: seq<Node>, key: nat)
    requires key < |siblings|
    ensures Paragraphs(Preorder(siblings[key..]))
            == (if IsParagraph(siblings[key]) then 1 else 0)
               + Paragraphs(Preorder(Kids(siblings[key]))) + Paragraphs(Preorder(siblings[key + 1..]))
  {
    var node := siblings[key];
    var pk := Preorder(Kids(node));
    var ps := Preorder(siblings[key + 1..]);
    PreorderAt(siblings, key);
    assert [node][1..] == [];
    ParagraphsAppend([node], pk + ps);
    ParagraphsAppend(pk, ps);
  }
}

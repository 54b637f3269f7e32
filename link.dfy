/** Anchor extraction from a parsed HTML document (pkg/link/parser.go).

    The document is an arena: a sequence of nodes, each naming its children (first child to last,
    the order of the FirstChild/NextSibling chain) by their index in the sequence. A node is
    identified by its index, so the visited set of the walk is a set of indices, just as the
    source keys it by node pointer. */
module Link {
  import opened Collections
  import opened Strings

  /** html.NodeType. */
  datatype NodeType = ErrorNode | TextNode | DocumentNode | ElementNode | CommentNode | DoctypeNode | RawNode

  /** html.Attribute. */
  datatype Attribute = Attribute(namespace: string, key: string, val: string)

  /** html.Node, with its child links given as arena indices. */
  datatype Node = Node(nodeType: NodeType, data: string, attr: seq<Attribute>, children: seq<nat>)

  type Tree = seq<Node>

  /** A hyperlink: its destination and the text it displays. */
  datatype HTMLLink = HTMLLink(href: string, text: string)

  /** Every child index names a node of the arena (each child pointer points at a node). */
  ghost predicate WellFormed(t: Tree)
  {
    forall n, k :: 0 <= n < |t| && 0 <= k < |t[n].children| ==> t[n].children[k] < |t|
  }

  /** Every index in `s` names a node of `t`. */
  ghost predicate InRange(t: Tree, s: seq<nat>)
  {
    forall i :: 0 <= i < |s| ==> s[i] < |t|
  }

  lemma ChildrenInRange(t: Tree, n: nat)
    requires WellFormed(t) && n < |t|
    ensures InRange(t, t[n].children)
  {
  }

  lemma InRangeAppend(t: Tree, a: seq<nat>, b: seq<nat>)
    requires InRange(t, a) && InRange(t, b)
    ensures InRange(t, a + b)
  {
  }

  lemma Assoc<T>(a: seq<T>, b: seq<T>, c: seq<T>)
    ensures (a + b) + c == a + (b + c)
  {
  }

  lemma SnocPrefix<T>(below: seq<T>, s: seq<T>, k: nat)
    requires k < |s|
    ensures below + s[..k + 1] == (below + s[..k]) + [s[k]]
  {
    assert s[..k + 1] == s[..k] + [s[k]];
  }

  /** The two node processors: linkNodeProcessor finds anchors, textNodeProcessor collects text. */
  datatype Policy = AnchorFinder | TextCollector

  /** nodeProcessor.qualifies. */
  predicate Qualifies(p: Policy, node: Node)
  {
    match p
    case AnchorFinder => node.nodeType == ElementNode && node.data == "a"
    case TextCollector => node.nodeType == TextNode
  }

  /** What nodeProcessor.processNode appends to the text buffer for `node`. */
  function Contribution(p: Policy, node: Node): string
  {
    match p
    case AnchorFinder => ""
    case TextCollector => TrimSpace(node.data)
  }

  /** A node processor: its policy, and the text buffer that only the text collector writes. */
  class NodeProcessor {
    const policy: Policy
    var textBuilder: string

    constructor (policy: Policy)
      ensures this.policy == policy && textBuilder == ""
    {
      this.policy := policy;
      textBuilder := "";
    }

    /** processNode: the text collector appends the trimmed data of the node; the anchor finder
        does nothing. */
    method ProcessNode(node: Node)
      modifies this
      ensures textBuilder == old(textBuilder) + Contribution(policy, node)
    {
      if policy == TextCollector {
        textBuilder := textBuilder + TrimSpace(node.data);
      }
    }
  }

  /** The nodes of `t` not in `visited`: what bounds the walk. */
  ghost function Unvisited(t: Tree, visited: set<nat>): set<nat>
  {
    set i | 0 <= i < |t| && i !in visited
  }

  lemma UnvisitedShrinks(t: Tree, visited: set<nat>, n: nat)
    requires n < |t| && n !in visited
    ensures Unvisited(t, visited + {n}) < Unvisited(t, visited)
  {
    assert n in Unvisited(t, visited) && n !in Unvisited(t, visited + {n});
  }

  /** The order in which the explicit-stack walk visits nodes, starting from the stack `st` (top
      last) with the nodes `visited` already seen: pop the top; if it is new, visit it and push its
      children first to last. */
  ghost function Walk(t: Tree, st: seq<nat>, visited: set<nat>): (w: seq<nat>)
    requires WellFormed(t) && InRange(t, st)
    ensures InRange(t, w)
    decreases Unvisited(t, visited), |st|
  {
    if st == [] then []
    else
      var n := st[|st| - 1];
      var rest := st[..|st| - 1];
      if n in visited then Walk(t, rest, visited)
      else
        UnvisitedShrinks(t, visited, n);
        [n] + Walk(t, rest + t[n].children, visited + {n})
  }

  /** One step of the walk: pop the top and, if it is new, visit it and push its children. */
  lemma WalkPop(t: Tree, st: seq<nat>, visited: set<nat>)
    requires WellFormed(t) && InRange(t, st) && st != []
    ensures var n, rest := st[|st| - 1], st[..|st| - 1];
      Walk(t, st, visited)
        == if n in visited then Walk(t, rest, visited)
           else [n] + Walk(t, rest + t[n].children, visited + {n})
  {
  }

  /** The nodes of `order` that qualify under `p`, in order. */
  ghost function Selected(p: Policy, t: Tree, order: seq<nat>): (r: seq<nat>)
    requires InRange(t, order)
    ensures InRange(t, r) && |r| <= |order|
  {
    if order == [] then []
    else
      var n := order[|order| - 1];
      Selected(p, t, order[..|order| - 1]) + (if Qualifies(p, t[n]) then [n] else [])
  }

  /** The text that processing `nodes` in order appends to the buffer. */
  ghost function Emitted(p: Policy, t: Tree, nodes: seq<nat>): string
    requires InRange(t, nodes)
  {
    if nodes == [] then ""
    else Emitted(p, t, nodes[..|nodes| - 1]) + Contribution(p, t[nodes[|nodes| - 1]])
  }

  /** Selecting keeps exactly the qualifying elements. */
  lemma {:induction false} SelectedMembers(p: Policy, t: Tree, order: seq<nat>)
    requires InRange(t, order)
    ensures forall x :: x in Selected(p, t, order) <==> x in order && x < |t| && Qualifies(p, t[x])
  {
    if order != [] {
      var front := order[..|order| - 1];
      SelectedMembers(p, t, front);
      assert order == front + [order[|order| - 1]];
    }
  }

  lemma SelectedSnoc(p: Policy, t: Tree, order: seq<nat>, n: nat)
    requires InRange(t, order) && n < |t|
    ensures Selected(p, t, order + [n]) == Selected(p, t, order) + (if Qualifies(p, t[n]) then [n] else [])
  {
    assert (order + [n])[..|order|] == order;
  }

  lemma EmittedSnoc(p: Policy, t: Tree, nodes: seq<nat>, n: nat)
    requires InRange(t, nodes) && n < |t|
    ensures Emitted(p, t, nodes + [n]) == Emitted(p, t, nodes) + Contribution(p, t[n])
  {
    assert (nodes + [n])[..|nodes|] == nodes;
  }

  /** What two nodes contribute, in order. */
  lemma EmittedPair(p: Policy, t: Tree, a: nat, b: nat)
    requires a < |t| && b < |t|
    ensures Emitted(p, t, [a, b]) == Contribution(p, t[a]) + Contribution(p, t[b])
  {
    assert [a, b][..1] == [a] && [a][..0] == [];
    assert Emitted(p, t, [a]) == "" + Contribution(p, t[a]);
  }

  /** The nodes dfsHTMLNodes returns from `seed` for policy `p`. */
  ghost function Found(p: Policy, t: Tree, seed: nat): seq<nat>
    requires WellFormed(t) && seed < |t|
  {
    Selected(p, t, Walk(t, [seed], {}))
  }

  /** The text getLinkText returns for `node`. */
  ghost function LinkText(t: Tree, node: nat): string
    requires WellFormed(t) && node < |t|
  {
    Emitted(TextCollector, t, Found(TextCollector, t, node))
  }

  /** The value of the first attribute whose key is "href", or "" when there is none. */
  function HrefOf(attrs: seq<Attribute>): string
  {
    if attrs == [] then ""
    else if attrs[0].key == "href" then attrs[0].val
    else HrefOf(attrs[1..])
  }

  /** HrefOf is the first "href" value, and "" exactly when no attribute is keyed "href"
      (or the first such attribute has an empty value). */
  lemma {:induction false} HrefOfFirst(attrs: seq<Attribute>)
    ensures (forall i :: 0 <= i < |attrs| ==> attrs[i].key != "href") ==> HrefOf(attrs) == ""
    ensures forall i :: (0 <= i < |attrs| && attrs[i].key == "href"
              && forall j :: 0 <= j < i ==> attrs[j].key != "href") ==> HrefOf(attrs) == attrs[i].val
  {
    if attrs != [] && attrs[0].key != "href" {
      HrefOfFirst(attrs[1..]);
      assert forall i :: 1 <= i < |attrs| ==> attrs[i] == attrs[1..][i - 1];
    }
  }

  /** The link buildHTMLLink builds for `node`. */
  ghost function LinkOf(t: Tree, node: nat): HTMLLink
    requires WellFormed(t) && node < |t|
  {
    HTMLLink(HrefOf(t[node].attr), LinkText(t, node))
  }

  /** Popping a node already visited leaves the rest of the walk to the stack below it. */
  lemma SkipStep(t: Tree, seed: nat, order: seq<nat>, rest: seq<nat>, node: nat, visited: set<nat>)
    requires WellFormed(t) && seed < |t| && InRange(t, rest + [node]) && node in visited
    requires order + Walk(t, rest + [node], visited) == Walk(t, [seed], {})
    ensures InRange(t, rest)
    ensures order + Walk(t, rest, visited) == Walk(t, [seed], {})
  {
    assert (rest + [node])[..|rest|] == rest;
    WalkPop(t, rest + [node], visited);
  }

  /** Popping a new node visits it and leaves the rest of the walk to the stack below it with
      its children pushed. */
  lemma VisitStep(t: Tree, seed: nat, order: seq<nat>, rest: seq<nat>, node: nat, visited: set<nat>)
    requires WellFormed(t) && seed < |t| && InRange(t, order) && InRange(t, rest + [node])
    requires node !in visited
    requires order + Walk(t, rest + [node], visited) == Walk(t, [seed], {})
    ensures node < |t| && InRange(t, order + [node]) && InRange(t, rest + t[node].children)
    ensures (order + [node]) + Walk(t, rest + t[node].children, visited + {node}) == Walk(t, [seed], {})
  {
    assert (rest + [node])[..|rest|] == rest;
    assert (rest + [node])[|rest|] == node;
    WalkPop(t, rest + [node], visited);
    ChildrenInRange(t, node);
    InRangeAppend(t, rest, t[node].children);
    InRangeAppend(t, order, [node]);
    Assoc(order, [node], Walk(t, rest + t[node].children, visited + {node}));
  }

  /** Processing one more node appends its contribution to what the buffer already holds. */
  lemma ProcessStep(p: Policy, t: Tree, ret: seq<nat>, node: nat, start: string)
    requires InRange(t, ret) && node < |t|
    ensures InRange(t, ret + [node])
    ensures start + Emitted(p, t, ret + [node]) == (start + Emitted(p, t, ret)) + Contribution(p, t[node])
  {
    EmittedSnoc(p, t, ret, node);
    Assoc(start, Emitted(p, t, ret), Contribution(p, t[node]));
  }

  /** The inner loop of a visit: the children are pushed first to last, so the last child ends
      up on top. */
  method PushChildren(st: Stack<nat>, children: seq<nat>)
    modifies st
    ensures st.items == old(st.items) + children
  {
    ghost var below := st.items;
    var k := 0;
    while k < |children|
      invariant 0 <= k <= |children|
      invariant st.items == below + children[..k]
    {
      SnocPrefix(below, children, k);
      st.Push(children[k]);
      k := k + 1;
    }
    assert children[..k] == children;
  }

  /** dfsHTMLNodes: walks the tree below `seed` with an explicit stack and a visited set, and
      returns the nodes that qualify for `pr`, processing each of them as it is found. */
  method Dfs(t: Tree, seed: nat, pr: NodeProcessor) returns (ret: seq<nat>)
    requires WellFormed(t) && seed < |t|
    modifies pr
    ensures ret == Found(pr.policy, t, seed)
    ensures pr.textBuilder == old(pr.textBuilder) + Emitted(pr.policy, t, ret)
  {
    ret := [];
    var visited: set<nat> := {};
    var nodeStack := new Stack<nat>();
    nodeStack.Push(seed);
    ghost var order: seq<nat> := [];

    while nodeStack.Len() > 0
      invariant InRange(t, nodeStack.items) && InRange(t, order)
      invariant order + Walk(t, nodeStack.items, visited) == Walk(t, [seed], {})
      invariant ret == Selected(pr.policy, t, order)
      invariant pr.textBuilder == old(pr.textBuilder) + Emitted(pr.policy, t, ret)
      decreases Unvisited(t, visited), |nodeStack.items|
    {
      var popped := nodeStack.Pop();
      var node := popped.value;
      ghost var rest := nodeStack.items;
      if node in visited {
        SkipStep(t, seed, order, rest, node, visited);
        assert pr.textBuilder == old(pr.textBuilder) + Emitted(pr.policy, t, ret);
        continue;
      }
      VisitStep(t, seed, order, rest, node, visited);
      UnvisitedShrinks(t, visited, node);
      visited := visited + {node};
      PushChildren(nodeStack, t[node].children);
      assert pr.textBuilder == old(pr.textBuilder) + Emitted(pr.policy, t, ret);
      SelectedSnoc(pr.policy, t, order, node);
      if Qualifies(pr.policy, t[node]) {
        ProcessStep(pr.policy, t, ret, node, old(pr.textBuilder));
        pr.ProcessNode(t[node]);
        ret := ret + [node];
        assert pr.textBuilder == old(pr.textBuilder) + Emitted(pr.policy, t, ret);
      }
      order := order + [node];
    }
    assert order + [] == order;
  }

  /** getLinkText: the trimmed text of every text node below `node`, concatenated in walk order. */
  method GetLinkText(t: Tree, node: nat) returns (text: string)
    requires WellFormed(t) && node < |t|
    ensures text == LinkText(t, node)
  {
    var tp := new NodeProcessor(TextCollector);
    var _ := Dfs(t, node, tp);
    text := tp.textBuilder;
  }

  /** buildHTMLLink: the first "href" attribute's value (or "") and the link text of `node`. */
  method BuildHTMLLink(t: Tree, node: nat) returns (link: HTMLLink)
    requires WellFormed(t) && node < |t|
    ensures link == LinkOf(t, node)
  {
    var href := "";
    var attrs := t[node].attr;
    var i := 0;
    while i < |attrs|
      invariant 0 <= i <= |attrs|
      invariant href == "" && HrefOf(attrs) == HrefOf(attrs[i..])
    {
      if attrs[i].key == "href" {
        href := attrs[i].val;
        break;
      }
      assert attrs[i..][1..] == attrs[i + 1..];
      i := i + 1;
    }
    var text := GetLinkText(t, node);
    link := HTMLLink(href, text);
  }

  /** Parse, from an already parsed document rooted at `root`: one link per anchor the walk
      finds, in the walk's order, each built from its anchor. */
  method Parse(t: Tree, root: nat) returns (links: seq<HTMLLink>)
    requires WellFormed(t) && root < |t|
    ensures |links| == |Found(AnchorFinder, t, root)|
    ensures forall i :: 0 <= i < |links| ==> links[i] == LinkOf(t, Found(AnchorFinder, t, root)[i])
  {
    var lp := new NodeProcessor(AnchorFinder);
    var nodes := Dfs(t, root, lp);
    assert InRange(t, nodes);
    ghost var want := seq(|nodes|, j requires 0 <= j < |nodes| => LinkOf(t, nodes[j]));
    links := [];
    for i := 0 to |nodes|
      invariant links == want[..i]
    {
      var l := BuildHTMLLink(t, nodes[i]);
      assert want[..i + 1] == want[..i] + [l];
      links := links + [l];
    }
    assert want[..|nodes|] == want;
  }

  /** The walk never visits a node twice, never revisits a node already visited, and visits
      only nodes of the arena, whatever the shape of the arena (cycles and shared children
      included). */
  lemma {:induction false} WalkVisitsOnce(t: Tree, st: seq<nat>, visited: set<nat>)
    requires WellFormed(t) && InRange(t, st)
    ensures InRange(t, Walk(t, st, visited)) && Distinct(Walk(t, st, visited))
    ensures forall i :: 0 <= i < |Walk(t, st, visited)| ==> Walk(t, st, visited)[i] !in visited
    decreases Unvisited(t, visited), |st|
  {
    if st != [] {
      var n := st[|st| - 1];
      var rest := st[..|st| - 1];
      if n in visited {
        WalkVisitsOnce(t, rest, visited);
      } else {
        UnvisitedShrinks(t, visited, n);
        WalkVisitsOnce(t, rest + t[n].children, visited + {n});
      }
    }
  }

  /** Selecting keeps the elements distinct. */
  lemma {:induction false} SelectedDistinct(p: Policy, t: Tree, order: seq<nat>)
    requires InRange(t, order) && Distinct(order)
    ensures Distinct(Selected(p, t, order))
  {
    if order != [] {
      var front := order[..|order| - 1];
      SelectedDistinct(p, t, front);
      SelectedMembers(p, t, front);
    }
  }

  /** What dfsHTMLNodes returns always qualifies, contains no node twice, and contains every
      qualifying node the walk visits. */
  lemma FoundQualifyOnce(p: Policy, t: Tree, seed: nat)
    requires WellFormed(t) && seed < |t|
    ensures Distinct(Found(p, t, seed))
    ensures forall x :: x in Found(p, t, seed) <==> x in Walk(t, [seed], {}) && x < |t| && Qualifies(p, t[x])
  {
    WalkVisitsOnce(t, [seed], {});
    SelectedDistinct(p, t, Walk(t, [seed], {}));
    SelectedMembers(p, t, Walk(t, [seed], {}));
  }
}

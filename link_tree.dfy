/** What the walk of pkg/link/parser.go does on a proper tree, such as html.Parse builds.

    A finite tree can always be numbered in preorder, so that the subtree of node n occupies the
    index interval [n, ends[n]) and its children tile (n, ends[n]) from first to last. On such a
    tree the explicit-stack walk visits every node of the subtree exactly once, the node itself
    first and then the subtrees of its children from the LAST child to the first. */
module LinkTree {
  import opened Collections
  import opened Link

  /** Every child comes after its parent. */
  ghost predicate Ordered(t: Tree)
  {
    forall n, k :: 0 <= n < |t| && 0 <= k < |t[n].children| ==> n < t[n].children[k] < |t|
  }

  /** The children of `n` tile the interval (n, ends[n]) from first to last. */
  ghost predicate Tiles(t: Tree, ends: seq<nat>, n: nat)
    requires |ends| == |t| && Ordered(t) && n < |t|
  {
    var cs := t[n].children;
    (|cs| == 0 ==> ends[n] == n + 1)
    && (|cs| > 0 ==> cs[0] == n + 1 && ends[cs[|cs| - 1]] == ends[n])
    && (forall i :: 0 <= i < |cs| - 1 ==> ends[cs[i]] == cs[i + 1])
  }

  /** `t` is a forest numbered in preorder, and node n's subtree is the interval [n, ends[n]). */
  ghost predicate Preorder(t: Tree, ends: seq<nat>)
  {
    |ends| == |t| && WellFormed(t) && Ordered(t)
    && (forall n :: 0 <= n < |t| ==> n < ends[n] <= |t|)
    && (forall n :: 0 <= n < |t| ==> Tiles(t, ends, n))
  }

  /** Node `n`, then the subtrees of its children from the last child to the first. */
  ghost function RevPre(t: Tree, n: nat): seq<nat>
    requires Ordered(t) && n < |t|
    decreases |t| - n, 1, 0
  {
    [n] + Forest(t, n, t[n].children)
  }

  /** The subtrees of `cs` from the last to the first; every node of `cs` lies above `lo`. */
  ghost function Forest(t: Tree, lo: int, cs: seq<nat>): seq<nat>
    requires Ordered(t) && forall i :: 0 <= i < |cs| ==> lo < cs[i] < |t|
    decreases |t| - lo, 0, |cs|
  {
    if cs == [] then []
    else RevPre(t, cs[|cs| - 1]) + Forest(t, lo, cs[..|cs| - 1])
  }

  lemma {:induction false} ChainStep(t: Tree, ends: seq<nat>, n: nat, i: nat, j: nat)
    requires Preorder(t, ends) && n < |t|
    requires i < j < |t[n].children|
    ensures ends[t[n].children[i]] <= t[n].children[j]
    decreases j - i
  {
    var cs := t[n].children;
    assert Tiles(t, ends, n);
    if j > i + 1 {
      ChainStep(t, ends, n, i, j - 1);
      assert cs[j - 1] < ends[cs[j - 1]];
    }
  }

  /** The children of `n` lie inside n's interval, their intervals in order and disjoint. */
  lemma ChildSpan(t: Tree, ends: seq<nat>, n: nat)
    requires Preorder(t, ends) && n < |t|
    ensures forall i :: 0 <= i < |t[n].children| ==>
      n < t[n].children[i] && ends[t[n].children[i]] <= ends[n]
    ensures forall i, j :: 0 <= i < j < |t[n].children| ==> ends[t[n].children[i]] <= t[n].children[j]
  {
    var cs := t[n].children;
    assert Tiles(t, ends, n);
    forall i, j | 0 <= i < j < |cs| ensures ends[cs[i]] <= cs[j] {
      ChainStep(t, ends, n, i, j);
    }
    forall i | 0 <= i < |cs| ensures ends[cs[i]] <= ends[n] {
      if i < |cs| - 1 {
        ChainStep(t, ends, n, i, |cs| - 1);
        assert cs[|cs| - 1] < ends[cs[|cs| - 1]];
      }
    }
  }

  /** The forest of a concatenation lists the second part's subtrees first. */
  lemma {:induction false} ForestAppend(t: Tree, lo: int, a: seq<nat>, b: seq<nat>)
    requires Ordered(t)
    requires forall i :: 0 <= i < |a| ==> lo < a[i] < |t|
    requires forall i :: 0 <= i < |b| ==> lo < b[i] < |t|
    ensures forall i :: 0 <= i < |a + b| ==> lo < (a + b)[i] < |t|
    ensures Forest(t, lo, a + b) == Forest(t, lo, b) + Forest(t, lo, a)
    decreases |b|
  {
    if b == [] {
      assert a + b == a;
    } else {
      var front := b[..|b| - 1];
      assert (a + b)[..|a + b| - 1] == a + front;
      ForestAppend(t, lo, a, front);
    }
  }

  /** The lower bound only serves termination: it does not change the forest. */
  lemma {:induction false} ForestBound(t: Tree, lo1: int, lo2: int, cs: seq<nat>)
    requires Ordered(t)
    requires forall i :: 0 <= i < |cs| ==> lo1 < cs[i] < |t|
    requires forall i :: 0 <= i < |cs| ==> lo2 < cs[i] < |t|
    ensures Forest(t, lo1, cs) == Forest(t, lo2, cs)
    decreases |cs|
  {
    if cs != [] {
      ForestBound(t, lo1, lo2, cs[..|cs| - 1]);
    }
  }

  /** Intervals of the stack entries are disjoint, in increasing order from bottom to top, and
      free of visited nodes. */
  ghost predicate StackShape(t: Tree, ends: seq<nat>, st: seq<nat>, visited: set<nat>)
    requires Preorder(t, ends) && InRange(t, st)
  {
    (forall i, j :: 0 <= i < j < |st| ==> ends[st[i]] <= st[j])
    && (forall i, v :: 0 <= i < |st| && v in visited ==> !(st[i] <= v < ends[st[i]]))
  }

  /** Popping the top and pushing its children keeps the shape of the stack. */
  lemma NextStack(t: Tree, ends: seq<nat>, st: seq<nat>, visited: set<nat>)
    requires Preorder(t, ends) && InRange(t, st) && st != []
    requires StackShape(t, ends, st, visited)
    ensures st[|st| - 1] !in visited
    ensures InRange(t, st[..|st| - 1] + t[st[|st| - 1]].children)
    ensures StackShape(t, ends, st[..|st| - 1] + t[st[|st| - 1]].children, visited + {st[|st| - 1]})
  {
    var n := st[|st| - 1];
    var front := st[..|st| - 1];
    var cs := t[n].children;
    assert n < ends[n];
    ChildSpan(t, ends, n);
    ChildrenInRange(t, n);
    InRangeAppend(t, front, cs);
    var next := front + cs;
    forall i, j | 0 <= i < j < |next| ensures ends[next[i]] <= next[j] {
      if j < |front| {
      } else if i < |front| {
        assert ends[st[i]] <= n;
      }
    }
    forall i, v | 0 <= i < |next| && v in visited + {n} ensures !(next[i] <= v < ends[next[i]]) {
      if i < |front| {
        assert ends[st[i]] <= n;
      } else {
        assert n < next[i] && ends[next[i]] <= ends[n];
      }
    }
  }

  /** The forest of a stack is its top's subtree followed by the forest of the rest. */
  lemma ForestPop(t: Tree, ends: seq<nat>, st: seq<nat>)
    requires Preorder(t, ends) && InRange(t, st) && st != []
    ensures InRange(t, st[..|st| - 1]) && InRange(t, t[st[|st| - 1]].children)
    ensures Forest(t, -1, st)
      == [st[|st| - 1]] + (Forest(t, -1, t[st[|st| - 1]].children) + Forest(t, -1, st[..|st| - 1]))
  {
    var n := st[|st| - 1];
    var cs := t[n].children;
    ChildrenInRange(t, n);
    ChildSpan(t, ends, n);
    ForestBound(t, -1, n, cs);
    Assoc([n], Forest(t, -1, cs), Forest(t, -1, st[..|st| - 1]));
  }

  /** The walk from a stack whose intervals are disjoint, in increasing order from bottom to top,
      and free of visited nodes, lists the subtrees of the stack from its top to its bottom. */
  lemma {:induction false} WalkForest(t: Tree, ends: seq<nat>, st: seq<nat>, visited: set<nat>)
    requires Preorder(t, ends) && InRange(t, st) && StackShape(t, ends, st, visited)
    ensures Walk(t, st, visited) == Forest(t, -1, st)
    decreases Unvisited(t, visited), |st|
  {
    if st != [] {
      var n := st[|st| - 1];
      var front := st[..|st| - 1];
      var cs := t[n].children;
      NextStack(t, ends, st, visited);
      WalkPop(t, st, visited);
      ForestPop(t, ends, st);
      UnvisitedShrinks(t, visited, n);
      WalkForest(t, ends, front + cs, visited + {n});
      ForestAppend(t, -1, front, cs);
    }
  }

  /** RevPre(n) lists exactly the nodes of n's interval. */
  lemma {:induction false} RevPreCovers(t: Tree, ends: seq<nat>, n: nat)
    requires Preorder(t, ends) && n < |t|
    ensures forall x :: x in RevPre(t, n) <==> n <= x < ends[n]
    decreases |t| - n, 1, 0
  {
    var cs := t[n].children;
    ForestCovers(t, ends, n, |cs|);
    assert cs[..|cs|] == cs;
    assert Tiles(t, ends, n);
  }

  /** The subtrees of n's first k children cover (n, end of the k-th child). */
  lemma {:induction false} ForestCovers(t: Tree, ends: seq<nat>, n: nat, k: nat)
    requires Preorder(t, ends) && n < |t| && k <= |t[n].children|
    ensures forall i :: 0 <= i < k ==> n < t[n].children[i] < |t|
    ensures forall x :: (x in Forest(t, n, t[n].children[..k])
      <==> n + 1 <= x < (if k == 0 then n + 1 else ends[t[n].children[k - 1]]))
    decreases |t| - n, 0, k
  {
    var cs := t[n].children;
    ChildSpan(t, ends, n);
    assert Tiles(t, ends, n);
    if k > 0 {
      assert cs[..k][..k - 1] == cs[..k - 1];
      RevPreCovers(t, ends, cs[k - 1]);
      ForestCovers(t, ends, n, k - 1);
    }
  }

  /** The number of distinct elements of a sequence without duplicates is its length. */
  lemma {:induction false} DistinctCard(s: seq<nat>)
    requires Distinct(s)
    ensures |set x: nat | x in s| == |s|
  {
    if s != [] {
      var front := s[..|s| - 1];
      assert Distinct(front);
      DistinctCard(front);
      var a := set x: nat | x in front;
      assert |a| == |front|;
      assert (set x: nat | x in s) == a + {s[|s| - 1]};
      assert s[|s| - 1] !in a;
    }
  }

  /** On a tree, dfsHTMLNodes visits the subtree of the seed in reverse-children preorder:
      every node of the subtree, once, each before its descendants. */
  lemma WalkIsReversePreorder(t: Tree, ends: seq<nat>, root: nat)
    requires Preorder(t, ends) && root < |t|
    ensures Walk(t, [root], {}) == RevPre(t, root)
    ensures forall x :: x in Walk(t, [root], {}) <==> root <= x < ends[root]
    ensures Distinct(Walk(t, [root], {}))
  {
    WalkForest(t, ends, [root], {});
    assert [root][..0] == [];
    assert Forest(t, -1, [root]) == RevPre(t, root);
    RevPreCovers(t, ends, root);
    WalkVisitsOnce(t, [root], {});
  }

  /** On a tree, Parse yields one link per anchor element of the document, each anchor once:
      three anchors give three links and none give none. */
  lemma ParseFindsEveryAnchor(t: Tree, ends: seq<nat>, root: nat)
    requires Preorder(t, ends) && root < |t|
    ensures forall x :: (x in Found(AnchorFinder, t, root)
      <==> root <= x < ends[root] && t[x].nodeType == ElementNode && t[x].data == "a")
    ensures Distinct(Found(AnchorFinder, t, root))
    ensures |Found(AnchorFinder, t, root)|
      == |set x: nat | root <= x < ends[root] && t[x].nodeType == ElementNode && t[x].data == "a"|
  {
    WalkIsReversePreorder(t, ends, root);
    FoundQualifyOnce(AnchorFinder, t, root);
    var found := Found(AnchorFinder, t, root);
    DistinctCard(found);
    assert (set x: nat | x in found)
      == (set x: nat | root <= x < ends[root] && t[x].nodeType == ElementNode && t[x].data == "a");
  }

  /** On a tree, getLinkText collects the text nodes of exactly the node's subtree. */
  lemma LinkTextCoversSubtree(t: Tree, ends: seq<nat>, node: nat)
    requires Preorder(t, ends) && node < |t|
    ensures forall x :: (x in Found(TextCollector, t, node)
      <==> node <= x < ends[node] && t[x].nodeType == TextNode)
    ensures Distinct(Found(TextCollector, t, node))
  {
    WalkIsReversePreorder(t, ends, node);
    FoundQualifyOnce(TextCollector, t, node);
  }
}

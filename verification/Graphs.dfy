/**
 `graphlib.py`: cycle detection by an explicit-stack coloured search, and the ready
 and done bookkeeping of the topological sorter.
 */
module Graphs {
  import opened Sequences

  /** Nodes are hashable values; only their identity matters. */
  type Node = int

  /** Every node with its direct predecessors. */
  type Graph = map<Node, set<Node>>

  predicate Closed(g: Graph) {
    forall n | n in g :: g[n] <= g.Keys
  }

  /** Each element is a direct predecessor of the one before it. */
  predicate IsChain(g: Graph, p: seq<Node>) {
    forall i | 0 <= i < |p| - 1 :: p[i] in g && p[i + 1] in g[p[i]]
  }

  predicate IsCycle(g: Graph, p: seq<Node>) {
    |p| >= 2 && IsChain(g, p) && p[0] == p[|p| - 1]
  }

  ghost predicate HasCycle(g: Graph) {
    exists p: seq<Node> :: IsCycle(g, p)
  }

  function Elements(s: seq<Node>): (r: set<Node>)
    ensures forall x :: x in r <==> x in s
  {
    set x | x in s
  }

  /** Every element comes after all its predecessors. */
  predicate Topological(g: Graph, s: seq<Node>) {
    forall i | 0 <= i < |s| :: s[i] in g && g[s[i]] <= Elements(s[..i])
  }

  function Index(s: seq<Node>, x: Node): (i: nat)
    requires x in s
    ensures i < |s| && s[i] == x && x !in s[..i]
  {
    if s[0] == x then 0
    else
      var i := Index(s[1..], x);
      assert s[..i + 1] == [s[0]] + s[1..][..i];
      i + 1
  }

  /** Along a chain the position in a topological order goes down. */
  lemma {:induction false} ChainGoesDown(g: Graph, s: seq<Node>, p: seq<Node>)
    requires Topological(g, s) && IsChain(g, p) && |p| >= 2 && p[0] in s
    ensures p[|p| - 1] in s && Index(s, p[|p| - 1]) < Index(s, p[0])
  {
    var i := Index(s, p[0]);
    assert p[1] in g[s[i]];
    assert p[1] in s[..i];
    var j :| 0 <= j < i && s[j] == p[1];
    assert Index(s, p[1]) <= j;
    if |p| > 2 {
      ChainGoesDown(g, s, p[1..]);
    }
  }

  /** A graph with a topological order of all its nodes has no cycle. */
  lemma OrderedHasNoCycle(g: Graph, s: seq<Node>)
    requires Topological(g, s) && Elements(s) == g.Keys
    ensures !HasCycle(g)
  {
    if p: seq<Node> :| IsCycle(g, p) {
      assert p[0] in g && p[0] in Elements(s);
      ChainGoesDown(g, s, p);
    }
  }

  // ---------- the depth-first search ----------

  datatype Color = Gray | Black

  /** A stack entry: a node, and whether it is waiting for its predecessors to finish. */
  datatype Entry = Entry(node: Node, processed: bool)

  /** The nodes on the stack that are being processed, outermost first. */
  function Path(stack: seq<Entry>): (p: seq<Node>)
    ensures |p| <= |stack|
  {
    if stack == [] then []
    else
      var rest := Path(stack[..|stack| - 1]);
      var top := stack[|stack| - 1];
      if top.processed then rest + [top.node] else rest
  }

  /** Each entry was pushed as a predecessor of the innermost node in progress below it. */
  predicate Linked(g: Graph, stack: seq<Entry>) {
    stack == [] ||
    var rest := stack[..|stack| - 1];
    Linked(g, rest) && LinkedTo(g, Path(rest), stack[|stack| - 1].node)
  }

  predicate LinkedTo(g: Graph, path: seq<Node>, n: Node) {
    n in g && (path != [] ==> path[|path| - 1] in g && n in g[path[|path| - 1]])
  }

  /** Every predecessor of a node in progress is finished, still above it on the stack, or pending. */
  predicate Covered(g: Graph, stack: seq<Entry>, done: set<Node>, pending: set<Node>) {
    forall t | 0 <= t < |stack| && stack[t].processed && stack[t].node in g ::
      forall p | p in g[stack[t].node] :: Reached(stack, t, p, done, pending)
  }

  predicate Reached(stack: seq<Entry>, t: nat, p: Node, done: set<Node>, pending: set<Node>) {
    p in done || p in pending || exists k | t < k < |stack| :: stack[k].node == p
  }

  lemma {:induction false} PathIsChain(g: Graph, stack: seq<Entry>)
    requires Linked(g, stack)
    ensures IsChain(g, Path(stack)) && (Path(stack) != [] ==> Path(stack)[|Path(stack)| - 1] in g)
  {
    if stack != [] {
      PathIsChain(g, stack[..|stack| - 1]);
    }
  }

  /** Meeting a node in progress from the innermost one closes a cycle. */
  lemma ClosesCycle(g: Graph, path: seq<Node>, n: Node)
    requires IsChain(g, path) && LinkedTo(g, path, n) && n in path
    ensures HasCycle(g)
  {
    var i :| 0 <= i < |path| && path[i] == n;
    var c := path[i..] + [n];
    forall k | 0 <= k < |c| - 1
      ensures c[k] in g && c[k + 1] in g[c[k]]
    {
      assert c[k] == path[i + k];
      if k + 1 < |path| - i {
        assert c[k + 1] == path[i + k + 1];
      }
    }
    assert IsCycle(g, c);
  }

  /** What the search knows: `done` lists the black nodes in finishing order, the stack holds the gray ones. */
  predicate SearchState(g: Graph, stack: seq<Entry>, color: map<Node, Color>, done: seq<Node>, pending: set<Node>) {
    && color.Keys <= g.Keys
    && (forall n | n in color :: (color[n] == Black <==> n in done) && (color[n] == Gray <==> n in Path(stack)))
    && (forall n | n in done :: n in color) && (forall n | n in Path(stack) :: n in color)
    && Distinct(done) && Distinct(Path(stack)) && Topological(g, done)
    && Linked(g, stack) && Covered(g, stack, Elements(done), pending)
  }

  lemma TopologicalExtend(g: Graph, s: seq<Node>, n: Node)
    requires Topological(g, s) && n in g && g[n] <= Elements(s)
    ensures Topological(g, s + [n])
  {
    var t := s + [n];
    forall i | 0 <= i < |t|
      ensures t[i] in g && g[t[i]] <= Elements(t[..i])
    {
      assert t[..i] == s[..i];
      if i == |s| { assert s[..i] == s; }
    }
  }

  lemma DistinctSplit(s: seq<Node>, n: Node)
    requires Distinct(s + [n])
    ensures Distinct(s) && n !in s
  {
    var t := s + [n];
    forall k | 0 <= k < |s| ensures s[k] != n {
      assert t[k] == s[k] && t[|s|] == n;
    }
    forall i, j | 0 <= i < j < |s| ensures s[i] != s[j] {
      assert t[i] == s[i] && t[j] == s[j];
    }
  }

  /** Popping a finished entry: its node turns black. */
  lemma PopFinished(g: Graph, stack: seq<Entry>, color: map<Node, Color>, done: seq<Node>)
    requires SearchState(g, stack, color, done, {}) && stack != [] && stack[|stack| - 1].processed
    ensures var n := stack[|stack| - 1].node;
            n in color && SearchState(g, stack[..|stack| - 1], color[n := Black], done + [n], {})
  {
    var n, rest := stack[|stack| - 1].node, stack[..|stack| - 1];
    var t := |stack| - 1;
    assert Path(stack) == Path(rest) + [n];
    assert Path(stack)[|Path(rest)|] == n;
    assert n in Path(stack) && n in color && color[n] == Gray && n !in done;
    forall p | p in g[n] ensures p in done {
      assert Reached(stack, t, p, Elements(done), {});
    }
    TopologicalExtend(g, done, n);
    DistinctSplit(Path(rest), n);
    assert Distinct(done + [n]);
    forall i | 0 <= i < |rest| && rest[i].processed && rest[i].node in g
      ensures forall p | p in g[rest[i].node] :: Reached(rest, i, p, Elements(done + [n]), {})
    {
      forall p | p in g[rest[i].node] ensures Reached(rest, i, p, Elements(done + [n]), {}) {
        assert stack[i] == rest[i];
        assert Reached(stack, i, p, Elements(done), {});
        if k :| i < k < |stack| && stack[k].node == p {
          if k < |rest| { assert rest[k].node == p; }
        }
      }
    }
  }

  /** Popping an entry whose node is already black changes nothing else. */
  lemma PopBlack(g: Graph, stack: seq<Entry>, color: map<Node, Color>, done: seq<Node>)
    requires SearchState(g, stack, color, done, {}) && stack != [] && !stack[|stack| - 1].processed
    requires stack[|stack| - 1].node in done
    ensures SearchState(g, stack[..|stack| - 1], color, done, {})
  {
    var n, rest := stack[|stack| - 1].node, stack[..|stack| - 1];
    forall i | 0 <= i < |rest| && rest[i].processed && rest[i].node in g
      ensures forall p | p in g[rest[i].node] :: Reached(rest, i, p, Elements(done), {})
    {
      forall p | p in g[rest[i].node] ensures Reached(rest, i, p, Elements(done), {}) {
        assert stack[i] == rest[i];
        assert Reached(stack, i, p, Elements(done), {});
        if k :| i < k < |stack| && stack[k].node == p {
          if k < |rest| { assert rest[k].node == p; }
        }
      }
    }
  }

  /** A new node turns gray and waits, with all its predecessors pending. */
  lemma EnterNode(g: Graph, stack: seq<Entry>, color: map<Node, Color>, done: seq<Node>)
    requires SearchState(g, stack, color, done, {}) && stack != [] && !stack[|stack| - 1].processed
    requires stack[|stack| - 1].node !in color
    ensures var n := stack[|stack| - 1].node;
            var stack' := stack[..|stack| - 1] + [Entry(n, true)];
            n in g && Path(stack') == Path(stack[..|stack| - 1]) + [n]
            && SearchState(g, stack', color[n := Gray], done, g[n])
  {
    var n, rest := stack[|stack| - 1].node, stack[..|stack| - 1];
    var stack' := rest + [Entry(n, true)];
    assert stack'[..|stack'| - 1] == rest;
    assert Path(stack') == Path(rest) + [n];
    assert Path(stack) == Path(rest);
    forall i | 0 <= i < |stack'| && stack'[i].processed && stack'[i].node in g
      ensures forall p | p in g[stack'[i].node] :: Reached(stack', i, p, Elements(done), g[n])
    {
      forall p | p in g[stack'[i].node] ensures Reached(stack', i, p, Elements(done), g[n]) {
        if i < |rest| {
          assert stack[i] == stack'[i];
          assert Reached(stack, i, p, Elements(done), {});
          if k :| i < k < |stack| && stack[k].node == p {
            assert stack'[k].node == p;
          }
        }
      }
    }
  }

  /** A predecessor that is black, or is pushed, is no longer pending. */
  lemma HandlePredecessor(g: Graph, stack: seq<Entry>, color: map<Node, Color>, done: seq<Node>, pending: set<Node>,
                          p: Node, push: bool)
    requires SearchState(g, stack, color, done, pending) && p in pending
    requires if push then LinkedTo(g, Path(stack), p) && p !in color else p in done
    ensures var stack' := if push then stack + [Entry(p, false)] else stack;
            Path(stack') == Path(stack) && SearchState(g, stack', color, done, pending - {p})
  {
    var stack' := if push then stack + [Entry(p, false)] else stack;
    assert push ==> stack'[..|stack'| - 1] == stack;
    forall i | 0 <= i < |stack'| && stack'[i].processed && stack'[i].node in g
      ensures forall q | q in g[stack'[i].node] :: Reached(stack', i, q, Elements(done), pending - {p})
    {
      forall q | q in g[stack'[i].node] ensures Reached(stack', i, q, Elements(done), pending - {p}) {
        assert stack[i] == stack'[i];
        assert Reached(stack, i, q, Elements(done), pending);
        if q == p && push { assert stack'[|stack|].node == p; }
        if k :| i < k < |stack| && stack[k].node == q {
          assert stack'[k].node == q;
        }
      }
    }
  }

  /** A gray node met from the innermost node in progress lies on a cycle. */
  lemma GrayClosesCycle(g: Graph, stack: seq<Entry>, color: map<Node, Color>, done: seq<Node>, pending: set<Node>,
                        n: Node)
    requires SearchState(g, stack, color, done, pending) && LinkedTo(g, Path(stack), n)
    requires n in color && color[n] == Gray
    ensures HasCycle(g)
  {
    PathIsChain(g, stack);
    ClosesCycle(g, Path(stack), n);
  }

  /** The top entry is linked to the nodes in progress. */
  lemma TopLinked(g: Graph, stack: seq<Entry>, color: map<Node, Color>, done: seq<Node>)
    requires SearchState(g, stack, color, done, {}) && stack != [] && !stack[|stack| - 1].processed
    ensures Path(stack) == Path(stack[..|stack| - 1]) && LinkedTo(g, Path(stack), stack[|stack| - 1].node)
  {
  }

  /** The root is finished or still on the stack. */
  predicate Awaited(stack: seq<Entry>, done: seq<Node>, root: Node) {
    root in done || exists k | 0 <= k < |stack| :: stack[k].node == root
  }

  lemma AwaitedPrefix(stack: seq<Entry>, stack': seq<Entry>, done: seq<Node>, done': seq<Node>, root: Node)
    requires Awaited(stack, done, root) && (forall n | n in done :: n in done')
    requires |stack| >= 1 && |stack| - 1 <= |stack'| && stack[..|stack| - 1] == stack'[..|stack| - 1]
    requires stack[|stack| - 1].node in done'
             || (|stack'| >= |stack| && stack'[|stack| - 1].node == stack[|stack| - 1].node)
    ensures Awaited(stack', done', root)
  {
    if k :| 0 <= k < |stack| && stack[k].node == root {
      if k < |stack| - 1 {
        assert stack[..|stack| - 1][k] == stack'[..|stack| - 1][k];
      }
    }
  }

  lemma SomeElement<T>(s: set<T>) returns (x: T)
    requires s != {}
    ensures x in s
  {
    x :| x in s;
  }

  /** The inner loop: pushes the predecessors that have no colour yet, and stops at a gray one. */
  method PushPredecessors(g: Graph, n: Node, stack0: seq<Entry>, color: map<Node, Color>, ghost done: seq<Node>)
    returns (stack: seq<Entry>, cyclic: bool)
    requires n in g && SearchState(g, stack0, color, done, g[n])
    requires Closed(g) && Path(stack0) != [] && Path(stack0)[|Path(stack0)| - 1] == n
    ensures cyclic ==> HasCycle(g)
    ensures !cyclic ==> SearchState(g, stack, color, done, {}) && stack0 <= stack
  {
    hide SearchState, HasCycle;
    stack, cyclic := stack0, false;
    var pending := g[n];
    while pending != {}
      invariant pending <= g[n] && stack0 <= stack && Path(stack) == Path(stack0)
      invariant SearchState(g, stack, color, done, pending)
      decreases pending
    {
      ghost var some := SomeElement(pending);
      var p: Node :| p in pending;
      if p in color {
        if color[p] == Gray {
          GrayClosesCycle(g, stack, color, done, pending, p);
          return stack, true;
        }
        BlackIsDone(g, stack, color, done, pending, p);
        HandlePredecessor(g, stack, color, done, pending, p, false);
      } else {
        HandlePredecessor(g, stack, color, done, pending, p, true);
        stack := stack + [Entry(p, false)];
      }
      pending := pending - {p};
    }
  }

  lemma BlackIsDone(g: Graph, stack: seq<Entry>, color: map<Node, Color>, done: seq<Node>, pending: set<Node>, p: Node)
    requires SearchState(g, stack, color, done, pending) && p in color && color[p] == Black
    ensures p in done
  {
  }

  lemma FewerUncolored(g: Graph, stack: seq<Entry>, color: map<Node, Color>, done: seq<Node>, n: Node, c: Color)
    requires SearchState(g, stack, color, done, {}) && n in g
    ensures n in color ==> color[n := c].Keys == color.Keys
    ensures n !in color ==> |g.Keys - color[n := c].Keys| < |g.Keys - color.Keys|
  {
    if n in color {
      assert color[n := c].Keys == color.Keys;
    } else {
      assert color[n := c].Keys == color.Keys + {n};
      Shrinks(g.Keys, color.Keys, n);
    }
  }

  /** What holds between two rounds of the search from `root`, started with the nodes of `done0` finished. */
  predicate Between(g: Graph, root: Node, stack: seq<Entry>, color: map<Node, Color>, done0: seq<Node>,
                    done: seq<Node>) {
    SearchState(g, stack, color, done, {}) && Awaited(stack, done, root) && forall n | n in done0 :: n in done
  }

  lemma AfterFinished(g: Graph, root: Node, stack: seq<Entry>, color: map<Node, Color>, done0: seq<Node>,
                      done: seq<Node>, n: Node)
    requires Between(g, root, stack, color, done0, done) && stack != [] && stack[|stack| - 1] == Entry(n, true)
    ensures Between(g, root, stack[..|stack| - 1], color[n := Black], done0, done + [n])
    ensures color[n := Black].Keys == color.Keys
  {
    hide SearchState, Awaited;
    PopFinished(g, stack, color, done);
    AwaitedPrefix(stack, stack[..|stack| - 1], done, done + [n], root);
    KnownNode(g, stack, color, done, n);
    FewerUncolored(g, stack, color, done, n, Black);
  }

  lemma AfterBlack(g: Graph, root: Node, stack: seq<Entry>, color: map<Node, Color>, done0: seq<Node>,
                   done: seq<Node>, n: Node)
    requires Between(g, root, stack, color, done0, done) && stack != [] && stack[|stack| - 1] == Entry(n, false)
    requires n in color
    ensures color[n] == Gray ==> HasCycle(g)
    ensures color[n] == Black ==> Between(g, root, stack[..|stack| - 1], color, done0, done)
  {
    hide SearchState, Awaited, HasCycle, LinkedTo;
    TopLinked(g, stack, color, done);
    if color[n] == Gray {
      GrayClosesCycle(g, stack, color, done, {}, n);
    } else {
      BlackIsDone(g, stack, color, done, {}, n);
      PopBlack(g, stack, color, done);
      AwaitedPrefix(stack, stack[..|stack| - 1], done, done, root);
    }
  }

  lemma AfterEntered(g: Graph, root: Node, stack: seq<Entry>, stack': seq<Entry>, color: map<Node, Color>,
                     done0: seq<Node>, done: seq<Node>, n: Node)
    requires Between(g, root, stack, color, done0, done) && stack != [] && stack[|stack| - 1] == Entry(n, false)
    requires n in g && n !in color && SearchState(g, stack', color[n := Gray], done, {})
    requires stack[..|stack| - 1] + [Entry(n, true)] <= stack'
    ensures Between(g, root, stack', color[n := Gray], done0, done)
    ensures |g.Keys - color[n := Gray].Keys| < |g.Keys - color.Keys|
  {
    hide SearchState, Awaited;
    FewerUncolored(g, stack, color, done, n, Gray);
    AwaitedPrefix(stack, stack', done, done, root);
  }

  /** The search from one node, against the current colours. */
  method Search(g: Graph, root: Node, color0: map<Node, Color>, ghost done0: seq<Node>)
    returns (color: map<Node, Color>, ghost done: seq<Node>, cyclic: bool)
    requires Closed(g) && root in g && SearchState(g, [], color0, done0, {})
    ensures cyclic ==> HasCycle(g)
    ensures !cyclic ==> SearchState(g, [], color, done, {}) && root in done && (forall n | n in done0 :: n in done)
  {
    color, done, cyclic := color0, done0, false;
    var stack := [Entry(root, false)];
    StartSearch(g, root, color, done);
    assert Between(g, root, stack, color, done0, done);
    hide SearchState, HasCycle, Linked, Path, Between;
    while stack != []
      invariant Between(g, root, stack, color, done0, done)
      decreases |g.Keys - color.Keys|, |stack|
    {
      var top := stack[|stack| - 1];
      var n, rest := top.node, stack[..|stack| - 1];
      if top.processed {
        AfterFinished(g, root, stack, color, done0, done, n);
        stack, color, done := rest, color[n := Black], done + [n];
      } else if n in color {
        AfterBlack(g, root, stack, color, done0, done, n);
        if color[n] == Gray {
          return color, done, true;
        }
        stack := rest;
      } else {
        BetweenState(g, root, stack, color, done0, done);
        EnterNode(g, stack, color, done);
        var stack', found := PushPredecessors(g, n, rest + [Entry(n, true)], color[n := Gray], done);
        if found {
          return color, done, true;
        }
        AfterEntered(g, root, stack, stack', color, done0, done, n);
        stack, color := stack', color[n := Gray];
      }
    }
    BetweenState(g, root, [], color, done0, done);
    EmptyStack(done, root);
  }

  lemma BetweenState(g: Graph, root: Node, stack: seq<Entry>, color: map<Node, Color>, done0: seq<Node>,
                     done: seq<Node>)
    requires Between(g, root, stack, color, done0, done)
    ensures SearchState(g, stack, color, done, {}) && Awaited(stack, done, root) && forall n | n in done0 :: n in done
  {
  }

  lemma EmptyStack(done: seq<Node>, root: Node)
    requires Awaited([], done, root)
    ensures root in done
  {
  }

  lemma StartSearch(g: Graph, root: Node, color: map<Node, Color>, done: seq<Node>)
    requires root in g && SearchState(g, [], color, done, {})
    ensures SearchState(g, [Entry(root, false)], color, done, {}) && Awaited([Entry(root, false)], done, root)
  {
    var stack := [Entry(root, false)];
    assert stack[..0] == [] && stack[0].node == root;
  }

  lemma KnownNode(g: Graph, stack: seq<Entry>, color: map<Node, Color>, done: seq<Node>, n: Node)
    requires SearchState(g, stack, color, done, {}) && n in color
    ensures n in g
  {
  }

  lemma Shrinks(all: set<Node>, some: set<Node>, n: Node)
    requires n in all && n !in some
    ensures |all - (some + {n})| < |all - some|
  {
    assert all - some == (all - (some + {n})) + {n};
  }

  lemma OneMoreNode(nodes: seq<Node>, i: nat, before: seq<Node>, after: seq<Node>)
    requires i < |nodes| && Elements(nodes[..i]) <= Elements(before)
    requires nodes[i] in after && forall n | n in before :: n in after
    ensures Elements(nodes[..i + 1]) <= Elements(after)
  {
    var node := nodes[i];
    assert nodes[..i + 1] == nodes[..i] + [node];
    forall n | n in nodes[..i + 1] ensures n in after {
      if n != node {
        assert n in nodes[..i];
        assert n in Elements(before);
      }
    }
  }

  lemma OrderInGraph(g: Graph, order: seq<Node>)
    requires Topological(g, order)
    ensures Elements(order) <= g.Keys
  {
    forall n | n in order ensures n in g {
      var k :| 0 <= k < |order| && order[k] == n;
      assert order[k] in g;
    }
  }

  /** The check of `prepare`: a cycle is reported exactly when there is one. */
  method DetectCycle(g: Graph, nodes: seq<Node>) returns (cyclic: bool, ghost order: seq<Node>)
    requires Closed(g) && Elements(nodes) == g.Keys
    ensures cyclic <==> HasCycle(g)
    ensures !cyclic ==> Topological(g, order) && Distinct(order) && Elements(order) == g.Keys
  {
    var color: map<Node, Color> := map[];
    order := [];
    var i := 0;
    while i < |nodes|
      invariant 0 <= i <= |nodes|
      invariant SearchState(g, [], color, order, {})
      invariant Elements(nodes[..i]) <= Elements(order)
    {
      var node := nodes[i];
      assert node in Elements(nodes);
      ghost var before := order;
      color, order, cyclic := Search(g, node, color, order);
      if cyclic {
        return;
      }
      OneMoreNode(nodes, i, before, order);
      i := i + 1;
    }
    cyclic := false;
    assert nodes[..i] == nodes;
    OrderInGraph(g, order);
    OrderedHasNoCycle(g, order);
  }

  // ---------- the sorter's bookkeeping ----------

  datatype Status = Ok | ValueError | CycleError

  /** The nodes in insertion order, with an unfinished-predecessor count for each. */
  ghost predicate Known(g: Graph, keys: seq<Node>, remaining: map<Node, int>) {
    Closed(g) && Distinct(keys) && Elements(keys) == g.Keys && remaining.Keys == g.Keys
  }

  /** The nodes, in insertion order, whose last counted predecessor is `n`. */
  function Opened(g: Graph, keys: seq<Node>, remaining: map<Node, int>, n: Node): (r: seq<Node>)
    requires Elements(keys) <= g.Keys && g.Keys <= remaining.Keys
    ensures forall x :: x in r <==> x in keys && n in g[x] && remaining[x] == 1
    ensures Distinct(keys) ==> Distinct(r)
  {
    if keys == [] then []
    else
      var init := keys[..|keys| - 1];
      var last := keys[|keys| - 1];
      assert keys == init + [last];
      assert last in Elements(keys) && Elements(init) <= Elements(keys);
      var rest := Opened(g, init, remaining, n);
      if n in g[last] && remaining[last] == 1 then rest + [last] else rest
  }

  /** `x` stands before `y`. */
  predicate StandsBefore(keys: seq<Node>, x: Node, y: Node) {
    exists j | 0 <= j < |keys| :: keys[j] == y && x in keys[..j]
  }

  /** `r` lists nodes in the order of `keys`. */
  predicate FollowsOrder(keys: seq<Node>, r: seq<Node>) {
    && (forall p | 0 <= p < |r| :: r[p] in keys)
    && forall p, q | 0 <= p < q < |r| :: StandsBefore(keys, r[p], r[q])
  }

  lemma StandsLast(keys: seq<Node>, x: Node, y: Node)
    requires x in keys
    ensures StandsBefore(keys + [y], x, y)
  {
    var more := keys + [y];
    assert more[|keys|] == y && more[..|keys|] == keys;
  }

  lemma StaysBefore(keys: seq<Node>, n: Node, x: Node, y: Node)
    requires StandsBefore(keys, x, y)
    ensures StandsBefore(keys + [n], x, y)
  {
    var more := keys + [n];
    var j :| 0 <= j < |keys| && keys[j] == y && x in keys[..j];
    assert more[j] == y && more[..j] == keys[..j];
  }

  lemma OrderSnoc(keys: seq<Node>, r: seq<Node>, n: Node)
    requires FollowsOrder(keys, r)
    ensures FollowsOrder(keys + [n], r) && FollowsOrder(keys + [n], r + [n])
  {
    hide StandsBefore;
    var more := r + [n];
    forall p, q | 0 <= p < q < |r| ensures StandsBefore(keys + [n], r[p], r[q]) {
      StaysBefore(keys, n, r[p], r[q]);
    }
    forall p, q | 0 <= p < q < |more| ensures StandsBefore(keys + [n], more[p], more[q]) {
      if q < |r| {
        assert StandsBefore(keys + [n], r[p], r[q]);
      } else {
        StandsLast(keys, r[p], n);
      }
    }
  }

  /** The nodes of `keys` without predecessors, each once, in the order of `keys`. */
  predicate AreSources(g: Graph, keys: seq<Node>, r: seq<Node>) {
    && Distinct(r) && FollowsOrder(keys, r)
    && (forall n | n in r :: n in keys && n in g && g[n] == {})
    && forall n | n in keys && n in g && g[n] == {} :: n in r
  }

  lemma NextSource(g: Graph, keys: seq<Node>, r: seq<Node>, n: Node)
    requires AreSources(g, keys, r) && n in g && n !in keys
    ensures AreSources(g, keys + [n], if g[n] == {} then r + [n] else r)
  {
    OrderSnoc(keys, r, n);
    DistinctAppend(r, [n]);
    hide FollowsOrder, Distinct;
  }

  /** The nodes that a report makes ready are offered in insertion order. */
  lemma {:induction false} OpenedInOrder(g: Graph, keys: seq<Node>, remaining: map<Node, int>, n: Node)
    requires Elements(keys) <= g.Keys && g.Keys <= remaining.Keys
    ensures FollowsOrder(keys, Opened(g, keys, remaining, n))
  {
    if keys != [] {
      var init, last := keys[..|keys| - 1], keys[|keys| - 1];
      assert keys == init + [last];
      assert Elements(init) <= Elements(keys);
      OpenedInOrder(g, init, remaining, n);
      hide FollowsOrder;
      OrderSnoc(init, Opened(g, init, remaining, n), last);
    }
  }

  function Decremented(g: Graph, remaining: map<Node, int>, n: Node): (r: map<Node, int>) {
    map x | x in remaining :: if x in g && n in g[x] then remaining[x] - 1 else remaining[x]
  }

  /** What was offered so far: the nodes whose predecessors are finished, each once, in topological order. */
  ghost predicate Offered(g: Graph, offered: seq<Node>, finished: set<Node>) {
    && Distinct(offered) && Topological(g, offered) && finished <= Elements(offered)
    && (forall n | n in g :: n in offered <==> g[n] <= finished)
  }

  predicate Counted(g: Graph, remaining: map<Node, int>, finished: set<Node>) {
    remaining.Keys == g.Keys && forall n | n in g :: remaining[n] == |g[n] - finished|
  }

  /**
   The bookkeeping agrees with the graph: `history` lists the nodes handed out so far, `finished` the ones
   reported done. A node is ready or handed out exactly when its predecessors are finished, nothing is offered
   twice, and what was offered is in topological order.
   */
  ghost predicate InStep(g: Graph, remaining: map<Node, int>, ready: seq<Node>, passedOut: int, nfinished: int,
                         history: seq<Node>, finished: set<Node>) {
    && Counted(g, remaining, finished) && Offered(g, history + ready, finished)
    && finished <= Elements(history)
    && passedOut == |history| && nfinished == |finished|
  }

  lemma RemoveOne(a: set<Node>, b: set<Node>, n: Node)
    requires n !in b
    ensures |a - (b + {n})| == if n in a then |a - b| - 1 else |a - b|
  {
    if n in a {
      assert a - b == (a - (b + {n})) + {n};
    } else {
      assert a - b == a - (b + {n});
    }
  }

  lemma LastOne(a: set<Node>, b: set<Node>, n: Node)
    requires n in a && n !in b
    ensures |a - b| == 1 <==> a <= b + {n}
  {
    RemoveOne(a, b, n);
    if |a - b| == 1 {
      assert a - (b + {n}) == {};
    }
    if a <= b + {n} {
      assert a - (b + {n}) == {};
    }
  }

  /** Handing out everything that is ready keeps the books. */
  lemma GetReadyKeeps(g: Graph, remaining: map<Node, int>, ready: seq<Node>, passedOut: int, nfinished: int,
                      history: seq<Node>, finished: set<Node>)
    requires InStep(g, remaining, ready, passedOut, nfinished, history, finished)
    ensures InStep(g, remaining, [], passedOut + |ready|, nfinished, history + ready, finished)
  {
    assert history + ready + [] == history + ready;
  }

  lemma TopologicalAppend(g: Graph, s: seq<Node>, t: seq<Node>, finished: set<Node>)
    requires Topological(g, s) && finished <= Elements(s)
    requires forall n | n in t :: n in g && g[n] <= finished
    ensures Topological(g, s + t)
  {
    var u := s + t;
    forall i | 0 <= i < |u|
      ensures u[i] in g && g[u[i]] <= Elements(u[..i])
    {
      if i < |s| {
        assert u[..i] == s[..i];
      } else {
        assert u[i] == t[i - |s|];
        assert u[..i] == s + t[..i - |s|];
      }
    }
  }

  lemma DistinctAppend(s: seq<Node>, t: seq<Node>)
    requires Distinct(s) && Distinct(t) && forall n | n in t :: n !in s
    ensures Distinct(s + t)
  {
    var u := s + t;
    forall i, j | 0 <= i < j < |u| ensures u[i] != u[j] {
      if i < |s| <= j {
        assert u[j] in t;
      }
    }
  }

  /** What finishing `n` opens is exactly what finishing it makes available, and is new. */
  lemma OpenedMeaning(g: Graph, keys: seq<Node>, remaining: map<Node, int>, finished: set<Node>, n: Node, x: Node)
    requires Known(g, keys, remaining) && Counted(g, remaining, finished) && n !in finished && x in g
    ensures x in Opened(g, keys, remaining, n) <==> n in g[x] && g[x] <= finished + {n}
  {
    hide Opened, Distinct, Closed;
    assert x in Elements(keys);
    if n in g[x] {
      LastOne(g[x], finished, n);
    }
  }

  lemma CountDown(g: Graph, remaining: map<Node, int>, finished: set<Node>, n: Node)
    requires Counted(g, remaining, finished) && n !in finished
    ensures Counted(g, Decremented(g, remaining, n), finished + {n})
  {
    forall x | x in g
      ensures Decremented(g, remaining, n)[x] == |g[x] - (finished + {n})|
    {
      RemoveOne(g[x], finished, n);
    }
  }

  lemma OfferMore(g: Graph, offered: seq<Node>, more: seq<Node>, finished: set<Node>, n: Node)
    requires Offered(g, offered, finished) && n in offered && n !in finished && Distinct(more)
    requires forall x | x in more :: x in g
    requires forall x | x in g :: x in more <==> n in g[x] && g[x] <= finished + {n}
    ensures Offered(g, offered + more, finished + {n})
  {
    hide Distinct, Topological;
    DistinctAppend(offered, more);
    TopologicalAppend(g, offered, more, finished + {n});
    forall x | x in g
      ensures x in offered + more <==> g[x] <= finished + {n}
    {
      if n !in g[x] && g[x] <= finished + {n} {
        assert g[x] <= finished;
      }
    }
  }

  /** Reporting a handed-out node done keeps the books. */
  lemma DoneKeeps(g: Graph, keys: seq<Node>, remaining: map<Node, int>, ready: seq<Node>, passedOut: int,
                  nfinished: int,
                  history: seq<Node>, finished: set<Node>, n: Node)
    requires Known(g, keys, remaining)
    requires InStep(g, remaining, ready, passedOut, nfinished, history, finished)
    requires n in history && n !in finished
    ensures InStep(g, Decremented(g, remaining, n), ready + Opened(g, keys, remaining, n), passedOut, nfinished + 1,
                   history, finished + {n})
  {
    hide Opened, Offered, Counted, Decremented;
    var more := Opened(g, keys, remaining, n);
    assert history + (ready + more) == (history + ready) + more;
    forall x | x in g
      ensures x in more <==> n in g[x] && g[x] <= finished + {n}
    {
      OpenedMeaning(g, keys, remaining, finished, n, x);
    }
    forall x | x in more ensures x in g {
      assert x in Elements(keys);
    }
    CountDown(g, remaining, finished, n);
    OfferMore(g, history + ready, more, finished, n);
  }

  lemma Outside<T>(a: set<T>, b: set<T>) returns (x: T)
    requires !(a <= b)
    ensures x in a && x !in b
  {
    x :| x in a && x !in b;
  }

  /** The first node of a sequence outside a set. */
  lemma FirstOutside(order: seq<Node>, finished: set<Node>) returns (i: nat)
    requires !(Elements(order) <= finished)
    ensures i < |order| && order[i] !in finished && Elements(order[..i]) <= finished
  {
    var x := Outside(Elements(order), finished);
    var k := Index(order, x);
    i := 0;
    while order[i] in finished
      invariant 0 <= i <= k
      invariant Elements(order[..i]) <= finished
      decreases k - i
    {
      assert order[..i + 1] == order[..i] + [order[i]];
      i := i + 1;
    }
  }

  /** While a node of an acyclic graph is unfinished, some unfinished node is ready or handed out. */
  lemma AlwaysProgress(g: Graph, order: seq<Node>, remaining: map<Node, int>, ready: seq<Node>, passedOut: int,
                       nfinished: int,
                       history: seq<Node>, finished: set<Node>) returns (n: Node)
    requires Topological(g, order) && Elements(order) == g.Keys
    requires InStep(g, remaining, ready, passedOut, nfinished, history, finished)
    requires nfinished < |g|
    ensures n in history + ready && n !in finished
  {
    hide Distinct;
    if Elements(order) <= finished {
      SubsetSize(g.Keys, finished);
    }
    var i := FirstOutside(order, finished);
    n := order[i];
  }

  lemma SubsetSize<T>(a: set<T>, b: set<T>)
    requires a <= b
    ensures |a| <= |b|
  {
    assert b == a + (b - a);
  }

  /** The nodes of `more` not met yet, appended in order. */
  function Inserted(keys: seq<Node>, more: seq<Node>): (r: seq<Node>)
    ensures keys <= r && Elements(r) == Elements(keys) + Elements(more)
    ensures Distinct(keys) ==> Distinct(r)
    decreases more
  {
    if more == [] then keys
    else
      var head, rest := more[0], more[1..];
      assert more == [head] + rest;
      Inserted(if head in keys then keys else keys + [head], rest)
  }

  lemma InsertedOne(keys: seq<Node>, x: Node)
    ensures Inserted(keys, [x]) == if x in keys then keys else keys + [x]
  {
    assert [x][1..] == [];
  }

  lemma {:induction false} InsertedSnoc(keys: seq<Node>, more: seq<Node>, x: Node)
    ensures var r := Inserted(keys, more);
            Inserted(keys, more + [x]) == if x in r then r else r + [x]
    decreases more
  {
    if more == [] {
      assert ([] + [x])[1..] == [];
    } else {
      assert (more + [x])[1..] == more[1..] + [x];
      InsertedSnoc(if more[0] in keys then keys else keys + [more[0]], more[1..], x);
    }
  }

  /** New nodes are appended in the order in which they are first met. */
  lemma {:induction false} InsertedInOrder(keys: seq<Node>, more: seq<Node>)
    ensures keys <= Inserted(keys, more) && FollowsOrder(more, Inserted(keys, more)[|keys|..])
    decreases more
  {
    if more == [] {
      assert Inserted(keys, more)[|keys|..] == [];
    } else {
      hide FollowsOrder, Inserted;
      var init, last := more[..|more| - 1], more[|more| - 1];
      assert more == init + [last];
      InsertedInOrder(keys, init);
      InsertedSnoc(keys, init, last);
      var r := Inserted(keys, init);
      OrderSnoc(init, r[|keys|..], last);
      DropFromLonger(r, |keys|, last);
    }
  }

  lemma DropFromLonger(s: seq<Node>, k: nat, n: Node)
    requires k <= |s|
    ensures (s + [n])[k..] == s[k..] + [n]
  {
  }

  /** Offering the nodes without predecessors puts the books in order. */
  lemma StartsInStep(g: Graph, keys: seq<Node>, remaining: map<Node, int>, ready: seq<Node>)
    requires Known(g, keys, remaining) && Counted(g, remaining, {}) && Distinct(ready)
    requires forall n | n in ready :: n in g && g[n] == {}
    requires forall n | n in keys && n in g && g[n] == {} :: n in ready
    ensures InStep(g, remaining, ready, 0, 0, [], {})
  {
    hide Counted, Distinct, Closed;
    assert [] + ready == ready;
    forall n | n in g ensures n in ready <==> g[n] <= {} {
      assert n in Elements(keys);
    }
    forall i | 0 <= i < |ready| ensures ready[i] in g && g[ready[i]] <= Elements(ready[..i]) {
      var x := ready[i];
      assert x in ready;
    }
  }

  /** The counts and the ready list after the nodes have been reported done one after the other. */
  function AfterDone(g: Graph, keys: seq<Node>, remaining: map<Node, int>, ready: seq<Node>, nodes: seq<Node>)
    : (r: (map<Node, int>, seq<Node>))
    requires Elements(keys) <= g.Keys && g.Keys <= remaining.Keys
    ensures r.0.Keys == remaining.Keys
  {
    if nodes == [] then (remaining, ready)
    else
      var n := nodes[|nodes| - 1];
      var before := AfterDone(g, keys, remaining, ready, nodes[..|nodes| - 1]);
      (Decremented(g, before.0, n), before.1 + Opened(g, keys, before.0, n))
  }

  lemma AfterDoneSnoc(g: Graph, keys: seq<Node>, remaining: map<Node, int>, ready: seq<Node>, nodes: seq<Node>, n: Node)
    requires Elements(keys) <= g.Keys && g.Keys <= remaining.Keys
    ensures AfterDone(g, keys, remaining, ready, []) == (remaining, ready)
    ensures var r := AfterDone(g, keys, remaining, ready, nodes);
            AfterDone(g, keys, remaining, ready, nodes + [n]) == (Decremented(g, r.0, n), r.1 + Opened(g, keys, r.0, n))
    ensures Elements(nodes + [n]) == Elements(nodes) + {n} && Elements([]) == {}
  {
    assert (nodes + [n])[..|nodes|] == nodes;
  }

  /**
   A report adds behind the ready nodes those of its dependents that count no unfinished predecessor any more, in
   insertion order; what became ready earlier stays in front.
   */
  lemma ReadyInOrder(g: Graph, keys: seq<Node>, remaining: map<Node, int>, ready: seq<Node>, nodes: seq<Node>, n: Node)
    requires Elements(keys) <= g.Keys && g.Keys <= remaining.Keys
    ensures var r := AfterDone(g, keys, remaining, ready, nodes);
            var r' := AfterDone(g, keys, remaining, ready, nodes + [n]);
            && r.1 <= r'.1 && FollowsOrder(keys, r'.1[|r.1|..])
            && forall x :: x in r'.1[|r.1|..] <==> x in keys && n in g[x] && r'.0[x] == 0
  {
    AfterDoneSnoc(g, keys, remaining, ready, nodes, n);
    hide AfterDone, FollowsOrder, Opened;
    var r := AfterDone(g, keys, remaining, ready, nodes);
    OpenedInOrder(g, keys, r.0, n);
    assert (r.1 + Opened(g, keys, r.0, n))[|r.1|..] == Opened(g, keys, r.0, n);
    forall x | x in keys ensures x in Elements(keys) && x in r.0 {
      assert x in Elements(keys);
    }
  }

  /** The number of leading nodes that belong to the graph. */
  function KnownPrefix(g: Graph, nodes: seq<Node>): (k: nat)
    ensures k <= |nodes| && (forall i | 0 <= i < k :: nodes[i] in g) && (k < |nodes| ==> nodes[k] !in g)
  {
    if nodes == [] || nodes[0] !in g then 0 else 1 + KnownPrefix(g, nodes[1..])
  }

  /** Reporting distinct nodes that are handed out and unfinished keeps the books, in any order. */
  lemma {:induction false} DoneAllKeeps(g: Graph, keys: seq<Node>, remaining: map<Node, int>, ready: seq<Node>,
                                        passedOut: int, nfinished: int, history: seq<Node>, finished: set<Node>,
                                        nodes: seq<Node>)
    requires Known(g, keys, remaining)
    requires InStep(g, remaining, ready, passedOut, nfinished, history, finished)
    requires Distinct(nodes) && forall n | n in nodes :: n in history && n !in finished
    ensures var r := AfterDone(g, keys, remaining, ready, nodes);
            InStep(g, r.0, r.1, passedOut, nfinished + |nodes|, history, finished + Elements(nodes))
  {
    hide Offered, Counted, Decremented, Opened;
    if nodes == [] {
      assert finished + Elements(nodes) == finished;
    } else {
      var init, n := nodes[..|nodes| - 1], nodes[|nodes| - 1];
      assert nodes == init + [n];
      DoneAllKeeps(g, keys, remaining, ready, passedOut, nfinished, history, finished, init);
      var r := AfterDone(g, keys, remaining, ready, init);
      DoneKeeps(g, keys, r.0, r.1, passedOut, nfinished + |init|, history, finished + Elements(init), n);
      assert finished + Elements(nodes) == finished + Elements(init) + {n};
    }
  }

  lemma SomeReady(g: Graph, order: seq<Node>, remaining: map<Node, int>, ready: seq<Node>, passedOut: int,
                  nfinished: int,
                  history: seq<Node>, finished: set<Node>)
    requires Topological(g, order) && Elements(order) == g.Keys
    requires InStep(g, remaining, ready, passedOut, nfinished, history, finished)
    requires nfinished < |g| && Elements(history) == finished
    ensures ready != []
  {
    hide InStep, Topological;
    var n := AlwaysProgress(g, order, remaining, ready, passedOut, nfinished, history, finished);
    assert n in Elements(history) <==> n in history;
  }

  /** A batch that was just handed out is distinct, known, and disjoint from the earlier ones. */
  lemma BatchIsFresh(g: Graph, batch: seq<Node>, result: seq<Node>)
    requires Distinct(result + batch) && Topological(g, result + batch)
    ensures Distinct(batch) && forall n | n in batch :: n in g && n in result + batch && n !in Elements(result)
    ensures forall i | 0 <= i < |batch| :: batch[i] in g
  {
    var s := result + batch;
    forall i | 0 <= i < |batch| ensures batch[i] in g && batch[i] in s && batch[i] !in result {
      assert s[|result| + i] == batch[i];
      forall k | 0 <= k < |result| ensures result[k] != batch[i] {
        assert s[k] == result[k];
      }
    }
    forall i, j | 0 <= i < j < |batch| ensures batch[i] != batch[j] {
      assert s[|result| + i] == batch[i] && s[|result| + j] == batch[j];
    }
  }

  lemma HandedOut(g: Graph, remaining: map<Node, int>, passedOut: int, nfinished: int, history: seq<Node>,
                  finished: set<Node>)
    requires InStep(g, remaining, [], passedOut, nfinished, history, finished)
    ensures Distinct(history) && Topological(g, history)
  {
    assert history + [] == history;
  }

  lemma {:induction false} KnownAll(g: Graph, nodes: seq<Node>)
    requires forall i | 0 <= i < |nodes| :: nodes[i] in g
    ensures KnownPrefix(g, nodes) == |nodes|
  {
    assert KnownPrefix(g, nodes) >= |nodes|;
  }

  /** When every node is finished, what was handed out is a topological order of all nodes. */
  lemma RunComplete(g: Graph, remaining: map<Node, int>, ready: seq<Node>, passedOut: int, nfinished: int,
                    history: seq<Node>, finished: set<Node>)
    requires InStep(g, remaining, ready, passedOut, nfinished, history, finished)
    requires nfinished >= |g| && Elements(history) == finished
    ensures Topological(g, history) && Distinct(history) && Elements(history) == g.Keys
  {
    var s := history + ready;
    forall i | 0 <= i < |history| ensures history[i] in g && g[history[i]] <= Elements(history[..i]) {
      assert s[i] == history[i] && s[..i] == history[..i];
    }
    forall i, j | 0 <= i < j < |history| ensures history[i] != history[j] {
      assert s[i] == history[i] && s[j] == history[j];
    }
    FullSubset(finished, g.Keys);
  }

  lemma FullSubset<T>(a: set<T>, b: set<T>)
    requires a <= b && |a| >= |b|
    ensures a == b
  {
    assert b == a + (b - a);
  }

  lemma NewKey(g: Graph, keys: seq<Node>, node: Node)
    requires Distinct(keys) && Elements(keys) == g.Keys && node !in g
    ensures Distinct(keys + [node]) && Elements(keys + [node]) == g.Keys + {node} && node !in keys
  {
    assert node !in Elements(keys);
    DistinctAppend(keys, [node]);
  }

  lemma NewClosed(g: Graph, node: Node)
    requires Closed(g) && node !in g
    ensures Closed(g[node := {}])
  {
    assert g[node := {}].Keys == g.Keys + {node};
  }

  lemma NewCounted(g: Graph, remaining: map<Node, int>, node: Node)
    requires Counted(g, remaining, {}) && node !in g
    ensures Counted(g[node := {}], remaining[node := 0], {})
  {
    var g' := g[node := {}];
    assert g'.Keys == g.Keys + {node} && remaining[node := 0].Keys == g.Keys + {node};
    assert g'[node] - {} == {};
  }

  lemma NewNode(g: Graph, keys: seq<Node>, remaining: map<Node, int>, node: Node)
    requires Known(g, keys, remaining) && Counted(g, remaining, {}) && node !in g
    ensures Known(g[node := {}], keys + [node], remaining[node := 0])
            && Counted(g[node := {}], remaining[node := 0], {})
    ensures node !in keys
  {
    hide Distinct, Elements, Closed, Counted;
    NewKey(g, keys, node);
    NewClosed(g, node);
    NewCounted(g, remaining, node);
    assert g[node := {}].Keys == g.Keys + {node};
    assert remaining[node := 0].Keys == g.Keys + {node};
  }

  lemma NewPredecessor(g: Graph, keys: seq<Node>, remaining: map<Node, int>, node: Node, pred: Node)
    requires Known(g, keys, remaining) && Counted(g, remaining, {}) && node in g && pred in g && pred !in g[node]
    ensures var g' := g[node := g[node] + {pred}];
            var remaining' := remaining[node := remaining[node] + 1];
            Known(g', keys, remaining') && Counted(g', remaining', {})
  {
    hide Distinct;
    assert (g[node] + {pred}) - {} == g[node] + {pred} && g[node] - {} == g[node];
    assert g[node := g[node] + {pred}].Keys == g.Keys;
    assert remaining[node := remaining[node] + 1].Keys == remaining.Keys;
  }

  lemma KeysAreNodes(g: Graph, keys: seq<Node>, remaining: map<Node, int>, node: Node)
    requires Known(g, keys, remaining)
    ensures node in keys <==> node in g
    ensures node in remaining <==> node in g
    ensures Elements(keys) == g.Keys == remaining.Keys && Closed(g)
  {
    assert node in keys <==> node in Elements(keys);
  }

  lemma NextKey(g: Graph, keys: seq<Node>, remaining: map<Node, int>, i: nat)
    requires Known(g, keys, remaining) && i < |keys|
    ensures keys[i] in g && keys[i] in remaining && keys[i] !in keys[..i] && keys[..i + 1] == keys[..i] + [keys[i]]
    ensures Counted(g, remaining, {}) ==> (remaining[keys[i]] == 0 <==> g[keys[i]] == {})
    ensures Distinct([keys[i]]) && Distinct(keys[..i + 1])
  {
    var key := keys[i];
    assert key in Elements(keys);
    NoneMissing(g[key]);
  }

  lemma SourcesUpTo(g: Graph, keys: seq<Node>, remaining: map<Node, int>, i: nat, r: seq<Node>)
    requires Known(g, keys, remaining) && Counted(g, remaining, {}) && i < |keys| && AreSources(g, keys[..i], r)
    ensures keys[i] in remaining
    ensures AreSources(g, keys[..i + 1], if remaining[keys[i]] == 0 then r + [keys[i]] else r)
  {
    hide *;
    NextKey(g, keys, remaining, i);
    NextSource(g, keys[..i], r, keys[i]);
  }

  lemma NoneMissing(s: set<Node>)
    ensures |s - {}| == 0 <==> s == {}
  {
    assert s - {} == s;
  }

  lemma KnownKeys(g: Graph, keys: seq<Node>, remaining: map<Node, int>, remaining': map<Node, int>)
    requires Known(g, keys, remaining) && remaining'.Keys == remaining.Keys
    ensures Known(g, keys, remaining')
  {
  }

  /** The counts after the dependents among `ks` have been counted down one after the other. */
  function DecrementedOver(g: Graph, ks: seq<Node>, remaining: map<Node, int>, n: Node): (r: map<Node, int>)
    requires Elements(ks) <= g.Keys && g.Keys <= remaining.Keys
    ensures r.Keys == remaining.Keys
  {
    if ks == [] then remaining
    else
      var x := ks[|ks| - 1];
      assert Elements(ks[..|ks| - 1]) <= Elements(ks) && x in Elements(ks);
      var r := DecrementedOver(g, ks[..|ks| - 1], remaining, n);
      if n in g[x] then r[x := r[x] - 1] else r
  }

  lemma {:induction false} OverAt(g: Graph, ks: seq<Node>, remaining: map<Node, int>, n: Node, x: Node)
    requires Elements(ks) <= g.Keys && g.Keys <= remaining.Keys && Distinct(ks) && x in g
    ensures DecrementedOver(g, ks, remaining, n)[x] == if x in ks && n in g[x] then remaining[x] - 1 else remaining[x]
  {
    if ks != [] {
      var init, y := ks[..|ks| - 1], ks[|ks| - 1];
      assert ks == init + [y];
      assert Elements(init) <= Elements(ks);
      DistinctSplit(init, y);
      OverAt(g, init, remaining, n, x);
    }
  }

  /** One more key: its count is untouched so far. */
  lemma OverSnoc(g: Graph, ks: seq<Node>, remaining: map<Node, int>, n: Node, x: Node)
    requires Elements(ks) <= g.Keys && g.Keys <= remaining.Keys && Distinct(ks + [x]) && x in g
    ensures Elements(ks + [x]) <= g.Keys
    ensures var r := DecrementedOver(g, ks, remaining, n);
            r[x] == remaining[x]
            && DecrementedOver(g, ks + [x], remaining, n) == if n in g[x] then r[x := r[x] - 1] else r
    ensures var o := Opened(g, ks, remaining, n);
            Opened(g, ks + [x], remaining, n) == if n in g[x] && remaining[x] == 1 then o + [x] else o
  {
    DistinctSplit(ks, x);
    OverAt(g, ks, remaining, n, x);
    assert (ks + [x])[..|ks|] == ks;
  }

  lemma OverNext(g: Graph, keys: seq<Node>, remaining: map<Node, int>, n: Node, i: nat)
    requires Known(g, keys, remaining) && i < |keys|
    ensures keys[i] in g && Elements(keys[..i]) <= g.Keys == remaining.Keys && Elements(keys[..i + 1]) <= g.Keys
    ensures var r, x := DecrementedOver(g, keys[..i], remaining, n), keys[i];
            x in r && r[x] == remaining[x]
            && DecrementedOver(g, keys[..i + 1], remaining, n) == if n in g[x] then r[x := r[x] - 1] else r
    ensures var o := Opened(g, keys[..i], remaining, n);
            Opened(g, keys[..i + 1], remaining, n)
            == if n in g[keys[i]] && remaining[keys[i]] == 1 then o + [keys[i]] else o
  {
    hide DecrementedOver, Opened, Distinct;
    NextKey(g, keys, remaining, i);
    assert Elements(keys[..i]) <= Elements(keys);
    OverSnoc(g, keys[..i], remaining, n, keys[i]);
  }

  lemma OverIsDecremented(g: Graph, keys: seq<Node>, remaining: map<Node, int>, n: Node)
    requires Known(g, keys, remaining)
    ensures DecrementedOver(g, keys, remaining, n) == Decremented(g, remaining, n)
  {
    hide DecrementedOver, Distinct, Closed;
    forall x | x in remaining
      ensures DecrementedOver(g, keys, remaining, n)[x] == Decremented(g, remaining, n)[x]
    {
      OverAt(g, keys, remaining, n, x);
      assert x in Elements(keys);
    }
  }

  lemma NothingDone(g: Graph, remaining: map<Node, int>, n: Node)
    requires g.Keys <= remaining.Keys
    ensures Elements([]) == {} && DecrementedOver(g, [], remaining, n) == remaining && Opened(g, [], remaining, n) == []
  {
  }

  function Touched(g: Graph, n: Node): (r: Graph) {
    if n in g then g else g[n := {}]
  }

  /** The graph after `node` was added with the predecessors `ps`. */
  function Extended(g: Graph, node: Node, ps: seq<Node>): (r: Graph)
    ensures node in r
  {
    if ps == [] then Touched(g, node)
    else
      var p := ps[|ps| - 1];
      var r := Touched(Extended(g, node, ps[..|ps| - 1]), p);
      r[node := r[node] + {p}]
  }

  lemma {:induction false} ExtendedMeaning(g: Graph, node: Node, ps: seq<Node>)
    ensures Extended(g, node, ps).Keys == g.Keys + {node} + Elements(ps)
    ensures forall n | n in Extended(g, node, ps) ::
      Extended(g, node, ps)[n] == (if n in g then g[n] else {}) + (if n == node then Elements(ps) else {})
  {
    if ps != [] {
      var init, p := ps[..|ps| - 1], ps[|ps| - 1];
      assert ps == init + [p];
      ExtendedMeaning(g, node, init);
      assert Elements(ps) == Elements(init) + {p};
    }
  }

  lemma ExtendedSnoc(g: Graph, node: Node, ps: seq<Node>, p: Node)
    ensures Extended(g, node, []) == Touched(g, node)
    ensures var r := Touched(Extended(g, node, ps), p);
            Extended(g, node, ps + [p]) == r[node := r[node] + {p}]
  {
    assert (ps + [p])[..|ps|] == ps;
  }

  class TopologicalSorter {
    var keys: seq<Node>
    var preds: Graph
    var remaining: map<Node, int>
    var ready: seq<Node>
    var npassedout: int
    var nfinished: int
    var prepared: bool
    ghost var history: seq<Node>
    ghost var finished: set<Node>

    ghost predicate Valid()
      reads this
    {
      && Known(preds, keys, remaining)
      && (!prepared ==> Counted(preds, remaining, {}) && ready == [] && npassedout == 0 && nfinished == 0
                        && history == [] && finished == {})
    }

    /** The books of the sorter are in order. */
    ghost predicate Sound()
      reads this
    {
      Valid() && prepared && !HasCycle(preds)
      && InStep(preds, remaining, ready, npassedout, nfinished, history, finished)
    }

    constructor ()
      ensures Valid() && keys == [] && !prepared
    {
      keys, preds, remaining, ready := [], map[], map[], [];
      npassedout, nfinished, prepared := 0, 0, false;
      history, finished := [], {};
    }

    /** Adds a node with direct predecessors; a predecessor already recorded is not counted again. */
    method Add(node: Node, predecessors: seq<Node>) returns (status: Status)
      requires Valid()
      modifies this
      ensures Valid() && prepared == old(prepared)
      ensures status == (if prepared then ValueError else Ok)
      ensures prepared ==> unchanged(this)
      ensures !prepared ==> keys == Inserted(old(keys), [node] + predecessors)
      ensures !prepared ==> preds == Extended(old(preds), node, predecessors)
    {
      hide Known, Counted, Inserted, Extended, Touched;
      if prepared {
        return ValueError;
      }
      InsertedOne(keys, node);
      ExtendedSnoc(preds, node, [], node);
      AddNode(node);
      var i := 0;
      assert [node] + predecessors[..0] == [node];
      while i < |predecessors|
        invariant 0 <= i <= |predecessors|
        invariant Valid() && !prepared && node in preds
        invariant keys == Inserted(old(keys), [node] + predecessors[..i])
        invariant preds == Extended(old(preds), node, predecessors[..i])
      {
        var pred := predecessors[i];
        assert predecessors[..i + 1] == predecessors[..i] + [pred];
        assert [node] + predecessors[..i + 1] == ([node] + predecessors[..i]) + [pred];
        InsertedSnoc(old(keys), [node] + predecessors[..i], pred);
        ExtendedSnoc(old(preds), node, predecessors[..i], pred);
        AddNode(pred);
        AddPredecessor(node, pred);
        i := i + 1;
      }
      assert predecessors[..i] == predecessors;
      status := Ok;
    }

    /** Makes an entry for a node not met before. */
    method AddNode(node: Node)
      requires Valid() && !prepared
      modifies `keys, `preds, `remaining
      ensures Valid() && keys == (if node in old(keys) then old(keys) else old(keys) + [node])
      ensures preds == Touched(old(preds), node) && node in preds && forall n | n in old(preds) :: n in preds
    {
      hide Known, Counted;
      KeysAreNodes(preds, keys, remaining, node);
      if node !in preds {
        NewNode(preds, keys, remaining, node);
        keys, preds, remaining := keys + [node], preds[node := {}], remaining[node := 0];
      }
    }

    method AddPredecessor(node: Node, pred: Node)
      requires Valid() && !prepared && node in preds && pred in preds
      modifies `preds, `remaining
      ensures Valid() && preds == old(preds)[node := old(preds)[node] + {pred}]
    {
      hide Known, Counted;
      KeysAreNodes(preds, keys, remaining, node);
      if pred !in preds[node] {
        NewPredecessor(preds, keys, remaining, node, pred);
        remaining := remaining[node := remaining[node] + 1];
        preds := preds[node := preds[node] + {pred}];
      } else {
        assert preds[node] + {pred} == preds[node];
        assert preds == preds[node := preds[node] + {pred}];
      }
    }

    /** Raises CycleError exactly when the graph has a cycle, and otherwise offers the nodes without predecessors. */
    method Prepare() returns (status: Status, ghost order: seq<Node>)
      requires Valid()
      modifies this
      ensures old(prepared) ==> status == ValueError && unchanged(this)
      ensures !old(prepared) ==> status == if HasCycle(preds) then CycleError else Ok
      ensures status == CycleError ==> unchanged(this)
      ensures status == Ok ==> Sound() && keys == old(keys) && preds == old(preds) && history == [] && finished == {}
      ensures status == Ok ==> AreSources(preds, keys, ready)
      ensures status == Ok ==> Topological(preds, order) && Elements(order) == preds.Keys
    {
      hide InStep, Counted, Distinct, Topological, HasCycle, Closed, Known, FollowsOrder;
      if prepared {
        return ValueError, [];
      }
      KeysAreNodes(preds, keys, remaining, 0);
      var cyclic;
      cyclic, order := DetectCycle(preds, keys);
      if cyclic {
        return CycleError, [];
      }
      prepared := true;
      OfferSources();
      StartsInStep(preds, keys, remaining, ready);
      status := Ok;
    }

    /** Offers the nodes that count no predecessor, in insertion order. */
    method OfferSources()
      requires Known(preds, keys, remaining) && Counted(preds, remaining, {})
      modifies `ready
      ensures AreSources(preds, keys, ready)
    {
      ready := [];
      assert AreSources(preds, keys[..0], ready);
      hide *;
      var i := 0;
      while i < |keys|
        invariant 0 <= i <= |keys| && AreSources(preds, keys[..i], ready)
      {
        var n := keys[i];
        SourcesUpTo(preds, keys, remaining, i, ready);
        if remaining[n] == 0 {
          ready := ready + [n];
        }
        i := i + 1;
      }
      assert keys[..i] == keys;
    }

    method IsActive() returns (status: Status, active: bool)
      requires Valid()
      ensures status == (if prepared then Ok else ValueError)
      ensures status == Ok ==> active == (nfinished < |preds|)
    {
      if !prepared {
        return ValueError, false;
      }
      return Ok, nfinished < |preds|;
    }

    /** Hands out the ready nodes, in the order in which they became ready. */
    method GetReady() returns (status: Status, result: seq<Node>)
      requires Valid()
      modifies `ready, `npassedout, `history
      ensures Valid() && status == (if prepared then Ok else ValueError)
      ensures status == ValueError ==> result == [] && unchanged(this)
      ensures status == Ok ==> result == old(ready) && ready == [] && npassedout == old(npassedout) + |result|
      ensures status == Ok ==> history == old(history) + result
      ensures old(Sound()) ==> Sound()
    {
      hide InStep, Counted, Known, HasCycle;
      if !prepared {
        return ValueError, [];
      }
      if Sound() {
        GetReadyKeeps(preds, remaining, ready, npassedout, nfinished, history, finished);
      }
      result := ready;
      npassedout := npassedout + |result|;
      ready := [];
      history := history + result;
      status := Ok;
    }

    /**
     Reports nodes done, up to the first one that was never added. Each report counts, whether or not the node
     was handed out; the books stay in order when the reported nodes are distinct, handed out and unfinished.
     */
    method Done(nodes: seq<Node>) returns (status: Status)
      requires Valid()
      modifies `remaining, `ready, `nfinished, `finished
      ensures Valid() && (!prepared ==> status == ValueError && unchanged(this))
      ensures prepared ==> status == if forall i | 0 <= i < |nodes| :: nodes[i] in preds then Ok else ValueError
      ensures prepared ==>
        var k := KnownPrefix(preds, nodes);
        && (remaining, ready) == AfterDone(preds, keys, old(remaining), old(ready), nodes[..k])
        && nfinished == old(nfinished) + k && finished == old(finished) + Elements(nodes[..k])
        && (old(Sound()) && Distinct(nodes[..k]) && (forall n | n in nodes[..k] :: n in history && n !in old(finished))
            ==> Sound())
    {
      hide InStep, Counted, HasCycle, Known, Distinct, AfterDone, KnownPrefix, Elements;
      KeysAreNodes(preds, keys, remaining, 0);
      if !prepared {
        return ValueError;
      }
      ghost var k := KnownPrefix(preds, nodes);
      if Sound() && Distinct(nodes[..k]) && forall n | n in nodes[..k] :: n in history && n !in finished {
        DoneAllKeeps(preds, keys, remaining, ready, npassedout, nfinished, history, finished, nodes[..k]);
      }
      status := Report(nodes);
    }

    /** The outer loop of `done`. */
    method Report(nodes: seq<Node>) returns (status: Status)
      requires Valid() && prepared
      modifies `remaining, `ready, `nfinished, `finished
      ensures Valid() && status == if forall i | 0 <= i < |nodes| :: nodes[i] in preds then Ok else ValueError
      ensures Elements(keys) <= preds.Keys <= old(remaining).Keys
      ensures var k := KnownPrefix(preds, nodes);
        && (remaining, ready) == AfterDone(preds, keys, old(remaining), old(ready), nodes[..k])
        && nfinished == old(nfinished) + k && finished == old(finished) + Elements(nodes[..k])
    {
      hide Counted, Known, Distinct, Decremented, Opened, AfterDone, KnownPrefix, Elements;
      KeysAreNodes(preds, keys, remaining, 0);
      ghost var k := KnownPrefix(preds, nodes);
      AfterDoneSnoc(preds, keys, remaining, ready, [], 0);
      var i := 0;
      while i < |nodes|
        invariant 0 <= i <= k && Valid()
        invariant (remaining, ready) == AfterDone(preds, keys, old(remaining), old(ready), nodes[..i])
        invariant nfinished == old(nfinished) + i && finished == old(finished) + Elements(nodes[..i])
      {
        if nodes[i] !in preds {
          return ValueError;
        }
        assert nodes[..i + 1] == nodes[..i] + [nodes[i]];
        AfterDoneSnoc(preds, keys, old(remaining), old(ready), nodes[..i], nodes[i]);
        FinishNode(nodes[i]);
        nfinished := nfinished + 1;
        finished := finished + {nodes[i]};
        i := i + 1;
      }
      assert nodes[..i] == nodes;
      status := Ok;
    }

    /** The inner loop of `done`: one count less for every dependent, which is ready when its count reaches zero. */
    method FinishNode(n: Node)
      requires Valid() && prepared
      modifies `remaining, `ready
      ensures Valid() && remaining == Decremented(preds, old(remaining), n)
      ensures ready == old(ready) + Opened(preds, keys, old(remaining), n)
    {
      hide Known, Counted, Distinct, Decremented, DecrementedOver, Opened, Elements;
      KeysAreNodes(preds, keys, remaining, 0);
      NothingDone(preds, remaining, n);
      var i := 0;
      while i < |keys|
        invariant 0 <= i <= |keys| && Elements(keys[..i]) <= preds.Keys
        invariant remaining == DecrementedOver(preds, keys[..i], old(remaining), n)
        invariant ready == old(ready) + Opened(preds, keys[..i], old(remaining), n)
      {
        OverNext(preds, keys, old(remaining), n, i);
        CountDown(keys[i], n);
        i := i + 1;
      }
      assert keys[..i] == keys;
      OverIsDecremented(preds, keys, old(remaining), n);
      KnownKeys(preds, keys, old(remaining), remaining);
    }

    method CountDown(other: Node, n: Node)
      requires other in preds && other in remaining
      modifies `remaining, `ready
      ensures remaining
              == if n in preds[other] then old(remaining)[other := old(remaining)[other] - 1] else old(remaining)
      ensures ready == if n in preds[other] && old(remaining)[other] == 1 then old(ready) + [other] else old(ready)
    {
      if n in preds[other] {
        remaining := remaining[other := remaining[other] - 1];
        if remaining[other] == 0 {
          ready := ready + [other];
        }
      }
    }

    /** A topological order of all nodes, or CycleError exactly when there is none. */
    method StaticOrder() returns (status: Status, result: seq<Node>)
      requires Valid()
      modifies this
      ensures old(prepared) ==> status == ValueError
      ensures !old(prepared) ==> status == if HasCycle(old(preds)) then CycleError else Ok
      ensures status == Ok
              ==> Topological(old(preds), result) && Distinct(result) && Elements(result) == old(preds).Keys
      ensures status != Ok ==> unchanged(this)
    {
      hide InStep, Known, Counted, Distinct, Topological, HasCycle, AfterDone, KnownPrefix;
      ghost var order;
      status, order := Prepare();
      result := [];
      if status != Ok {
        return;
      }
      var st, active := IsActive();
      while active
        invariant Sound() && preds == old(preds) && result == history && Elements(history) == finished
        invariant active == (nfinished < |preds|)
        decreases |preds| - nfinished
      {
        SomeReady(preds, order, remaining, ready, npassedout, nfinished, history, finished);
        var batch;
        st, batch := GetReady();
        HandedOut(preds, remaining, npassedout, nfinished, history, finished);
        BatchIsFresh(preds, batch, result);
        result := result + batch;
        KnownAll(preds, batch);
        st := Done(batch);
        assert batch[..|batch|] == batch;
        st, active := IsActive();
      }
      RunComplete(preds, remaining, ready, npassedout, nfinished, history, finished);
    }
  }
}

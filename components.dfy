/**
 * The component tree that a declarative design is parsed into, and the walk of
 * `addValueChangeListeners` that subscribes the editor to its nodes.
 *
 * A node is a plain value: a tag, its attributes, the two capabilities the walk
 * dispatches on (being a value-change notifier, having child components) and its
 * ordered children. A live component's identity is a `Handle`: which parsed tree
 * it belongs to and the path of child indices that leads to it from that tree's root.
 */
module Components {
  import opened Wrappers

  /** Child indices from a tree's root to one of its nodes. */
  type Path = seq<nat>

  /** The bytes a design is written to. */
  type Bytes = seq<bv8>

  datatype Node = Node(
    tag: string,
    attributes: map<string, string>,
    notifier: bool,    // the component is a ValueChangeNotifier
    container: bool,   // the component is a HasComponents
    children: seq<Node>)

  /** What `Design.read` returns: the root component (null for an empty design) and the
      context the library keeps beside it, here its package-prefix declarations. */
  datatype DesignContext = DesignContext(root: Option<Node>, prefixes: map<string, string>)

  /** The identity of one live component: tree number `tree`, reached by `path`. */
  datatype Handle = Handle(tree: nat, path: Path)

  /** The node reached from `c` by `p`, descending only through components that
      have child components, as the walk does. */
  function NodeAt(c: Node, p: Path): Option<Node>
    decreases |p|
  {
    if p == [] then Some(c)
    else if c.container && p[0] < |c.children| then NodeAt(c.children[p[0]], p[1..])
    else None
  }

  /** The walk must subscribe to the node at `p`: it is reachable and is a notifier. */
  predicate Subscribes(c: Node, p: Path)
  {
    NodeAt(c, p).Some? && NodeAt(c, p).value.notifier
  }

  /** The listeners the walk started at `c` (itself at `at` in tree `tree`) registers. */
  function Subscriptions(c: Node, tree: nat, at: Path): multiset<Handle>
    decreases c, 1
  {
    (if c.notifier then multiset{Handle(tree, at)} else multiset{})
    + (if c.container then ChildSubscriptions(c, tree, at, |c.children|) else multiset{})
  }

  /** The listeners registered by the walk's loop over the first `k` children of `c`. */
  function ChildSubscriptions(c: Node, tree: nat, at: Path, k: nat): multiset<Handle>
    requires k <= |c.children|
    decreases c, 0, k
  {
    if k == 0 then multiset{}
    else ChildSubscriptions(c, tree, at, k - 1) + Subscriptions(c.children[k - 1], tree, at + [k - 1])
  }

  /** Every listener the walk registers belongs to tree `tree` and to a node at or below `at`. */
  lemma {:induction false} SubscriptionsSupport(c: Node, tree: nat, at: Path, h: Handle)
    requires h in Subscriptions(c, tree, at)
    ensures h.tree == tree && |at| <= |h.path| && h.path[..|at|] == at
    decreases c, 1
  {
    if h in ChildSubscriptions(c, tree, at, if c.container then |c.children| else 0) {
      ChildSubscriptionsSupport(c, tree, at, |c.children|, h);
    }
  }

  /** The loop over the first `k` children registers listeners only below `at + [j]`, `j < k`. */
  lemma {:induction false} ChildSubscriptionsSupport(c: Node, tree: nat, at: Path, k: nat, h: Handle)
    requires k <= |c.children|
    requires h in ChildSubscriptions(c, tree, at, k)
    ensures h.tree == tree && |at| < |h.path| && h.path[..|at|] == at && h.path[|at|] < k
    decreases c, 0, k
  {
    if k == 0 {
      assert false;
    } else if h in ChildSubscriptions(c, tree, at, k - 1) {
      ChildSubscriptionsSupport(c, tree, at, k - 1, h);
    } else {
      SubscriptionsSupport(c.children[k - 1], tree, at + [k - 1], h);
      assert h.path[..|at|] == h.path[..|at| + 1][..|at|];
      assert h.path[|at|] == h.path[..|at| + 1][|at|];
    }
  }

  /** Below `at`, the loop's count for a node under child `p[0]` is that child's walk's count. */
  lemma {:induction false} ChildSubscriptionsCount(c: Node, tree: nat, at: Path, k: nat, p: Path)
    requires k <= |c.children| && p != [] && p[0] < k
    ensures ChildSubscriptions(c, tree, at, k)[Handle(tree, at + p)]
         == Subscriptions(c.children[p[0]], tree, at + [p[0]])[Handle(tree, at + p)]
    decreases k
  {
    var h := Handle(tree, at + p);
    if p[0] == k - 1 {
      if h in ChildSubscriptions(c, tree, at, k - 1) {
        ChildSubscriptionsSupport(c, tree, at, k - 1, h);
      }
    } else {
      ChildSubscriptionsCount(c, tree, at, k - 1, p);
      if h in Subscriptions(c.children[k - 1], tree, at + [k - 1]) {
        SubscriptionsSupport(c.children[k - 1], tree, at + [k - 1], h);
        PrefixAt(h.path, at + [k - 1], |at|);
      }
    }
  }

  /** An element inside a prefix is the prefix's element. */
  lemma PrefixAt(s: Path, t: Path, i: nat)
    requires i < |t| <= |s| && s[..|t|] == t
    ensures s[i] == t[i]
  {
    assert s[i] == s[..|t|][i];
  }

  /** The walk started at `c` registers a listener on `c` itself exactly when `c` is a notifier. */
  lemma SubscriptionsAtStart(c: Node, tree: nat, at: Path)
    ensures Subscriptions(c, tree, at)[Handle(tree, at)] == if c.notifier then 1 else 0
  {
    var h := Handle(tree, at);
    if c.container && h in ChildSubscriptions(c, tree, at, |c.children|) {
      ChildSubscriptionsSupport(c, tree, at, |c.children|, h);
    }
  }

  /** Below its start, the walk registers on the node at `at + p` what the walk of child `p[0]`
      registers there, provided `c` has children and `p[0]` is one of them, and nothing otherwise. */
  lemma SubscriptionsBelow(c: Node, tree: nat, at: Path, p: Path)
    requires p != []
    ensures Subscriptions(c, tree, at)[Handle(tree, at + p)]
         == if c.container && p[0] < |c.children|
            then Subscriptions(c.children[p[0]], tree, at + [p[0]])[Handle(tree, at + p)]
            else 0
  {
    var h := Handle(tree, at + p);
    var n := |c.children|;
    assert h != Handle(tree, at) by { assert |h.path| > |at|; }
    if c.container && p[0] < n {
      ChildSubscriptionsCount(c, tree, at, n, p);
    } else if c.container && h in ChildSubscriptions(c, tree, at, n) {
      ChildSubscriptionsSupport(c, tree, at, n, h);
    }
  }

  /** The walk started at `c` registers one listener on the node at `at + p` if that node is
      a reachable notifier, and none otherwise. */
  lemma {:induction false} SubscriptionsCount(c: Node, tree: nat, at: Path, p: Path)
    ensures Subscriptions(c, tree, at)[Handle(tree, at + p)] == if Subscribes(c, p) then 1 else 0
    decreases c
  {
    if p == [] {
      assert at + p == at;
      SubscriptionsAtStart(c, tree, at);
    } else {
      SubscriptionsBelow(c, tree, at, p);
      if c.container && p[0] < |c.children| {
        assert at + p == (at + [p[0]]) + p[1..];
        SubscriptionsCount(c.children[p[0]], tree, at + [p[0]], p[1..]);
      }
    }
  }

  /** The walk from a root registers exactly one listener on every notifier reachable through
      components with children, whether or not those containers are notifiers themselves,
      and no listener on any other node or on any node of another tree. */
  lemma SubscriptionsExact(root: Node, tree: nat, h: Handle)
    ensures Subscriptions(root, tree, [])[h] == if h.tree == tree && Subscribes(root, h.path) then 1 else 0
  {
    if h.tree == tree {
      assert [] + h.path == h.path;
      SubscriptionsCount(root, tree, [], h.path);
    } else if h in Subscriptions(root, tree, []) {
      SubscriptionsSupport(root, tree, [], h);
    }
  }
}

/**
 * The memtable's nodes (memtable.h: MNode) and a ghost mirror of the tree they
 * form. A `GTree` names, for every position of the binary search tree, the heap
 * node that sits there together with the key and data that node holds; the
 * memtable keeps its heap in agreement with one such mirror. Every structural
 * fact (search order, the abstract key/value map, what an insert or a delete
 * does to the shape) is a fact about the mirror, proved here on values.
 */
module Tree {
  import opened Common

  /** A node of the memtable's binary search tree (memtable.h: struct memtable_node). */
  class MNode {
    var key: int
    var data: string
    var left: MNode?
    var right: MNode?

    /** create_node: a fresh leaf holding a copy of `data`. */
    constructor (key: int, data: string)
      ensures this.key == key && this.data == data
      ensures left == null && right == null
    {
      this.key := key;
      this.data := data;
      left := null;
      right := null;
    }
  }

  datatype GTree = Leaf | Node(left: GTree, ref: MNode, key: int, data: string, right: GTree)

  /** What one heap node must hold: its key, its data and its two child pointers. */
  datatype View = View(node: MNode, key: int, data: string, left: MNode?, right: MNode?)

  function Root(t: GTree): MNode?
  {
    if t.Leaf? then null else t.ref
  }

  function NodesOf(t: GTree): set<MNode>
  {
    if t.Leaf? then {} else NodesOf(t.left) + NodesOf(t.right) + {t.ref}
  }

  function Views(t: GTree): set<View>
  {
    if t.Leaf? then {}
    else Views(t.left) + Views(t.right) + {View(t.ref, t.key, t.data, Root(t.left), Root(t.right))}
  }

  function Size(t: GTree): nat
  {
    if t.Leaf? then 0 else Size(t.left) + Size(t.right) + 1
  }

  function Keys(t: GTree): set<int>
  {
    if t.Leaf? then {} else Keys(t.left) + Keys(t.right) + {t.key}
  }

  /** The key/value map the tree holds. */
  function MapOf(t: GTree): map<int, string>
  {
    if t.Leaf? then map[] else MapOf(t.left) + MapOf(t.right) + map[t.key := t.data]
  }

  /** Binary-search-tree order: left keys below the node's key, right keys above it. */
  predicate Ordered(t: GTree)
  {
    t.Node? ==>
      && Ordered(t.left) && Ordered(t.right)
      && (forall k :: k in Keys(t.left) ==> k < t.key)
      && (forall k :: k in Keys(t.right) ==> t.key < k)
  }

  /** No heap node occurs at two positions: the child links form a tree. */
  predicate Distinct(t: GTree)
  {
    t.Node? ==>
      && Distinct(t.left) && Distinct(t.right)
      && NodesOf(t.left) !! NodesOf(t.right)
      && t.ref !in NodesOf(t.left) && t.ref !in NodesOf(t.right)
  }

  /** The heap agrees with the mirror: every node holds what its view says. */
  ghost predicate Agree(t: GTree)
    reads NodesOf(t)
  {
    ViewsInNodes(t);
    forall v | v in Views(t) ::
      v.node.key == v.key && v.node.data == v.data && v.node.left == v.left && v.node.right == v.right
  }

  /** The records of the tree in left-node-right order. */
  function InOrder(t: GTree): seq<Record>
  {
    if t.Leaf? then [] else InOrder(t.left) + [Record(t.key, t.data)] + InOrder(t.right)
  }

  lemma {:induction false} ViewsInNodes(t: GTree)
    ensures forall v :: v in Views(t) ==> v.node in NodesOf(t)
  {
    if t.Node? {
      ViewsInNodes(t.left);
      ViewsInNodes(t.right);
    }
  }

  /** The nodes a tree names exist in the current heap. */
  lemma {:induction false} NodesAllocated(t: GTree)
    ensures forall o :: o in NodesOf(t) ==> allocated(o)
  {
    if t.Node? {
      NodesAllocated(t.left);
      NodesAllocated(t.right);
    }
  }

  lemma {:induction false} MapOfKeys(t: GTree)
    ensures MapOf(t).Keys == Keys(t)
  {
    if t.Node? {
      MapOfKeys(t.left);
      MapOfKeys(t.right);
    }
  }

  lemma AgreeNode(t: GTree)
    requires t.Node?
    ensures Agree(t) <==>
      && Agree(t.left) && Agree(t.right)
      && t.ref.key == t.key && t.ref.data == t.data
      && t.ref.left == Root(t.left) && t.ref.right == Root(t.right)
  {
    ViewsInNodes(t);
    ViewsInNodes(t.left);
    ViewsInNodes(t.right);
    assert View(t.ref, t.key, t.data, Root(t.left), Root(t.right)) in Views(t);
  }

  /** Below a node whose key differs, a key is found on one side only. */
  lemma ChildLookup(t: GTree, key: int)
    requires t.Node? && Ordered(t) && key != t.key
    ensures key in Keys(t) <==> key in Keys(Child(t, t.key < key))
    ensures key in Keys(t) ==>
      (key in MapOf(t) && key in MapOf(Child(t, t.key < key)) && MapOf(t)[key] == MapOf(Child(t, t.key < key))[key])
  {
    MapOfKeys(t.left);
    MapOfKeys(t.right);
    if key < t.key {
      if key in Keys(t.left) {
        LookupUnder(MapOf(t.left), MapOf(t.right), map[t.key := t.data], key);
      }
    } else {
      if key in Keys(t.right) {
        LookupUnder(MapOf(t.right), MapOf(t.left), map[t.key := t.data], key);
      }
    }
  }

  /** The binary search on the mirror: the subtree whose top holds `key`, or a leaf. */
  function Find(t: GTree, key: int): GTree
  {
    if t.Leaf? then Leaf
    else if key == t.key then t
    else if key < t.key then Find(t.left, key)
    else Find(t.right, key)
  }

  /** On an ordered tree the search finds exactly the present keys, with their data. */
  lemma {:induction false} FindCorrect(t: GTree, key: int)
    requires Ordered(t)
    ensures Find(t, key).Node? <==> key in MapOf(t)
    ensures Find(t, key).Node? ==> Find(t, key).key == key && MapOf(t)[key] == Find(t, key).data
  {
    MapOfKeys(t);
    if t.Node? && key != t.key {
      ChildLookup(t, key);
      FindCorrect(Child(t, t.key < key), key);
      MapOfKeys(Child(t, t.key < key));
    }
  }

  /** The node the search finds is one of the tree's, holding what its view says. */
  lemma {:induction false} FindAgrees(t: GTree, key: int)
    requires Agree(t)
    ensures Find(t, key).Node? ==> Find(t, key).ref in NodesOf(t)
    ensures Find(t, key).Node? ==>
      Find(t, key).ref.key == Find(t, key).key && Find(t, key).ref.data == Find(t, key).data
  {
    if t.Node? {
      AgreeNode(t);
      if key != t.key {
        FindAgrees(Child(t, key > t.key), key);
      }
    }
  }

  // ---------------------------------------------------------------------------
  // Positions in the tree, named by the sequence of turns (true = right) from the root

  function Child(t: GTree, right: bool): GTree
    requires t.Node?
  {
    if right then t.right else t.left
  }

  predicate ValidPath(t: GTree, p: seq<bool>)
    decreases p
  {
    p == [] || (t.Node? && ValidPath(Child(t, p[0]), p[1..]))
  }

  function SubtreeAt(t: GTree, p: seq<bool>): GTree
    requires ValidPath(t, p)
    decreases p
  {
    if p == [] then t else SubtreeAt(Child(t, p[0]), p[1..])
  }

  /** The tree with the subtree at `p` replaced by `s`. */
  function ReplaceAt(t: GTree, p: seq<bool>, s: GTree): GTree
    requires ValidPath(t, p)
    decreases p
  {
    if p == [] then s
    else if p[0] then Node(t.left, t.ref, t.key, t.data, ReplaceAt(t.right, p[1..], s))
    else Node(ReplaceAt(t.left, p[1..], s), t.ref, t.key, t.data, t.right)
  }

  /** The same node with one child subtree replaced. */
  function WithChild(t: GTree, right: bool, s: GTree): GTree
    requires t.Node?
  {
    if right then Node(t.left, t.ref, t.key, t.data, s) else Node(s, t.ref, t.key, t.data, t.right)
  }

  /** The same node holding another key and datum. */
  function Relabel(t: GTree, key: int, data: string): GTree
    requires t.Node?
  {
    Node(t.left, t.ref, key, data, t.right)
  }

  lemma {:induction false} PathSnoc(t: GTree, p: seq<bool>, d: bool)
    requires ValidPath(t, p) && SubtreeAt(t, p).Node?
    ensures ValidPath(t, p + [d]) && SubtreeAt(t, p + [d]) == Child(SubtreeAt(t, p), d)
    decreases p
  {
    if p != [] {
      PathSnoc(Child(t, p[0]), p[1..], d);
      assert (p + [d])[1..] == p[1..] + [d];
    }
  }

  lemma {:induction false} ReplaceSnoc(t: GTree, p: seq<bool>, d: bool, s: GTree)
    requires ValidPath(t, p) && SubtreeAt(t, p).Node?
    ensures ValidPath(t, p + [d])
    ensures ReplaceAt(t, p + [d], s) == ReplaceAt(t, p, WithChild(SubtreeAt(t, p), d, s))
    decreases p
  {
    PathSnoc(t, p, d);
    if p != [] {
      ReplaceSnoc(Child(t, p[0]), p[1..], d, s);
      assert (p + [d])[1..] == p[1..] + [d];
    }
  }

  lemma {:induction false} PathAppend(t: GTree, p: seq<bool>, q: seq<bool>)
    requires ValidPath(t, p) && ValidPath(SubtreeAt(t, p), q)
    ensures ValidPath(t, p + q) && SubtreeAt(t, p + q) == SubtreeAt(SubtreeAt(t, p), q)
    decreases p
  {
    if p == [] {
      assert p + q == q;
    } else {
      PathAppend(Child(t, p[0]), p[1..], q);
      assert (p + q)[1..] == p[1..] + q;
    }
  }

  lemma {:induction false} ReplaceAppend(t: GTree, p: seq<bool>, q: seq<bool>, s: GTree)
    requires ValidPath(t, p) && ValidPath(SubtreeAt(t, p), q)
    ensures ValidPath(t, p + q)
    ensures ReplaceAt(t, p + q, s) == ReplaceAt(t, p, ReplaceAt(SubtreeAt(t, p), q, s))
    decreases p
  {
    PathAppend(t, p, q);
    if p == [] {
      assert p + q == q;
    } else {
      ReplaceAppend(Child(t, p[0]), p[1..], q, s);
      assert (p + q)[1..] == p[1..] + q;
    }
  }

  /** Replacing at a position leaves the way there intact. */
  lemma {:induction false} ReplacePath(t: GTree, p: seq<bool>, s: GTree, q: seq<bool>)
    requires ValidPath(t, p) && ValidPath(s, q)
    ensures ValidPath(ReplaceAt(t, p, s), p + q)
    ensures SubtreeAt(ReplaceAt(t, p, s), p + q) == SubtreeAt(s, q)
    decreases p
  {
    if p == [] {
      assert p + q == q;
    } else {
      ReplacePath(Child(t, p[0]), p[1..], s, q);
      assert (p + q)[1..] == p[1..] + q;
    }
  }

  lemma {:induction false} ReplaceRoot(t: GTree, p: seq<bool>, s: GTree)
    requires ValidPath(t, p) && p != []
    ensures Root(ReplaceAt(t, p, s)) == Root(t)
  {
  }

  lemma {:induction false} SubtreeWithin(t: GTree, p: seq<bool>)
    requires ValidPath(t, p)
    ensures Views(SubtreeAt(t, p)) <= Views(t)
    ensures NodesOf(SubtreeAt(t, p)) <= NodesOf(t)
    ensures Keys(SubtreeAt(t, p)) <= Keys(t)
    ensures Distinct(t) ==> Distinct(SubtreeAt(t, p))
    ensures Ordered(t) ==> Ordered(SubtreeAt(t, p))
    decreases p
  {
    if p != [] {
      SubtreeWithin(Child(t, p[0]), p[1..]);
    }
  }

  /**
   * The views of a tree after a replacement that keeps the replaced position's
   * root node: those of the new subtree, and old views of nodes outside the
   * replaced subtree.
   */
  lemma {:induction false} ReplaceViews(t: GTree, p: seq<bool>, s: GTree)
    requires Distinct(t) && ValidPath(t, p)
    requires p == [] || Root(s) == Root(SubtreeAt(t, p))
    ensures forall v :: v in Views(ReplaceAt(t, p, s)) ==>
      v in Views(s) || (v in Views(t) && v.node !in NodesOf(SubtreeAt(t, p)))
    decreases p
  {
    if p != [] {
      var c := Child(t, p[0]);
      ReplaceViews(c, p[1..], s);
      SubtreeWithin(c, p[1..]);
      ViewsInNodes(t.left);
      ViewsInNodes(t.right);
      if p[1..] != [] {
        ReplaceRoot(c, p[1..], s);
      }
    }
  }

  /** Replacing a subtree by one built from its own nodes keeps the nodes distinct. */
  lemma {:induction false} ReplaceDistinct(t: GTree, p: seq<bool>, s: GTree)
    requires Distinct(t) && ValidPath(t, p)
    requires Distinct(s) && NodesOf(s) <= NodesOf(SubtreeAt(t, p))
    ensures Distinct(ReplaceAt(t, p, s))
    ensures NodesOf(ReplaceAt(t, p, s)) <= NodesOf(t)
    decreases p
  {
    if p != [] {
      var c := Child(t, p[0]);
      ReplaceDistinct(c, p[1..], s);
      SubtreeWithin(c, p[1..]);
    }
  }

  /** The heap node at position `p` holds what the mirror says. */
  lemma AgreeAt(t: GTree, p: seq<bool>)
    requires Agree(t) && ValidPath(t, p) && SubtreeAt(t, p).Node?
    ensures SubtreeAt(t, p).ref.key == SubtreeAt(t, p).key
    ensures SubtreeAt(t, p).ref.data == SubtreeAt(t, p).data
    ensures SubtreeAt(t, p).ref.left == Root(SubtreeAt(t, p).left)
    ensures SubtreeAt(t, p).ref.right == Root(SubtreeAt(t, p).right)
  {
    var s := SubtreeAt(t, p);
    SubtreeWithin(t, p);
    assert View(s.ref, s.key, s.data, Root(s.left), Root(s.right)) in Views(s);
  }

  /** A replacement inside an earlier replacement is a replacement inside the new subtree. */
  lemma {:induction false} ReplaceTwice(t: GTree, p: seq<bool>, s: GTree, q: seq<bool>, x: GTree)
    requires ValidPath(t, p) && ValidPath(s, q)
    ensures ValidPath(ReplaceAt(t, p, s), p + q)
    ensures ReplaceAt(ReplaceAt(t, p, s), p + q, x) == ReplaceAt(t, p, ReplaceAt(s, q, x))
    decreases p
  {
    ReplacePath(t, p, s, q);
    if p == [] {
      assert p + q == q;
    } else {
      ReplaceTwice(Child(t, p[0]), p[1..], s, q, x);
      assert (p + q)[1..] == p[1..] + q;
    }
  }

  /**
   * The heap agrees with the mirror at every node other than `n`. It does not
   * read `n`, so a write to `n` alone leaves it true.
   */
  ghost predicate AgreeExcept(t: GTree, n: MNode)
    reads NodesOf(t) - {n}
  {
    ViewsInNodes(t);
    forall v | v in Views(t) && v.node != n ::
      v.node.key == v.key && v.node.data == v.data && v.node.left == v.left && v.node.right == v.right
  }

  /**
   * After writes to the single node `n`, the heap agrees with a mirror whose
   * views are views of other nodes that still agree, or the one view `nv`
   * that `n` now holds.
   */
  lemma WriteKeepsAgree(t: GTree, t': GTree, n: MNode, nv: View)
    requires AgreeExcept(t, n)
    requires forall v :: v in Views(t') ==> (v in Views(t) && v.node != n) || v == nv
    requires nv.node == n && n.key == nv.key && n.data == nv.data && n.left == nv.left && n.right == nv.right
    ensures Agree(t')
  {
    ViewsInNodes(t');
  }

  /** The parent's view once its child pointer on side `right` points at `c`. */
  function ParentView(pt: GTree, right: bool, c: MNode?): View
    requires pt.Node?
  {
    if right then View(pt.ref, pt.key, pt.data, Root(pt.left), c)
    else View(pt.ref, pt.key, pt.data, c, Root(pt.right))
  }

  /**
   * Splicing: the subtree at a non-root position is replaced by one of its own
   * subtrees. Afterwards every view is an old view of a node other than the
   * parent, or the parent's view with its new child pointer.
   */
  lemma SpliceViews(t: GTree, q: seq<bool>, d: bool, s: GTree)
    requires Distinct(t) && ValidPath(t, q) && SubtreeAt(t, q).Node?
    requires Views(s) <= Views(Child(SubtreeAt(t, q), d))
    ensures ValidPath(t, q + [d])
    ensures ReplaceAt(t, q + [d], s) == ReplaceAt(t, q, WithChild(SubtreeAt(t, q), d, s))
    ensures forall v :: v in Views(ReplaceAt(t, q + [d], s)) ==>
      (v in Views(t) && v.node != SubtreeAt(t, q).ref) || v == ParentView(SubtreeAt(t, q), d, Root(s))
  {
    var pt := SubtreeAt(t, q);
    ReplaceSnoc(t, q, d, s);
    SubtreeWithin(t, q);
    ReplaceViews(t, q, WithChild(pt, d, s));
    WithChildViews(pt, d, s);
    assert pt.ref in NodesOf(pt);
  }

  lemma WithChildViews(pt: GTree, d: bool, s: GTree)
    requires pt.Node? && Distinct(pt) && Views(s) <= Views(Child(pt, d))
    ensures forall v :: v in Views(WithChild(pt, d, s)) ==>
      (v in Views(pt) && v.node != pt.ref) || v == ParentView(pt, d, Root(s))
  {
    ViewsInNodes(pt.left);
    ViewsInNodes(pt.right);
  }

  /**
   * Writing the key and datum of the node at `p`: afterwards every view is an
   * old view of another node, or that node's view with the new key and datum.
   */
  lemma RelabelViews(t: GTree, p: seq<bool>, key: int, data: string)
    requires Distinct(t) && ValidPath(t, p) && SubtreeAt(t, p).Node?
    ensures forall v :: v in Views(ReplaceAt(t, p, Relabel(SubtreeAt(t, p), key, data))) ==>
      (v in Views(t) && v.node != SubtreeAt(t, p).ref) ||
      v == View(SubtreeAt(t, p).ref, key, data, Root(SubtreeAt(t, p).left), Root(SubtreeAt(t, p).right))
    ensures Distinct(ReplaceAt(t, p, Relabel(SubtreeAt(t, p), key, data)))
    ensures NodesOf(ReplaceAt(t, p, Relabel(SubtreeAt(t, p), key, data))) <= NodesOf(t)
  {
    var st := SubtreeAt(t, p);
    SubtreeWithin(t, p);
    ReplaceViews(t, p, Relabel(st, key, data));
    ReplaceDistinct(t, p, Relabel(st, key, data));
    ViewsInNodes(st.left);
    ViewsInNodes(st.right);
  }

  // ---------------------------------------------------------------------------
  // The search path that memtable.c's delete walks with its parent pointer

  /** `p` leads from the root towards `key`, past nodes whose key differs from it. */
  predicate OnSearchPath(t: GTree, p: seq<bool>, key: int)
    decreases p
  {
    p == [] || (t.Node? && t.key != key && p[0] == (t.key < key) && OnSearchPath(Child(t, p[0]), p[1..], key))
  }

  lemma {:induction false} SearchPathValid(t: GTree, p: seq<bool>, key: int)
    requires OnSearchPath(t, p, key)
    ensures ValidPath(t, p)
    decreases p
  {
    if p != [] {
      SearchPathValid(Child(t, p[0]), p[1..], key);
    }
  }

  lemma {:induction false} SearchStep(t: GTree, p: seq<bool>, key: int)
    requires OnSearchPath(t, p, key)
    requires ValidPath(t, p) && SubtreeAt(t, p).Node? && SubtreeAt(t, p).key != key
    ensures OnSearchPath(t, p + [SubtreeAt(t, p).key < key], key)
    decreases p
  {
    if p != [] {
      SearchStep(Child(t, p[0]), p[1..], key);
      assert (p + [SubtreeAt(t, p).key < key])[1..] == p[1..] + [SubtreeAt(t, p).key < key];
    }
  }

  /** A search that runs off the tree proves the key absent. */
  lemma {:induction false} SearchMiss(t: GTree, p: seq<bool>, key: int)
    requires Ordered(t) && OnSearchPath(t, p, key) && ValidPath(t, p) && SubtreeAt(t, p).Leaf?
    ensures key !in Keys(t)
    decreases p
  {
    if p != [] {
      SearchMiss(Child(t, p[0]), p[1..], key);
    }
  }

  // ---------------------------------------------------------------------------
  // The binary-search-tree operations of memtable.c, on the mirror

  /** do_insert: replace the datum of an equal key, else hang `n` as a new leaf. */
  function InsertG(t: GTree, n: MNode, key: int, data: string): GTree
  {
    if t.Leaf? then Node(Leaf, n, key, data, Leaf)
    else if key == t.key then Node(t.left, t.ref, t.key, data, t.right)
    else if key < t.key then Node(InsertG(t.left, n, key, data), t.ref, t.key, t.data, t.right)
    else Node(t.left, t.ref, t.key, t.data, InsertG(t.right, n, key, data))
  }

  /** Overwrite the datum of the node holding `key` (the soft delete). */
  function UpdateG(t: GTree, key: int, data: string): GTree
  {
    if t.Leaf? then Leaf
    else if key == t.key then Node(t.left, t.ref, t.key, data, t.right)
    else if key < t.key then Node(UpdateG(t.left, key, data), t.ref, t.key, t.data, t.right)
    else Node(t.left, t.ref, t.key, t.data, UpdateG(t.right, key, data))
  }

  predicate TwoChildren(t: GTree)
  {
    t.Node? && t.left.Node? && t.right.Node?
  }

  /** The leftmost position of a non-empty tree: its smallest key. */
  function Leftmost(t: GTree): (m: GTree)
    requires t.Node?
    ensures m.Node? && m.left.Leaf?
  {
    if t.left.Leaf? then t else Leftmost(t.left)
  }

  /** The tree with its leftmost node spliced out (replaced by its right subtree). */
  function RemoveMin(t: GTree): GTree
    requires t.Node?
  {
    if t.left.Leaf? then t.right else Node(RemoveMin(t.left), t.ref, t.key, t.data, t.right)
  }

  /**
   * do_hard_delete on the node at the top of `t`: no child, one child, or two
   * children, in which case the node takes the key and datum of its in-order
   * successor and the successor's position is spliced out.
   */
  function DeleteRoot(t: GTree): GTree
    requires t.Node?
  {
    if t.left.Leaf? && t.right.Leaf? then Leaf
    else if t.right.Leaf? then t.left
    else if t.left.Leaf? then t.right
    else Node(t.left, t.ref, Leftmost(t.right).key, Leftmost(t.right).data, RemoveMin(t.right))
  }

  /** The hard delete as intended: remove the node holding `key`, if any. */
  function HardDeleteG(t: GTree, key: int): GTree
  {
    if t.Leaf? then Leaf
    else if key == t.key then DeleteRoot(t)
    else if key < t.key then Node(HardDeleteG(t.left, key), t.ref, t.key, t.data, t.right)
    else Node(t.left, t.ref, t.key, t.data, HardDeleteG(t.right, key))
  }

  /**
   * The hard delete as memtable.c performs it: when the key sits at the root and
   * the root has two children, delete sees no new root and a NULL parent and
   * sets the root to NULL, dropping the whole table.
   */
  function HardDeleteAsWritten(t: GTree, key: int): GTree
  {
    if t.Node? && t.key == key && TwoChildren(t) then Leaf else HardDeleteG(t, key)
  }

  // ---------------------------------------------------------------------------
  // What the operations do to the key/value map, the order and the node set

  // Small facts about the map a node denotes, kept apart so that each proof
  // above sees only the map identity it needs.

  lemma UpdateUnder(a: map<int, string>, b: map<int, string>, top: map<int, string>, key: int, data: string)
    requires key !in b && key !in top
    ensures a[key := data] + b + top == (a + b + top)[key := data]
    ensures b + a[key := data] + top == (b + a + top)[key := data]
  {
  }

  lemma TopReplace(a: map<int, string>, b: map<int, string>, key: int, old_data: string, data: string)
    ensures (a + b + map[key := old_data])[key := data] == a + b + map[key := data]
  {
  }

  lemma RemoveUnder(a: map<int, string>, b: map<int, string>, top: map<int, string>, key: int)
    requires key !in b && key !in top
    ensures (a - {key}) + b + top == (a + b + top) - {key}
    ensures b + (a - {key}) + top == (b + a + top) - {key}
  {
  }

  lemma LookupUnder(a: map<int, string>, b: map<int, string>, top: map<int, string>, key: int)
    requires key in a && key !in b && key !in top
    ensures (a + b + top)[key] == a[key]
    ensures (b + a + top)[key] == a[key]
  {
  }

  lemma RemoveTop(a: map<int, string>, b: map<int, string>, key: int, data: string)
    requires key !in a && key !in b
    ensures (a + b + map[key := data]) - {key} == a + b
  {
  }

  /** Moving the successor's binding to the top, in place of the deleted key. */
  lemma SuccessorUp(l: map<int, string>, r: map<int, string>, key: int, data: string, mk: int)
    requires key !in l && key !in r && mk in r && mk !in l
    ensures l + (r - {mk}) + map[mk := r[mk]] == (l + r + map[key := data]) - {key}
  {
  }

  lemma {:induction false} InsertGKeys(t: GTree, n: MNode, key: int, data: string)
    requires Ordered(t)
    ensures Ordered(InsertG(t, n, key, data))
    ensures Keys(InsertG(t, n, key, data)) == Keys(t) + {key}
    ensures Size(InsertG(t, n, key, data)) == Size(t) + (if key in Keys(t) then 0 else 1)
  {
    if t.Node? {
      if key < t.key {
        InsertGKeys(t.left, n, key, data);
      } else if key > t.key {
        InsertGKeys(t.right, n, key, data);
      }
    }
  }

  /** do_insert binds `key` to `data` and leaves every other binding alone. */
  lemma {:induction false} InsertGMap(t: GTree, n: MNode, key: int, data: string)
    requires Ordered(t)
    ensures MapOf(InsertG(t, n, key, data)) == MapOf(t)[key := data]
  {
    if t.Leaf? {
      assert MapOf(InsertG(t, n, key, data)) == map[] + map[] + map[key := data];
    } else if key == t.key {
      TopReplace(MapOf(t.left), MapOf(t.right), key, t.data, data);
    } else {
      var l, r, top := MapOf(t.left), MapOf(t.right), map[t.key := t.data];
      if key < t.key {
        InsertGMap(t.left, n, key, data);
        MapOfKeys(t.right);
        assert key !in r;
        UpdateUnder(l, r, top, key, data);
      } else {
        InsertGMap(t.right, n, key, data);
        MapOfKeys(t.left);
        assert key !in l;
        UpdateUnder(r, l, top, key, data);
      }
    }
  }

  lemma {:induction false} InsertGNodes(t: GTree, n: MNode, key: int, data: string)
    requires Distinct(t) && n !in NodesOf(t)
    ensures Distinct(InsertG(t, n, key, data))
    ensures NodesOf(InsertG(t, n, key, data)) <= NodesOf(t) + {n}
    ensures t.Node? ==> Root(InsertG(t, n, key, data)) == Root(t)
  {
    if t.Node? {
      if key < t.key {
        InsertGNodes(t.left, n, key, data);
      } else if key > t.key {
        InsertGNodes(t.right, n, key, data);
      }
    }
  }

  lemma {:induction false} UpdateGKeys(t: GTree, key: int, data: string)
    requires Ordered(t)
    ensures Ordered(UpdateG(t, key, data)) && Keys(UpdateG(t, key, data)) == Keys(t)
  {
    if t.Node? {
      if key < t.key {
        UpdateGKeys(t.left, key, data);
      } else if key > t.key {
        UpdateGKeys(t.right, key, data);
      }
    }
  }

  /** The soft delete rebinds a present key and changes nothing else. */
  lemma {:induction false} UpdateGMap(t: GTree, key: int, data: string)
    requires Ordered(t) && key in Keys(t)
    ensures MapOf(UpdateG(t, key, data)) == MapOf(t)[key := data]
  {
    var l, r, top := MapOf(t.left), MapOf(t.right), map[t.key := t.data];
    if key == t.key {
      TopReplace(l, r, key, t.data, data);
    } else if key < t.key {
      UpdateGMap(t.left, key, data);
      MapOfKeys(t.right);
      assert key !in r;
      UpdateUnder(l, r, top, key, data);
    } else if key > t.key {
      UpdateGMap(t.right, key, data);
      MapOfKeys(t.left);
      assert key !in l;
      UpdateUnder(r, l, top, key, data);
    }
  }

  lemma {:induction false} UpdateGSize(t: GTree, key: int, data: string)
    ensures Size(UpdateG(t, key, data)) == Size(t)
  {
    if t.Node? {
      UpdateGSize(t.left, key, data);
      UpdateGSize(t.right, key, data);
    }
  }

  lemma {:induction false} UpdateGDistinct(t: GTree, key: int, data: string)
    requires Distinct(t)
    ensures Distinct(UpdateG(t, key, data)) && NodesOf(UpdateG(t, key, data)) == NodesOf(t)
  {
    if t.Node? {
      UpdateGDistinct(t.left, key, data);
      UpdateGDistinct(t.right, key, data);
    }
  }

  lemma {:induction false} LeftmostIsMin(t: GTree)
    requires t.Node? && Ordered(t)
    ensures Leftmost(t).key in Keys(t)
    ensures forall k :: k in Keys(t) ==> Leftmost(t).key <= k
  {
    if t.left.Node? {
      LeftmostIsMin(t.left);
    }
  }

  lemma {:induction false} LeftmostBinding(t: GTree)
    requires t.Node? && Ordered(t)
    ensures Leftmost(t).key in MapOf(t) && MapOf(t)[Leftmost(t).key] == Leftmost(t).data
  {
    MapOfKeys(t.left);
    MapOfKeys(t.right);
    if t.left.Node? {
      LeftmostIsMin(t.left);
      LeftmostBinding(t.left);
      LookupUnder(MapOf(t.left), MapOf(t.right), map[t.key := t.data], Leftmost(t).key);
    }
  }

  lemma {:induction false} RemoveMinKeys(t: GTree)
    requires t.Node? && Ordered(t)
    ensures Ordered(RemoveMin(t))
    ensures Keys(RemoveMin(t)) == Keys(t) - {Leftmost(t).key}
  {
    if t.left.Node? {
      RemoveMinKeys(t.left);
      LeftmostIsMin(t.left);
    }
  }

  lemma {:induction false} RemoveMinMap(t: GTree)
    requires t.Node? && Ordered(t)
    ensures MapOf(RemoveMin(t)) == MapOf(t) - {Leftmost(t).key}
  {
    MapOfKeys(t.left);
    MapOfKeys(t.right);
    if t.left.Node? {
      RemoveMinMap(t.left);
      LeftmostIsMin(t.left);
      RemoveUnder(MapOf(t.left), MapOf(t.right), map[t.key := t.data], Leftmost(t).key);
    } else {
      RemoveTop(map[], MapOf(t.right), t.key, t.data);
    }
  }

  lemma {:induction false} RemoveMinNodes(t: GTree)
    requires t.Node? && Distinct(t)
    ensures Distinct(RemoveMin(t)) && NodesOf(RemoveMin(t)) <= NodesOf(t)
  {
    if t.left.Node? {
      RemoveMinNodes(t.left);
    }
  }

  lemma {:induction false} DeleteRootKeys(t: GTree)
    requires t.Node? && Ordered(t)
    ensures Ordered(DeleteRoot(t))
    ensures Keys(DeleteRoot(t)) == Keys(t) - {t.key}
  {
    if TwoChildren(t) {
      LeftmostIsMin(t.right);
      RemoveMinKeys(t.right);
    }
  }

  /** Removing the node at the top unbinds its key and nothing else, in every case. */
  lemma {:induction false} DeleteRootMap(t: GTree)
    requires t.Node? && Ordered(t)
    ensures MapOf(DeleteRoot(t)) == MapOf(t) - {t.key}
  {
    var l, r := MapOf(t.left), MapOf(t.right);
    MapOfKeys(t.left);
    MapOfKeys(t.right);
    RemoveTop(l, r, t.key, t.data);
    if TwoChildren(t) {
      var mk := Leftmost(t.right).key;
      LeftmostIsMin(t.right);
      LeftmostBinding(t.right);
      RemoveMinMap(t.right);
      SuccessorUp(l, r, t.key, t.data, mk);
    } else if t.right.Leaf? {
      assert l + r == l;
    }
  }

  lemma {:induction false} DeleteRootNodes(t: GTree)
    requires t.Node? && Distinct(t)
    ensures Distinct(DeleteRoot(t)) && NodesOf(DeleteRoot(t)) <= NodesOf(t)
  {
    if TwoChildren(t) {
      RemoveMinNodes(t.right);
    }
  }

  lemma {:induction false} HardDeleteGKeys(t: GTree, key: int)
    requires Ordered(t)
    ensures Ordered(HardDeleteG(t, key))
    ensures Keys(HardDeleteG(t, key)) == Keys(t) - {key}
  {
    if t.Node? {
      if key == t.key {
        DeleteRootKeys(t);
      } else if key < t.key {
        HardDeleteGKeys(t.left, key);
      } else {
        HardDeleteGKeys(t.right, key);
      }
    }
  }

  /** The intended hard delete unbinds exactly `key`. */
  lemma {:induction false} HardDeleteGMap(t: GTree, key: int)
    requires Ordered(t)
    ensures MapOf(HardDeleteG(t, key)) == MapOf(t) - {key}
  {
    if t.Node? {
      var l, r, top := MapOf(t.left), MapOf(t.right), map[t.key := t.data];
      MapOfKeys(t.left);
      MapOfKeys(t.right);
      if key == t.key {
        DeleteRootMap(t);
      } else if key < t.key {
        HardDeleteGMap(t.left, key);
        RemoveUnder(l, r, top, key);
      } else {
        HardDeleteGMap(t.right, key);
        RemoveUnder(r, l, top, key);
      }
    } else {
      assert MapOf(t) - {key} == map[];
    }
  }

  lemma {:induction false} HardDeleteGNodes(t: GTree, key: int)
    requires Distinct(t)
    ensures Distinct(HardDeleteG(t, key)) && NodesOf(HardDeleteG(t, key)) <= NodesOf(t)
  {
    if t.Node? {
      if key == t.key {
        DeleteRootNodes(t);
      } else if key < t.key {
        HardDeleteGNodes(t.left, key);
      } else {
        HardDeleteGNodes(t.right, key);
      }
    }
  }

  /**
   * As written, hard-deleting a root that has two children empties the table:
   * a root 2 with children 1 and 3 loses all three keys instead of one.
   */
  lemma HardDeleteAsWrittenDropsTable(a: MNode, b: MNode, c: MNode, t: GTree)
    requires t == Node(Node(Leaf, a, 1, "x", Leaf), b, 2, "y", Node(Leaf, c, 3, "z", Leaf))
    ensures Ordered(t)
    ensures MapOf(HardDeleteAsWritten(t, 2)) == map[]
    ensures MapOf(HardDeleteG(t, 2)) == map[1 := "x", 3 := "z"]
  {
    var one := Node(Leaf, a, 1, "x", Leaf);
    assert Keys(t.right) == {3};
    assert HardDeleteG(t, 2) == Node(one, b, 3, "z", Leaf);
    assert MapOf(one) == map[1 := "x"];
    assert MapOf(HardDeleteG(t, 2)) == map[1 := "x"] + map[] + map[3 := "z"];
  }

  // ---------------------------------------------------------------------------
  // The positional form of the operations, as the loops of memtable.c reach them

  /** On the search path to a present key, the BST operations act at that position. */
  lemma {:induction false} SearchHit(t: GTree, p: seq<bool>, key: int, data: string)
    requires OnSearchPath(t, p, key) && ValidPath(t, p)
    requires SubtreeAt(t, p).Node? && SubtreeAt(t, p).key == key
    ensures HardDeleteG(t, key) == ReplaceAt(t, p, DeleteRoot(SubtreeAt(t, p)))
    ensures UpdateG(t, key, data) == ReplaceAt(t, p, Relabel(SubtreeAt(t, p), key, data))
    decreases p
  {
    if p != [] {
      SearchHit(Child(t, p[0]), p[1..], key, data);
    }
  }

  /** Walking left from a node: the subtree at the end of the walk. */
  function LeftSpine(n: nat): seq<bool>
  {
    seq(n, i => false)
  }

  lemma {:induction false} LeftSpineStep(t: GTree, n: nat)
    requires ValidPath(t, LeftSpine(n)) && SubtreeAt(t, LeftSpine(n)).Node?
    ensures LeftSpine(n + 1) == LeftSpine(n) + [false]
    ensures ValidPath(t, LeftSpine(n + 1))
    ensures SubtreeAt(t, LeftSpine(n + 1)) == SubtreeAt(t, LeftSpine(n)).left
  {
    assert LeftSpine(n + 1) == LeftSpine(n) + [false];
    PathSnoc(t, LeftSpine(n), false);
  }

  lemma LeftSpineSnoc(n: nat)
    ensures LeftSpine(n + 1) == LeftSpine(n) + [false]
  {
  }

  /** A path that starts by going right, read from the right child. */
  lemma SubtreeRight(s: GTree, q: seq<bool>, x: GTree)
    requires s.Node? && ValidPath(s.right, q)
    ensures ValidPath(s, [true] + q) && SubtreeAt(s, [true] + q) == SubtreeAt(s.right, q)
    ensures ReplaceAt(s, [true] + q, x) == Node(s.left, s.ref, s.key, s.data, ReplaceAt(s.right, q, x))
  {
    assert ([true] + q)[1..] == q;
  }

  /** Going left keeps the leftmost node in view. */
  lemma {:induction false} LeftSpineLeftmost(t: GTree, n: nat)
    requires t.Node? && ValidPath(t, LeftSpine(n)) && SubtreeAt(t, LeftSpine(n)).Node?
    ensures Leftmost(t) == Leftmost(SubtreeAt(t, LeftSpine(n)))
    decreases n
  {
    if n > 0 {
      assert LeftSpine(n)[1..] == LeftSpine(n - 1);
      LeftSpineLeftmost(t.left, n - 1);
    }
  }

  /** Splicing out the end of the left spine, when it has no left child, removes the minimum. */
  lemma {:induction false} LeftSpineRemoveMin(t: GTree, n: nat)
    requires t.Node? && ValidPath(t, LeftSpine(n))
    requires SubtreeAt(t, LeftSpine(n)).Node? && SubtreeAt(t, LeftSpine(n)).left.Leaf?
    ensures ReplaceAt(t, LeftSpine(n), SubtreeAt(t, LeftSpine(n)).right) == RemoveMin(t)
    decreases n
  {
    if n > 0 {
      assert LeftSpine(n)[1..] == LeftSpine(n - 1);
      LeftSpineRemoveMin(t.left, n - 1);
    }
  }

  // ---------------------------------------------------------------------------
  // The in-order sequence (what a flush writes)

  /** A flush writes the tree's records in strictly ascending key order, one per node. */
  lemma {:induction false} InOrderKeys(t: GTree)
    requires Ordered(t)
    ensures |InOrder(t)| == Size(t)
    ensures StrictlyAscending(InOrder(t))
    ensures KeySet(InOrder(t)) == Keys(t)
  {
    if t.Node? {
      InOrderKeys(t.left);
      InOrderKeys(t.right);
      var l, r := InOrder(t.left), InOrder(t.right);
      assert InOrder(t) == l + [Record(t.key, t.data)] + r;
      AscendingAround(l, Record(t.key, t.data), r);
    }
  }

  lemma AscendingAround(l: seq<Record>, m: Record, r: seq<Record>)
    requires StrictlyAscending(l) && StrictlyAscending(r)
    requires forall k :: k in KeySet(l) ==> k < m.key
    requires forall k :: k in KeySet(r) ==> m.key < k
    ensures StrictlyAscending(l + [m] + r)
    ensures KeySet(l + [m] + r) == KeySet(l) + {m.key} + KeySet(r)
  {
    var s := l + [m] + r;
    forall i, j | 0 <= i < j < |s| ensures s[i].key < s[j].key {
      if i < |l| {
        assert s[i] in l;
        assert s[i].key in KeySet(l);
      }
      if j > |l| {
        assert s[j] == r[j - |l| - 1];
        assert s[j] in r;
        assert s[j].key in KeySet(r);
      }
      if i > |l| {
        assert s[i] == r[i - |l| - 1];
      }
    }
  }

  /** The records a flush writes denote exactly the tree's key/value map. */
  lemma {:induction false} InOrderMap(t: GTree)
    requires Ordered(t)
    ensures AsMap(InOrder(t)) == MapOf(t)
  {
    if t.Node? {
      InOrderMap(t.left);
      InOrderMap(t.right);
      var l, r := InOrder(t.left), InOrder(t.right);
      var mid := [Record(t.key, t.data)];
      assert InOrder(t) == (l + mid) + r;
      AsMapAppend(l + mid, r);
      AsMapAppend(l, mid);
      assert AsMap(mid) == map[t.key := t.data] by {
        assert mid[..0] == [];
      }
      MapOfKeys(t.right);
      SwapTop(MapOf(t.left), MapOf(t.right), t.key, t.data);
    }
  }

  lemma SwapTop(a: map<int, string>, b: map<int, string>, key: int, data: string)
    requires key !in b
    ensures a + map[key := data] + b == a + b + map[key := data]
  {
  }
}

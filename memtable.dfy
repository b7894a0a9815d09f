/**
 * The in-memory table of the store (memtable.c): an unbalanced binary search
 * tree of heap nodes, updated in place. The object keeps a ghost mirror `T` of
 * the tree its nodes form; every method proves that the heap still agrees
 * with the mirror and states its effect on the abstract key/value map
 * `Contents()`.
 */
module Memtable {
  import opened Common
  import opened Tree

  /** The search hits the root of `t` at `key` (the case memtable.c's delete mishandles). */
  predicate RootWithTwoChildren(t: GTree, key: int)
  {
    t.Node? && t.key == key && TwoChildren(t)
  }

  class Memtable {
    var root: MNode?
    var countKeys: int
    ghost var T: GTree
    ghost var Repr: set<MNode>

    ghost predicate Valid()
      reads this, Repr
    {
      && Repr == NodesOf(T)
      && root == Root(T)
      && Distinct(T)
      && Ordered(T)
      && Agree(T)
    }

    /** The key/value map the table holds. */
    ghost function Contents(): map<int, string>
      reads this
    {
      MapOf(T)
    }

    /** init_memtable: an empty table with no keys counted. */
    constructor ()
      ensures Valid() && fresh(Repr)
      ensures root == null && countKeys == 0 && Contents() == map[]
    {
      root := null;
      countKeys := 0;
      T := Leaf;
      Repr := {};
    }

    /**
     * insert: bind `key` to `data`. A present key keeps its node and gets the
     * new datum; an absent key gets exactly one new leaf. The key count is the
     * caller's business and does not change.
     */
    method Insert(key: int, data: string)
      requires Valid()
      modifies this, Repr
      ensures Valid() && fresh(Repr - old(Repr))
      ensures Contents() == old(Contents())[key := data]
      ensures Size(T) == old(Size(T)) + (if key in old(Contents()) then 0 else 1)
      ensures countKeys == old(countKeys)
    {
      var n := new MNode(key, data);
      ghost var t := T;
      ghost var t' := InsertG(t, n, key, data);
      MapOfKeys(t);
      InsertGKeys(t, n, key, data);
      InsertGMap(t, n, key, data);
      InsertGNodes(t, n, key, data);
      if root == null {
        root := n;
        AgreeNode(t');
      } else {
        ghost var _ := DoInsert(root, n, t);
      }
      T := t';
      Repr := NodesOf(t');
    }

    /** search: the node holding `key`, or null; the table must not be empty. */
    function Search(key: int): (r: MNode?)
      reads this, Repr
      requires Valid() && root != null
      ensures r != null <==> key in Contents()
      ensures r != null ==> r in Repr && r.key == key && r.data == Contents()[key]
    {
      FindCorrect(T, key);
      FindAgrees(T, key);
      DoSearch(root, key, T)
    }

    /**
     * delete: walk down from the root to `key`, remembering the parent and the
     * side taken. An absent key is bound to the deletion marker and counted; a
     * present key is either overwritten with the marker (soft delete) or removed
     * (hard delete). A hard delete of a root that has two children leaves the
     * table empty, because the successor splice reports no new root and the
     * walk saw no parent.
     */
    method Delete(key: int, hardDelete: bool)
      requires Valid()
      modifies this, Repr
      ensures Valid() && fresh(Repr - old(Repr))
      ensures key !in old(Contents()) ==>
        Contents() == old(Contents())[key := DEL_MARKER] && Size(T) == old(Size(T)) + 1 && countKeys == old(countKeys) + 1
      ensures key in old(Contents()) && !hardDelete ==>
        Contents() == old(Contents())[key := DEL_MARKER] && Size(T) == old(Size(T)) && countKeys == old(countKeys)
      ensures key in old(Contents()) && hardDelete ==>
        T == HardDeleteAsWritten(old(T), key) && countKeys == old(countKeys)
      ensures key in old(Contents()) && hardDelete ==>
        Contents() == if RootWithTwoChildren(old(T), key) then map[] else old(Contents()) - {key}
    {
      MapOfKeys(T);
      var parent, trav, isRightChild, p, q := FindForDelete(key);
      if trav == null {
        Insert(key, DEL_MARKER);
        countKeys := countKeys + 1;
      } else if hardDelete {
        HardDeleteFound(key, trav, parent, isRightChild, p, q);
        HardDeleteGMap(old(T), key);
      } else {
        SoftDeleteFound(key, trav, p);
        UpdateGMap(old(T), key, DEL_MARKER);
        UpdateGSize(old(T), key, DEL_MARKER);
      }
    }

    /**
     * The walk of delete: follow the search path towards `key`, remembering
     * the last node left behind and the side taken from it. The walk stops at
     * the node holding `key`, or at null when the key is absent.
     */
    method FindForDelete(key: int)
        returns (parent: MNode?, trav: MNode?, isRightChild: bool, ghost p: seq<bool>, ghost q: seq<bool>)
      requires Valid()
      ensures ValidPath(T, p) && OnSearchPath(T, p, key) && trav == Root(SubtreeAt(T, p))
      ensures trav == null <==> key !in Contents()
      ensures trav != null ==> trav in Repr && trav.key == key && SubtreeAt(T, p).key == key
      ensures parent == null ==> p == []
      ensures parent != null ==>
        ValidPath(T, q) && SubtreeAt(T, q).Node? && parent == SubtreeAt(T, q).ref && p == q + [isRightChild]
    {
      parent := null;
      trav := root;
      isRightChild := false;
      p := [];
      q := [];
      while trav != null && trav.key != key
        invariant ValidPath(T, p) && OnSearchPath(T, p, key)
        invariant trav == Root(SubtreeAt(T, p))
        invariant parent == null ==> p == []
        invariant parent != null ==>
          ValidPath(T, q) && SubtreeAt(T, q).Node? && parent == SubtreeAt(T, q).ref && p == q + [isRightChild]
        decreases Size(SubtreeAt(T, p))
      {
        AgreeAt(T, p);
        PathSnoc(T, p, SubtreeAt(T, p).key < key);
        SearchStep(T, p, key);
        parent := trav;
        q := p;
        if trav.key > key {
          trav := trav.left;
          isRightChild := false;
        } else {
          trav := trav.right;
          isRightChild := true;
        }
        p := p + [isRightChild];
      }
      MapOfKeys(T);
      if trav == null {
        SearchMiss(T, p, key);
      } else {
        AgreeAt(T, p);
        SubtreeWithin(T, p);
      }
    }

    /** The soft-delete branch of delete: the found node's datum becomes the marker. */
    method SoftDeleteFound(key: int, trav: MNode, ghost p: seq<bool>)
      requires Valid() && ValidPath(T, p) && OnSearchPath(T, p, key)
      requires SubtreeAt(T, p).Node? && trav == SubtreeAt(T, p).ref && SubtreeAt(T, p).key == key
      modifies this, trav
      ensures Valid() && Repr == old(Repr)
      ensures T == UpdateG(old(T), key, DEL_MARKER) && countKeys == old(countKeys)
    {
      ghost var t := T;
      SearchHit(t, p, key, DEL_MARKER);
      UpdateGKeys(t, key, DEL_MARKER);
      UpdateGDistinct(t, key, DEL_MARKER);
      MarkNode(trav, t, p, key);
      T := UpdateG(t, key, DEL_MARKER);
    }

    /**
     * The hard-delete branch of delete: unlink the found node, then take the
     * returned node as the new root, or empty the table when no new root came
     * back and the node had no parent.
     */
    method HardDeleteFound(key: int, trav: MNode, parent: MNode?, isRightChild: bool,
                           ghost p: seq<bool>, ghost q: seq<bool>)
      requires Valid() && ValidPath(T, p) && OnSearchPath(T, p, key)
      requires SubtreeAt(T, p).Node? && trav == SubtreeAt(T, p).ref && SubtreeAt(T, p).key == key
      requires parent == null ==> p == []
      requires parent != null ==>
        ValidPath(T, q) && SubtreeAt(T, q).Node? && parent == SubtreeAt(T, q).ref && p == q + [isRightChild]
      modifies this, Repr
      ensures Valid() && fresh(Repr - old(Repr))
      ensures T == HardDeleteAsWritten(old(T), key) && countKeys == old(countKeys)
    {
      ghost var t := T;
      SearchHit(t, p, key, DEL_MARKER);
      HardDeleteGKeys(t, key);
      HardDeleteGNodes(t, key);
      var newRoot;
      ghost var t';
      newRoot, t' := DoHardDelete(trav, parent, isRightChild, t, p, q);
      if newRoot != null {
        root := newRoot;
        T := t';
      } else if parent == null {
        root := null;
        T := Leaf;
      } else {
        ReplaceRoot(t, p, DeleteRoot(SubtreeAt(t, p)));
        T := t';
      }
      Repr := NodesOf(T);
    }

    /** clear_memtable: drop every node and reset the key count. */
    method Clear()
      modifies this
      ensures Valid() && Repr == {}
      ensures root == null && countKeys == 0 && Contents() == map[]
    {
      root := null;
      countKeys := 0;
      T := Leaf;
      Repr := {};
    }
  }

  /** do_insert: place `toInsert` in the subtree rooted at `node`. */
  method DoInsert(node: MNode, toInsert: MNode, ghost t: GTree) returns (ghost t': GTree)
    requires t.Node? && node == t.ref && Distinct(t) && Agree(t)
    requires toInsert !in NodesOf(t) && toInsert.left == null && toInsert.right == null
    modifies NodesOf(t)
    ensures t' == InsertG(t, toInsert, toInsert.key, toInsert.data)
    ensures Agree(t')
    decreases t
  {
    NodesAllocated(t);
    AgreeNode(t);
    if toInsert.key == node.key {
      node.data := toInsert.data;
      t' := Node(t.left, node, t.key, toInsert.data, t.right);
      AgreeNode(t');
    } else if toInsert.key < node.key {
      if node.left != null {
        ghost var l := DoInsert(node.left, toInsert, t.left);
        InsertGNodes(t.left, toInsert, toInsert.key, toInsert.data);
        t' := Node(l, node, t.key, t.data, t.right);
        AgreeNode(t');
      } else {
        node.left := toInsert;
        ghost var leaf := Node(Leaf, toInsert, toInsert.key, toInsert.data, Leaf);
        AgreeNode(leaf);
        t' := Node(leaf, node, t.key, t.data, t.right);
        AgreeNode(t');
      }
    } else {
      if node.right != null {
        ghost var r := DoInsert(node.right, toInsert, t.right);
        InsertGNodes(t.right, toInsert, toInsert.key, toInsert.data);
        t' := Node(t.left, node, t.key, t.data, r);
        AgreeNode(t');
      } else {
        node.right := toInsert;
        ghost var leaf := Node(Leaf, toInsert, toInsert.key, toInsert.data, Leaf);
        AgreeNode(leaf);
        t' := Node(t.left, node, t.key, t.data, leaf);
        AgreeNode(t');
      }
    }
  }

  /** do_search: the heap walk follows the binary search on the mirror. */
  function DoSearch(node: MNode, key: int, ghost t: GTree): (r: MNode?)
    reads NodesOf(t)
    requires t.Node? && node == t.ref && Agree(t)
    ensures r == Root(Find(t, key))
    decreases t
  {
    AgreeNode(t);
    if node.key == key then
      node
    else if node.key > key then
      if node.left != null then DoSearch(node.left, key, t.left) else null
    else
      if node.right != null then DoSearch(node.right, key, t.right) else null
  }

  /**
   * do_hard_delete: unlink the node at position `p`. With no child or one
   * child the parent's pointer on side `isRightChild` is redirected (or, at the
   * root, the surviving child is returned as the new root). With two children
   * the node takes the key and datum of the leftmost node of its right subtree,
   * which is then unlinked the same way; that case returns null.
   */
  method DoHardDelete(toDelete: MNode, parent: MNode?, isRightChild: bool,
                      ghost t: GTree, ghost p: seq<bool>, ghost q: seq<bool>)
      returns (newRoot: MNode?, ghost t': GTree)
    requires Distinct(t) && Agree(t)
    requires ValidPath(t, p) && SubtreeAt(t, p).Node? && toDelete == SubtreeAt(t, p).ref
    requires parent == null ==> p == []
    requires parent != null ==>
      ValidPath(t, q) && SubtreeAt(t, q).Node? && parent == SubtreeAt(t, q).ref && p == q + [isRightChild]
    modifies NodesOf(t)
    ensures t' == ReplaceAt(t, p, DeleteRoot(SubtreeAt(t, p)))
    ensures Agree(t')
    ensures newRoot == if p == [] && !TwoChildren(SubtreeAt(t, p)) then Root(t') else null
    decreases if TwoChildren(SubtreeAt(t, p)) then 1 else 0
  {
    ghost var s := SubtreeAt(t, p);
    NodesAllocated(t);
    AgreeAt(t, p);
    SubtreeWithin(t, p);
    newRoot := null;
    if toDelete.left == null || toDelete.right == null {
      newRoot, t' := SpliceOut(toDelete, parent, isRightChild, t, p, q);
    } else {
      // two children: find the leftmost node of the right subtree
      ghost var r := s.right;
      SubtreeRight(s, [], Leaf);
      PathAppend(t, p, [true]);
      AgreeSub(t, p + [true]);
      var toSwap, trail, isRight, n := FindSuccessor(toDelete, r);

      // copy the successor's key and datum into the node to delete
      CopySuccessor(toDelete, toSwap, t, p);

      // and unlink the successor from its own parent
      SuccessorSplice(t, p, n);
      ghost var qs := if n == 0 then p else p + ([true] + LeftSpine(n - 1));
      ghost var _, t2 := DoHardDelete(toSwap, trail, isRight, Copied(t, p), p + ([true] + LeftSpine(n)), qs);
      t' := t2;
    }
  }

  /**
   * Cases 1 to 3 of do_hard_delete: the node at `p` has at most one child,
   * which takes the node's place, either under the parent on side
   * `isRightChild` or, at the root, as the returned new root.
   */
  method SpliceOut(toDelete: MNode, parent: MNode?, isRightChild: bool,
                   ghost t: GTree, ghost p: seq<bool>, ghost q: seq<bool>)
      returns (newRoot: MNode?, ghost t': GTree)
    requires Distinct(t) && Agree(t)
    requires ValidPath(t, p) && SubtreeAt(t, p).Node? && toDelete == SubtreeAt(t, p).ref
    requires !TwoChildren(SubtreeAt(t, p))
    requires parent == null ==> p == []
    requires parent != null ==>
      ValidPath(t, q) && SubtreeAt(t, q).Node? && parent == SubtreeAt(t, q).ref && p == q + [isRightChild]
    modifies NodesOf(t)
    ensures t' == ReplaceAt(t, p, DeleteRoot(SubtreeAt(t, p)))
    ensures Agree(t')
    ensures newRoot == if p == [] then Root(t') else null
  {
    ghost var s := SubtreeAt(t, p);
    NodesAllocated(t);
    AgreeAt(t, p);
    var child := if toDelete.left != null then toDelete.left else toDelete.right;
    ghost var c := DeleteRoot(s);
    assert Root(c) == child;
    if parent == null {
      newRoot := child;
      t' := c;
      AgreeSub(t, p);
      AgreeNode(s);
    } else {
      newRoot := null;
      assert Views(c) <= Views(Child(SubtreeAt(t, q), isRightChild)) by {
        PathSnoc(t, q, isRightChild);
      }
      SpliceViews(t, q, isRightChild, c);
      ghost var pt := SubtreeAt(t, q);
      AgreeAt(t, q);
      SubtreeWithin(t, q);
      assert AgreeExcept(t, parent);
      if isRightChild {
        parent.right := child;
      } else {
        parent.left := child;
      }
      t' := ReplaceAt(t, p, c);
      WriteKeepsAgree(t, t', parent, ParentView(pt, isRightChild, child));
    }
  }

  /** The tree once the node at `p` holds the key and datum of its in-order successor. */
  ghost function Copied(t: GTree, p: seq<bool>): GTree
    requires ValidPath(t, p) && TwoChildren(SubtreeAt(t, p))
  {
    var s := SubtreeAt(t, p);
    ReplaceAt(t, p, Relabel(s, Leftmost(s.right).key, Leftmost(s.right).data))
  }

  /** The write of a soft delete: the node at `p`, which holds `key`, takes the marker. */
  method MarkNode(trav: MNode, ghost t: GTree, ghost p: seq<bool>, key: int)
    requires Distinct(t) && Agree(t) && ValidPath(t, p)
    requires SubtreeAt(t, p).Node? && trav == SubtreeAt(t, p).ref && SubtreeAt(t, p).key == key
    modifies trav
    ensures Agree(ReplaceAt(t, p, Relabel(SubtreeAt(t, p), key, DEL_MARKER)))
  {
    ghost var s := SubtreeAt(t, p);
    NodesAllocated(t);
    AgreeAt(t, p);
    RelabelViews(t, p, key, DEL_MARKER);
    assert AgreeExcept(t, trav);
    trav.data := DEL_MARKER;
    WriteKeepsAgree(t, ReplaceAt(t, p, Relabel(s, key, DEL_MARKER)), trav,
      View(s.ref, key, DEL_MARKER, Root(s.left), Root(s.right)));
  }

  /** The copy step of do_hard_delete's two-children case. */
  method CopySuccessor(toDelete: MNode, toSwap: MNode, ghost t: GTree, ghost p: seq<bool>)
    requires Distinct(t) && Agree(t) && ValidPath(t, p) && TwoChildren(SubtreeAt(t, p))
    requires toDelete == SubtreeAt(t, p).ref && toSwap == Leftmost(SubtreeAt(t, p).right).ref
    modifies toDelete
    ensures Agree(Copied(t, p)) && Distinct(Copied(t, p)) && NodesOf(Copied(t, p)) <= NodesOf(t)
  {
    ghost var s := SubtreeAt(t, p);
    ghost var m := Leftmost(s.right);
    NodesAllocated(t);
    AgreeAt(t, p);
    SubtreeWithin(t, p);
    LeftmostAgrees(s.right);
    assert toSwap in NodesOf(s.right) && toDelete != toSwap;
    RelabelViews(t, p, m.key, m.data);
    assert AgreeExcept(t, toDelete);
    toDelete.key := toSwap.key;
    toDelete.data := toSwap.data;
    WriteKeepsAgree(t, Copied(t, p), toDelete, View(s.ref, m.key, m.data, Root(s.left), Root(s.right)));
  }

  /**
   * The successor walk of do_hard_delete: from the right child, go left while
   * there is a left child, remembering the node left behind and whether the
   * last step was the first, rightward one.
   */
  method FindSuccessor(toDelete: MNode, ghost r: GTree) returns (toSwap: MNode, trail: MNode, isRight: bool, ghost n: nat)
    requires r.Node? && toDelete.right == r.ref && Agree(r)
    ensures ValidPath(r, LeftSpine(n)) && SubtreeAt(r, LeftSpine(n)) == Leftmost(r)
    ensures toSwap == Leftmost(r).ref
    ensures isRight <==> n == 0
    ensures n == 0 ==> trail == toDelete
    ensures n > 0 ==>
      ValidPath(r, LeftSpine(n - 1)) && SubtreeAt(r, LeftSpine(n - 1)).Node? && trail == SubtreeAt(r, LeftSpine(n - 1)).ref
  {
    toSwap := toDelete.right;
    trail := toDelete;
    isRight := true;
    n := 0;
    while toSwap.left != null
      invariant Agree(r)
      invariant ValidPath(r, LeftSpine(n)) && SubtreeAt(r, LeftSpine(n)).Node?
      invariant toSwap == SubtreeAt(r, LeftSpine(n)).ref
      invariant isRight <==> n == 0
      invariant n == 0 ==> trail == toDelete
      invariant n > 0 ==>
        ValidPath(r, LeftSpine(n - 1)) && SubtreeAt(r, LeftSpine(n - 1)).Node? && trail == SubtreeAt(r, LeftSpine(n - 1)).ref
      decreases Size(SubtreeAt(r, LeftSpine(n)))
    {
      AgreeAt(r, LeftSpine(n));
      LeftSpineStep(r, n);
      trail := toSwap;
      toSwap := toSwap.left;
      isRight := false;
      n := n + 1;
    }
    AgreeAt(r, LeftSpine(n));
    LeftSpineLeftmost(r, n);
  }

  /**
   * The positions the successor splice works on, in the tree after the copy:
   * the successor sits `n` steps down the left spine of the right subtree, its
   * parent one step above, and splicing it out completes the intended delete.
   */
  lemma SuccessorSplice(t: GTree, p: seq<bool>, n: nat)
    requires ValidPath(t, p) && TwoChildren(SubtreeAt(t, p))
    requires ValidPath(SubtreeAt(t, p).right, LeftSpine(n))
    requires SubtreeAt(SubtreeAt(t, p).right, LeftSpine(n)) == Leftmost(SubtreeAt(t, p).right)
    requires n > 0 ==>
      ValidPath(SubtreeAt(t, p).right, LeftSpine(n - 1)) && SubtreeAt(SubtreeAt(t, p).right, LeftSpine(n - 1)).Node?
    ensures ValidPath(Copied(t, p), p + ([true] + LeftSpine(n)))
    ensures SubtreeAt(Copied(t, p), p + ([true] + LeftSpine(n))) == Leftmost(SubtreeAt(t, p).right)
    ensures n == 0 ==>
      ValidPath(Copied(t, p), p) && SubtreeAt(Copied(t, p), p).Node?
      && SubtreeAt(Copied(t, p), p).ref == SubtreeAt(t, p).ref
      && p + ([true] + LeftSpine(n)) == p + [true]
    ensures n > 0 ==>
      ValidPath(Copied(t, p), p + ([true] + LeftSpine(n - 1)))
      && SubtreeAt(Copied(t, p), p + ([true] + LeftSpine(n - 1))) == SubtreeAt(SubtreeAt(t, p).right, LeftSpine(n - 1))
      && p + ([true] + LeftSpine(n)) == (p + ([true] + LeftSpine(n - 1))) + [false]
    ensures ReplaceAt(Copied(t, p), p + ([true] + LeftSpine(n)), Leftmost(SubtreeAt(t, p).right).right)
      == ReplaceAt(t, p, DeleteRoot(SubtreeAt(t, p)))
  {
    var s := SubtreeAt(t, p);
    var m := Leftmost(s.right);
    var s1 := Relabel(s, m.key, m.data);
    var d := [true] + LeftSpine(n);
    SubtreeRight(s1, LeftSpine(n), m.right);
    ReplacePath(t, p, s1, d);
    if n == 0 {
      ReplacePath(t, p, s1, []);
      assert p + [] == p;
      assert LeftSpine(0) == [];
    } else {
      SubtreeRight(s1, LeftSpine(n - 1), Leaf);
      ReplacePath(t, p, s1, [true] + LeftSpine(n - 1));
      LeftSpineSnoc(n - 1);
      assert p + d == (p + ([true] + LeftSpine(n - 1))) + [false];
    }
    ReplaceTwice(t, p, s1, d, m.right);
    LeftSpineRemoveMin(s.right, n);
  }

  /** The leftmost node of an agreeing tree holds what the mirror says. */
  lemma {:induction false} LeftmostAgrees(t: GTree)
    requires t.Node? && Agree(t)
    ensures Leftmost(t).ref in NodesOf(t)
    ensures Leftmost(t).ref.key == Leftmost(t).key && Leftmost(t).ref.data == Leftmost(t).data
  {
    AgreeNode(t);
    if t.left.Node? {
      LeftmostAgrees(t.left);
    }
  }

  /** The subtree of an agreeing tree agrees. */
  lemma AgreeSub(t: GTree, p: seq<bool>)
    requires Agree(t) && ValidPath(t, p)
    ensures Agree(SubtreeAt(t, p))
  {
    SubtreeWithin(t, p);
    ViewsInNodes(SubtreeAt(t, p));
  }
}

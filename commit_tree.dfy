/**
 * Rotations, insertion and queries of the partially persistent commit index
 * (src/CommitTree.h:171-283), proved against the functional mirror in
 * AvlSpec through the `View` abstraction of CommitNodes.
 *
 * Every method here reads and writes fields only through the version-gated
 * accessors and the bounded-log updates, as the code does. Insertion has no
 * `modifies` clause at all: the verifier thereby checks that it changes no
 * node that existed when it was called, so every earlier root keeps
 * answering exactly as before.
 */
module CommitTree {
  import opened Options
  import opened AvlSpec
  import opened CommitNodes

  /**
   * updateLeft / updateRight of a node outside a closed set `A`
   * (src/CommitTree.h:121-151): the node gets `child` on the chosen side
   * and keeps its other child and its height. The state map gains the
   * returned node, which is `n` itself or a new node.
   */
  method SetChild(n: CommitNode, child: CommitNode?, goLeft: bool, version: int,
                  ghost M: map<CommitNode, Fields>, ghost A: set<CommitNode>)
    returns (r: CommitNode, ghost M': map<CommitNode, Fields>)
    requires Mirrors(M, version) && n in M && n !in A && Closed(M, child, A)
    requires goLeft ==> Closed(M, M[n].right, A)
    requires !goLeft ==> Closed(M, M[n].left, A)
    modifies n
    ensures Mirrors(M', version)
    ensures old(Settled(M, version)) ==> Settled(M', version)
    ensures r == n || (fresh(r) && r !in M)
    ensures r !in A && r in M' && M' == M[r := M'[r]]
    ensures M'[r].left == (if goLeft then child else M[n].left)
    ensures M'[r].right == (if goLeft then M[n].right else child)
    ensures Closed(M', r, A + {r})
    ensures View(M', r, A + {r}) ==
              Node(if goLeft then View(M, child, A) else View(M, M[n].left, A), n.commitCounter, n.Info(),
                   if goLeft then View(M, M[n].right, A) else View(M, child, A), M[n].height)
  {
    Mirror(M, version, n);
    ghost var other := if goLeft then M[n].right else M[n].left;
    var r0: CommitNode?;
    if goLeft {
      r0 := UpdateLeft(n, child, version);
    } else {
      r0 := UpdateRight(n, child, version);
    }
    r := r0;
    M' := M[r := FieldsOf(r, version)];
    forall m | m in M' ensures m.Valid() && M'[m] == FieldsOf(m, version) {
      if m != r {
        assert M[m] == old(FieldsOf(m, version));
      }
    }
    forall m | m in M' && old(Settled(M, version)) ensures RecordsUpTo(m, version) {
      assert old(RecordsUpTo(n, version));
      if m != r {
        assert old(RecordsUpTo(m, version));
      }
    }
    assert Agree(M, M', A);
    Kept(M, M', other, A);
    Kept(M, M', child, A);
    Assemble(M', r, A);
  }

  /**
   * The height refresh that follows every child update in the code:
   * `updateHeight(n, v, 1 + max(getHeight(getLeft(n, v), v), getHeight(getRight(n, v), v)))`.
   */
  method FixHeight(n: CommitNode, version: int, ghost M: map<CommitNode, Fields>, ghost A: set<CommitNode>)
    returns (r: CommitNode, ghost M': map<CommitNode, Fields>)
    requires Mirrors(M, version) && n in M && n !in A
    requires Closed(M, M[n].left, A) && Closed(M, M[n].right, A)
    modifies n
    ensures Mirrors(M', version)
    ensures old(Settled(M, version)) ==> Settled(M', version)
    ensures r == n || (fresh(r) && r !in M)
    ensures r !in A && r in M' && M' == M[r := M'[r]]
    ensures M'[r].left == M[n].left && M'[r].right == M[n].right
    ensures Closed(M', r, A + {r})
    ensures View(M', r, A + {r}) ==
              var l, rt := View(M, M[n].left, A), View(M, M[n].right, A);
              Node(l, n.commitCounter, n.Info(), rt, 1 + Max(H(l), H(rt)))
  {
    Mirror(M, version, n);
    var nl := GetLeft(n, version);
    var nr := GetRight(n, version);
    if nl != null { Mirror(M, version, nl); }
    if nr != null { Mirror(M, version, nr); }
    var hl := GetHeight(nl, version);
    var hr := GetHeight(nr, version);
    assert hl == H(View(M, nl, A)) && hr == H(View(M, nr, A));
    var r0 := UpdateHeight(n, version, 1 + Max(hl, hr));
    r := r0;
    M' := M[r := FieldsOf(r, version)];
    forall m | m in M' ensures m.Valid() && M'[m] == FieldsOf(m, version) {
      if m != r {
        assert M[m] == old(FieldsOf(m, version));
      }
    }
    forall m | m in M' && old(Settled(M, version)) ensures RecordsUpTo(m, version) {
      assert old(RecordsUpTo(n, version));
      if m != r {
        assert old(RecordsUpTo(m, version));
      }
    }
    assert Agree(M, M', A);
    Kept(M, M', nl, A);
    Kept(M, M', nr, A);
    Assemble(M', r, A);
  }

  /**
   * A child update followed by the height refresh, the step every
   * rotation and every level of insertNode performs
   * (src/CommitTree.h:174-176, 208-217).
   */
  method Relink(n: CommitNode, child: CommitNode?, goLeft: bool, version: int,
                ghost M: map<CommitNode, Fields>, ghost A: set<CommitNode>)
    returns (r: CommitNode, ghost M': map<CommitNode, Fields>)
    requires Mirrors(M, version) && n in M && n !in A && Closed(M, child, A)
    requires Closed(M, M[n].left, A) && Closed(M, M[n].right, A)
    modifies n
    ensures Mirrors(M', version) && Extends(M, M', {n})
    ensures old(Settled(M, version)) ==> Settled(M', version)
    ensures r == n || (fresh(r) && r !in M)
    ensures r !in A && r in M'
    ensures M'[r].left == (if goLeft then child else M[n].left)
    ensures M'[r].right == (if goLeft then M[n].right else child)
    ensures Closed(M', r, A + {r})
    ensures View(M', r, A + {r}) ==
              Reattach(Node(View(M, M[n].left, A), n.commitCounter, n.Info(), View(M, M[n].right, A), M[n].height),
                       goLeft, View(M, child, A))
  {
    ghost var cv := View(M, child, A);
    ghost var nl := if goLeft then cv else View(M, M[n].left, A);
    ghost var nr := if goLeft then View(M, M[n].right, A) else cv;
    var r1;
    ghost var M1;
    r1, M1 := SetChild(n, child, goLeft, version, M, A);
    Peel(M1, r1, A + {r1}, A);
    assert View(M1, M1[r1].left, A) == nl && View(M1, M1[r1].right, A) == nr;
    r, M' := FixHeight(r1, version, M1, A);
  }

  /**
   * copyFullNode on a node of the map: a fresh node with an empty log
   * whose base fields are the node's fields as of `version`
   * (src/CommitTree.h:109-117).
   */
  method Copy(n: CommitNode, version: int, ghost M: map<CommitNode, Fields>)
    returns (x: CommitNode, ghost M': map<CommitNode, Fields>)
    requires Mirrors(M, version) && n in M
    ensures fresh(x) && x !in M && x in M' && M' == M[x := M[n]] && Mirrors(M', version)
    ensures old(Settled(M, version)) ==> Settled(M', version)
    ensures x.commitCounter == n.commitCounter && x.Info() == n.Info()
  {
    Mirror(M, version, n);
    var c := CopyFullNode(n, version);
    x := c;
    M' := M[x := FieldsOf(x, version)];
    forall m | m in M' ensures m.Valid() && M'[m] == FieldsOf(m, version) {
      if m != x {
        assert M[m] == old(FieldsOf(m, version));
      }
    }
    assert x.Log() == [];
    forall m | m in M' && old(Settled(M, version)) ensures RecordsUpTo(m, version) {
      if m != x {
        assert old(RecordsUpTo(m, version));
      }
    }
  }

  /**
   * The first half of both rotations (src/CommitTree.h:172-176 and
   * 187-191): the child `c` of `top` on the chosen side is copied, and
   * `top` takes over the copy's inner subtree on that side, with its
   * height refreshed.
   */
  method Lift(top: CommitNode, c: CommitNode, goLeft: bool, version: int,
              ghost M: map<CommitNode, Fields>, ghost U: set<CommitNode>)
    returns (x: CommitNode, newTop: CommitNode, ghost M': map<CommitNode, Fields>)
    requires Mirrors(M, version) && top in M && top !in U
    requires c == (if goLeft then M[top].left else M[top].right)
    requires Closed(M, c, U) && Closed(M, M[top].left, U) && Closed(M, M[top].right, U)
    requires Closed(M, M[c].left, U) && Closed(M, M[c].right, U)
    modifies top
    ensures Mirrors(M', version) && Extends(M, M', {top})
    ensures old(Settled(M, version)) ==> Settled(M', version)
    ensures fresh(x) && x !in M && x in M' && M'[x] == M[c]
    ensures x.commitCounter == c.commitCounter && x.Info() == c.Info()
    ensures newTop == top || (fresh(newTop) && newTop !in M)
    ensures newTop != x && newTop !in U && newTop in M'
    ensures Closed(M', M[c].left, U + {newTop}) && View(M', M[c].left, U + {newTop}) == View(M, M[c].left, U)
    ensures Closed(M', M[c].right, U + {newTop}) && View(M', M[c].right, U + {newTop}) == View(M, M[c].right, U)
    ensures Closed(M', newTop, U + {newTop})
    ensures View(M', newTop, U + {newTop}) ==
              Reattach(Node(View(M, M[top].left, U), top.commitCounter, top.Info(), View(M, M[top].right, U), M[top].height),
                       goLeft, if goLeft then View(M, M[c].right, U) else View(M, M[c].left, U))
  {
    Peel(M, c, U, U);
    var x0;
    ghost var M0;
    x0, M0 := Copy(c, version, M);
    x := x0;
    assert Agree(M, M0, U);
    Kept(M, M0, M[c].left, U);
    Kept(M, M0, M[c].right, U);
    Kept(M, M0, M[top].left, U);
    Kept(M, M0, M[top].right, U);
    Mirror(M0, version, x);
    var t2: CommitNode?;
    if goLeft {
      t2 := GetRight(x, version);
    } else {
      t2 := GetLeft(x, version);
    }
    newTop, M' := Relink(top, t2, goLeft, version, M0, U);
    assert Agree(M0, M', U);
    Kept(M0, M', M[c].left, U);
    Kept(M0, M', M[c].right, U);
    ClosedGrow(M', M[c].left, U, U + {newTop});
    ClosedGrow(M', M[c].right, U, U + {newTop});
    ExtendsChain(M, M0, M', {}, {top}, {top});
  }

  /**
   * Both rotations once the pivot child `c` is known to exist: Lift, then
   * the copy of `c` takes the new `top` as its child on the other side and
   * gets its height refreshed (src/CommitTree.h:177-182 and 192-195). `N`
   * collects the nodes created on the way.
   */
  method Pivot(top: CommitNode, c: CommitNode, goLeft: bool, version: int,
               ghost M: map<CommitNode, Fields>, ghost U: set<CommitNode>)
    returns (r: CommitNode, ghost M': map<CommitNode, Fields>, ghost N: set<CommitNode>)
    requires Mirrors(M, version) && top in M && top !in U
    requires c == (if goLeft then M[top].left else M[top].right)
    requires Closed(M, c, U) && Closed(M, M[top].left, U) && Closed(M, M[top].right, U)
    requires Closed(M, M[c].left, U) && Closed(M, M[c].right, U)
    modifies top
    ensures Mirrors(M', version) && Extends(M, M', {top})
    ensures old(Settled(M, version)) ==> Settled(M', version)
    ensures N !! M.Keys && fresh(r) && r in N
    ensures Closed(M', r, U + {top} + N)
    ensures View(M', r, U + {top} + N) ==
              Reattach(Node(View(M, M[c].left, U), c.commitCounter, c.Info(), View(M, M[c].right, U), M[c].height),
                       !goLeft,
                       Reattach(Node(View(M, M[top].left, U), top.commitCounter, top.Info(), View(M, M[top].right, U), M[top].height),
                                goLeft, if goLeft then View(M, M[c].right, U) else View(M, M[c].left, U)))
  {
    var x: CommitNode, newTop: CommitNode;
    ghost var M1;
    x, newTop, M1 := Lift(top, c, goLeft, version, M, U);
    ghost var W: set<CommitNode> := U + {newTop};
    r, M' := Relink(x, newTop, !goLeft, version, M1, W);
    ExtendsChain(M, M1, M', {top}, {x}, {top});
    N := if newTop == top then {r} else {r, newTop};
    ClosedGrow(M', r, W + {r}, U + {top} + N);
  }

  /**
   * rightRotate (src/CommitTree.h:171-183): the left child is copied, `y`
   * takes over the copy's right subtree and the copy takes `y` as its
   * right child; both get their height refreshed. Without a left child the
   * code still rewrites `y`'s left child (to null) and its height, and
   * returns null. `N` collects the nodes the rotation created.
   */
  method RightRotate(y: CommitNode?, version: int, ghost M: map<CommitNode, Fields>, ghost T: set<CommitNode>)
    returns (r: CommitNode?, ghost M': map<CommitNode, Fields>, ghost N: set<CommitNode>)
    requires Mirrors(M, version) && Closed(M, y, T)
    modifies y
    ensures Mirrors(M', version) && Extends(M, M', Only(y))
    ensures old(Settled(M, version)) ==> Settled(M', version)
    ensures N !! M.Keys && (r == null || (fresh(r) && r in N))
    ensures Closed(M', r, T + N)
    ensures View(M', r, T + N) == RotateRight(View(M, y, T))
  {
    if y == null {
      return null, M, {};
    }
    ghost var U: set<CommitNode> := T - {y as CommitNode};
    Peel(M, y, T, U);
    Mirror(M, version, y);
    var yl := GetLeft(y, version);
    if yl == null {
      var newY;
      newY, M' := Relink(y, null, true, version, M, U);
      return null, M', {};
    }
    Peel(M, yl, U, U);
    RotateRightShape(View(M, M[yl].left, U), yl.commitCounter, yl.Info(), View(M, M[yl].right, U), M[yl].height,
                     y.commitCounter, y.Info(), View(M, M[y].right, U), M[y].height);
    var x: CommitNode;
    x, M', N := Pivot(y, yl, true, version, M, U);
    assert U + {y} == T;
    r := x;
  }

  /**
   * leftRotate (src/CommitTree.h:186-196), the mirror image of
   * RightRotate: the right child is copied, `x` takes over the copy's left
   * subtree and the copy takes `x` as its left child.
   */
  method LeftRotate(x: CommitNode?, version: int, ghost M: map<CommitNode, Fields>, ghost T: set<CommitNode>)
    returns (r: CommitNode?, ghost M': map<CommitNode, Fields>, ghost N: set<CommitNode>)
    requires Mirrors(M, version) && Closed(M, x, T)
    modifies x
    ensures Mirrors(M', version) && Extends(M, M', Only(x))
    ensures old(Settled(M, version)) ==> Settled(M', version)
    ensures N !! M.Keys && (r == null || (fresh(r) && r in N))
    ensures Closed(M', r, T + N)
    ensures View(M', r, T + N) == RotateLeft(View(M, x, T))
  {
    if x == null {
      return null, M, {};
    }
    ghost var U: set<CommitNode> := T - {x as CommitNode};
    Peel(M, x, T, U);
    Mirror(M, version, x);
    var xr := GetRight(x, version);
    if xr == null {
      var newX;
      newX, M' := Relink(x, null, false, version, M, U);
      return null, M', {};
    }
    Peel(M, xr, U, U);
    RotateLeftShape(View(M, M[x].left, U), x.commitCounter, x.Info(), View(M, M[xr].left, U), M[x].height,
                    xr.commitCounter, xr.Info(), View(M, M[xr].right, U), M[xr].height);
    var y: CommitNode;
    y, M', N := Pivot(x, xr, false, version, M, U);
    assert U + {x} == T;
    r := y;
  }

  /**
   * The left-right case of insertNode (src/CommitTree.h:226-230): the
   * left child `l` is rotated left, `n` takes the result as its left child
   * without a height refresh, and `n` is rotated right. The right subtree
   * lies in `B`, which does not hold `l`.
   */
  method DoubleRight(n: CommitNode, l: CommitNode, k: int,
                     ghost M: map<CommitNode, Fields>, ghost B: set<CommitNode>, ghost A: set<CommitNode>)
    returns (r: CommitNode?, ghost M': map<CommitNode, Fields>, ghost N: set<CommitNode>)
    requires Mirrors(M, k) && n in M && n !in A && B <= A && l !in B
    requires l == M[n].left && Closed(M, l, A) && Closed(M, M[n].right, B)
    modifies n, l
    ensures Mirrors(M', k) && Extends(M, M', {n, l})
    ensures old(Settled(M, k)) ==> Settled(M', k)
    ensures N !! M.Keys && (r == null || (fresh(r) && r in N))
    ensures Closed(M', r, A + {n} + N)
    ensures View(M', r, A + {n} + N) ==
              RotateRight(Node(RotateLeft(View(M, l, A)), n.commitCounter, n.Info(), View(M, M[n].right, B), M[n].height))
  {
    var ul;
    ghost var M1, N1;
    ul, M1, N1 := LeftRotate(l, k, M, A);
    assert Agree(M, M1, B);
    Kept(M, M1, M[n].right, B);
    ClosedGrow(M1, M[n].right, B, A + N1);
    var n2: CommitNode;
    ghost var M2;
    n2, M2 := SetChild(n, ul, true, k, M1, A + N1);
    ghost var M3, N3;
    r, M3, N3 := RightRotate(n2, k, M2, A + N1 + {n2});
    M' := M3;
    N := N1 + N3 + ({n2} - {n});
    ExtendsChain(M, M1, M2, {l}, {n2}, {n, l});
    ExtendsChain(M, M2, M3, {n, l}, {n2}, {n, l});
    ClosedGrow(M', r, A + N1 + {n2} + N3, A + {n} + N);
  }

  /**
   * The right-left case of insertNode (src/CommitTree.h:232-236), the
   * mirror image of DoubleRight.
   */
  method DoubleLeft(n: CommitNode, rc: CommitNode, k: int,
                    ghost M: map<CommitNode, Fields>, ghost B: set<CommitNode>, ghost A: set<CommitNode>)
    returns (r: CommitNode?, ghost M': map<CommitNode, Fields>, ghost N: set<CommitNode>)
    requires Mirrors(M, k) && n in M && n !in A && B <= A && rc !in B
    requires rc == M[n].right && Closed(M, rc, A) && Closed(M, M[n].left, B)
    modifies n, rc
    ensures Mirrors(M', k) && Extends(M, M', {n, rc})
    ensures old(Settled(M, k)) ==> Settled(M', k)
    ensures N !! M.Keys && (r == null || (fresh(r) && r in N))
    ensures Closed(M', r, A + {n} + N)
    ensures View(M', r, A + {n} + N) ==
              RotateLeft(Node(View(M, M[n].left, B), n.commitCounter, n.Info(), RotateRight(View(M, rc, A)), M[n].height))
  {
    var ur;
    ghost var M1, N1;
    ur, M1, N1 := RightRotate(rc, k, M, A);
    assert Agree(M, M1, B);
    Kept(M, M1, M[n].left, B);
    ClosedGrow(M1, M[n].left, B, A + N1);
    var n2: CommitNode;
    ghost var M2;
    n2, M2 := SetChild(n, ur, false, k, M1, A + N1);
    ghost var M3, N3;
    r, M3, N3 := LeftRotate(n2, k, M2, A + N1 + {n2});
    M' := M3;
    N := N1 + N3 + ({n2} - {n});
    ExtendsChain(M, M1, M2, {rc}, {n2}, {n, rc});
    ExtendsChain(M, M2, M3, {n, rc}, {n2}, {n, rc});
    ClosedGrow(M', r, A + N1 + {n2} + N3, A + {n} + N);
  }

  /**
   * The balance tests of insertNode (src/CommitTree.h:216-239) on the node
   * whose child on side `goLeft` has just been replaced. That child's tree
   * lies in `A`; the other child's lies in `B`, which does not hold it.
   */
  method RebalanceNode(n: CommitNode, k: int, goLeft: bool,
                       ghost M: map<CommitNode, Fields>, ghost B: set<CommitNode>, ghost A: set<CommitNode>)
    returns (r: CommitNode?, ghost M': map<CommitNode, Fields>, ghost N: set<CommitNode>)
    requires Mirrors(M, k) && n in M && n !in A && B <= A
    requires Closed(M, M[n].left, if goLeft then A else B) && Closed(M, M[n].right, if goLeft then B else A)
    requires Only(if goLeft then M[n].left else M[n].right) !! B
    requires Closed(M, n, A + {n})
    requires var t := View(M, n, A + {n});
             PosHeights(t) && PivotsPresent(t, k) && (Bal(t) > 1 ==> goLeft) && (Bal(t) < -1 ==> !goLeft)
    modifies {n} + Only(if goLeft then M[n].left else M[n].right)
    ensures Mirrors(M', k) && Extends(M, M', {n} + Only(if goLeft then M[n].left else M[n].right))
    ensures old(Settled(M, k)) ==> Settled(M', k)
    ensures N !! M.Keys && r != null && (r == n || (fresh(r) && r in N))
    ensures Closed(M', r, A + {n} + N)
    ensures View(M', r, A + {n} + N) == Rebalance(View(M, n, A + {n}), k)
  {
    ghost var t := View(M, n, A + {n});
    Peel(M, n, A + {n}, A);
    Mirror(M, k, n);
    var l := GetLeft(n, k);
    var rc := GetRight(n, k);
    if l != null { Mirror(M, k, l); }
    if rc != null { Mirror(M, k, rc); }
    var hl := GetHeight(l, k);
    var hr := GetHeight(rc, k);
    var balance := hl - hr;
    assert balance == Bal(t);
    if balance > 1 && k < l.commitCounter {
      r, M', N := RightRotate(n, k, M, A + {n});
    } else if balance < -1 && k >= rc.commitCounter {
      r, M', N := LeftRotate(n, k, M, A + {n});
    } else {
      r, M', N := RebalanceDouble(n, l, rc, k, balance, goLeft, M, B, A);
    }
  }

  /**
   * The last two balance tests of insertNode (src/CommitTree.h:227-238),
   * reached when neither single rotation applies: a double rotation, or
   * the node as it is. `l` and `rc` are the children read at `k` and
   * `balance` the difference of their heights.
   */
  method RebalanceDouble(n: CommitNode, l: CommitNode?, rc: CommitNode?, k: int, balance: int, goLeft: bool,
                         ghost M: map<CommitNode, Fields>, ghost B: set<CommitNode>, ghost A: set<CommitNode>)
    returns (r: CommitNode?, ghost M': map<CommitNode, Fields>, ghost N: set<CommitNode>)
    requires Mirrors(M, k) && n in M && n !in A && B <= A && l == M[n].left && rc == M[n].right
    requires Closed(M, l, if goLeft then A else B) && Closed(M, rc, if goLeft then B else A)
    requires Only(if goLeft then l else rc) !! B
    requires Closed(M, n, A + {n})
    requires var t := View(M, n, A + {n});
             PosHeights(t) && PivotsPresent(t, k) && (Bal(t) > 1 ==> goLeft) && (Bal(t) < -1 ==> !goLeft) &&
             balance == Bal(t) && !(balance > 1 && k < t.left.key) && !(balance < -1 && k >= t.right.key)
    modifies {n} + Only(if goLeft then l else rc)
    ensures Mirrors(M', k) && Extends(M, M', {n} + Only(if goLeft then l else rc))
    ensures old(Settled(M, k)) ==> Settled(M', k)
    ensures N !! M.Keys && r != null && (r == n || (fresh(r) && r in N))
    ensures Closed(M', r, A + {n} + N)
    ensures View(M', r, A + {n} + N) == Rebalance(View(M, n, A + {n}), k)
  {
    Peel(M, n, A + {n}, A);
    if balance > 1 && k >= l.commitCounter {
      r, M', N := DoubleRight(n, l, k, M, B, A);
      ClosedGrow(M, rc, B, A);
    } else if balance < -1 && k < rc.commitCounter {
      r, M', N := DoubleLeft(n, rc, k, M, B, A);
      ClosedGrow(M, l, B, A);
    } else {
      r, M', N := n, M, {};
      assert A + {n} + N == A + {n};
    }
  }

  /** A new node as insertNode makes it for an empty tree (src/CommitTree.h:203-204). */
  method NewLeaf(k: int, fileName: string, diffData: string, commitMessage: string, ghost M: map<CommitNode, Fields>)
    returns (n: CommitNode, ghost M': map<CommitNode, Fields>)
    requires Mirrors(M, k)
    ensures fresh(n) && n !in M && Mirrors(M', k) && M' == M[n := Fields(null, null, 1)]
    ensures old(Settled(M, k)) ==> Settled(M', k)
    ensures Closed(M', n, {n}) && View(M', n, {n}) == Node(Nil, k, CommitInfo(fileName, diffData, commitMessage), Nil, 1)
  {
    n := new CommitNode(k, fileName, diffData, commitMessage);
    M' := M[n := FieldsOf(n, k)];
    forall m | m in M' ensures m.Valid() && M'[m] == FieldsOf(m, k) {
      if m != n {
        assert M[m] == old(FieldsOf(m, k));
      }
    }
    assert n.Log() == [];
    forall m | m in M' && old(Settled(M, k)) ensures RecordsUpTo(m, k) {
      if m != n {
        assert old(RecordsUpTo(m, k));
      }
    }
    assert M' == M[n := Fields(null, null, 1)];
    Assemble(M', n, {});
  }

  /**
   * The tail of insertNode below the recursive call
   * (src/CommitTree.h:209-239): `n`, the copy of the root of `t`, takes
   * the new subtree `sub` on side `goLeft`, its height is refreshed and the
   * balance tests run. `n`'s own children lie in `B`, the new subtree in
   * `A`.
   */
  method Attach(n: CommitNode, sub: CommitNode, goLeft: bool, k: int, ghost t: Tree, ghost info: CommitInfo,
                ghost M: map<CommitNode, Fields>, ghost B: set<CommitNode>, ghost A: set<CommitNode>)
    returns (r: CommitNode, ghost M': map<CommitNode, Fields>, ghost N: set<CommitNode>)
    requires Mirrors(M, k) && n in M && n !in A && B <= A && sub !in B
    requires Closed(M, sub, A) && Closed(M, M[n].left, B) && Closed(M, M[n].right, B)
    requires Avl(t) && t == Node(View(M, M[n].left, B), n.commitCounter, n.Info(), View(M, M[n].right, B), M[n].height)
    requires goLeft == (k < t.key) && View(M, sub, A) == Insert(if goLeft then t.left else t.right, k, info)
    modifies n, sub
    ensures Mirrors(M', k) && Extends(M, M', {n, sub})
    ensures old(Settled(M, k)) ==> Settled(M', k)
    ensures N !! M.Keys && (r == n || (fresh(r) && r in N))
    ensures Closed(M', r, A + {n} + N)
    ensures View(M', r, A + {n} + N) == Insert(t, k, info)
  {
    ReattachLeans(t, k, info);
    InsertPivots(t, k, info);
    ClosedGrow(M, M[n].left, B, A);
    ClosedGrow(M, M[n].right, B, A);
    ghost var other := if goLeft then M[n].right else M[n].left;
    var n2: CommitNode;
    ghost var M2;
    n2, M2 := Relink(n, sub, goLeft, k, M, A);
    assert Agree(M, M2, A);
    Kept(M, M2, sub, A);
    Kept(M, M2, other, B);
    var r0;
    ghost var M3, N2;
    r0, M3, N2 := RebalanceNode(n2, k, goLeft, M2, B, A);
    r, M' := r0, M3;
    N := N2 + ({n2} - {n});
    ExtendsChain(M, M2, M3, {n}, {n2, sub}, {n, sub});
    ClosedGrow(M', r, A + {n2} + N2, A + {n} + N);
  }

  /**
   * The head of insertNode on a non-empty tree (src/CommitTree.h:206-215):
   * the root is copied with its fields as of `k`, and the side the key goes
   * down and the child there are read from the copy.
   */
  method Descend(root: CommitNode, k: int, ghost M: map<CommitNode, Fields>, ghost U: set<CommitNode>)
    returns (nr: CommitNode, goLeft: bool, child: CommitNode?, ghost M0: map<CommitNode, Fields>)
    requires Mirrors(M, k) && root in M && Closed(M, M[root].left, U) && Closed(M, M[root].right, U)
    ensures fresh(nr) && nr !in M && M0 == M[nr := M[root]] && Mirrors(M0, k)
    ensures old(Settled(M, k)) ==> Settled(M0, k)
    ensures nr.commitCounter == root.commitCounter && nr.Info() == root.Info()
    ensures goLeft == (k < root.commitCounter) && child == (if goLeft then M[root].left else M[root].right)
    ensures Closed(M0, M[root].left, U) && View(M0, M[root].left, U) == View(M, M[root].left, U)
    ensures Closed(M0, M[root].right, U) && View(M0, M[root].right, U) == View(M, M[root].right, U)
  {
    nr, M0 := Copy(root, k, M);
    assert Agree(M, M0, U);
    Kept(M, M0, M[root].left, U);
    Kept(M, M0, M[root].right, U);
    Mirror(M0, k, nr);
    goLeft := k < nr.commitCounter;
    if goLeft {
      child := GetLeft(nr, k);
    } else {
      child := GetRight(nr, k);
    }
  }

  /**
   * insertNode (src/CommitTree.h:199-240). The tree read at version `k`
   * from `root` must be balanced with exact heights, as every tree this
   * procedure builds is (AvlSpec.InsertKeepsInvariant). The method has no
   * `modifies` clause: every node it updates is one it created, so every
   * node reachable from an earlier root keeps its state. `N` collects the
   * new nodes of the result.
   */
  method InsertNode(root: CommitNode?, k: int, fileName: string, diffData: string, commitMessage: string,
                    ghost M: map<CommitNode, Fields>, ghost S: set<CommitNode>)
    returns (r: CommitNode, ghost M': map<CommitNode, Fields>, ghost N: set<CommitNode>)
    requires Mirrors(M, k) && Closed(M, root, S) && Avl(View(M, root, S))
    ensures Mirrors(M', k) && Extends(M, M', {})
    ensures old(Settled(M, k)) ==> Settled(M', k)
    ensures N !! M.Keys && fresh(r) && r in N
    ensures Closed(M', r, S + N)
    ensures View(M', r, S + N) == Insert(View(M, root, S), k, CommitInfo(fileName, diffData, commitMessage))
    decreases S
  {
    ghost var info := CommitInfo(fileName, diffData, commitMessage);
    if root == null {
      r, M' := NewLeaf(k, fileName, diffData, commitMessage, M);
      N := {r};
      ClosedGrow(M', r, {r}, S + N);
      return;
    }
    ghost var U: set<CommitNode> := S - {root as CommitNode};
    ghost var t := View(M, root, S);
    Peel(M, root, S, U);
    var nr: CommitNode, goLeft, child;
    ghost var M0;
    nr, goLeft, child, M0 := Descend(root, k, M, U);
    var sub: CommitNode;
    ghost var M1, N1;
    sub, M1, N1 := InsertNode(child, k, fileName, diffData, commitMessage, M0, U);
    assert Agree(M0, M1, U);
    Kept(M0, M1, M[root].left, U);
    Kept(M0, M1, M[root].right, U);
    ghost var M2, N2;
    r, M2, N2 := Attach(nr, sub, goLeft, k, t, info, M1, U, U + N1);
    M' := M2;
    N := N1 + {nr} + N2;
    NewNodes(M.Keys, M1.Keys, N1, nr, N2);
    ExtendsChain(M, M0, M1, {}, {}, {});
    ExtendsChain(M, M1, M2, {}, {nr, sub}, {});
    ClosedGrow(M', r, U + N1 + {nr} + N2, S + N);
  }

  /**
   * searchCommit (src/CommitTree.h:243-251): descends from `node` through
   * the children as of `version` and returns the first node holding
   * `target`, or null. The answer is the one `Search` gives on the tree
   * read at that version.
   */
  method SearchCommit(node: CommitNode?, target: int, version: int,
                      ghost M: map<CommitNode, Fields>, ghost S: set<CommitNode>)
    returns (r: CommitNode?)
    requires Mirrors(M, version) && Closed(M, node, S)
    ensures r == null <==> Search(View(M, node, S), target).None?
    ensures r != null ==> Search(View(M, node, S), target) == Some(Entry(r.commitCounter, r.Info()))
    decreases S
  {
    if node == null {
      return null;
    }
    Peel(M, node, S, S - {node as CommitNode});
    Mirror(M, version, node);
    if target == node.commitCounter {
      return node;
    } else if target < node.commitCounter {
      var child := GetLeft(node, version);
      r := SearchCommit(child, target, version, M, S - {node as CommitNode});
    } else {
      var child := GetRight(node, version);
      r := SearchCommit(child, target, version, M, S - {node as CommitNode});
    }
  }

  /**
   * getSuccessor (src/CommitTree.h:254-267): on an ordered tree read at
   * `version`, the walk returns a node with the least key above
   * `commitNumber`, or null when no key lies above it.
   */
  method GetSuccessor(root: CommitNode?, commitNumber: int, version: int,
                      ghost M: map<CommitNode, Fields>, ghost S: set<CommitNode>)
    returns (successor: CommitNode?)
    requires Mirrors(M, version) && Closed(M, root, S) && Sorted(Entries(View(M, root, S)))
    ensures successor == null ==> forall x :: x in Entries(View(M, root, S)) ==> x.key <= commitNumber
    ensures successor != null ==>
              IsSuccessor(Entries(View(M, root, S)), commitNumber, Entry(successor.commitCounter, successor.Info()))
  {
    ghost var es := Entries(View(M, root, S));
    successor := null;
    var current := root;
    ghost var C := S;
    while current != null
      invariant Closed(M, current, C) && Sorted(Entries(View(M, current, C)))
      invariant forall x :: x in Entries(View(M, current, C)) ==> x in es
      invariant successor != null ==>
                  Entry(successor.commitCounter, successor.Info()) in es && commitNumber < successor.commitCounter &&
                  forall x :: x in Entries(View(M, current, C)) ==> x.key <= successor.commitCounter
      invariant forall x :: x in es && commitNumber < x.key ==>
                  x in Entries(View(M, current, C)) || (successor != null && successor.commitCounter <= x.key)
      decreases C
    {
      ghost var C' := C - {current as CommitNode};
      Peel(M, current, C, C');
      Mirror(M, version, current);
      SortedNode(View(M, current, C));
      if commitNumber < current.commitCounter {
        successor := current;
        current := GetLeft(current, version);
      } else {
        current := GetRight(current, version);
      }
      C := C';
    }
  }

  /**
   * getPredecessor (src/CommitTree.h:270-283): on an ordered tree read at
   * `version`, the walk returns a node with the greatest key below
   * `commitNumber`, or null when no key lies below it.
   */
  method GetPredecessor(root: CommitNode?, commitNumber: int, version: int,
                        ghost M: map<CommitNode, Fields>, ghost S: set<CommitNode>)
    returns (predecessor: CommitNode?)
    requires Mirrors(M, version) && Closed(M, root, S) && Sorted(Entries(View(M, root, S)))
    ensures predecessor == null ==> forall x :: x in Entries(View(M, root, S)) ==> commitNumber <= x.key
    ensures predecessor != null ==>
              IsPredecessor(Entries(View(M, root, S)), commitNumber, Entry(predecessor.commitCounter, predecessor.Info()))
  {
    ghost var es := Entries(View(M, root, S));
    predecessor := null;
    var current := root;
    ghost var C := S;
    while current != null
      invariant Closed(M, current, C) && Sorted(Entries(View(M, current, C)))
      invariant forall x :: x in Entries(View(M, current, C)) ==> x in es
      invariant predecessor != null ==>
                  Entry(predecessor.commitCounter, predecessor.Info()) in es && predecessor.commitCounter < commitNumber &&
                  forall x :: x in Entries(View(M, current, C)) ==> predecessor.commitCounter <= x.key
      invariant forall x :: x in es && x.key < commitNumber ==>
                  x in Entries(View(M, current, C)) || (predecessor != null && x.key <= predecessor.commitCounter)
      decreases C
    {
      ghost var C' := C - {current as CommitNode};
      Peel(M, current, C, C');
      Mirror(M, version, current);
      SortedNode(View(M, current, C));
      if commitNumber > current.commitCounter {
        predecessor := current;
        current := GetRight(current, version);
      } else {
        current := GetLeft(current, version);
      }
      C := C';
    }
  }
}

/**
 * The logical tree that a version of the commit index denotes, and a
 * functional mirror of the insertion procedure of src/CommitTree.h.
 *
 * A `Tree` is what the heap nodes look like when every field is read
 * through the version-gated accessors at one version: each node carries its
 * key (the commit number), its opaque payload and the height stored in it
 * (which the code trusts and never recomputes from scratch).
 */
module AvlSpec {
  import opened Options

  /** The payload of a commit: three opaque strings that are only copied. */
  datatype CommitInfo = CommitInfo(fileName: string, diffData: string, commitMessage: string)

  /** One (key, payload) pair as met by an in-order walk. */
  datatype Entry = Entry(key: int, info: CommitInfo)

  datatype Tree = Nil | Node(left: Tree, key: int, info: CommitInfo, right: Tree, height: int)

  function Max(a: int, b: int): int { if a < b then b else a }

  /** The height `getHeight` reports: 0 for an absent node, the stored one otherwise. */
  function H(t: Tree): (h: int)
    ensures PosHeights(t) ==> h >= 0
  {
    if t.Nil? then 0 else t.height
  }

  /** Balance factor as computed at src/CommitTree.h:219. */
  function Bal(t: Tree): int
    requires t.Node?
  {
    H(t.left) - H(t.right)
  }

  function Entries(t: Tree): seq<Entry> {
    if t.Nil? then [] else Entries(t.left) + [Entry(t.key, t.info)] + Entries(t.right)
  }

  function Keys(t: Tree): set<int> {
    if t.Nil? then {} else Keys(t.left) + {t.key} + Keys(t.right)
  }

  /** Non-decreasing keys: the search-tree order when equal keys go right. */
  predicate Sorted(s: seq<Entry>) {
    forall i, j :: 0 <= i < j < |s| ==> s[i].key <= s[j].key
  }

  /** Every stored height is at least 1 (true of every node the code builds). */
  predicate PosHeights(t: Tree) {
    t.Nil? || (t.height >= 1 && PosHeights(t.left) && PosHeights(t.right))
  }

  /** Stored heights are exact and sibling heights differ by at most one. */
  predicate Avl(t: Tree)
    ensures Avl(t) ==> PosHeights(t)
  {
    t.Nil? ||
    (Avl(t.left) && Avl(t.right) &&
     t.height == 1 + Max(H(t.left), H(t.right)) &&
     -1 <= H(t.left) - H(t.right) <= 1)
  }

  /** `s` with `e` placed after every entry whose key is at most `e.key`. */
  function InsertSorted(s: seq<Entry>, e: Entry): seq<Entry> {
    if s == [] then [e]
    else if e.key < s[0].key then [e] + s
    else [s[0]] + InsertSorted(s[1..], e)
  }

  /**
   * rightRotate (src/CommitTree.h:172-182) read at one version: the left
   * child becomes the root, its right subtree moves under the old root, and
   * both get height 1 + max of their children. When there is no left child
   * the code loses the subtree and returns null.
   */
  function RotateRight(t: Tree): (r: Tree)
    ensures PosHeights(t) ==> PosHeights(r)
    ensures t.Node? && t.left.Node? ==> r.Node? && r.key == t.left.key
  {
    if t.Nil? || t.left.Nil? then Nil
    else
      var x := t.left;
      var y := Node(x.right, t.key, t.info, t.right, 1 + Max(H(x.right), H(t.right)));
      assert PosHeights(t) ==> PosHeights(x) && PosHeights(y);
      Node(x.left, x.key, x.info, y, 1 + Max(H(x.left), H(y)))
  }

  /** leftRotate (src/CommitTree.h:186-196), the mirror image of RotateRight. */
  function RotateLeft(t: Tree): (r: Tree)
    ensures PosHeights(t) ==> PosHeights(r)
    ensures t.Node? && t.right.Node? ==> r.Node? && r.key == t.right.key
  {
    if t.Nil? || t.right.Nil? then Nil
    else
      var y := t.right;
      var x := Node(t.left, t.key, t.info, y.left, 1 + Max(H(t.left), H(y.left)));
      assert PosHeights(t) ==> PosHeights(y) && PosHeights(x);
      Node(x, y.key, y.info, y.right, 1 + Max(H(x), H(y.right)))
  }

  /**
   * The tree after `t` has its left (`goLeft`) or right child replaced by
   * the result of the recursive insertion and its height recomputed
   * (src/CommitTree.h:208-217).
   */
  function Reattach(t: Tree, goLeft: bool, sub: Tree): (r: Tree)
    requires t.Node?
  {
    var l := if goLeft then sub else t.left;
    var rt := if goLeft then t.right else sub;
    Node(l, t.key, t.info, rt, 1 + Max(H(l), H(rt)))
  }

  /**
   * The four rebalancing tests of insertNode (src/CommitTree.h:219-239), in
   * the order of the code, applied to the node whose child has just been
   * replaced and whose height has been recomputed.
   */
  function Rebalance(t: Tree, k: int): (r: Tree)
    requires t.Node? && PosHeights(t)
    ensures PosHeights(r)
  {
    var balance := Bal(t);
    if balance > 1 && k < t.left.key then RotateRight(t)
    else if balance < -1 && k >= t.right.key then RotateLeft(t)
    else if balance > 1 && k >= t.left.key then
      RotateRight(Node(RotateLeft(t.left), t.key, t.info, t.right, t.height))
    else if balance < -1 && k < t.right.key then
      RotateLeft(Node(t.left, t.key, t.info, RotateRight(t.right), t.height))
    else t
  }

  /**
   * insertNode (src/CommitTree.h:199-240) read at the insertion's version.
   * Keys below the node's key go left, the rest go right.
   */
  function Insert(t: Tree, k: int, i: CommitInfo): (r: Tree)
    requires PosHeights(t)
    ensures PosHeights(r)
  {
    if t.Nil? then Node(Nil, k, i, Nil, 1)
    else
      var goLeft := k < t.key;
      Rebalance(Reattach(t, goLeft, Insert(if goLeft then t.left else t.right, k, i)), k)
  }

  /** RotateRight applied to a tree whose left child is present, spelled out. */
  lemma RotateRightShape(a: Tree, xk: int, xi: CommitInfo, b: Tree, hx: int,
                         yk: int, yi: CommitInfo, c: Tree, hy: int)
    ensures var y := Node(b, yk, yi, c, 1 + Max(H(b), H(c)));
            RotateRight(Node(Node(a, xk, xi, b, hx), yk, yi, c, hy)) ==
            Node(a, xk, xi, y, 1 + Max(H(a), H(y)))
  {
  }

  /** RotateLeft applied to a tree whose right child is present, spelled out. */
  lemma RotateLeftShape(a: Tree, xk: int, xi: CommitInfo, b: Tree, hx: int,
                        yk: int, yi: CommitInfo, c: Tree, hy: int)
    ensures var x := Node(a, xk, xi, b, 1 + Max(H(a), H(b)));
            RotateLeft(Node(a, xk, xi, Node(b, yk, yi, c, hy), hx)) ==
            Node(x, yk, yi, c, 1 + Max(H(x), H(c)))
  {
  }

  // ---------------------------------------------------------------------
  // Rotations on balanced trees

  lemma AvlPosHeights(t: Tree)
    requires Avl(t)
    ensures H(t) >= 0
  {
  }

  /** Left-left case: a left child one taller on its left side, two above the right sibling. */
  lemma RotateRightBalances(l: Tree, k: int, i: CommitInfo, r: Tree, h: int)
    requires Avl(l) && Avl(r) && l.Node? && Bal(l) == 1 && H(l) == H(r) + 2
    ensures Avl(RotateRight(Node(l, k, i, r, h)))
    ensures H(RotateRight(Node(l, k, i, r, h))) == H(r) + 2
  {
    AvlPosHeights(r);
  }

  /** Right-right case, the mirror image of RotateRightBalances. */
  lemma RotateLeftBalances(l: Tree, k: int, i: CommitInfo, r: Tree, h: int)
    requires Avl(l) && Avl(r) && r.Node? && Bal(r) == -1 && H(r) == H(l) + 2
    ensures Avl(RotateLeft(Node(l, k, i, r, h)))
    ensures H(RotateLeft(Node(l, k, i, r, h))) == H(l) + 2
  {
    AvlPosHeights(l);
  }

  /** Left-right case: a left child one taller on its right side, two above the right sibling. */
  lemma DoubleRightBalances(l: Tree, k: int, i: CommitInfo, r: Tree, h: int)
    requires Avl(l) && Avl(r) && l.Node? && Bal(l) == -1 && H(l) == H(r) + 2
    ensures l.right.Node?
    ensures Avl(RotateRight(Node(RotateLeft(l), k, i, r, h)))
    ensures H(RotateRight(Node(RotateLeft(l), k, i, r, h))) == H(r) + 2
  {
    var a, b := l.left, l.right;
    assert H(b) == H(r) + 1 && H(a) == H(r);
    var b1, b2 := b.left, b.right;
    assert H(b1) <= H(r) && H(b2) <= H(r) && H(b1) >= H(r) - 1 && H(b2) >= H(r) - 1;
    var x := Node(a, l.key, l.info, b1, 1 + Max(H(a), H(b1)));
    assert Avl(x) && H(x) == H(r) + 1;
    assert RotateLeft(l) == Node(x, b.key, b.info, b2, H(r) + 2);
    var y := Node(b2, k, i, r, 1 + Max(H(b2), H(r)));
    assert Avl(y) && H(y) == H(r) + 1;
    assert RotateRight(Node(RotateLeft(l), k, i, r, h)) == Node(x, b.key, b.info, y, H(r) + 2);
  }

  /** Right-left case, the mirror image of DoubleRightBalances. */
  lemma DoubleLeftBalances(l: Tree, k: int, i: CommitInfo, r: Tree, h: int)
    requires Avl(l) && Avl(r) && r.Node? && Bal(r) == 1 && H(r) == H(l) + 2
    ensures r.left.Node?
    ensures Avl(RotateLeft(Node(l, k, i, RotateRight(r), h)))
    ensures H(RotateLeft(Node(l, k, i, RotateRight(r), h))) == H(l) + 2
  {
    var b, c := r.left, r.right;
    assert H(b) == H(l) + 1 && H(c) == H(l);
    var b1, b2 := b.left, b.right;
    assert H(b1) <= H(l) && H(b2) <= H(l) && H(b1) >= H(l) - 1 && H(b2) >= H(l) - 1;
    var y := Node(b2, r.key, r.info, c, 1 + Max(H(b2), H(c)));
    assert Avl(y) && H(y) == H(l) + 1;
    assert RotateRight(r) == Node(b1, b.key, b.info, y, H(l) + 2);
    var x := Node(l, k, i, b1, 1 + Max(H(l), H(b1)));
    assert Avl(x) && H(x) == H(l) + 1;
    assert RotateLeft(Node(l, k, i, RotateRight(r), h)) == Node(x, b.key, b.info, y, H(l) + 2);
  }

  /**
   * `s` is what inserting `k` into the balanced tree `t` must give:
   * balanced, non-empty, at most one taller, and when it did grow a
   * non-empty tree, the same root leaning towards the side `k` went down.
   */
  predicate Grows(t: Tree, s: Tree, k: int) {
    Avl(s) && s.Node? && H(t) <= H(s) <= H(t) + 1 &&
    (t.Node? && H(s) == H(t) + 1 ==>
       s.key == t.key && (k < t.key ==> Bal(s) == 1) && (k >= t.key ==> Bal(s) == -1))
  }

  /** One level of insertion down the left side, given what the level below gives. */
  lemma InsertLeftStep(t: Tree, k: int, i: CommitInfo)
    requires Avl(t) && t.Node? && k < t.key && Grows(t.left, Insert(t.left, k, i), k)
    ensures Grows(t, Insert(t, k, i), k)
  {
    AvlPosHeights(t.left);
    AvlPosHeights(t.right);
    var t2 := Reattach(t, true, Insert(t.left, k, i));
    if Bal(t2) > 1 {
      assert t.left.Node?;
      if k < t2.left.key {
        RotateRightBalances(t2.left, t2.key, t2.info, t2.right, t2.height);
      } else {
        DoubleRightBalances(t2.left, t2.key, t2.info, t2.right, t2.height);
      }
    }
  }

  /** One level of insertion down the right side, given what the level below gives. */
  lemma InsertRightStep(t: Tree, k: int, i: CommitInfo)
    requires Avl(t) && t.Node? && k >= t.key && Grows(t.right, Insert(t.right, k, i), k)
    ensures Grows(t, Insert(t, k, i), k)
  {
    AvlPosHeights(t.left);
    AvlPosHeights(t.right);
    var t2 := Reattach(t, false, Insert(t.right, k, i));
    if Bal(t2) < -1 {
      assert t.right.Node?;
      if k >= t2.right.key {
        RotateLeftBalances(t2.left, t2.key, t2.info, t2.right, t2.height);
      } else {
        DoubleLeftBalances(t2.left, t2.key, t2.info, t2.right, t2.height);
      }
    }
  }

  /**
   * Insertion keeps a tree balanced with exact heights, never yields the
   * empty tree, and grows the height by at most one. When it grows a
   * non-empty tree no rotation happened at the root, and the root leans
   * towards the side the key went down.
   */
  lemma {:induction false} InsertBalanced(t: Tree, k: int, i: CommitInfo)
    requires Avl(t)
    ensures Avl(Insert(t, k, i)) && Insert(t, k, i).Node?
    ensures H(t) <= H(Insert(t, k, i)) <= H(t) + 1
    ensures t.Node? && H(Insert(t, k, i)) == H(t) + 1 ==>
              Insert(t, k, i).key == t.key &&
              (k < t.key ==> Bal(Insert(t, k, i)) == 1) &&
              (k >= t.key ==> Bal(Insert(t, k, i)) == -1)
  {
    AvlPosHeights(t);
    if t.Node? {
      if k < t.key {
        InsertBalanced(t.left, k, i);
        InsertLeftStep(t, k, i);
      } else {
        InsertBalanced(t.right, k, i);
        InsertRightStep(t, k, i);
      }
    }
  }

  /**
   * Before rebalancing, the node insertNode looks at has exact heights
   * below it and can only be too heavy on the side the key went down.
   */
  lemma ReattachLeans(t: Tree, k: int, i: CommitInfo)
    requires Avl(t) && t.Node?
    ensures var goLeft := k < t.key;
            var t2 := Reattach(t, goLeft, Insert(if goLeft then t.left else t.right, k, i));
            PosHeights(t2) && (Bal(t2) > 1 ==> goLeft) && (Bal(t2) < -1 ==> !goLeft)
  {
    AvlPosHeights(t.left);
    AvlPosHeights(t.right);
    InsertBalanced(if k < t.key then t.left else t.right, k, i);
  }

  // ---------------------------------------------------------------------
  // In-order contents

  /** Regrouping five pieces of an in-order listing, as a rotation does. */
  lemma Regroup<T>(a: seq<T>, b: seq<T>, c: seq<T>, d: seq<T>, e: seq<T>)
    ensures a + b + (c + d + e) == (a + b + c) + d + e
  {
  }

  lemma RotateRightEntries(t: Tree)
    requires t.Node? && t.left.Node?
    ensures Entries(RotateRight(t)) == Entries(t)
  {
    var x := t.left;
    Regroup(Entries(x.left), [Entry(x.key, x.info)], Entries(x.right), [Entry(t.key, t.info)], Entries(t.right));
  }

  lemma RotateLeftEntries(t: Tree)
    requires t.Node? && t.right.Node?
    ensures Entries(RotateLeft(t)) == Entries(t)
  {
    var y := t.right;
    Regroup(Entries(t.left), [Entry(t.key, t.info)], Entries(y.left), [Entry(y.key, y.info)], Entries(y.right));
  }

  /** Inserting behind a prefix whose keys are all at most the new key. */
  lemma {:induction false} InsertSortedAfter(a: seq<Entry>, b: seq<Entry>, e: Entry)
    requires forall j :: 0 <= j < |a| ==> a[j].key <= e.key
    ensures InsertSorted(a + b, e) == a + InsertSorted(b, e)
  {
    if a != [] {
      assert (a + b)[0] == a[0];
      assert (a + b)[1..] == a[1..] + b;
      InsertSortedAfter(a[1..], b, e);
      calc {
        InsertSorted(a + b, e);
        [a[0]] + InsertSorted(a[1..] + b, e);
        [a[0]] + (a[1..] + InsertSorted(b, e));
        ([a[0]] + a[1..]) + InsertSorted(b, e);
        { assert a == [a[0]] + a[1..]; }
        a + InsertSorted(b, e);
      }
    } else {
      assert a + b == b;
    }
  }

  /** Inserting in front of a suffix that starts above the new key. */
  lemma {:induction false} InsertSortedBefore(a: seq<Entry>, b: seq<Entry>, e: Entry)
    requires b != [] && e.key < b[0].key
    ensures InsertSorted(a + b, e) == InsertSorted(a, e) + b
  {
    if a != [] {
      assert (a + b)[0] == a[0];
      assert (a + b)[1..] == a[1..] + b;
      InsertSortedBefore(a[1..], b, e);
    }
  }

  /** The sorted insertion adds exactly the one entry. */
  lemma {:induction false} InsertSortedContents(s: seq<Entry>, e: Entry)
    ensures multiset(InsertSorted(s, e)) == multiset(s) + multiset{e}
  {
    if s != [] && e.key >= s[0].key {
      InsertSortedContents(s[1..], e);
      assert s == [s[0]] + s[1..];
      calc {
        multiset(InsertSorted(s, e));
        multiset([s[0]] + InsertSorted(s[1..], e));
        multiset{s[0]} + multiset(InsertSorted(s[1..], e));
        multiset{s[0]} + multiset(s[1..]) + multiset{e};
      }
    }
  }

  /** Every entry of the sorted insertion is the new one or an old one. */
  lemma InsertSortedFrom(s: seq<Entry>, e: Entry, j: int)
    requires 0 <= j < |InsertSorted(s, e)|
    ensures InsertSorted(s, e)[j] == e || InsertSorted(s, e)[j] in s
  {
    var r := InsertSorted(s, e);
    InsertSortedContents(s, e);
    assert r[j] in multiset(r);
  }

  /** The sorted insertion keeps a sorted sequence sorted. */
  lemma {:induction false} InsertSortedSorted(s: seq<Entry>, e: Entry)
    requires Sorted(s)
    ensures Sorted(InsertSorted(s, e))
  {
    if s != [] && e.key >= s[0].key {
      InsertSortedSorted(s[1..], e);
      var r := InsertSorted(s[1..], e);
      forall j | 0 <= j < |r| ensures s[0].key <= r[j].key {
        InsertSortedFrom(s[1..], e, j);
      }
      assert InsertSorted(s, e) == [s[0]] + r;
    }
  }

  /** A sorted in-order walk splits around the root. */
  lemma SortedSplit(a: seq<Entry>, n: Entry, b: seq<Entry>)
    requires Sorted(a + [n] + b)
    ensures Sorted(a) && Sorted(b)
    ensures forall j :: 0 <= j < |a| ==> a[j].key <= n.key
    ensures forall j :: 0 <= j < |b| ==> n.key <= b[j].key
  {
    var s := a + [n] + b;
    forall p, q | 0 <= p < q < |a| ensures a[p].key <= a[q].key {
      assert a[p] == s[p] && a[q] == s[q];
    }
    forall j | 0 <= j < |a| ensures a[j].key <= n.key {
      assert a[j] == s[j] && n == s[|a|];
    }
    forall j | 0 <= j < |b| ensures n.key <= b[j].key {
      assert n == s[|a|] && b[j] == s[|a| + 1 + j];
    }
    forall p, q | 0 <= p < q < |b| ensures b[p].key <= b[q].key {
      assert b[p] == s[|a| + 1 + p] && b[q] == s[|a| + 1 + q];
    }
  }

  /** Replacing the child the key goes down by that child's insertion. */
  lemma ReattachEntries(t: Tree, k: int, i: CommitInfo, sub: Tree)
    requires t.Node? && Sorted(Entries(t))
    requires Entries(sub) == InsertSorted(Entries(if k < t.key then t.left else t.right), Entry(k, i))
    ensures Entries(Reattach(t, k < t.key, sub)) == InsertSorted(Entries(t), Entry(k, i))
  {
    var l, n, r := Entries(t.left), Entry(t.key, t.info), Entries(t.right);
    SortedSplit(l, n, r);
    if k < t.key {
      InsertSortedBefore(l, [n] + r, Entry(k, i));
      assert Entries(t) == l + ([n] + r);
    } else {
      SplitBelow(l, n, Entry(k, i));
      InsertSortedAfter(l + [n], r, Entry(k, i));
    }
  }

  /** Every key of a walk that ends in `n` is at most a key not below `n`'s. */
  lemma SplitBelow(l: seq<Entry>, n: Entry, e: Entry)
    requires forall j :: 0 <= j < |l| ==> l[j].key <= n.key
    requires n.key <= e.key
    ensures forall j :: 0 <= j < |l + [n]| ==> (l + [n])[j].key <= e.key
  {
    forall j | 0 <= j < |l + [n]| ensures (l + [n])[j].key <= e.key {
      if j < |l| {
        assert (l + [n])[j] == l[j];
      }
    }
  }

  /** Whenever a double rotation is chosen, the grandchild it pivots on exists. */
  predicate PivotsPresent(t: Tree, k: int)
    requires t.Node? && PosHeights(t)
  {
    (Bal(t) > 1 && k >= t.left.key ==> t.left.right.Node?) &&
    (Bal(t) < -1 && k < t.right.key ==> t.right.left.Node?)
  }

  /** Rebalancing keeps the in-order walk when every rotation has its pivot. */
  lemma RebalanceEntries(t: Tree, k: int)
    requires t.Node? && PosHeights(t) && PivotsPresent(t, k)
    ensures Entries(Rebalance(t, k)) == Entries(t)
  {
    var balance := Bal(t);
    if balance > 1 && k < t.left.key {
      RotateRightEntries(t);
    } else if balance < -1 && k >= t.right.key {
      RotateLeftEntries(t);
    } else if balance > 1 && k >= t.left.key {
      RotateLeftEntries(t.left);
      RotateRightEntries(Node(RotateLeft(t.left), t.key, t.info, t.right, t.height));
    } else if balance < -1 && k < t.right.key {
      RotateRightEntries(t.right);
      RotateLeftEntries(Node(t.left, t.key, t.info, RotateRight(t.right), t.height));
    }
  }

  /** On a balanced tree the node rebalancing looks at always has its pivots. */
  lemma {:induction false} InsertPivots(t: Tree, k: int, i: CommitInfo)
    requires Avl(t) && t.Node?
    ensures var goLeft := k < t.key;
            PivotsPresent(Reattach(t, goLeft, Insert(if goLeft then t.left else t.right, k, i)), k)
  {
    var goLeft := k < t.key;
    var sub := Insert(if goLeft then t.left else t.right, k, i);
    InsertBalanced(if goLeft then t.left else t.right, k, i);
    var t2 := Reattach(t, goLeft, sub);
    if goLeft && Bal(t2) > 1 && k >= t2.left.key {
      assert t.left.Node?;
      DoubleRightBalances(t2.left, t2.key, t2.info, t2.right, t2.height);
    }
    if !goLeft && Bal(t2) < -1 && k < t2.right.key {
      assert t.right.Node?;
      DoubleLeftBalances(t2.left, t2.key, t2.info, t2.right, t2.height);
    }
  }

  /**
   * On a balanced, ordered tree the insertion puts the new entry in its
   * sorted place (after every entry with a key at most the new one).
   */
  lemma {:induction false} InsertEntries(t: Tree, k: int, i: CommitInfo)
    requires Avl(t) && Sorted(Entries(t))
    ensures Entries(Insert(t, k, i)) == InsertSorted(Entries(t), Entry(k, i))
  {
    if t.Node? {
      var goLeft := k < t.key;
      var child := if goLeft then t.left else t.right;
      SortedSplit(Entries(t.left), Entry(t.key, t.info), Entries(t.right));
      InsertEntries(child, k, i);
      ReattachEntries(t, k, i, Insert(child, k, i));
      InsertPivots(t, k, i);
      RebalanceEntries(Reattach(t, goLeft, Insert(child, k, i)), k);
    }
  }

  /**
   * The properties insertNode keeps for the tree read at its version: a
   * balanced, ordered tree with exact heights stays so, holds the new entry
   * in its sorted place, and is never empty.
   */
  lemma InsertKeepsInvariant(t: Tree, k: int, i: CommitInfo)
    requires Avl(t) && Sorted(Entries(t))
    ensures Avl(Insert(t, k, i)) && Insert(t, k, i).Node?
    ensures Sorted(Entries(Insert(t, k, i)))
    ensures multiset(Entries(Insert(t, k, i))) == multiset(Entries(t)) + multiset{Entry(k, i)}
  {
    InsertBalanced(t, k, i);
    InsertEntries(t, k, i);
    InsertSortedSorted(Entries(t), Entry(k, i));
    InsertSortedContents(Entries(t), Entry(k, i));
  }

  /** The ordered walk of a tree splits into ordered halves around its root. */
  lemma SortedNode(t: Tree)
    requires t.Node? && Sorted(Entries(t))
    ensures Sorted(Entries(t.left)) && Sorted(Entries(t.right))
    ensures forall x :: x in Entries(t.left) ==> x.key <= t.key
    ensures forall x :: x in Entries(t.right) ==> t.key <= x.key
  {
    var l, r := Entries(t.left), Entries(t.right);
    SortedSplit(l, Entry(t.key, t.info), r);
    forall x | x in l ensures x.key <= t.key {
      var j :| 0 <= j < |l| && l[j] == x;
    }
    forall x | x in r ensures t.key <= x.key {
      var j :| 0 <= j < |r| && r[j] == x;
    }
  }

  /**
   * searchCommit (src/CommitTree.h:243-251) read at one version: stop at a
   * node holding the key, otherwise go left below a larger key and right
   * otherwise. Whatever it finds is an entry of the tree with that key.
   */
  function Search(t: Tree, k: int): (r: Option<Entry>)
    ensures r.Some? ==> r.value in Entries(t) && r.value.key == k
  {
    if t.Nil? then None
    else if k == t.key then Some(Entry(t.key, t.info))
    else if k < t.key then Search(t.left, k)
    else Search(t.right, k)
  }

  /** On an ordered tree the search misses only keys the tree does not hold. */
  lemma {:induction false} SearchComplete(t: Tree, k: int)
    requires Sorted(Entries(t))
    ensures Search(t, k).None? <==> forall x :: x in Entries(t) ==> x.key != k
  {
    if t.Node? {
      SortedNode(t);
      if k < t.key {
        SearchComplete(t.left, k);
      } else if k > t.key {
        SearchComplete(t.right, k);
      }
    }
  }

  /** `e` is an entry of `s` with the least key above `k`. */
  predicate IsSuccessor(s: seq<Entry>, k: int, e: Entry) {
    e in s && k < e.key && forall x :: x in s && k < x.key ==> e.key <= x.key
  }

  /** `e` is an entry of `s` with the greatest key below `k`. */
  predicate IsPredecessor(s: seq<Entry>, k: int, e: Entry) {
    e in s && e.key < k && forall x :: x in s && x.key < k ==> x.key <= e.key
  }
}

/**
 * Fat nodes of the partially persistent commit index (src/CommitTree.h:22-168).
 *
 * A node keeps base values for its left child, right child and height, and
 * a fixed block of MAX_MODS modification records of which the first
 * `modCount` are in use. The block is stored inside the node (a C++ array
 * member), so it is a value field here, overwritten slot by slot, and no
 * two nodes can share it. Reading a field "as of version V" starts from the
 * base value and lets every record for that field with version <= V
 * override it, so the last such record wins. An update appends a record in
 * place while there is room and otherwise snapshots the node.
 *
 * The logical tree a node denotes at a version is given by `View`, which is
 * bounded by a ghost set of nodes `S`: each step down removes the node it
 * leaves, so the walk ends however the nodes point at each other.
 */
module CommitNodes {
  import opened Options
  import opened AvlSpec

  /** Capacity of a node's modification log (src/CommitTree.h:58). */
  const MAX_MODS: int := 5

  datatype Field = LEFT | RIGHT | HEIGHT

  /** One logged change of one field (src/CommitTree.h:23-44). */
  datatype ModificationRecord = ModificationRecord(version: int, field: Field, newChild: CommitNode?, newHeight: int)

  /** The record a fresh log slot holds before it is written (src/CommitTree.h:31-33). */
  const EmptyRecord: ModificationRecord := ModificationRecord(0, LEFT, null, 0)

  class CommitNode {
    const commitCounter: int
    const fileName: string
    const diffData: string
    const commitMessage: string
    var height: int
    var left: CommitNode?
    var right: CommitNode?
    var mods: seq<ModificationRecord>
    var modCount: int

    /** The block-plus-count invariant of the log. */
    ghost predicate Valid()
      reads this
    {
      |mods| == MAX_MODS && 0 <= modCount <= MAX_MODS
    }

    /** make_shared<CommitNode>(...) (src/CommitTree.h:62-65): height 1, no children, empty log. */
    constructor (counter: int, fname: string, diff: string, msg: string)
      ensures Valid()
      ensures commitCounter == counter && fileName == fname && diffData == diff && commitMessage == msg
      ensures height == 1 && left == null && right == null && modCount == 0
    {
      commitCounter := counter;
      fileName := fname;
      diffData := diff;
      commitMessage := msg;
      height := 1;
      left := null;
      right := null;
      mods := seq(MAX_MODS, _ => EmptyRecord);
      modCount := 0;
    }

    function Info(): CommitInfo {
      CommitInfo(fileName, diffData, commitMessage)
    }

    /** The records in use, oldest first. */
    function Log(): seq<ModificationRecord>
      reads this
      requires Valid()
    {
      mods[..modCount]
    }
  }

  // ---------------------------------------------------------------------
  // Effective values: the log read as of a version

  predicate Visible(m: ModificationRecord, f: Field, version: int) {
    m.field == f && m.version <= version
  }

  /** No record of the log is newer than `version`. */
  predicate LogUpTo(log: seq<ModificationRecord>, version: int) {
    forall j :: 0 <= j < |log| ==> log[j].version <= version
  }

  /** No record the node has in use is newer than `version`. */
  ghost predicate RecordsUpTo(n: CommitNode, version: int)
    reads n
  {
    n.Valid() && LogUpTo(n.Log(), version)
  }

  /** Index of the last record for `f` whose version is at most `version`. */
  function LastVisible(log: seq<ModificationRecord>, f: Field, version: int): (r: Option<nat>)
    ensures r.Some? ==> r.value < |log|
  {
    if log == [] then None
    else if Visible(log[|log| - 1], f, version) then Some(|log| - 1)
    else LastVisible(log[..|log| - 1], f, version)
  }

  /**
   * LastVisible finds the last visible record: the one it names is visible
   * and none after it is, and when it names none, no record is visible.
   */
  lemma {:induction false} LastVisibleSpec(log: seq<ModificationRecord>, f: Field, version: int)
    ensures var r := LastVisible(log, f, version);
            (r.Some? ==> Visible(log[r.value], f, version) &&
                         forall j :: r.value < j < |log| ==> !Visible(log[j], f, version)) &&
            (r.None? ==> forall j :: 0 <= j < |log| ==> !Visible(log[j], f, version))
  {
    if log != [] && !Visible(log[|log| - 1], f, version) {
      LastVisibleSpec(log[..|log| - 1], f, version);
    }
  }

  /** A child field as of `version`: the base unless a visible record overrides it. */
  function ChildAsOf(base: CommitNode?, log: seq<ModificationRecord>, f: Field, version: int): CommitNode? {
    match LastVisible(log, f, version)
    case None => base
    case Some(j) => log[j].newChild
  }

  /** The height field as of `version`. */
  function HeightAsOf(base: int, log: seq<ModificationRecord>, version: int): int {
    match LastVisible(log, HEIGHT, version)
    case None => base
    case Some(j) => log[j].newHeight
  }

  /** Appending one record: it decides the field if visible and is ignored otherwise. */
  lemma {:induction false} LastVisibleAppend(log: seq<ModificationRecord>, m: ModificationRecord, f: Field, version: int)
    ensures LastVisible(log + [m], f, version) ==
              if Visible(m, f, version) then Some(|log|) else LastVisible(log, f, version)
  {
    assert (log + [m])[..|log|] == log;
  }

  /**
   * What an update appended in place means to every reader: at versions
   * from the record's own on, the field it names reads as the record says;
   * at earlier versions every field reads as before the append.
   */
  lemma AppendedRecord(base: CommitNode?, baseHeight: int, log: seq<ModificationRecord>, m: ModificationRecord, u: int)
    ensures m.version <= u && m.field != HEIGHT ==> ChildAsOf(base, log + [m], m.field, u) == m.newChild
    ensures m.version <= u && m.field == HEIGHT ==> HeightAsOf(baseHeight, log + [m], u) == m.newHeight
    ensures u < m.version ==>
              ChildAsOf(base, log + [m], LEFT, u) == ChildAsOf(base, log, LEFT, u) &&
              ChildAsOf(base, log + [m], RIGHT, u) == ChildAsOf(base, log, RIGHT, u) &&
              HeightAsOf(baseHeight, log + [m], u) == HeightAsOf(baseHeight, log, u)
  {
    LastVisibleAppend(log, m, LEFT, u);
    LastVisibleAppend(log, m, RIGHT, u);
    LastVisibleAppend(log, m, HEIGHT, u);
  }

  /**
   * Records for `f` stamped with versions outside (v1, v2] are the only
   * ones, so reading at v1 and at v2 agree: nothing new becomes visible
   * between two consecutive modification versions.
   */
  lemma {:induction false} LastVisibleStable(log: seq<ModificationRecord>, f: Field, v1: int, v2: int)
    requires v1 <= v2
    requires forall j :: 0 <= j < |log| && log[j].field == f ==> log[j].version <= v1 || v2 < log[j].version
    ensures LastVisible(log, f, v1) == LastVisible(log, f, v2)
  {
    if log != [] {
      LastVisibleStable(log[..|log| - 1], f, v1, v2);
    }
  }

  /** Versions above every record see the whole log: all of them read alike. */
  lemma LastVisibleBeyond(log: seq<ModificationRecord>, f: Field, w: int, version: int)
    requires w <= version
    requires LogUpTo(log, w)
    ensures LastVisible(log, f, version) == LastVisible(log, f, w)
  {
    LastVisibleStable(log, f, w, version);
  }

  /** getLeft (src/CommitTree.h:70-79) as a specification: null for null. */
  function EffLeft(n: CommitNode?, version: int): CommitNode?
    requires n != null ==> n.Valid()
    reads n
  {
    if n == null then null else ChildAsOf(n.left, n.Log(), LEFT, version)
  }

  /** getRight (src/CommitTree.h:83-92) as a specification. */
  function EffRight(n: CommitNode?, version: int): CommitNode?
    requires n != null ==> n.Valid()
    reads n
  {
    if n == null then null else ChildAsOf(n.right, n.Log(), RIGHT, version)
  }

  /** getHeight (src/CommitTree.h:96-105) as a specification: 0 for null. */
  function EffHeight(n: CommitNode?, version: int): int
    requires n != null ==> n.Valid()
    reads n
  {
    if n == null then 0 else HeightAsOf(n.height, n.Log(), version)
  }

  // ---------------------------------------------------------------------
  // The accessors

  method GetLeft(node: CommitNode?, version: int) returns (result: CommitNode?)
    requires node != null ==> node.Valid()
    ensures result == EffLeft(node, version)
  {
    if node == null {
      return null;
    }
    result := node.left;
    var i := 0;
    while i < node.modCount
      invariant 0 <= i <= node.modCount
      invariant result == ChildAsOf(node.left, node.mods[..i], LEFT, version)
    {
      assert node.mods[..i + 1] == node.mods[..i] + [node.mods[i]];
      LastVisibleAppend(node.mods[..i], node.mods[i], LEFT, version);
      if node.mods[i].field == LEFT && node.mods[i].version <= version {
        result := node.mods[i].newChild;
      }
      i := i + 1;
    }
  }

  method GetRight(node: CommitNode?, version: int) returns (result: CommitNode?)
    requires node != null ==> node.Valid()
    ensures result == EffRight(node, version)
  {
    if node == null {
      return null;
    }
    result := node.right;
    var i := 0;
    while i < node.modCount
      invariant 0 <= i <= node.modCount
      invariant result == ChildAsOf(node.right, node.mods[..i], RIGHT, version)
    {
      assert node.mods[..i + 1] == node.mods[..i] + [node.mods[i]];
      LastVisibleAppend(node.mods[..i], node.mods[i], RIGHT, version);
      if node.mods[i].field == RIGHT && node.mods[i].version <= version {
        result := node.mods[i].newChild;
      }
      i := i + 1;
    }
  }

  method GetHeight(node: CommitNode?, version: int) returns (result: int)
    requires node != null ==> node.Valid()
    ensures result == EffHeight(node, version)
  {
    if node == null {
      return 0;
    }
    result := node.height;
    var i := 0;
    while i < node.modCount
      invariant 0 <= i <= node.modCount
      invariant result == HeightAsOf(node.height, node.mods[..i], version)
    {
      assert node.mods[..i + 1] == node.mods[..i] + [node.mods[i]];
      LastVisibleAppend(node.mods[..i], node.mods[i], HEIGHT, version);
      if node.mods[i].field == HEIGHT && node.mods[i].version <= version {
        result := node.mods[i].newHeight;
      }
      i := i + 1;
    }
  }

  // ---------------------------------------------------------------------
  // Snapshot and bounded-log updates

  /**
   * copyFullNode (src/CommitTree.h:109-117): a new node with the same key
   * and payload whose base fields are the effective values at `version`
   * and whose log is empty. The input is not touched.
   */
  method CopyFullNode(node: CommitNode?, version: int) returns (newNode: CommitNode?)
    requires node != null ==> node.Valid()
    ensures node == null ==> newNode == null
    ensures node != null ==>
              newNode != null && fresh(newNode) && newNode.Valid() &&
              newNode.modCount == 0 &&
              newNode.commitCounter == node.commitCounter && newNode.Info() == node.Info() &&
              newNode.left == EffLeft(node, version) && newNode.right == EffRight(node, version) &&
              newNode.height == EffHeight(node, version)
  {
    if node == null {
      return null;
    }
    newNode := new CommitNode(node.commitCounter, node.fileName, node.diffData, node.commitMessage);
    var l := GetLeft(node, version);
    var r := GetRight(node, version);
    var h := GetHeight(node, version);
    newNode.left := l;
    newNode.right := r;
    newNode.height := h;
    newNode.modCount := 0;
  }

  /**
   * The in-place branch shared by the three updates (src/CommitTree.h:125-126,
   * 142-143, 159-160): `m` goes to slot `modCount` and the count grows; the
   * base fields stay.
   */
  method AppendRecord(node: CommitNode, m: ModificationRecord)
    requires node.Valid() && node.modCount < MAX_MODS
    modifies node
    ensures node.Valid() && node.modCount == old(node.modCount) + 1
    ensures node.Log() == old(node.Log()) + [m]
    ensures node.left == old(node.left) && node.right == old(node.right) && node.height == old(node.height)
  {
    node.mods := node.mods[node.modCount := m];
    node.modCount := node.modCount + 1;
    assert node.Log() == old(node.Log()) + [m];
  }

  /**
   * updateLeft (src/CommitTree.h:121-134). With room in the log the record
   * goes to slot `modCount` and the same node is returned; a full node is
   * left alone and a snapshot carrying the new left child is returned.
   */
  method UpdateLeft(node: CommitNode?, newLeft: CommitNode?, version: int) returns (r: CommitNode?)
    requires node != null ==> node.Valid()
    modifies node
    ensures node == null ==> r == null
    ensures node != null ==> r != null && r.Valid() && r.commitCounter == node.commitCounter && r.Info() == node.Info()
    ensures node != null && old(RecordsUpTo(node, version)) ==> RecordsUpTo(r, version)
    ensures node != null ==>
              EffLeft(r, version) == newLeft &&
              EffRight(r, version) == old(EffRight(node, version)) &&
              EffHeight(r, version) == old(EffHeight(node, version))
    ensures node != null && old(node.modCount) < MAX_MODS ==>
              r == node && node.modCount == old(node.modCount) + 1 &&
              node.Log() == old(node.Log()) + [ModificationRecord(version, LEFT, newLeft, 0)] &&
              node.left == old(node.left) && node.right == old(node.right) && node.height == old(node.height)
    ensures node != null && old(node.modCount) == MAX_MODS ==>
              fresh(r) && unchanged(node) && r.modCount == 0 &&
              r.left == newLeft && r.right == old(EffRight(node, version)) && r.height == old(EffHeight(node, version))
  {
    if node == null {
      return null;
    }
    if node.modCount < MAX_MODS {
      ghost var log := node.Log();
      var m := ModificationRecord(version, LEFT, newLeft, 0);
      AppendRecord(node, m);
      LastVisibleAppend(log, m, LEFT, version);
      LastVisibleAppend(log, m, RIGHT, version);
      LastVisibleAppend(log, m, HEIGHT, version);
      return node;
    } else {
      r := CopyFullNode(node, version);
      r.left := newLeft;
      return r;
    }
  }

  /** updateRight (src/CommitTree.h:138-151), the same for the right child. */
  method UpdateRight(node: CommitNode?, newRight: CommitNode?, version: int) returns (r: CommitNode?)
    requires node != null ==> node.Valid()
    modifies node
    ensures node == null ==> r == null
    ensures node != null ==> r != null && r.Valid() && r.commitCounter == node.commitCounter && r.Info() == node.Info()
    ensures node != null && old(RecordsUpTo(node, version)) ==> RecordsUpTo(r, version)
    ensures node != null ==>
              EffLeft(r, version) == old(EffLeft(node, version)) &&
              EffRight(r, version) == newRight &&
              EffHeight(r, version) == old(EffHeight(node, version))
    ensures node != null && old(node.modCount) < MAX_MODS ==>
              r == node && node.modCount == old(node.modCount) + 1 &&
              node.Log() == old(node.Log()) + [ModificationRecord(version, RIGHT, newRight, 0)] &&
              node.left == old(node.left) && node.right == old(node.right) && node.height == old(node.height)
    ensures node != null && old(node.modCount) == MAX_MODS ==>
              fresh(r) && unchanged(node) && r.modCount == 0 &&
              r.left == old(EffLeft(node, version)) && r.right == newRight && r.height == old(EffHeight(node, version))
  {
    if node == null {
      return null;
    }
    if node.modCount < MAX_MODS {
      ghost var log := node.Log();
      var m := ModificationRecord(version, RIGHT, newRight, 0);
      AppendRecord(node, m);
      LastVisibleAppend(log, m, LEFT, version);
      LastVisibleAppend(log, m, RIGHT, version);
      LastVisibleAppend(log, m, HEIGHT, version);
      return node;
    } else {
      r := CopyFullNode(node, version);
      r.right := newRight;
      return r;
    }
  }

  /** updateHeight (src/CommitTree.h:155-168), the same for the height. */
  method UpdateHeight(node: CommitNode?, version: int, newHeight: int) returns (r: CommitNode?)
    requires node != null ==> node.Valid()
    modifies node
    ensures node == null ==> r == null
    ensures node != null ==> r != null && r.Valid() && r.commitCounter == node.commitCounter && r.Info() == node.Info()
    ensures node != null && old(RecordsUpTo(node, version)) ==> RecordsUpTo(r, version)
    ensures node != null ==>
              EffLeft(r, version) == old(EffLeft(node, version)) &&
              EffRight(r, version) == old(EffRight(node, version)) &&
              EffHeight(r, version) == newHeight
    ensures node != null && old(node.modCount) < MAX_MODS ==>
              r == node && node.modCount == old(node.modCount) + 1 &&
              node.Log() == old(node.Log()) + [ModificationRecord(version, HEIGHT, null, newHeight)] &&
              node.left == old(node.left) && node.right == old(node.right) && node.height == old(node.height)
    ensures node != null && old(node.modCount) == MAX_MODS ==>
              fresh(r) && unchanged(node) && r.modCount == 0 &&
              r.left == old(EffLeft(node, version)) && r.right == old(EffRight(node, version)) && r.height == newHeight
  {
    if node == null {
      return null;
    }
    if node.modCount < MAX_MODS {
      ghost var log := node.Log();
      var m := ModificationRecord(version, HEIGHT, null, newHeight);
      AppendRecord(node, m);
      LastVisibleAppend(log, m, LEFT, version);
      LastVisibleAppend(log, m, RIGHT, version);
      LastVisibleAppend(log, m, HEIGHT, version);
      return node;
    } else {
      r := CopyFullNode(node, version);
      r.height := newHeight;
      return r;
    }
  }

  // ---------------------------------------------------------------------
  // The tree a node denotes at a version

  /** The three version-gated fields of a node, read at one version. */
  datatype Fields = Fields(left: CommitNode?, right: CommitNode?, height: int)

  /** What getLeft, getRight and getHeight return for `n` at `version`. */
  ghost function FieldsOf(n: CommitNode, version: int): Fields
    reads n
  {
    if n.Valid() then Fields(EffLeft(n, version), EffRight(n, version), EffHeight(n, version))
    else Fields(null, null, 0)
  }

  /**
   * The ghost map `M` holds, for every node it names, the fields the
   * node has now at `version`.
   */
  ghost predicate Mirrors(M: map<CommitNode, Fields>, version: int)
    reads M.Keys
  {
    forall n {:trigger FieldsOf(n, version)} :: n in M ==> n.Valid() && M[n] == FieldsOf(n, version)
  }

  /** Reads one node of a mirrored map back from the heap. */
  lemma Mirror(M: map<CommitNode, Fields>, version: int, n: CommitNode)
    requires Mirrors(M, version) && n in M
    ensures n.Valid() && M[n] == FieldsOf(n, version)
  {
    assert M[n] == FieldsOf(n, version);
  }

  /**
   * Every node of `M` holds only records up to `version`, as after
   * insertions at versions up to it.
   */
  ghost predicate Settled(M: map<CommitNode, Fields>, version: int)
    reads M.Keys
  {
    forall n {:trigger RecordsUpTo(n, version)} :: n in M ==> RecordsUpTo(n, version)
  }

  /**
   * A settled map read at `v` reads the same at every later version: the
   * tree one insertion leaves is the tree the next, later one starts from.
   */
  lemma MirrorsLater(M: map<CommitNode, Fields>, v: int, w: int)
    requires Mirrors(M, v) && Settled(M, v) && v <= w
    ensures Mirrors(M, w) && Settled(M, w)
  {
    forall n | n in M ensures n.Valid() && M[n] == FieldsOf(n, w) && RecordsUpTo(n, w) {
      Mirror(M, v, n);
      assert RecordsUpTo(n, v);
      LastVisibleBeyond(n.Log(), LEFT, v, w);
      LastVisibleBeyond(n.Log(), RIGHT, v, w);
      LastVisibleBeyond(n.Log(), HEIGHT, v, w);
    }
  }

  /**
   * Everything reached from `n` through the children `M` records lies in
   * `S`, and no node is met twice on a path.
   */
  ghost predicate Closed(M: map<CommitNode, Fields>, n: CommitNode?, S: set<CommitNode>)
    decreases S
  {
    n == null ||
    (n in S && n in M && Closed(M, M[n].left, S - {n}) && Closed(M, M[n].right, S - {n}))
  }

  /** The logical tree below `n` in the node states `M`. */
  ghost function View(M: map<CommitNode, Fields>, n: CommitNode?, S: set<CommitNode>): Tree
    requires Closed(M, n, S)
    decreases S
  {
    if n == null then Nil
    else Node(View(M, M[n].left, S - {n}), n.commitCounter, n.Info(), View(M, M[n].right, S - {n}), M[n].height)
  }

  /** A larger bounding set changes neither closedness nor the tree. */
  lemma {:induction false} ClosedGrow(M: map<CommitNode, Fields>, n: CommitNode?, S: set<CommitNode>, S': set<CommitNode>)
    requires Closed(M, n, S) && S <= S'
    ensures Closed(M, n, S') && View(M, n, S') == View(M, n, S)
    decreases S
  {
    if n != null {
      ClosedGrow(M, M[n].left, S - {n}, S' - {n});
      ClosedGrow(M, M[n].right, S - {n}, S' - {n});
    }
  }

  /** The node itself as a set, or nothing for null. */
  function Only(n: CommitNode?): set<CommitNode> {
    if n == null then {} else {n}
  }

  /**
   * `M'` knows every node of `M` and holds each node outside `E` in the
   * state `M` records.
   */
  ghost predicate Extends(M: map<CommitNode, Fields>, M': map<CommitNode, Fields>, E: set<CommitNode>) {
    M.Keys <= M'.Keys && forall m :: m in M && m !in E ==> M'[m] == M[m]
  }

  /** Two extensions in a row change at most what either may change among the nodes of `M0`. */
  lemma ExtendsChain(M0: map<CommitNode, Fields>, M1: map<CommitNode, Fields>, M2: map<CommitNode, Fields>,
                     E1: set<CommitNode>, E2: set<CommitNode>, E: set<CommitNode>)
    requires Extends(M0, M1, E1) && Extends(M1, M2, E2)
    requires E1 * M0.Keys <= E && E2 * M0.Keys <= E
    ensures Extends(M0, M2, E)
  {
  }

  /** New nodes gathered over two steps are new to the first map. */
  lemma NewNodes(K: set<CommitNode>, K1: set<CommitNode>, N1: set<CommitNode>, x: CommitNode, N2: set<CommitNode>)
    requires K <= K1 && N1 !! K && x !in K && N2 !! K1
    ensures N1 + {x} + N2 !! K
  {
  }

  /** `M'` holds the same state as `M` for every node of `S` that `M` names. */
  ghost predicate Agree(M: map<CommitNode, Fields>, M': map<CommitNode, Fields>, S: set<CommitNode>) {
    forall m :: m in S && m in M ==> m in M' && M'[m] == M[m]
  }

  /** A closed tree whose nodes kept their state denotes the same tree. */
  lemma {:induction false} Kept(M: map<CommitNode, Fields>, M': map<CommitNode, Fields>, n: CommitNode?, S: set<CommitNode>)
    requires Closed(M, n, S) && Agree(M, M', S)
    ensures Closed(M', n, S) && View(M', n, S) == View(M, n, S)
    decreases S
  {
    if n != null {
      Kept(M, M', M[n].left, S - {n});
      Kept(M, M', M[n].right, S - {n});
    }
  }

  /** A node outside `A` whose children are closed in `A` is closed in `A + {n}`. */
  lemma Assemble(M: map<CommitNode, Fields>, n: CommitNode, A: set<CommitNode>)
    requires n !in A && n in M && Closed(M, M[n].left, A) && Closed(M, M[n].right, A)
    ensures Closed(M, n, A + {n})
    ensures View(M, n, A + {n}) == Node(View(M, M[n].left, A), n.commitCounter, n.Info(), View(M, M[n].right, A), M[n].height)
  {
    assert (A + {n}) - {n} == A;
  }

  /**
   * The children of a closed node are closed in any set that still holds
   * everything below it, and the node's tree is built from theirs.
   */
  lemma Peel(M: map<CommitNode, Fields>, n: CommitNode, S: set<CommitNode>, S': set<CommitNode>)
    requires Closed(M, n, S) && S - {n} <= S'
    ensures n in S && n in M && Closed(M, M[n].left, S') && Closed(M, M[n].right, S')
    ensures View(M, n, S) == Node(View(M, M[n].left, S'), n.commitCounter, n.Info(), View(M, M[n].right, S'), M[n].height)
  {
    ClosedGrow(M, M[n].left, S - {n}, S');
    ClosedGrow(M, M[n].right, S - {n}, S');
  }
}

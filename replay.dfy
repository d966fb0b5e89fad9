/**
 * The replay of the plugin (src/PluginDefinition.cpp:715-753) and the
 * corrected rollback run against the persistent tree itself: each taken
 * name goes through insertNode with its number as version, and the tree
 * read at the counter's version is the replay of the listing.
 */
module Replay {
  import opened AvlSpec
  import opened Plugin
  import CommitNodes
  import CommitTree

  /**
   * The listing never gives a smaller number after a larger one, so the
   * versions insertNode stamps do not go down from one insertion to the next.
   */
  predicate NumbersAscending(files: seq<string>) {
    forall i, j :: 0 <= i < j < |files| && AcceptedNumber(files[i]).Some? && AcceptedNumber(files[j]).Some? ==>
      AcceptedNumber(files[i]).value <= AcceptedNumber(files[j]).value
  }

  /** Every number read from the listing is at least `v`. */
  predicate NumbersFrom(files: seq<string>, v: int) {
    forall j :: 0 <= j < |files| && AcceptedNumber(files[j]).Some? ==> v <= AcceptedNumber(files[j]).value
  }

  /** A version no later than 0 and than any number read from the listing. */
  function NumbersFloor(files: seq<string>): (v: int)
    ensures v <= 0 && NumbersFrom(files, v)
  {
    if files == [] then 0
    else
      var w := NumbersFloor(files[..|files| - 1]);
      var last := AcceptedNumber(files[|files| - 1]);
      assert forall j :: 0 <= j < |files| - 1 ==> files[j] == files[..|files| - 1][j];
      if last.Some? && last.value < w then last.value else w
  }

  /**
   * InitializeCommitTree: every taken name is inserted into the current
   * tree under its number with its side files, through insertNode at that
   * number as version; the largest number is tracked from 0 and the
   * counter becomes one more than it. When the numbers arrive in order,
   * no earlier than the versions of the tree already loaded, the tree read
   * at the new counter's version (or the old tree's, if later) is the
   * replay of the listing into the old one; no node that existed before is
   * changed.
   */
  method InitializeCommitTree(files: seq<string>, root0: CommitNodes.CommitNode?,
                              diffOf: int -> string, msgOf: int -> string, ghost v0: int,
                              ghost M0: map<CommitNodes.CommitNode, CommitNodes.Fields>,
                              ghost S0: set<CommitNodes.CommitNode>)
    returns (root: CommitNodes.CommitNode?, counter: int,
             ghost M: map<CommitNodes.CommitNode, CommitNodes.Fields>, ghost S: set<CommitNodes.CommitNode>)
    requires CommitNodes.Mirrors(M0, v0) && CommitNodes.Settled(M0, v0) && CommitNodes.Closed(M0, root0, S0)
    requires Avl(CommitNodes.View(M0, root0, S0)) && Sorted(Entries(CommitNodes.View(M0, root0, S0)))
    requires NumbersAscending(files) && NumbersFrom(files, v0)
    ensures counter == ReplayCounter(files)
    ensures CommitNodes.Mirrors(M, Max(v0, counter - 1)) && CommitNodes.Settled(M, Max(v0, counter - 1))
    ensures CommitNodes.Closed(M, root, S)
    ensures CommitNodes.View(M, root, S) == ReplayTree(CommitNodes.View(M0, root0, S0), files, diffOf, msgOf)
  {
    ghost var t0 := CommitNodes.View(M0, root0, S0);
    ghost var v := v0;
    root, M, S := root0, M0, S0;
    var maxCommit := 0;
    for i := 0 to |files|
      invariant v0 <= v <= Max(v0, maxCommit)
      invariant CommitNodes.Mirrors(M, v) && CommitNodes.Settled(M, v) && CommitNodes.Closed(M, root, S)
      invariant CommitNodes.View(M, root, S) == ReplayTree(t0, files[..i], diffOf, msgOf)
      invariant forall j :: i <= j < |files| && AcceptedNumber(files[j]).Some? ==> v <= AcceptedNumber(files[j]).value
      invariant maxCommit == MaxOr0(Accepted(files[..i]))
    {
      assert files[..i + 1][..i] == files[..i];
      ghost var acc := Accepted(files[..i]);
      var file := files[i];
      var numText := AcceptedNumberText(file);
      if numText.Some? {
        var commitNum := Atoi(numText.value);
        assert Accepted(files[..i + 1]) == acc + [commitNum];
        assert (acc + [commitNum])[..|acc|] == acc;
        var diffData := diffOf(commitNum);
        var commitMsg := msgOf(commitNum);
        ReplayKeepsInvariant(t0, files[..i], diffOf, msgOf);
        CommitNodes.MirrorsLater(M, v, commitNum);
        ghost var N;
        root, M, N := CommitTree.InsertNode(root, commitNum, file, diffData, commitMsg, M, S);
        S, v := S + N, commitNum;
        if commitNum > maxCommit {
          maxCommit := commitNum;
        }
      } else {
        assert Accepted(files[..i + 1]) == acc;
      }
    }
    assert files[..|files|] == files;
    counter := maxCommit + 1;
    CommitNodes.MirrorsLater(M, v, Max(v0, counter - 1));
  }

  /** Deleting names keeps the rest of the listing in order. */
  lemma {:induction false} SurvivingAscending(listing: seq<string>, lo: int, hi: int)
    requires NumbersAscending(listing)
    ensures NumbersAscending(Surviving(listing, lo, hi))
  {
    if listing != [] {
      var prefix, f := listing[..|listing| - 1], listing[|listing| - 1];
      assert forall j :: 0 <= j < |prefix| ==> prefix[j] == listing[j];
      SurvivingAscending(prefix, lo, hi);
      var a := Surviving(prefix, lo, hi);
      if !DeletedName(f, lo, hi) {
        var s := a + [f];
        assert Surviving(listing, lo, hi) == s;
        SurvivingMembers(prefix, lo, hi);
        forall i, j | 0 <= i < j < |s| && AcceptedNumber(s[i]).Some? && AcceptedNumber(s[j]).Some?
          ensures AcceptedNumber(s[i]).value <= AcceptedNumber(s[j]).value
        {
          assert s[i] == a[i];
          if j < |a| {
            assert s[j] == a[j];
          } else {
            assert a[i] in prefix;
            var k :| 0 <= k < |prefix| && prefix[k] == a[i];
            assert listing[k] == s[i] && listing[|listing| - 1] == s[j];
          }
        }
      }
    }
  }

  /**
   * The rollback with the tree emptied before the replay, as the reload
   * after a change of repository does (src/PluginDefinition.cpp:584-585):
   * the tree read at the new counter's version is the replay of the
   * remaining names alone.
   */
  method Rollback(rollbackCommit: int, counter: int, listing: seq<string>,
                  diffOf: int -> string, msgOf: int -> string)
    returns (listing': seq<string>, root: CommitNodes.CommitNode?, counter': int,
             ghost M: map<CommitNodes.CommitNode, CommitNodes.Fields>, ghost S: set<CommitNodes.CommitNode>)
    requires NumbersAscending(listing)
    ensures listing' == Surviving(listing, rollbackCommit, counter)
    ensures counter' == ReplayCounter(listing')
    ensures CommitNodes.Mirrors(M, counter' - 1) && CommitNodes.Settled(M, counter' - 1)
    ensures CommitNodes.Closed(M, root, S) && CommitNodes.View(M, root, S) == ReplayTree(Nil, listing', diffOf, msgOf)
  {
    listing' := DeleteNewerCommits(listing, rollbackCommit, counter);
    counter' := rollbackCommit + 1;
    SurvivingAscending(listing, rollbackCommit, counter);
    ghost var v0 := NumbersFloor(listing');
    root, counter', M, S := InitializeCommitTree(listing', null, diffOf, msgOf, v0, map[], {});
    MaxOr0Bounds(Accepted(listing'));
  }
}

/**
 * The two pieces of repository reading that carry a rule of their own:
 * which tree paths become files of the graph (paths mentioning "test" are
 * dropped), and which path each commit contributes per diff entry.
 * Walking trees and computing diffs is done by the version-control library;
 * here its results are given as plain sequences.
 */
module RepositoryInput {
  import opened Seqs

  /** The change kinds a diff entry can carry. */
  datatype ChangeType = Add | Modify | Delete | Rename | Copy

  /** One entry of the diff between a commit and its first parent. */
  datatype DiffEntry = DiffEntry(changeType: ChangeType, oldPath: Path, newPath: Path)

  /**
   * What the core sees of a commit: how many parents it has, the paths of its
   * tree (read when it has none) and the diff entries against its first
   * parent (read otherwise).
   */
  datatype Commit = Commit(parentCount: nat, tree: seq<Path>, diffs: seq<DiffEntry>)

  /** `t` occurs in `s` starting at position `i`. */
  predicate OccursAt(s: string, t: string, i: nat)
  {
    i + |t| <= |s| && s[i..i + |t|] == t
  }

  /**
   * The first position at or after `from` where `t` occurs in `s`, or -1
   * when there is none (the behaviour of Java's `String.indexOf`).
   */
  function IndexOfFrom(s: string, t: string, from: nat): (r: int)
    ensures r == -1 || (from <= r && OccursAt(s, t, r))
    ensures r == -1 ==> forall k: nat :: from <= k ==> !OccursAt(s, t, k)
    ensures r != -1 ==> forall k: nat :: from <= k < r ==> !OccursAt(s, t, k)
    decreases |s| - from
  {
    if from + |t| > |s| then -1
    else if s[from..from + |t|] == t then from
    else IndexOfFrom(s, t, from + 1)
  }

  function IndexOf(s: string, t: string): int
  {
    IndexOfFrom(s, t, 0)
  }

  /** A tree path is left out of the graph when "test" occurs anywhere in it. */
  predicate IsTestPath(p: Path)
  {
    IndexOf(p, "test") >= 0
  }

  lemma IsTestPathMeans(p: Path)
    ensures IsTestPath(p) <==> exists k: nat :: OccursAt(p, "test", k)
  {
  }

  /** The tree paths that are not test paths, in tree order. */
  function NonTestPaths(tree: seq<Path>): seq<Path>
  {
    if tree == [] then []
    else
      var rest := NonTestPaths(tree[..|tree| - 1]);
      if IsTestPath(tree[|tree| - 1]) then rest else rest + [tree[|tree| - 1]]
  }

  /**
   * Filtering keeps every non-test path as often as the tree has it and drops
   * every test path.
   */
  lemma {:induction false} NonTestPathsCount(tree: seq<Path>, p: Path)
    ensures Count(NonTestPaths(tree), p) == if IsTestPath(p) then 0 else Count(tree, p)
  {
    if tree != [] {
      var init, last := tree[..|tree| - 1], tree[|tree| - 1];
      NonTestPathsCount(init, p);
      if !IsTestPath(last) {
        CountSnoc(NonTestPaths(init), p, last);
      }
    }
  }

  /** Membership: exactly the tree paths without "test" survive. */
  lemma NonTestPathsMembers(tree: seq<Path>, p: Path)
    ensures p in NonTestPaths(tree) <==> p in tree && !IsTestPath(p)
  {
    NonTestPathsCount(tree, p);
  }

  /** A tree without repeated paths yields a file list without repeated paths. */
  lemma {:induction false} NonTestPathsDistinct(tree: seq<Path>)
    requires Distinct(tree)
    ensures Distinct(NonTestPaths(tree))
  {
    if tree != [] {
      var init, last := tree[..|tree| - 1], tree[|tree| - 1];
      assert Distinct(init);
      NonTestPathsDistinct(init);
      if !IsTestPath(last) {
        var rest := NonTestPaths(init);
        forall i | 0 <= i < |init| ensures init[i] != last {
          assert init[i] == tree[i];
        }
        NonTestPathsMembers(init, last);
        assert last !in rest;
        forall i, j | 0 <= i < j < |rest + [last]|
          ensures (rest + [last])[i] != (rest + [last])[j]
        {
          if j == |rest| {
            assert (rest + [last])[i] == rest[i];
          }
        }
      }
    }
  }

  /**
   * The file list read at the head commit: one pass over the tree paths,
   * keeping those that do not mention "test".
   */
  method FilesInRepository(tree: seq<Path>) returns (files: seq<Path>)
    ensures files == NonTestPaths(tree)
  {
    files := [];
    var i := 0;
    while i < |tree|
      invariant 0 <= i <= |tree|
      invariant files == NonTestPaths(tree[..i])
    {
      assert tree[..i + 1][..i] == tree[..i];
      if IndexOf(tree[i], "test") < 0 {
        files := files + [tree[i]];
      }
      i := i + 1;
    }
    assert tree[..i] == tree;
  }

  /** The path one diff entry contributes: the old one for a deletion, else the new one. */
  function EntryPath(d: DiffEntry): Path
  {
    if d.changeType == Delete then d.oldPath else d.newPath
  }

  /** The paths of a list of diff entries, one per entry and in order. */
  function EntryPaths(diffs: seq<DiffEntry>): (r: seq<Path>)
    ensures |r| == |diffs|
    ensures forall i :: 0 <= i < |diffs| ==>
      r[i] == (if diffs[i].changeType == Delete then diffs[i].oldPath else diffs[i].newPath)
  {
    if diffs == [] then []
    else EntryPaths(diffs[..|diffs| - 1]) + [EntryPath(diffs[|diffs| - 1])]
  }

  /** The paths a commit changed: its whole tree for a root commit, else one path per diff entry. */
  function ChangedPaths(c: Commit): seq<Path>
  {
    if c.parentCount == 0 then c.tree else EntryPaths(c.diffs)
  }

  /** A renamed or copied file is counted under its new path only. */
  lemma RenameUsesNewPath(diffs: seq<DiffEntry>, i: nat)
    requires i < |diffs| && diffs[i].changeType in {Rename, Copy}
    ensures EntryPaths(diffs)[i] == diffs[i].newPath
  {
  }

  /** The changed-path list of one commit, built entry by entry. */
  method ChangedFilesInCommit(c: Commit) returns (paths: seq<Path>)
    ensures c.parentCount == 0 ==> paths == c.tree
    ensures c.parentCount != 0 ==> |paths| == |c.diffs|
    ensures c.parentCount != 0 ==> forall i :: 0 <= i < |c.diffs| ==>
      paths[i] == (if c.diffs[i].changeType == Delete then c.diffs[i].oldPath else c.diffs[i].newPath)
    ensures paths == ChangedPaths(c)
  {
    paths := [];
    if c.parentCount == 0 {
      var i := 0;
      while i < |c.tree|
        invariant 0 <= i <= |c.tree|
        invariant paths == c.tree[..i]
      {
        paths := paths + [c.tree[i]];
        i := i + 1;
      }
      assert c.tree[..i] == c.tree;
    } else {
      var i := 0;
      while i < |c.diffs|
        invariant 0 <= i <= |c.diffs|
        invariant paths == EntryPaths(c.diffs[..i])
      {
        assert c.diffs[..i + 1][..i] == c.diffs[..i];
        if c.diffs[i].changeType == Delete {
          paths := paths + [c.diffs[i].oldPath];
        } else {
          paths := paths + [c.diffs[i].newPath];
        }
        i := i + 1;
      }
      assert c.diffs[..i] == c.diffs;
    }
  }
}

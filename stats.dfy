/** `calculateStats`: the number of folder and file nodes in a subtree. */
module Stats {
  import opened Paths
  import opened FileTree

  /** The slugs of the subtree rooted at `s`, `s` included. */
  ghost function Subtree(t: Tree, s: string): set<string>
  {
    set k | k in t && Below(s, k)
  }

  ghost function FoldersIn(t: Tree, ks: set<string>): set<string>
  {
    set k | k in ks && k in t && t[k].isFolder
  }

  ghost function FilesIn(t: Tree, ks: set<string>): set<string>
  {
    set k | k in ks && k in t && !t[k].isFolder
  }

  /** The nodes counted once the loop of `calculateStats(s)` has added the
      first `i` children: `s` itself and those children's subtrees. */
  ghost function Counted(t: Tree, s: string, cs: seq<string>, i: nat): set<string>
    requires i <= |cs|
  {
    set k | k in t && (k == s || exists j :: 0 <= j < i && Below(cs[j], k))
  }

  /** Counting two disjoint sets of nodes adds up. */
  lemma CountDisjoint(t: Tree, a: set<string>, b: set<string>)
    requires a * b == {}
    ensures |FoldersIn(t, a + b)| == |FoldersIn(t, a)| + |FoldersIn(t, b)|
    ensures |FilesIn(t, a + b)| == |FilesIn(t, a)| + |FilesIn(t, b)|
  {
    assert FoldersIn(t, a + b) == FoldersIn(t, a) + FoldersIn(t, b);
    assert FoldersIn(t, a) * FoldersIn(t, b) == {};
    assert FilesIn(t, a + b) == FilesIn(t, a) + FilesIn(t, b);
    assert FilesIn(t, a) * FilesIn(t, b) == {};
  }

  /** Before the loop only the node itself is counted. */
  lemma CountedStart(t: Tree, s: string)
    requires s in t
    ensures |FoldersIn(t, Counted(t, s, t[s].children, 0))| == if t[s].isFolder then 1 else 0
    ensures |FilesIn(t, Counted(t, s, t[s].children, 0))| == if t[s].isFolder then 0 else 1
  {
    assert Counted(t, s, t[s].children, 0) == {s};
    assert FoldersIn(t, {s}) == if t[s].isFolder then {s} else {};
    assert FilesIn(t, {s}) == if t[s].isFolder then {} else {s};
  }

  /** One more child adds its subtree, which no earlier step has counted. */
  lemma CountedStep(t: Tree, s: string, i: nat)
    requires Valid(t) && s in t && i < |t[s].children|
    ensures Counted(t, s, t[s].children, i + 1) == Counted(t, s, t[s].children, i) + Subtree(t, t[s].children[i])
    ensures Counted(t, s, t[s].children, i) * Subtree(t, t[s].children[i]) == {}
  {
    var cs := t[s].children;
    assert NodeOk(t, s);
    assert Counted(t, s, cs, i + 1) == Counted(t, s, cs, i) + Subtree(t, cs[i]) by {
      forall k | k in t && Below(cs[i], k) ensures k in Counted(t, s, cs, i + 1) { }
    }
    forall k | k in Counted(t, s, cs, i) && k in Subtree(t, cs[i]) ensures false {
      if k == s {
        ChildNotAbove(t, s, cs[i]);
      } else {
        var j :| 0 <= j < i && Below(cs[j], k);
        ChildrenDisjoint(t, s, cs[j], cs[i], k);
        DistinctIndex(cs, j, i);
      }
    }
  }

  /** After the last child the whole subtree has been counted. */
  lemma CountedAll(t: Tree, s: string)
    requires Valid(t) && s in t
    ensures Counted(t, s, t[s].children, |t[s].children|) == Subtree(t, s)
  {
    var cs := t[s].children;
    forall k | k in t ensures k in Counted(t, s, cs, |cs|) <==> k in Subtree(t, s) {
      SubtreeOfChildren(t, s, cs, k);
    }
  }

  /** `calculateStats(node)`: one for the node itself, by kind, plus the
      counts of each child's subtree. */
  method CalculateStats(t: Tree, s: string) returns (folders: nat, files: nat)
    requires Valid(t) && s in t
    ensures folders == |FoldersIn(t, Subtree(t, s))|
    ensures files == |FilesIn(t, Subtree(t, s))|
    decreases Height(t) - t[s].level
  {
    folders, files := 0, 0;
    if t[s].isFolder {
      folders := 1;
    } else {
      files := 1;
    }
    var children := t[s].children;
    CountedStart(t, s);
    for i := 0 to |children|
      invariant folders == |FoldersIn(t, Counted(t, s, children, i))|
      invariant files == |FilesIn(t, Counted(t, s, children, i))|
    {
      ChildSegments(t, s, children[i]);
      var childFolders, childFiles := CalculateStats(t, children[i]);
      CountedStep(t, s, i);
      CountDisjoint(t, Counted(t, s, children, i), Subtree(t, children[i]));
      folders := folders + childFolders;
      files := files + childFiles;
    }
    CountedAll(t, s);
  }

  /** The two counts shown: folders without the synthetic root, and files. */
  method DisplayedCounts(t: Tree) returns (folders: nat, files: nat)
    requires Valid(t)
    ensures folders == |set k | k in t && k != "" && t[k].isFolder|
    ensures files == |set k | k in t && !t[k].isFolder|
  {
    var allFolders, allFiles := CalculateStats(t, "");
    WholeTree(t);
    folders := allFolders - 1;
    files := allFiles;
  }

  /** The subtree of the root is the whole tree, and the root is one of its
      folders. */
  lemma WholeTree(t: Tree)
    requires RootOk(t)
    ensures |FoldersIn(t, Subtree(t, ""))| == |set k | k in t && k != "" && t[k].isFolder| + 1
    ensures FilesIn(t, Subtree(t, "")) == set k | k in t && !t[k].isFolder
  {
    var all := Subtree(t, "");
    assert all == t.Keys by {
      assert Segments("") == [];
    }
    var others := set k | k in t && k != "" && t[k].isFolder;
    assert FoldersIn(t, all) == others + {""};
    assert "" !in others;
  }
}

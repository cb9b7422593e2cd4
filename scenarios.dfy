/** Worked inputs: what the builder, the counts and the renderer give for a
    few small content indexes. */
module Scenarios {
  import opened Paths
  import opened Exclusion
  import opened FileTree
  import opened Build
  import opened Sort
  import opened Stats
  import opened Render

  lemma SegmentsOne(a: string)
    requires IsSegment(a)
    ensures Segments(a) == [a]
  {
    SplitOfSegment(a);
  }

  lemma SegmentsTwo(a: string, b: string)
    requires IsSegment(a) && IsSegment(b)
    ensures Segments(a + "/" + b) == [a, b]
  {
    SplitOfSegment(a);
    SplitOfSegment(b);
    SplitAppend(a, b);
    assert Split(a + "/" + b) == [a, b];
    assert AllSegments([a, b]);
    NonEmptyOfSegments([a, b]);
  }

  /** A key that is not a document adds nothing. */
  lemma TextFileSkipped()
    ensures BuildTree(["z.txt"]) == EmptyTree()
  {
    SegmentsOne("z.txt");
    assert "z.txt"[2..] == "txt";
    assert !EndsWithMd("z.txt");
    assert ["z.txt"][..0] == [];
    EmptyRootSorted();
  }

  /** A document under an excluded folder adds nothing. */
  lemma ExcludedFolderSkipped()
    ensures BuildTree(["ekler/x.md"]) == EmptyTree()
  {
    var parts := ["ekler", "x.md"];
    SegmentsTwo("ekler", "x.md");
    assert "ekler" + "/" + "x.md" == "ekler/x.md";
    IncludesSelf("ekler");
    assert Lower("ekler") == "ekler";
    assert ShouldExcludeFolder("ekler");
    assert NewNode(parts, 0, "").isFolder;
    WalkCreate(EmptyTree(), parts, 0, "");
    assert ["ekler/x.md"][..0] == [];
    assert BuildUnsorted(["ekler/x.md"]) == Insert(EmptyTree(), "ekler/x.md");
    EmptyRootSorted();
  }

  lemma SegmentsThree(a: string, b: string, c: string)
    requires IsSegment(a) && IsSegment(b) && IsSegment(c)
    ensures Segments(a + "/" + b + "/" + c) == [a, b, c]
  {
    SplitOfSegment(a);
    SplitOfSegment(b);
    SplitOfSegment(c);
    assert a + "/" + b + "/" + c == a + "/" + (b + "/" + c);
    SplitAppend(a, b + "/" + c);
    SplitAppend(b, c);
    assert Split(a + "/" + b + "/" + c) == [a, b, c];
    assert AllSegments([a, b, c]);
    NonEmptyOfSegments([a, b, c]);
  }

  const XParts: seq<string> := ["x", "ekler", "y.md"]
  const FolderX: Node := Node("x", "x", true, [], 1)

  /** The folder `x` made before the excluded `ekler` is reached. */
  const TreeX: Tree := map[
    "" := RootNode.(children := ["x"]),
    "x" := FolderX]

  lemma XSegments()
    ensures Segments("x/ekler/y.md") == XParts
  {
    SegmentsThree("x", "ekler", "y.md");
    assert "x" + "/" + "ekler" + "/" + "y.md" == "x/ekler/y.md";
  }

  lemma XFolder()
    ensures Walk(EmptyTree(), XParts, 0, "") == Walk(AddChild(EmptyTree(), "", FolderX), XParts, 1, "x")
  {
    ShortNameKept("x");
    assert NewNode(XParts, 0, "") == FolderX;
    WalkCreate(EmptyTree(), XParts, 0, "");
  }

  lemma EklerStops()
    ensures Walk(AddChild(EmptyTree(), "", FolderX), XParts, 1, "x") == TreeX
  {
    var t1 := AddChild(EmptyTree(), "", FolderX);
    assert "x" + "/" + "ekler" == "x/ekler";
    IncludesSelf("ekler");
    assert Lower("ekler") == "ekler";
    assert NewNode(XParts, 1, "x").isFolder && ShouldExcludeFolder(XParts[1]);
    WalkCreate(t1, XParts, 1, "x");
    assert t1.Keys == TreeX.Keys && t1[""] == TreeX[""] && t1["x"] == TreeX["x"];
  }

  /** The exclusion only ends the walk: the folder `x` created before the
      excluded `ekler` stays in the map, and nothing below it is added. */
  lemma PrefixBeforeExcludedKept()
    ensures BuildUnsorted(["x/ekler/y.md"]) == TreeX
  {
    XSegments();
    XFolder();
    EklerStops();
    assert ["x/ekler/y.md"][..0] == [];
    assert BuildUnsorted(["x/ekler/y.md"]) == Insert(EmptyTree(), "x/ekler/y.md");
  }

  /** The completeness lemma covers the same case: `x` comes before any
      excluded folder, so it is a node of the sorted tree. */
  lemma PrefixBeforeExcludedComplete()
    ensures "x" in BuildTree(["x/ekler/y.md"])
  {
    XSegments();
    ShortNameKept("x");
    assert CleanBetween(XParts, 0, 0);
    assert XParts[..1] == ["x"];
    BuiltTreeComplete(["x/ekler/y.md"], 0, 0);
  }

  /** Two keys are read in order, each walked from the root. */
  lemma BuildTwo(x: string, y: string)
    ensures BuildUnsorted([x, y]) == Insert(Insert(EmptyTree(), x), y)
  {
    assert [x, y][..1] == [x];
    assert [x][..0] == [];
    assert BuildUnsorted([x]) == Insert(EmptyTree(), x);
  }

  const MdParts: seq<string> := ["a.md", "b.md"]
  const FileAmd: Node := Node("a", "a.md", false, [], 1)
  const FolderAmd: Node := Node("a.md", "a.md", true, [], 1)
  const FileUnderAmd: Node := Node("b", "a.md/b.md", false, [], 2)

  lemma MdSegments()
    ensures Segments("a.md") == ["a.md"] && Segments("a.md/b.md") == MdParts
  {
    SegmentsOne("a.md");
    SegmentsTwo("a.md", "b.md");
    assert "a.md" + "/" + "b.md" == "a.md/b.md";
  }

  lemma FileAmdMade()
    ensures Insert(EmptyTree(), "a.md") == AddChild(EmptyTree(), "", FileAmd)
  {
    MdSegments();
    assert "a.md"[1..] == ".md";
    assert NewNode(["a.md"], 0, "") == FileAmd;
    WalkCreate(EmptyTree(), ["a.md"], 0, "");
  }

  lemma FileUnderAmdMade(t: Tree)
    requires "" in t && "a.md" in t && "a.md/b.md" !in t
    ensures Walk(t, MdParts, 0, "") == AddChild(t, "a.md", FileUnderAmd)
  {
    WalkReuse(t, MdParts, 0, "");
    assert "b.md"[1..] == ".md";
    assert "a.md" + "/" + "b.md" == "a.md/b.md";
    assert NewNode(MdParts, 1, "a.md") == FileUnderAmd;
    WalkCreate(t, MdParts, 1, "a.md");
  }

  /** A file `a.md` read first keeps being a file when a later key walks
      through it, and gains that key's document as a child. */
  const FileFirst: Tree := map[
    "" := RootNode.(children := ["a.md"]),
    "a.md" := FileAmd.(children := ["a.md/b.md"]),
    "a.md/b.md" := FileUnderAmd]

  lemma FileFirstShape()
    ensures AddChild(AddChild(EmptyTree(), "", FileAmd), "a.md", FileUnderAmd) == FileFirst
  {
    var t2 := AddChild(AddChild(EmptyTree(), "", FileAmd), "a.md", FileUnderAmd);
    assert t2.Keys == FileFirst.Keys;
    assert t2[""] == FileFirst[""] && t2["a.md"] == FileFirst["a.md"] && t2["a.md/b.md"] == FileFirst["a.md/b.md"];
  }

  lemma FileGainsChild()
    ensures BuildUnsorted(["a.md", "a.md/b.md"]) == FileFirst
  {
    BuildTwo("a.md", "a.md/b.md");
    FileAmdMade();
    var t1 := AddChild(EmptyTree(), "", FileAmd);
    MdSegments();
    assert Insert(t1, "a.md/b.md") == Walk(t1, MdParts, 0, "");
    FileUnderAmdMade(t1);
    FileFirstShape();
  }

  lemma FolderAmdMade()
    ensures Walk(EmptyTree(), MdParts, 0, "") == Walk(AddChild(EmptyTree(), "", FolderAmd), MdParts, 1, "a.md")
  {
    assert Lower("a.md") == "a.md";
    FourLetterNameKept("a.md");
    assert !ShouldExcludeFolder("a.md");
    assert NewNode(MdParts, 0, "") == FolderAmd;
    WalkCreate(EmptyTree(), MdParts, 0, "");
  }

  lemma FolderAmdChild()
    ensures Walk(AddChild(EmptyTree(), "", FolderAmd), MdParts, 1, "a.md") ==
      AddChild(AddChild(EmptyTree(), "", FolderAmd), "a.md", FileUnderAmd)
  {
    var t1 := AddChild(EmptyTree(), "", FolderAmd);
    assert "b.md"[1..] == ".md";
    assert "a.md" + "/" + "b.md" == "a.md/b.md";
    assert NewNode(MdParts, 1, "a.md") == FileUnderAmd;
    WalkCreate(t1, MdParts, 1, "a.md");
  }

  /** In the other order `a.md` is made a folder (it is not the last segment)
      and the later key `a.md` finds it and adds nothing. */
  const FolderFirst: Tree := map[
    "" := RootNode.(children := ["a.md"]),
    "a.md" := FolderAmd.(children := ["a.md/b.md"]),
    "a.md/b.md" := FileUnderAmd]

  lemma FolderFirstShape()
    ensures AddChild(AddChild(EmptyTree(), "", FolderAmd), "a.md", FileUnderAmd) == FolderFirst
  {
    var t2 := AddChild(AddChild(EmptyTree(), "", FolderAmd), "a.md", FileUnderAmd);
    assert t2.Keys == FolderFirst.Keys;
    assert t2[""] == FolderFirst[""] && t2["a.md"] == FolderFirst["a.md"] && t2["a.md/b.md"] == FolderFirst["a.md/b.md"];
  }

  lemma FolderFirstMade()
    ensures Insert(EmptyTree(), "a.md/b.md") == FolderFirst
  {
    MdSegments();
    FolderAmdMade();
    FolderAmdChild();
    FolderFirstShape();
  }

  /** Reading `a.md` again when the map already has it adds nothing. */
  lemma FolderFirstKept()
    ensures Insert(FolderFirst, "a.md") == FolderFirst
  {
    MdSegments();
    assert "a.md"[1..] == ".md";
    WalkReuse(FolderFirst, ["a.md"], 0, "");
  }

  lemma FolderKeepsKind()
    ensures BuildUnsorted(["a.md/b.md", "a.md"]) == FolderFirst
  {
    BuildTwo("a.md/b.md", "a.md");
    FolderFirstMade();
    FolderFirstKept();
  }

  lemma EmptyRootSorted()
    ensures Valid(EmptyTree()) && SortAll(EmptyTree()) == EmptyTree()
  {
    EmptyTreeValid();
    assert SortNode(EmptyTree(), "") == RootNode;
  }

  // ---------------------------------------------------------------------------
  // `["a/b.md", "a/c.md", "notes.md"]`

  const ExampleKeys: seq<string> := ["a/b.md", "a/c.md", "notes.md"]

  const FolderA: Node := Node("a", "a", true, [], 1)
  const FileB: Node := Node("b", "a/b.md", false, [], 2)
  const FileC: Node := Node("c", "a/c.md", false, [], 2)
  const FileNotes: Node := Node("notes", "notes.md", false, [], 1)

  const Tree1: Tree := map[
    "" := RootNode.(children := ["a"]),
    "a" := FolderA.(children := ["a/b.md"]),
    "a/b.md" := FileB]

  const Tree2: Tree := map[
    "" := RootNode.(children := ["a"]),
    "a" := FolderA.(children := ["a/b.md", "a/c.md"]),
    "a/b.md" := FileB,
    "a/c.md" := FileC]

  const ExampleTree: Tree := map[
    "" := RootNode.(children := ["a", "notes.md"]),
    "a" := FolderA.(children := ["a/b.md", "a/c.md"]),
    "a/b.md" := FileB,
    "a/c.md" := FileC,
    "notes.md" := FileNotes]

  lemma FirstKeyFolder()
    ensures Walk(EmptyTree(), ["a", "b.md"], 0, "") == Walk(AddChild(EmptyTree(), "", FolderA), ["a", "b.md"], 1, "a")
  {
    ShortNameKept("a");
  }

  lemma FirstKeyFile()
    ensures Walk(AddChild(EmptyTree(), "", FolderA), ["a", "b.md"], 1, "a") == Tree1
  {
    assert "b.md"[1..] == ".md";
    assert StripMd("b.md") == "b";
    assert "a" + "/" + "b.md" == "a/b.md";
    var r := AddChild(AddChild(EmptyTree(), "", FolderA), "a", FileB);
    assert r.Keys == Tree1.Keys;
    assert r[""] == Tree1[""] && r["a"] == Tree1["a"] && r["a/b.md"] == Tree1["a/b.md"];
  }

  /** The first key's walk: the folder `a`, then the file `b` under it. */
  lemma FirstKey()
    ensures Insert(EmptyTree(), "a/b.md") == Tree1
  {
    SegmentsTwo("a", "b.md");
    assert "a" + "/" + "b.md" == "a/b.md";
    FirstKeyFolder();
    FirstKeyFile();
  }

  lemma SecondKeyWalk()
    ensures Walk(Tree1, ["a", "c.md"], 0, "") == Tree2
  {
    var parts := ["a", "c.md"];
    WalkReuse(Tree1, parts, 0, "");
    assert "c.md"[1..] == ".md";
    assert StripMd("c.md") == "c";
    assert "a" + "/" + "c.md" == "a/c.md";
    assert NewNode(parts, 1, "a") == FileC;
    WalkCreate(Tree1, parts, 1, "a");
    var r := AddChild(Tree1, "a", FileC);
    assert Walk(r, parts, 2, "a/c.md") == r;
    assert r.Keys == Tree2.Keys;
    assert r[""] == Tree2[""] && r["a"] == Tree2["a"] && r["a/b.md"] == Tree2["a/b.md"] && r["a/c.md"] == Tree2["a/c.md"];
  }

  /** The second key reuses `a` and adds `c` under it. */
  lemma SecondKey()
    ensures Insert(Tree1, "a/c.md") == Tree2
  {
    SegmentsTwo("a", "c.md");
    assert "a" + "/" + "c.md" == "a/c.md";
    SecondKeyWalk();
  }

  lemma ThirdKeyWalk()
    ensures Walk(Tree2, ["notes.md"], 0, "") == ExampleTree
  {
    assert "notes.md"[5..] == ".md";
    assert StripMd("notes.md") == "notes";
    var r := AddChild(Tree2, "", FileNotes);
    assert r.Keys == ExampleTree.Keys;
    assert r[""] == ExampleTree[""] && r["a"] == ExampleTree["a"] && r["notes.md"] == ExampleTree["notes.md"];
    assert r["a/b.md"] == ExampleTree["a/b.md"] && r["a/c.md"] == ExampleTree["a/c.md"];
  }

  /** The third key adds the file `notes` under the root. */
  lemma ThirdKey()
    ensures Insert(Tree2, "notes.md") == ExampleTree
  {
    SegmentsOne("notes.md");
    ThirdKeyWalk();
  }

  /** Three keys are read in order, each walked from the root. */
  lemma BuildThree(x: string, y: string, z: string)
    ensures BuildUnsorted([x, y, z]) == Insert(Insert(Insert(EmptyTree(), x), y), z)
  {
    assert [x, y, z][..2] == [x, y];
    assert [x, y][..1] == [x];
    assert [x][..0] == [];
    assert BuildUnsorted([x]) == Insert(EmptyTree(), x);
    assert BuildUnsorted([x, y]) == Insert(BuildUnsorted([x]), y);
    assert BuildUnsorted([x, y, z]) == Insert(BuildUnsorted([x, y]), z);
  }

  /** The path map for the example: `a` and `notes` under the root, `b` and
      `c` under `a`. */
  lemma ExampleBuilt()
    ensures BuildUnsorted(ExampleKeys) == ExampleTree
  {
    BuildThree("a/b.md", "a/c.md", "notes.md");
    FirstKey();
    SecondKey();
    ThirdKey();
  }

  lemma ExampleValid()
    ensures Valid(ExampleTree)
  {
    ExampleBuilt();
  }

  lemma RootChildrenSorted()
    ensures AllIn(ExampleTree, ExampleTree[""].children) && SortedBy(ExampleTree, ExampleTree[""].children)
  {
    assert ExampleTree[""].children == ["a", "notes.md"];
    assert Before(ExampleTree, "a", "notes.md");
  }

  lemma FolderChildrenSorted()
    ensures AllIn(ExampleTree, ExampleTree["a"].children) && SortedBy(ExampleTree, ExampleTree["a"].children)
  {
    FilesInOrder();
    assert ExampleTree["a"].children == ["a/b.md", "a/c.md"];
    assert ExampleTree["a/b.md"] == FileB;
    assert ExampleTree["a/c.md"] == FileC;
    assert Before(ExampleTree, "a/b.md", "a/c.md");
  }

  lemma FilesInOrder()
    ensures CompareNodes(FileB, FileC) == -1
  {
    assert "b"[0] < "c"[0];
  }

  lemma LeafChildren()
    ensures ExampleTree["a/b.md"].children == [] && ExampleTree["a/c.md"].children == []
    ensures ExampleTree["notes.md"].children == []
  {
  }

  /** Both children lists of the example are already in order (the folder `a`
      before the file `notes`, `b` before `c`), so sorting keeps the map. */
  lemma ExampleSorted()
    ensures Valid(ExampleTree) && BuildTree(ExampleKeys) == ExampleTree
  {
    ExampleBuilt();
    ExampleValid();
    ExampleAllSorted();
    SortAllOfSorted(ExampleTree);
  }

  lemma ExampleAllSorted()
    ensures forall k :: k in ExampleTree ==> AllIn(ExampleTree, ExampleTree[k].children) && SortedBy(ExampleTree, ExampleTree[k].children)
  {
    RootChildrenSorted();
    FolderChildrenSorted();
    LeafChildren();
    assert ExampleTree.Keys == {"", "a", "a/b.md", "a/c.md", "notes.md"};
  }

  /** One folder shown (the root is not), three files. */
  lemma ExampleCounts()
    ensures |set k | k in ExampleTree && k != "" && ExampleTree[k].isFolder| == 1
    ensures |set k | k in ExampleTree && !ExampleTree[k].isFolder| == 3
  {
    var t := ExampleTree;
    assert t.Keys == {"", "a", "a/b.md", "a/c.md", "notes.md"};
    var folders := set k | k in t && k != "" && t[k].isFolder;
    var files := set k | k in t && !t[k].isFolder;
    assert folders == {"a"} by {
      forall k | k in t.Keys ensures k in folders <==> k == "a" { }
    }
    assert files == {"a/b.md", "a/c.md", "notes.md"} by {
      forall k | k in t.Keys ensures k in files <==> k in {"a/b.md", "a/c.md", "notes.md"} { }
    }
  }

  /** A node without children is alone in its depth-first order. */
  lemma PreorderLeaf(t: Tree, k: string)
    requires Valid(t) && k in t && t[k].children == []
    ensures Preorder(t, k) == [k]
  {
  }

  /** A node with two children: itself, then each child's subtree in turn. */
  lemma PreorderTwo(t: Tree, k: string)
    requires Valid(t) && k in t && |t[k].children| == 2
    ensures t[k].children[0] in t && t[k].children[1] in t
    ensures Preorder(t, k) == [k] + Preorder(t, t[k].children[0]) + Preorder(t, t[k].children[1])
  {
    var c0, c1 := t[k].children[0], t[k].children[1];
    ChildLevel(t, k, 0);
    ChildLevel(t, k, 1);
    assert PreorderChildren(t, k, 2) == [];
    assert PreorderChildren(t, k, 1) == Preorder(t, c1) + [];
    assert PreorderChildren(t, k, 0) == Preorder(t, c0) + PreorderChildren(t, k, 1);
    assert Preorder(t, k) == [k] + PreorderChildren(t, k, 0);
  }

  /** The depth-first order of a root with a two-child folder and a leaf. */
  lemma PreorderOfShape(t: Tree, root: string, a: string, b: string, c: string, n: string)
    requires Valid(t) && root in t && a in t && b in t && c in t && n in t
    requires t[root].children == [a, n] && t[a].children == [b, c]
    requires t[b].children == [] && t[c].children == [] && t[n].children == []
    ensures Preorder(t, root) == [root, a, b, c, n]
  {
    PreorderOfRoot(t, root, a, n);
    PreorderOfFolder(t, a, b, c);
    PreorderLeaf(t, n);
    ConcatFive(root, Preorder(t, a), Preorder(t, n), a, b, c, n);
  }

  lemma PreorderOfRoot(t: Tree, root: string, a: string, n: string)
    requires Valid(t) && root in t && a in t && n in t
    requires t[root].children == [a, n]
    ensures Preorder(t, root) == [root] + Preorder(t, a) + Preorder(t, n)
  {
    PreorderTwo(t, root);
  }

  lemma ConcatFive(root: string, pa: seq<string>, pn: seq<string>, a: string, b: string, c: string, n: string)
    requires pa == [a, b, c] && pn == [n]
    ensures [root] + pa + pn == [root, a, b, c, n]
  {
  }

  lemma PreorderOfFolder(t: Tree, a: string, b: string, c: string)
    requires Valid(t) && a in t && b in t && c in t
    requires t[a].children == [b, c] && t[b].children == [] && t[c].children == []
    ensures Preorder(t, a) == [a, b, c]
  {
    PreorderLeaf(t, b);
    PreorderLeaf(t, c);
    PreorderTwo(t, a);
    assert Preorder(t, a) == [a] + [b] + [c];
  }

  /** The depth-first order of the example: `a`, `b`, `c`, `notes`. */
  lemma ExamplePreorder()
    ensures Valid(ExampleTree)
    ensures Preorder(ExampleTree, "") == ["", "a", "a/b.md", "a/c.md", "notes.md"]
  {
    ExampleValid();
    LeafChildren();
    PreorderOfShape(ExampleTree, "", "a", "a/b.md", "a/c.md", "notes.md");
  }

  /** The page lists `a`, `b`, `c`, `notes`, in that order. */
  lemma ExampleRenderOrder()
    ensures Valid(ExampleTree)
    ensures RenderTreeNode(ExampleTree, "", true) == Items(ExampleTree, ["a", "a/b.md", "a/c.md", "notes.md"])
  {
    ExamplePreorder();
    RenderRoot(ExampleTree);
    assert Preorder(ExampleTree, "")[1..] == ["a", "a/b.md", "a/c.md", "notes.md"];
  }
}

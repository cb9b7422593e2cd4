/** The file tree as the builder leaves it: every node stored once under its
    slug (the builder's `pathMap`), children held as the slugs of the child
    nodes, and the invariant that ties slugs, levels, names and the
    parent/child links to the segments of the slugs. */
module FileTree {
  import opened Paths
  import opened Exclusion

  /** `TreeNode`; `children` lists child slugs, each a key of the tree. */
  datatype Node = Node(name: string, slug: string, isFolder: bool, children: seq<string>, level: nat)

  /** All nodes, keyed by slug. The synthetic root has the empty slug. */
  type Tree = map<string, Node>

  const RootNode: Node := Node("root", "", true, [], 0)

  /** The tree before any key is read: `pathMap.set("", root)`. */
  function EmptyTree(): (t: Tree)
    ensures t.Keys == {""} && t[""].children == []
  {
    map["" := RootNode]
  }

  /** The slug of the node one level up. */
  function Parent(k: string): string
  {
    var ss := Segments(k);
    if ss == [] then "" else Join(ss[..|ss| - 1])
  }

  /** The slug's last segment, the one the node was made from. */
  function LastSegment(k: string): string
  {
    var ss := Segments(k);
    if ss == [] then "" else ss[|ss| - 1]
  }

  /** No slug is listed twice. */
  ghost predicate Distinct(cs: seq<string>)
  {
    forall c :: c in cs ==> multiset(cs)[c] == 1
  }

  ghost predicate ChildrenOk(t: Tree, k: string)
    requires k in t
  {
    forall c :: c in t[k].children ==> c in t && c != "" && Parent(c) == k
  }

  /** A non-root node: a canonical slug whose segment count is its level, listed
      under its parent, named after its last segment (without `.md` for a file),
      a file only when that segment ends in `.md`, and never an excluded folder. */
  ghost predicate NonRootOk(t: Tree, k: string)
    requires k in t
  {
    var n := t[k];
    && Segments(k) != [] && Canonical(k)
    && n.level == |Segments(k)|
    && Parent(k) in t && k in t[Parent(k)].children
    && (n.isFolder ==> n.name == LastSegment(k) && !ShouldExcludeFolder(n.name))
    && (!n.isFolder ==> EndsWithMd(LastSegment(k)) && n.name == StripMd(LastSegment(k)))
  }

  ghost predicate NodeOk(t: Tree, k: string)
    requires k in t
  {
    && t[k].slug == k
    && ChildrenOk(t, k)
    && Distinct(t[k].children)
    && (k != "" ==> NonRootOk(t, k))
  }

  ghost predicate RootOk(t: Tree)
  {
    "" in t && t[""].name == "root" && t[""].isFolder && t[""].level == 0
  }

  ghost predicate Valid(t: Tree)
  {
    RootOk(t) && forall k {:trigger NodeOk(t, k)} :: k in t ==> NodeOk(t, k)
  }

  /** `k` lies in the subtree rooted at `s` (or is `s`). */
  ghost predicate Below(s: string, k: string)
  {
    Segments(s) <= Segments(k)
  }

  /** An upper bound on the levels in the tree, for termination. */
  ghost function Height(t: Tree): (h: nat)
    ensures forall k :: k in t ==> t[k].level <= h
    decreases |t|
  {
    if t == map[] then 0
    else
      var k :| k in t;
      var rest := t - {k};
      assert |rest| < |t| by { assert rest.Keys == t.Keys - {k}; }
      var h := Height(rest);
      assert forall k' :: k' in t ==> k' == k || k' in rest;
      if t[k].level > h then t[k].level else h
  }

  lemma EmptyTreeValid()
    ensures Valid(EmptyTree())
  {
    var t := EmptyTree();
    assert NodeOk(t, "");
  }

  /** A child's segments are its parent's plus one. */
  lemma ChildSegments(t: Tree, k: string, c: string)
    requires Valid(t) && k in t && c in t[k].children
    ensures c in t && Segments(c) == Segments(k) + [LastSegment(c)]
    ensures t[c].level == t[k].level + 1
  {
    assert NodeOk(t, k);
    assert c in t && c != "" && Parent(c) == k;
    assert NodeOk(t, c);
    assert NonRootOk(t, c);
    ParentSegments(c);
    if k != "" {
      assert NonRootOk(t, k);
    }
  }

  /** The parent's segments are the slug's without the last one. */
  lemma ParentSegments(c: string)
    requires Segments(c) != []
    ensures Segments(c) == Segments(Parent(c)) + [LastSegment(c)]
    ensures |Segments(Parent(c))| == |Segments(c)| - 1
  {
    var ss := Segments(c);
    SegmentsAreSegments(c);
    var init := ss[..|ss| - 1];
    assert init + [ss[|ss| - 1]] == ss;
    SegmentsOfJoin(init);
  }

  /** Every node of a valid tree is canonical (the root's empty slug too). */
  lemma ValidCanonical(t: Tree, k: string)
    requires Valid(t) && k in t
    ensures Canonical(k)
  {
    assert NodeOk(t, k);
    if k == "" {
      assert Segments("") == [];
    }
  }

  /** Every cumulative path of a node is itself a node. */
  lemma {:induction false} AncestorsPresent(t: Tree, k: string, i: nat)
    requires Valid(t) && k in t && i <= |Segments(k)|
    ensures Join(Segments(k)[..i]) in t
    decreases |Segments(k)|
  {
    var ss := Segments(k);
    if i == |ss| {
      ValidCanonical(t, k);
      assert ss[..i] == ss;
    } else {
      assert k != "" by { assert Segments("") == []; }
      assert NodeOk(t, k) && NonRootOk(t, k);
      ParentSegments(k);
      AncestorsPresent(t, Parent(k), i);
      assert Segments(Parent(k))[..i] == ss[..i];
    }
  }

  lemma {:induction false} DistinctIndex(cs: seq<string>, i: nat, j: nat)
    requires Distinct(cs) && i < j < |cs|
    ensures cs[i] != cs[j]
  {
    assert cs == cs[..j] + cs[j..];
    assert multiset(cs) == multiset(cs[..j]) + multiset(cs[j..]);
    assert multiset(cs[..j])[cs[i]] >= 1 && multiset(cs[j..])[cs[j]] >= 1;
    assert multiset(cs)[cs[j]] == 1;
  }

  lemma PrefixLength(a: seq<string>, b: seq<string>)
    requires a <= b
    ensures |a| == |b| ==> a == b
  {
  }

  /** A node below `s` other than `s` has more segments. */
  lemma StrictlyBelow(t: Tree, s: string, k: string)
    requires Valid(t) && s in t && k in t && Below(s, k) && k != s
    ensures |Segments(s)| < |Segments(k)|
  {
    ValidCanonical(t, s);
    ValidCanonical(t, k);
    PrefixLength(Segments(s), Segments(k));
  }

  /** The ancestor of `k` one level below `s` is a child of `s`. */
  lemma AncestorIsChild(t: Tree, s: string, k: string)
    requires Valid(t) && s in t && k in t && Below(s, k)
    requires |Segments(s)| < |Segments(k)|
    ensures Join(Segments(k)[..|Segments(s)| + 1]) in t[s].children
    ensures Below(Join(Segments(k)[..|Segments(s)| + 1]), k)
  {
    var ss, ks := Segments(s), Segments(k);
    var m := |ss|;
    var a := Join(ks[..m + 1]);
    ValidCanonical(t, s);
    AncestorsPresent(t, k, m + 1);
    SegmentsAreSegments(k);
    ParentOfPrefix(ks, m);
    assert ks[..m] == ss;
    assert NodeOk(t, a);
    assert NonRootOk(t, a);
  }

  lemma ParentOfPrefix(ks: seq<string>, m: nat)
    requires AllSegments(ks) && m < |ks|
    ensures Join(ks[..m + 1]) != "" && Parent(Join(ks[..m + 1])) == Join(ks[..m])
    ensures Segments(Join(ks[..m + 1])) == ks[..m + 1]
  {
    var a := Join(ks[..m + 1]);
    PrefixJoin(ks, m);
    SegmentsOfJoin(ks[..m + 1]);
    ParentSegments(a);
    assert Segments(a)[..m] == ks[..m];
  }

  /** A node strictly below `s` is below one of `s`'s children. */
  lemma BelowSomeChild(t: Tree, s: string, k: string)
    requires Valid(t) && s in t && k in t && Below(s, k) && k != s
    ensures exists c :: c in t[s].children && Below(c, k)
  {
    StrictlyBelow(t, s, k);
    AncestorIsChild(t, s, k);
  }

  /** Two children of one node have no node below them in common, and no
      child has its parent below it. */
  lemma ChildrenDisjoint(t: Tree, s: string, c1: string, c2: string, k: string)
    requires Valid(t) && s in t && c1 in t[s].children && c2 in t[s].children
    requires Below(c1, k) && Below(c2, k)
    ensures c1 == c2
  {
    ChildSegments(t, s, c1);
    ChildSegments(t, s, c2);
    assert Segments(c1) == Segments(k)[..|Segments(c1)|] == Segments(c2);
    ValidCanonical(t, c1);
    ValidCanonical(t, c2);
  }

  lemma ChildNotAbove(t: Tree, s: string, c: string)
    requires Valid(t) && s in t && c in t[s].children
    ensures !Below(c, s)
  {
    ChildSegments(t, s, c);
  }

  /** A node strictly below `s` is below one of the listed children. */
  lemma SubtreeDown(t: Tree, s: string, cs: seq<string>, k: string)
    requires Valid(t) && s in t && k in t && Below(s, k) && k != s
    requires forall c :: c in t[s].children ==> c in cs
    ensures exists j :: 0 <= j < |cs| && Below(cs[j], k)
  {
    BelowSomeChild(t, s, k);
    var c :| c in t[s].children && Below(c, k);
    var j :| 0 <= j < |cs| && cs[j] == c;
  }

  /** A node below a child of `s` is below `s`. */
  lemma SubtreeUp(t: Tree, s: string, c: string, k: string)
    requires Valid(t) && s in t && c in t[s].children && Below(c, k)
    ensures Below(s, k)
  {
    ChildSegments(t, s, c);
    var ss, cs, ks := Segments(s), Segments(c), Segments(k);
    assert ss == cs[..|ss|];
    assert cs == ks[..|cs|];
    assert ss == ks[..|ss|];
  }

  /** The subtree of `s` is `s` and the subtrees of its children, listed in
      any order. */
  lemma SubtreeOfChildren(t: Tree, s: string, cs: seq<string>, k: string)
    requires Valid(t) && s in t && k in t
    requires forall c :: c in cs <==> c in t[s].children
    ensures Below(s, k) <==> k == s || exists j :: 0 <= j < |cs| && Below(cs[j], k)
  {
    if Below(s, k) && k != s {
      SubtreeDown(t, s, cs, k);
    }
    if exists j :: 0 <= j < |cs| && Below(cs[j], k) {
      var j :| 0 <= j < |cs| && Below(cs[j], k);
      SubtreeUp(t, s, cs[j], k);
    }
  }
}

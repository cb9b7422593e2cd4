/** `sortTree`: every node's children reordered, folders first, then by name,
    recursively from the root. */
module Sort {
  import opened Paths
  import opened Exclusion
  import opened FileTree
  import opened Build

  // ---------------------------------------------------------------------------
  // The comparator

  /** `a.localeCompare(b)`, taken as lexicographic order on code points. */
  function LocaleCompare(a: string, b: string): (r: int)
    ensures -1 <= r <= 1
    ensures r == 0 <==> a == b
  {
    if a == [] && b == [] then 0
    else if a == [] then -1
    else if b == [] then 1
    else if a[0] < b[0] then -1
    else if a[0] > b[0] then 1
    else
      assert a == [a[0]] + a[1..] && b == [b[0]] + b[1..];
      LocaleCompare(a[1..], b[1..])
  }

  lemma {:induction false} LocaleCompareAntisymmetric(a: string, b: string)
    ensures LocaleCompare(b, a) == -LocaleCompare(a, b)
  {
    if a != [] && b != [] && a[0] == b[0] {
      LocaleCompareAntisymmetric(a[1..], b[1..]);
    }
  }

  lemma {:induction false} LocaleCompareTransitive(a: string, b: string, c: string)
    requires LocaleCompare(a, b) <= 0 && LocaleCompare(b, c) <= 0
    ensures LocaleCompare(a, c) <= 0
  {
    if a != [] && b != [] && c != [] && a[0] == b[0] && b[0] == c[0] {
      LocaleCompareTransitive(a[1..], b[1..], c[1..]);
    }
  }

  /** The sort callback: a folder before a file, otherwise by name. */
  function CompareNodes(a: Node, b: Node): (r: int)
    ensures -1 <= r <= 1
    ensures a.isFolder && !b.isFolder ==> r < 0
    ensures !a.isFolder && b.isFolder ==> r > 0
    ensures r == 0 <==> a.isFolder == b.isFolder && a.name == b.name
  {
    if a.isFolder && !b.isFolder then -1
    else if !a.isFolder && b.isFolder then 1
    else LocaleCompare(a.name, b.name)
  }

  /** Child `a` may stand before child `b`. */
  predicate Before(t: Tree, a: string, b: string)
    requires a in t && b in t
  {
    CompareNodes(t[a], t[b]) <= 0
  }

  lemma BeforeTotal(t: Tree, a: string, b: string)
    requires a in t && b in t
    ensures Before(t, a, b) || Before(t, b, a)
  {
    LocaleCompareAntisymmetric(t[a].name, t[b].name);
  }

  lemma BeforeTransitive(t: Tree, a: string, b: string, c: string)
    requires a in t && b in t && c in t
    requires Before(t, a, b) && Before(t, b, c)
    ensures Before(t, a, c)
  {
    if t[a].isFolder == t[b].isFolder == t[c].isFolder {
      LocaleCompareTransitive(t[a].name, t[b].name, t[c].name);
    }
  }

  ghost predicate AllIn(t: Tree, cs: seq<string>)
  {
    forall c :: c in cs ==> c in t
  }

  /** Every earlier child may stand before every later one. */
  ghost predicate SortedBy(t: Tree, cs: seq<string>)
    requires AllIn(t, cs)
  {
    forall i, j :: 0 <= i < j < |cs| ==> Before(t, cs[i], cs[j])
  }

  // ---------------------------------------------------------------------------
  // `children.sort(...)`

  /** Insert `x` before the first element it may stand before. */
  function InsertBy(t: Tree, x: string, s: seq<string>): (r: seq<string>)
    requires x in t && AllIn(t, s)
    ensures multiset(r) == multiset(s) + multiset{x}
    ensures AllIn(t, r)
    ensures SortedBy(t, s) ==> SortedBy(t, r)
  {
    if s == [] || Before(t, x, s[0]) then
      assert SortedBy(t, s) ==> SortedBy(t, [x] + s) by {
        if SortedBy(t, s) { SortedFront(t, x, s); }
      }
      [x] + s
    else
      var rest := InsertBy(t, x, s[1..]);
      assert s == [s[0]] + s[1..];
      assert SortedBy(t, s) ==> SortedBy(t, [s[0]] + rest) by {
        if SortedBy(t, s) { SortedBehind(t, x, s, rest); }
      }
      [s[0]] + rest
  }

  /** `x` may stand before the head, so it stands first. */
  lemma SortedFront(t: Tree, x: string, s: seq<string>)
    requires x in t && AllIn(t, s) && SortedBy(t, s)
    requires s == [] || Before(t, x, s[0])
    ensures AllIn(t, [x] + s) && SortedBy(t, [x] + s)
  {
    var r := [x] + s;
    forall i, j | 0 <= i < j < |r| ensures Before(t, r[i], r[j]) {
      if i == 0 && j > 1 {
        BeforeTransitive(t, x, s[0], s[j - 1]);
      }
    }
  }

  /** The head stays first when `x` goes into the tail. */
  lemma SortedBehind(t: Tree, x: string, s: seq<string>, rest: seq<string>)
    requires x in t && AllIn(t, s) && SortedBy(t, s) && s != [] && !Before(t, x, s[0])
    requires AllIn(t, rest) && SortedBy(t, rest)
    requires multiset(rest) == multiset(s[1..]) + multiset{x}
    ensures AllIn(t, [s[0]] + rest) && SortedBy(t, [s[0]] + rest)
  {
    var r := [s[0]] + rest;
    BeforeTotal(t, x, s[0]);
    forall i, j | 0 <= i < j < |r| ensures Before(t, r[i], r[j]) {
      if i == 0 {
        assert rest[j - 1] in multiset(s[1..]) + multiset{x};
        if rest[j - 1] != x {
          assert rest[j - 1] in s[1..];
          var m :| 0 <= m < |s[1..]| && s[1..][m] == rest[j - 1];
          assert s[m + 1] == rest[j - 1];
        }
      }
    }
  }


  /** `node.children.sort(cmp)`: a stable sort of the child slugs; any stable
      sort gives this order (see SortedPermutationUnique). */
  function SortChildren(t: Tree, cs: seq<string>): (r: seq<string>)
    requires AllIn(t, cs)
    ensures multiset(r) == multiset(cs)
    ensures AllIn(t, r) && SortedBy(t, r)
  {
    if cs == [] then []
    else
      assert cs == [cs[0]] + cs[1..];
      InsertBy(t, cs[0], SortChildren(t, cs[1..]))
  }

  /** After the sort, all folders come before all files and each kind is in
      name order; the children are a permutation of the old ones. */
  lemma SortChildrenOrder(t: Tree, cs: seq<string>)
    requires AllIn(t, cs)
    ensures multiset(SortChildren(t, cs)) == multiset(cs)
    ensures forall i, j :: 0 <= i < j < |SortChildren(t, cs)| && t[SortChildren(t, cs)[j]].isFolder ==>
      t[SortChildren(t, cs)[i]].isFolder
    ensures forall i, j :: (0 <= i < j < |SortChildren(t, cs)| &&
      t[SortChildren(t, cs)[i]].isFolder == t[SortChildren(t, cs)[j]].isFolder) ==>
      LocaleCompare(t[SortChildren(t, cs)[i]].name, t[SortChildren(t, cs)[j]].name) <= 0
  {
    var r := SortChildren(t, cs);
    forall i, j | 0 <= i < j < |r| && t[r[j]].isFolder ensures t[r[i]].isFolder {
      assert Before(t, r[i], r[j]);
    }
    forall i, j | 0 <= i < j < |r| && t[r[i]].isFolder == t[r[j]].isFolder
      ensures LocaleCompare(t[r[i]].name, t[r[j]].name) <= 0
    {
      assert Before(t, r[i], r[j]);
    }
  }

  /** Sorting a sorted list leaves it as it is. */
  lemma {:induction false} SortChildrenOfSorted(t: Tree, cs: seq<string>)
    requires AllIn(t, cs) && SortedBy(t, cs)
    ensures SortChildren(t, cs) == cs
  {
    if cs != [] {
      assert SortedBy(t, cs[1..]);
      SortChildrenOfSorted(t, cs[1..]);
      assert cs == [cs[0]] + cs[1..];
    }
  }

  /** Sorting twice is sorting once. */
  lemma SortChildrenIdempotent(t: Tree, cs: seq<string>)
    requires AllIn(t, cs)
    ensures SortChildren(t, SortChildren(t, cs)) == SortChildren(t, cs)
  {
    SortChildrenOfSorted(t, SortChildren(t, cs));
  }

  /** The order depends only on the kinds and names of the children. */
  ghost predicate SameLabels(t: Tree, r: Tree, cs: seq<string>)
  {
    forall c :: c in cs ==> c in t && c in r && t[c].isFolder == r[c].isFolder && t[c].name == r[c].name
  }

  lemma {:induction false} InsertBySameLabels(t: Tree, r: Tree, x: string, s: seq<string>)
    requires SameLabels(t, r, [x] + s)
    ensures InsertBy(t, x, s) == InsertBy(r, x, s)
  {
    if s != [] && !Before(t, x, s[0]) {
      assert SameLabels(t, r, [x] + s[1..]);
      InsertBySameLabels(t, r, x, s[1..]);
    }
  }

  lemma {:induction false} SortChildrenSameLabels(t: Tree, r: Tree, cs: seq<string>)
    requires SameLabels(t, r, cs)
    ensures SortChildren(t, cs) == SortChildren(r, cs)
  {
    if cs != [] {
      assert SameLabels(t, r, cs[1..]);
      SortChildrenSameLabels(t, r, cs[1..]);
      var rest := SortChildren(t, cs[1..]);
      assert forall c :: c in rest ==> c in multiset(cs[1..]);
      assert SameLabels(t, r, [cs[0]] + rest);
      InsertBySameLabels(t, r, cs[0], rest);
    }
  }

  /** No two of the children compare equal. */
  ghost predicate Strict(t: Tree, cs: seq<string>)
    requires AllIn(t, cs)
  {
    forall i, j :: 0 <= i < |cs| && 0 <= j < |cs| && i != j ==> CompareNodes(t[cs[i]], t[cs[j]]) != 0
  }

  lemma CompareNodesAntisymmetric(a: Node, b: Node)
    ensures CompareNodes(b, a) == -CompareNodes(a, b)
  {
    LocaleCompareAntisymmetric(a.name, b.name);
  }

  /** Two sorted permutations of a strict list start with the same child. */
  lemma SameHead(t: Tree, a: seq<string>, b: seq<string>)
    requires AllIn(t, a) && AllIn(t, b) && Strict(t, a) && a != []
    requires SortedBy(t, a) && SortedBy(t, b) && multiset(a) == multiset(b)
    ensures b != [] && a[0] == b[0]
  {
    assert a[0] in multiset(b) && b != [];
    assert b[0] in multiset(a);
    var m :| 0 <= m < |b| && b[m] == a[0];
    var n :| 0 <= n < |a| && a[n] == b[0];
    assert Before(t, a[0], b[0]) by { if n > 0 { assert Before(t, a[0], a[n]); } }
    assert Before(t, b[0], a[0]) by { if m > 0 { assert Before(t, b[0], b[m]); } }
    CompareNodesAntisymmetric(t[a[0]], t[b[0]]);
    assert CompareNodes(t[a[0]], t[a[n]]) == 0;
  }

  lemma TailMultiset(a: seq<string>, b: seq<string>)
    requires a != [] && b != [] && a[0] == b[0] && multiset(a) == multiset(b)
    ensures multiset(a[1..]) == multiset(b[1..])
  {
    assert a == [a[0]] + a[1..] && b == [b[0]] + b[1..];
    assert multiset(a) == multiset{a[0]} + multiset(a[1..]);
    assert multiset(b) == multiset{b[0]} + multiset(b[1..]);
    forall z ensures multiset(a[1..])[z] == multiset(b[1..])[z] {
      assert multiset(a)[z] == multiset(b)[z];
    }
  }

  lemma SortedTail(t: Tree, a: seq<string>)
    requires AllIn(t, a) && a != [] && SortedBy(t, a) && Strict(t, a)
    ensures AllIn(t, a[1..]) && SortedBy(t, a[1..]) && Strict(t, a[1..])
  {
    assert forall c :: c in a[1..] ==> c in a;
    forall i, j | 0 <= i < j < |a[1..]| ensures Before(t, a[1..][i], a[1..][j]) {
      assert a[1..][i] == a[i + 1] && a[1..][j] == a[j + 1];
    }
    forall i, j | 0 <= i < |a[1..]| && 0 <= j < |a[1..]| && i != j
      ensures CompareNodes(t[a[1..][i]], t[a[1..][j]]) != 0
    {
      assert a[1..][i] == a[i + 1] && a[1..][j] == a[j + 1];
    }
  }

  /** When no two children compare equal there is only one sorted order, so
      the model does not depend on the sorting algorithm. */
  lemma {:induction false} SortedPermutationUnique(t: Tree, a: seq<string>, b: seq<string>)
    requires AllIn(t, a) && AllIn(t, b) && Strict(t, a)
    requires SortedBy(t, a) && SortedBy(t, b) && multiset(a) == multiset(b)
    ensures a == b
    decreases |a|
  {
    if a == [] {
      assert |multiset(b)| == 0;
    } else {
      SameHead(t, a, b);
      TailMultiset(a, b);
      SortedTail(t, a);
      assert AllIn(t, b[1..]) && SortedBy(t, b[1..]) by {
        assert forall c :: c in b[1..] ==> c in b;
        forall i, j | 0 <= i < j < |b[1..]| ensures Before(t, b[1..][i], b[1..][j]) {
          assert b[1..][i] == b[i + 1] && b[1..][j] == b[j + 1];
        }
      }
      SortedPermutationUnique(t, a[1..], b[1..]);
      assert a == [a[0]] + a[1..] && b == [b[0]] + b[1..];
    }
  }

  /** Siblings never compare equal: two children of one node that are of the
      same kind and have the same name come from the same segment, so they
      are the same node. */
  lemma SiblingsStrict(t: Tree, k: string)
    requires Valid(t) && k in t
    ensures AllIn(t, t[k].children) && Strict(t, t[k].children)
  {
    var cs := t[k].children;
    assert NodeOk(t, k);
    forall i, j | 0 <= i < |cs| && 0 <= j < |cs| && i != j
      ensures CompareNodes(t[cs[i]], t[cs[j]]) != 0
    {
      if i < j { DistinctIndex(cs, i, j); } else { DistinctIndex(cs, j, i); }
      SiblingsDiffer(t, k, cs[i], cs[j]);
    }
  }

  lemma SiblingsDiffer(t: Tree, k: string, a: string, b: string)
    requires Valid(t) && k in t && NodeOk(t, k) && a in t[k].children && b in t[k].children && a != b
    ensures CompareNodes(t[a], t[b]) != 0
  {
    ChildSegments(t, k, a);
    ChildSegments(t, k, b);
    ValidCanonical(t, a);
    ValidCanonical(t, b);
    assert LastSegment(a) != LastSegment(b);
    assert NodeOk(t, a) && NonRootOk(t, a);
    assert NodeOk(t, b) && NonRootOk(t, b);
    if t[a].isFolder == t[b].isFolder && !t[a].isFolder {
      assert StripMd(LastSegment(a)) + MD == LastSegment(a);
      assert StripMd(LastSegment(b)) + MD == LastSegment(b);
    }
  }

  // ---------------------------------------------------------------------------
  // `sortTree`

  /** One node with its children sorted. */
  function SortNode(t: Tree, k: string): (n: Node)
    requires Valid(t) && k in t
  {
    assert NodeOk(t, k);
    t[k].(children := SortChildren(t, t[k].children))
  }

  /** `r` is `t` with the children of every node below `s` sorted and every
      other node untouched. */
  ghost predicate SortedFrom(t: Tree, r: Tree, s: string)
    requires Valid(t)
  {
    r.Keys == t.Keys && forall k :: k in t ==> r[k] == if Below(s, k) then SortNode(t, k) else t[k]
  }

  ghost predicate Bounded(t: Tree, bound: nat)
  {
    forall k :: k in t ==> t[k].level <= bound
  }

  /** Only the order of children lists differs. */
  ghost predicate Reordered(t: Tree, r: Tree)
  {
    r.Keys == t.Keys &&
    forall k :: k in t ==> r[k].(children := t[k].children) == t[k] && multiset(r[k].children) == multiset(t[k].children)
  }

  lemma ReorderedValid(t: Tree, r: Tree)
    requires Valid(t) && Reordered(t, r)
    ensures Valid(r)
  {
    forall k | k in r ensures NodeOk(r, k) {
      assert NodeOk(t, k);
      assert forall c :: c in r[k].children ==> c in multiset(t[k].children);
      if k != "" {
        assert NonRootOk(t, k);
        assert k in multiset(r[Parent(k)].children);
        assert NonRootOk(r, k);
      }
    }
  }

  /** The state of `sortTree(node)` after the loop has sorted the subtrees of
      the first `i` children: the node and those subtrees sorted, nothing
      else touched. */
  ghost predicate DoneUpTo(t: Tree, r: Tree, s: string, cs: seq<string>, i: nat)
    requires Valid(t) && i <= |cs|
  {
    r.Keys == t.Keys &&
    forall k :: k in t ==> r[k] == if k == s || exists j :: 0 <= j < i && Below(cs[j], k) then SortNode(t, k) else t[k]
  }

  lemma DoneReordered(t: Tree, r: Tree, s: string, cs: seq<string>, i: nat)
    requires Valid(t) && i <= |cs| && DoneUpTo(t, r, s, cs, i)
    ensures Reordered(t, r) && Valid(r)
  {
    forall k | k in t
      ensures r[k].(children := t[k].children) == t[k] && multiset(r[k].children) == multiset(t[k].children)
    {
      assert NodeOk(t, k);
    }
    ReorderedValid(t, r);
  }

  /** The sorted children of `s` are its children, each listed once. */
  lemma SortedChildrenFacts(t: Tree, s: string, cs: seq<string>)
    requires Valid(t) && s in t && NodeOk(t, s) && cs == SortChildren(t, t[s].children)
    ensures Distinct(cs) && forall c :: c in cs <==> c in t[s].children
  {
    assert NodeOk(t, s);
    assert multiset(cs) == multiset(t[s].children);
    forall c ensures c in cs <==> c in t[s].children {
      assert c in cs <==> c in multiset(cs);
    }
  }

  /** A node below the child just done: it lies below no earlier child and is
      not `s`; sorting it in `r` is sorting it in `t`. */
  lemma DoneStepBelow(t: Tree, r: Tree, s: string, cs: seq<string>, i: nat, r': Tree, k: string)
    requires Valid(t) && s in t && NodeOk(t, s) && cs == SortChildren(t, t[s].children) && i < |cs|
    requires DoneUpTo(t, r, s, cs, i) && Reordered(t, r)
    requires Valid(r) && SortedFrom(r, r', cs[i])
    requires k in t && Below(cs[i], k)
    ensures k != s && !(exists j :: 0 <= j < i && Below(cs[j], k))
    ensures r'[k] == SortNode(t, k)
  {
    SortedChildrenFacts(t, s, cs);
    ChildNotAbove(t, s, cs[i]);
    forall j | 0 <= j < i && Below(cs[j], k) ensures false {
      ChildrenDisjoint(t, s, cs[j], cs[i], k);
      DistinctIndex(cs, j, i);
    }
    assert r[k] == t[k];
    assert NodeOk(t, k);
    assert SameLabels(t, r, t[k].children);
    SortChildrenSameLabels(t, r, t[k].children);
  }

  /** A node not below the child just done keeps its state. */
  lemma DoneStepOther(t: Tree, r: Tree, s: string, cs: seq<string>, i: nat, r': Tree, k: string)
    requires Valid(t) && i < |cs| && DoneUpTo(t, r, s, cs, i)
    requires Valid(r) && SortedFrom(r, r', cs[i])
    requires k in t && !Below(cs[i], k)
    ensures r'[k] == r[k]
    ensures (exists j :: 0 <= j < i + 1 && Below(cs[j], k)) <==> (exists j :: 0 <= j < i && Below(cs[j], k))
  {
  }

  /** Sorting the subtree of child `i` moves the loop on by one. */
  lemma DoneStep(t: Tree, r: Tree, s: string, cs: seq<string>, i: nat, r': Tree)
    requires Valid(t) && s in t && NodeOk(t, s) && cs == SortChildren(t, t[s].children) && i < |cs|
    requires DoneUpTo(t, r, s, cs, i)
    requires Valid(r) && SortedFrom(r, r', cs[i])
    ensures DoneUpTo(t, r', s, cs, i + 1)
  {
    DoneReordered(t, r, s, cs, i);
    forall k | k in t
      ensures r'[k] == if k == s || exists j :: 0 <= j < i + 1 && Below(cs[j], k) then SortNode(t, k) else t[k]
    {
      if Below(cs[i], k) {
        DoneStepBelow(t, r, s, cs, i, r', k);
      } else {
        DoneStepOther(t, r, s, cs, i, r', k);
      }
    }
  }

  /** Once every child is done, exactly the subtree of `s` is sorted. */
  lemma DoneAll(t: Tree, r: Tree, s: string, cs: seq<string>)
    requires Valid(t) && s in t && NodeOk(t, s) && cs == SortChildren(t, t[s].children)
    requires DoneUpTo(t, r, s, cs, |cs|)
    ensures SortedFrom(t, r, s)
  {
    SortedChildrenFacts(t, s, cs);
    forall k | k in t ensures r[k] == if Below(s, k) then SortNode(t, k) else t[k] {
      SubtreeOfChildren(t, s, cs, k);
    }
  }

  /** `sortTree(node)`: sort the node's children, then each child's subtree in
      turn. `bound` is a ghost upper bound on the levels, for termination. */
  method SortTree(t: Tree, slug: string, ghost bound: nat) returns (r: Tree)
    requires Valid(t) && slug in t && Bounded(t, bound)
    ensures SortedFrom(t, r, slug)
    decreases bound - t[slug].level
  {
    var node := t[slug];
    assert NodeOk(t, slug);
    r := t[slug := node.(children := SortChildren(t, node.children))];
    var children := r[slug].children;
    for i := 0 to |children|
      invariant DoneUpTo(t, r, slug, children, i)
    {
      DoneReordered(t, r, slug, children, i);
      SortedChildrenFacts(t, slug, children);
      ChildSegments(t, slug, children[i]);
      var r' := SortTree(r, children[i], bound);
      DoneStep(t, r, slug, children, i, r');
      r := r';
    }
    DoneAll(t, r, slug, children);
  }

  // ---------------------------------------------------------------------------
  // The whole tree

  /** Every node of the tree with its children sorted. */
  function SortAll(t: Tree): (r: Tree)
    requires Valid(t)
    ensures r.Keys == t.Keys
  {
    map k | k in t :: SortNode(t, k)
  }

  /** Sorting from the root reaches every node. */
  lemma SortedFromRoot(t: Tree, r: Tree)
    requires Valid(t) && SortedFrom(t, r, "")
    ensures r == SortAll(t)
  {
    assert Segments("") == [];
    forall k | k in t ensures r[k] == SortAll(t)[k] {
      assert Below("", k);
    }
  }

  /** Sorting only reorders children lists, so the tree invariant survives. */
  lemma SortAllValid(t: Tree)
    requires Valid(t)
    ensures Reordered(t, SortAll(t)) && Valid(SortAll(t))
  {
    var r := SortAll(t);
    forall k | k in t
      ensures r[k].(children := t[k].children) == t[k] && multiset(r[k].children) == multiset(t[k].children)
    {
      assert NodeOk(t, k);
    }
    ReorderedValid(t, r);
  }

  /** Sortedness depends only on the kinds and names of the children. */
  lemma SortedBySameLabels(t: Tree, r: Tree, cs: seq<string>)
    requires SameLabels(t, r, cs) && AllIn(t, cs) && SortedBy(t, cs)
    ensures AllIn(r, cs) && SortedBy(r, cs)
  {
    forall i, j | 0 <= i < j < |cs| ensures Before(r, cs[i], cs[j]) {
      assert Before(t, cs[i], cs[j]);
    }
  }

  /** After the sort every node lists its folders first, then its files, each
      kind in name order, and no child is lost or added. */
  lemma SortAllOrdered(t: Tree, k: string)
    requires Valid(t) && k in t
    ensures AllIn(SortAll(t), SortAll(t)[k].children)
    ensures multiset(SortAll(t)[k].children) == multiset(t[k].children)
    ensures SortedBy(SortAll(t), SortAll(t)[k].children)
  {
    var r := SortAll(t);
    SortAllValid(t);
    assert NodeOk(t, k);
    var cs := SortChildren(t, t[k].children);
    assert r[k].children == cs;
    assert SameLabels(t, r, cs) by {
      forall c | c in cs ensures c in t && c in r && t[c].isFolder == r[c].isFolder && t[c].name == r[c].name {
        assert c in t;
        assert r[c].(children := t[c].children) == t[c];
      }
    }
    SortedBySameLabels(t, r, cs);
  }

  /** A node whose children are already in order is left as it is. */
  lemma SortNodeSorted(t: Tree, k: string)
    requires Valid(t) && k in t && AllIn(t, t[k].children) && SortedBy(t, t[k].children)
    ensures SortNode(t, k) == t[k]
  {
    SortChildrenOfSorted(t, t[k].children);
  }

  /** A tree whose nodes all have their children in order is its own sort. */
  lemma SortAllOfSorted(t: Tree)
    requires Valid(t)
    requires forall k :: k in t ==> AllIn(t, t[k].children) && SortedBy(t, t[k].children)
    ensures SortAll(t) == t
  {
    forall k | k in t ensures SortAll(t)[k] == t[k] {
      SortNodeSorted(t, k);
    }
  }

  /** Sorting a sorted tree changes nothing. */
  lemma SortAllIdempotent(t: Tree)
    requires Valid(t)
    ensures Valid(SortAll(t)) && SortAll(SortAll(t)) == SortAll(t)
  {
    var r := SortAll(t);
    SortAllValid(t);
    forall k | k in r ensures AllIn(r, r[k].children) && SortedBy(r, r[k].children) {
      SortAllOrdered(t, k);
    }
    SortAllOfSorted(r);
  }

  /** The tree `buildTreeFromData` returns for the keys of the content index. */
  function BuildTree(keys: seq<string>): (tree: Tree)
  {
    SortAll(BuildUnsorted(keys))
  }

  /** `buildTreeFromData`: read every key into the path map, then sort from the
      root. The tree is returned as the path map, whose entry `""` is the root. */
  method BuildTreeFromData(keys: seq<string>) returns (tree: Tree)
    ensures tree == BuildTree(keys)
  {
    var pathMap := BuildPathMap(keys);
    tree := SortTree(pathMap, "", Height(pathMap));
    SortedFromRoot(pathMap, tree);
  }

  /** The built tree satisfies the tree invariant and every node in it comes
      from a key: a file from a key's last segment, a folder from an earlier
      one. */
  lemma BuiltTreeValid(keys: seq<string>)
    ensures Valid(BuildTree(keys)) && FromKeys(BuildTree(keys), keys)
  {
    var u := BuildUnsorted(keys);
    BuildUnsortedFromKeys(keys);
    SortAllValid(u);
    var r := SortAll(u);
    forall k | k in r && k != ""
      ensures if r[k].isFolder then FolderOfKey(keys, Segments(k)) else FileOfKey(keys, Segments(k))
    {
      assert r[k].isFolder == u[k].isFolder;
    }
  }

  /** Every folder on the way to a key, and the key itself when it names a
      document, is in the built tree when no folder up to it is excluded. */
  lemma BuiltTreeComplete(keys: seq<string>, m: nat, j: nat)
    requires m < |keys| && j < |Segments(keys[m])|
    requires CleanBetween(Segments(keys[m]), 0, j)
    requires Wanted(Segments(keys[m]), j)
    ensures Join(Segments(keys[m])[..j + 1]) in BuildTree(keys)
  {
    BuildUnsortedComplete(keys, m, j);
  }
}

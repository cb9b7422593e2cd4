/** `buildTreeFromData` before its final sort: for each content-index key, in
    iteration order, walk the key's segments from the root, reusing the node of
    every cumulative path already in `pathMap` and creating the missing ones,
    skipping a last segment that is not a document and abandoning the key at
    the first excluded folder it would create. */
module Build {
  import opened Paths
  import opened Exclusion
  import opened FileTree

  /** What the builder never undoes: nodes stay, keep their slug, name, kind
      and level, and their children lists only grow at the end. */
  ghost predicate Grows(t: Tree, r: Tree)
  {
    && t.Keys <= r.Keys
    && forall k :: k in t ==> r[k].(children := t[k].children) == t[k] && t[k].children <= r[k].children
  }

  lemma GrowsTrans(a: Tree, b: Tree, c: Tree)
    requires Grows(a, b) && Grows(b, c)
    ensures Grows(a, c)
  {
    forall k | k in a ensures c[k].(children := a[k].children) == a[k] && a[k].children <= c[k].children {
      assert b[k].(children := a[k].children) == a[k];
      assert c[k].(children := b[k].children) == b[k];
    }
  }

  /** `pathMap.set(newPath, childNode); currentNode.children.push(childNode)`. */
  function AddChild(t: Tree, cur: string, child: Node): (r: Tree)
    requires cur in t && child.slug !in t
    ensures Grows(t, r)
    ensures r.Keys == t.Keys + {child.slug} && r[child.slug] == child
    ensures r[cur] == t[cur].(children := t[cur].children + [child.slug])
    ensures forall k :: k in t && k != cur ==> r[k] == t[k]
  {
    var parent := t[cur];
    t[child.slug := child][cur := parent.(children := parent.children + [child.slug])]
  }

  /** The inner loop of the builder from index `i` on, with `cur` the current
      path; the current node is `t[cur]`, since `pathMap` holds every node under
      its own path. Creation happens only for a path not yet in the map. */
  function Walk(t: Tree, parts: seq<string>, i: nat, cur: string): (r: Tree)
    requires i <= |parts| && cur in t
    ensures Grows(t, r)
    decreases |parts| - i
  {
    if i == |parts| then t
    else
      var part := parts[i];
      var isLastPart := i == |parts| - 1;
      var newPath := Extend(cur, part);
      if isLastPart && !EndsWithMd(part) then
        Walk(t, parts, i + 1, cur)
      else if newPath in t then
        Walk(t, parts, i + 1, newPath)
      else
        var isFolder := !isLastPart || !EndsWithMd(part);
        if isFolder && ShouldExcludeFolder(part) then
          t
        else
          var child := Node(if isFolder then part else StripMd(part), newPath, isFolder, [], i + 1);
          var t' := AddChild(t, cur, child);
          GrowsTrans(t, t', Walk(t', parts, i + 1, newPath));
          Walk(t', parts, i + 1, newPath)
  }

  /** A last segment that is not a document is skipped. */
  lemma WalkSkip(t: Tree, parts: seq<string>, i: nat, cur: string)
    requires i == |parts| - 1 && cur in t && !EndsWithMd(parts[i])
    ensures Walk(t, parts, i, cur) == Walk(t, parts, i + 1, cur) == t
  {
  }

  /** A path already in the map is reused and the walk moves on to it. */
  lemma WalkReuse(t: Tree, parts: seq<string>, i: nat, cur: string)
    requires i < |parts| && cur in t && (i < |parts| - 1 || EndsWithMd(parts[i]))
    requires Extend(cur, parts[i]) in t
    ensures Walk(t, parts, i, cur) == Walk(t, parts, i + 1, Extend(cur, parts[i]))
  {
  }

  /** The node made for segment `i` when its path is new. */
  function NewNode(parts: seq<string>, i: nat, cur: string): (n: Node)
    requires i < |parts|
    ensures n.slug == Extend(cur, parts[i]) && n.level == i + 1 && n.children == []
    ensures n.isFolder <==> i < |parts| - 1 || !EndsWithMd(parts[i])
    ensures n.isFolder ==> n.name == parts[i]
    ensures !n.isFolder ==> n.name + MD == parts[i]
  {
    var part := parts[i];
    var isFolder := i < |parts| - 1 || !EndsWithMd(part);
    Node(if isFolder then part else StripMd(part), Extend(cur, part), isFolder, [], i + 1)
  }

  /** A new path is created under the current node, unless it is an excluded
      folder, which ends the walk. */
  lemma WalkCreate(t: Tree, parts: seq<string>, i: nat, cur: string)
    requires i < |parts| && cur in t && (i < |parts| - 1 || EndsWithMd(parts[i]))
    requires Extend(cur, parts[i]) !in t
    ensures NewNode(parts, i, cur).isFolder && ShouldExcludeFolder(parts[i]) ==> Walk(t, parts, i, cur) == t
    ensures !(NewNode(parts, i, cur).isFolder && ShouldExcludeFolder(parts[i])) ==>
      Walk(t, parts, i, cur) == Walk(AddChild(t, cur, NewNode(parts, i, cur)), parts, i + 1, Extend(cur, parts[i]))
  {
  }

  /** One pass of the outer loop: the key's segments walked from the root. */
  function Insert(t: Tree, key: string): (r: Tree)
    requires "" in t
    ensures Grows(t, r)
  {
    Walk(t, Segments(key), 0, "")
  }

  /** The tree after the outer loop has read `keys`, before sorting. */
  function BuildUnsorted(keys: seq<string>): (r: Tree)
    ensures "" in r && Valid(r)
  {
    if keys == [] then
      EmptyTreeValid();
      EmptyTree()
    else
      var init := BuildUnsorted(keys[..|keys| - 1]);
      InsertValid(init, keys[|keys| - 1]);
      Insert(init, keys[|keys| - 1])
  }

  // ---------------------------------------------------------------------------
  // The tree invariant is kept

  /** The path one segment below a canonical path. */
  lemma ExtendFacts(cur: string, part: string)
    requires Canonical(cur) && IsSegment(part)
    ensures Segments(Extend(cur, part)) == Segments(cur) + [part]
    ensures Canonical(Extend(cur, part)) && Extend(cur, part) != ""
    ensures Parent(Extend(cur, part)) == cur && LastSegment(Extend(cur, part)) == part
  {
    var np := Extend(cur, part);
    var cs := Segments(cur);
    SegmentsAreSegments(cur);
    JoinAppend(cs, part);
    assert AllSegments(cs + [part]);
    SegmentsOfJoin(cs + [part]);
    ParentSegments(np);
    SegmentsOfJoin(cs);
  }

  /** Creating one node under `cur` from the segment `part` keeps the tree
      valid, provided the node is named and classified as the builder does. */
  lemma AddChildValid(t: Tree, cur: string, part: string, child: Node)
    requires Valid(t) && cur in t && IsSegment(part)
    requires child.slug == Extend(cur, part) && child.slug !in t
    requires child.children == [] && child.level == |Segments(cur)| + 1
    requires child.isFolder ==> child.name == part && !ShouldExcludeFolder(part)
    requires !child.isFolder ==> EndsWithMd(part) && child.name == StripMd(part)
    ensures Valid(AddChild(t, cur, child))
  {
    var r := AddChild(t, cur, child);
    ValidCanonical(t, cur);
    ExtendFacts(cur, part);
    AddedNodeOk(t, cur, part, child);
    AddedParentOk(t, cur, child);
    forall k | k in r ensures NodeOk(r, k) {
      if k != child.slug && k != cur {
        UntouchedNodeOk(t, cur, child, k);
      }
    }
  }

  lemma AddedNodeOk(t: Tree, cur: string, part: string, child: Node)
    requires cur in t && child.slug !in t
    requires Segments(child.slug) == Segments(cur) + [part]
    requires Canonical(child.slug) && child.slug != ""
    requires Parent(child.slug) == cur && LastSegment(child.slug) == part
    requires child.children == [] && child.level == |Segments(cur)| + 1
    requires child.isFolder ==> child.name == part && !ShouldExcludeFolder(part)
    requires !child.isFolder ==> EndsWithMd(part) && child.name == StripMd(part)
    ensures NodeOk(AddChild(t, cur, child), child.slug)
  {
    var r := AddChild(t, cur, child);
    assert NonRootOk(r, child.slug);
  }

  lemma AddedParentOk(t: Tree, cur: string, child: Node)
    requires Valid(t) && cur in t && child.slug !in t && child.slug != ""
    requires Parent(child.slug) == cur
    ensures NodeOk(AddChild(t, cur, child), cur)
  {
    var r := AddChild(t, cur, child);
    var np := child.slug;
    assert NodeOk(t, cur);
    assert multiset(r[cur].children) == multiset(t[cur].children) + multiset{np};
    assert np !in t[cur].children;
    assert Distinct(r[cur].children);
    assert ChildrenOk(r, cur);
    if cur != "" {
      assert NonRootOk(t, cur);
      if Parent(cur) == cur {
        ParentSegments(cur);
      }
      assert NonRootOk(r, cur);
    }
  }

  lemma UntouchedNodeOk(t: Tree, cur: string, child: Node, k: string)
    requires Valid(t) && cur in t && child.slug !in t
    requires k in t && k != cur
    ensures NodeOk(AddChild(t, cur, child), k)
  {
    var r := AddChild(t, cur, child);
    assert NodeOk(t, k);
    assert r[k] == t[k];
    assert ChildrenOk(r, k);
    if k != "" {
      assert NonRootOk(t, k);
      assert k in r[Parent(k)].children;
      assert NonRootOk(r, k);
    }
  }

  /** Walking the rest of a key keeps the tree valid. */
  lemma {:induction false} WalkValid(t: Tree, parts: seq<string>, i: nat, cur: string)
    requires Valid(t) && i <= |parts| && cur in t
    requires AllSegments(parts)
    requires i < |parts| ==> cur == Join(parts[..i])
    ensures Valid(Walk(t, parts, i, cur))
    decreases |parts| - i
  {
    if i < |parts| {
      var part := parts[i];
      var isLastPart := i == |parts| - 1;
      var newPath := Extend(cur, part);
      PrefixJoin(parts, i);
      if isLastPart && !EndsWithMd(part) {
        WalkValid(t, parts, i + 1, cur);
      } else if newPath in t {
        WalkValid(t, parts, i + 1, newPath);
      } else {
        var isFolder := !isLastPart || !EndsWithMd(part);
        if !(isFolder && ShouldExcludeFolder(part)) {
          var child := Node(if isFolder then part else StripMd(part), newPath, isFolder, [], i + 1);
          AddChildValid(t, cur, part, child);
          WalkValid(AddChild(t, cur, child), parts, i + 1, newPath);
        }
      }
    }
  }

  lemma InsertValid(t: Tree, key: string)
    requires Valid(t)
    ensures Valid(Insert(t, key))
  {
    SegmentsAreSegments(key);
    WalkValid(t, Segments(key), 0, "");
  }

  // ---------------------------------------------------------------------------
  // Where the nodes come from

  /** `ss` is a proper prefix of some key's segments. */
  ghost predicate FolderOfKey(keys: seq<string>, ss: seq<string>)
  {
    exists j :: 0 <= j < |keys| && |ss| < |Segments(keys[j])| && Segments(keys[j])[..|ss|] == ss
  }

  /** `ss` is all of some key's segments. */
  ghost predicate FileOfKey(keys: seq<string>, ss: seq<string>)
  {
    exists j :: 0 <= j < |keys| && Segments(keys[j]) == ss
  }

  /** Every folder was made from a non-final segment of a key and every file
      from the final segment of a key. */
  ghost predicate FromKeys(t: Tree, keys: seq<string>)
  {
    forall k :: k in t && k != "" ==>
      if t[k].isFolder then FolderOfKey(keys, Segments(k)) else FileOfKey(keys, Segments(k))
  }

  lemma {:induction false} WalkFromKeys(t: Tree, keys: seq<string>, m: nat, i: nat, cur: string)
    requires FromKeys(t, keys) && m < |keys|
    requires i <= |Segments(keys[m])| && cur in t
    requires i < |Segments(keys[m])| ==> cur == Join(Segments(keys[m])[..i])
    ensures FromKeys(Walk(t, Segments(keys[m]), i, cur), keys)
    decreases |Segments(keys[m])| - i
  {
    var parts := Segments(keys[m]);
    var r := Walk(t, parts, i, cur);
    if i < |parts| {
      var part := parts[i];
      var isLastPart := i == |parts| - 1;
      var newPath := Extend(cur, part);
      SegmentsAreSegments(keys[m]);
      PrefixJoin(parts, i);
      if isLastPart && !EndsWithMd(part) {
        WalkFromKeys(t, keys, m, i + 1, cur);
      } else if newPath in t {
        WalkFromKeys(t, keys, m, i + 1, newPath);
      } else {
        var isFolder := !isLastPart || !EndsWithMd(part);
        if !(isFolder && ShouldExcludeFolder(part)) {
          var child := Node(if isFolder then part else StripMd(part), newPath, isFolder, [], i + 1);
          var t' := AddChild(t, cur, child);
          assert Segments(newPath) == parts[..i + 1];
          if isFolder {
            assert parts[..|parts[..i + 1]|] == parts[..i + 1];
            assert FolderOfKey(keys, Segments(newPath));
          } else {
            assert parts[..i + 1] == parts;
            assert FileOfKey(keys, Segments(newPath));
          }
          forall k | k in t' && k != ""
            ensures if t'[k].isFolder then FolderOfKey(keys, Segments(k)) else FileOfKey(keys, Segments(k))
          {
            if k != newPath {
              assert t'[k].isFolder == t[k].isFolder;
            }
          }
          WalkFromKeys(t', keys, m, i + 1, newPath);
        }
      }
    }
  }

  lemma FromKeysWiden(t: Tree, keys: seq<string>, more: seq<string>)
    requires FromKeys(t, keys)
    ensures FromKeys(t, keys + more)
  {
    forall k | k in t && k != ""
      ensures if t[k].isFolder then FolderOfKey(keys + more, Segments(k)) else FileOfKey(keys + more, Segments(k))
    {
      if t[k].isFolder {
        var j :| 0 <= j < |keys| && |Segments(k)| < |Segments(keys[j])| && Segments(keys[j])[..|Segments(k)|] == Segments(k);
        assert (keys + more)[j] == keys[j];
      } else {
        var j :| 0 <= j < |keys| && Segments(keys[j]) == Segments(k);
        assert (keys + more)[j] == keys[j];
      }
    }
  }

  /** Every node of the built tree comes from a key: a folder from a segment
      that is not the key's last, a file from the key's last segment. */
  lemma {:induction false} BuildUnsortedFromKeys(keys: seq<string>)
    ensures FromKeys(BuildUnsorted(keys), keys)
  {
    if keys != [] {
      var init, key := keys[..|keys| - 1], keys[|keys| - 1];
      BuildUnsortedFromKeys(init);
      assert init + [key] == keys;
      FromKeysWiden(BuildUnsorted(init), init, [key]);
      WalkFromKeys(BuildUnsorted(init), keys, |keys| - 1, 0, "");
    }
  }

  // ---------------------------------------------------------------------------
  // What gets in

  /** Segment `j` of a key is meant to become a node: every segment but the
      last, and the last when it names a document. */
  predicate Wanted(parts: seq<string>, j: int)
    requires 0 <= j < |parts|
  {
    j < |parts| - 1 || EndsWithMd(parts[j])
  }

  /** No segment from `i` to `j` names an excluded folder (the last segment
      of a key is never checked as a folder). */
  predicate CleanBetween(parts: seq<string>, i: int, j: int)
  {
    forall m :: i <= m <= j && 0 <= m < |parts| - 1 ==> !ShouldExcludeFolder(parts[m])
  }

  /** Every wanted segment `j` that the walk reaches before any excluded
      folder ends up in the map: the `break` only drops what comes after it. */
  lemma {:induction false} WalkComplete(t: Tree, parts: seq<string>, i: nat, cur: string)
    requires i <= |parts| && cur in t && AllSegments(parts)
    requires i < |parts| ==> cur == Join(parts[..i])
    ensures forall j :: i <= j < |parts| && Wanted(parts, j) && CleanBetween(parts, i, j) ==>
      Join(parts[..j + 1]) in Walk(t, parts, i, cur)
    decreases |parts| - i
  {
    if i < |parts| {
      var newPath := Extend(cur, parts[i]);
      PrefixJoin(parts, i);
      if i == |parts| - 1 && !EndsWithMd(parts[i]) {
        WalkSkip(t, parts, i, cur);
      } else if newPath !in t && NewNode(parts, i, cur).isFolder && ShouldExcludeFolder(parts[i]) {
        assert i < |parts| - 1;
        assert forall j :: i <= j ==> !CleanBetween(parts, i, j);
      } else {
        var next: Tree;
        if newPath in t {
          WalkReuse(t, parts, i, cur);
          next := t;
        } else {
          WalkCreate(t, parts, i, cur);
          next := AddChild(t, cur, NewNode(parts, i, cur));
        }
        assert newPath in next;
        var r := Walk(next, parts, i + 1, newPath);
        assert Walk(t, parts, i, cur) == r;
        WalkComplete(next, parts, i + 1, newPath);
        forall j | i <= j < |parts| && Wanted(parts, j) && CleanBetween(parts, i, j)
          ensures Join(parts[..j + 1]) in r
        {
          if j == i {
            assert next.Keys <= r.Keys;
          } else {
            assert CleanBetween(parts, i + 1, j);
          }
        }
      }
    }
  }





  /** Completeness: every cumulative path of a key up to segment `j` is a
      node of the built tree when no folder up to `j` is excluded, the full key
      only when its last segment names a document. Folders before an excluded
      one stay, and folder prefixes are there even when the last segment is
      skipped. */
  lemma {:induction false} BuildUnsortedComplete(keys: seq<string>, m: nat, j: nat)
    requires m < |keys| && j < |Segments(keys[m])|
    requires CleanBetween(Segments(keys[m]), 0, j)
    requires Wanted(Segments(keys[m]), j)
    ensures Join(Segments(keys[m])[..j + 1]) in BuildUnsorted(keys)
  {
    var init := keys[..|keys| - 1];
    if m == |keys| - 1 {
      SegmentsAreSegments(keys[m]);
      WalkComplete(BuildUnsorted(init), Segments(keys[m]), 0, "");
    } else {
      assert init[m] == keys[m];
      BuildUnsortedComplete(init, m, j);
    }
  }


  /** Nothing lies below an excluded folder: every folder on the way down to a
      node is named by a segment that is not excluded. */
  lemma NothingBelowExcludedFolder(t: Tree, k: string, i: nat)
    requires Valid(t) && k in t && i < |Segments(k)|
    ensures Join(Segments(k)[..i + 1]) in t
    ensures t[Join(Segments(k)[..i + 1])].isFolder ==> !ShouldExcludeFolder(Segments(k)[i])
  {
    var ss := Segments(k);
    var a := Join(ss[..i + 1]);
    AncestorsPresent(t, k, i + 1);
    SegmentsAreSegments(k);
    PrefixJoin(ss, i);
    assert a != "" by { SegmentsOfJoin(ss[..i + 1]); }
    assert NodeOk(t, a) && NonRootOk(t, a);
    assert LastSegment(a) == ss[i];
  }

  // ---------------------------------------------------------------------------
  // Reuse

  /** Walking the same key again changes nothing: every node the first walk
      reached is reused, and the second walk stops where the first did. */
  lemma {:induction false} WalkTwice(t: Tree, parts: seq<string>, i: nat, cur: string)
    requires i <= |parts| && cur in t
    ensures Walk(Walk(t, parts, i, cur), parts, i, cur) == Walk(t, parts, i, cur)
    decreases |parts| - i
  {
    if i < |parts| {
      var part := parts[i];
      var isLastPart := i == |parts| - 1;
      var newPath := Extend(cur, part);
      if isLastPart && !EndsWithMd(part) {
        WalkTwice(t, parts, i + 1, cur);
      } else if newPath in t {
        WalkTwice(t, parts, i + 1, newPath);
      } else {
        var isFolder := !isLastPart || !EndsWithMd(part);
        if !(isFolder && ShouldExcludeFolder(part)) {
          var child := Node(if isFolder then part else StripMd(part), newPath, isFolder, [], i + 1);
          var t' := AddChild(t, cur, child);
          var r := Walk(t', parts, i + 1, newPath);
          assert newPath in r;
          WalkTwice(t', parts, i + 1, newPath);
        }
      }
    }
  }

  /** Node creation is idempotent: reading a key a second time adds nothing. */
  lemma InsertIdempotent(t: Tree, key: string)
    requires "" in t
    ensures Insert(Insert(t, key), key) == Insert(t, key)
  {
    WalkTwice(t, Segments(key), 0, "");
  }

  // ---------------------------------------------------------------------------
  // The loops

  /** The two nested loops of `buildTreeFromData`, over `window.contentIndex`'s
      keys taken in iteration order (the empty sequence when there is no index). */
  method BuildPathMap(keys: seq<string>) returns (pathMap: Tree)
    ensures pathMap == BuildUnsorted(keys)
  {
    pathMap := EmptyTree();
    for k := 0 to |keys|
      invariant pathMap == BuildUnsorted(keys[..k])
    {
      assert keys[..k + 1][..k] == keys[..k];
      var parts := Segments(keys[k]);
      var currentPath := "";
      for i := 0 to |parts|
        invariant currentPath in pathMap
        invariant Walk(pathMap, parts, i, currentPath) == BuildUnsorted(keys[..k + 1])
      {
        var part := parts[i];
        var isLastPart := i == |parts| - 1;
        var newPath := Extend(currentPath, part);
        if isLastPart && !EndsWithMd(part) {
          continue;
        }
        if newPath !in pathMap {
          var isFolder := !isLastPart || !EndsWithMd(part);
          if isFolder && ShouldExcludeFolder(part) {
            break;
          }
          var childNode := Node(if isFolder then part else StripMd(part), newPath, isFolder, [], i + 1);
          pathMap := pathMap[newPath := childNode];
          var currentNode := pathMap[currentPath];
          pathMap := pathMap[currentPath := currentNode.(children := currentNode.children + [newPath])];
        }
        currentPath := newPath;
      }
    }
    assert keys[..|keys|] == keys;
  }
}

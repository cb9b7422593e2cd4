/** `renderTreeNode`: the tree as an HTML string, one `tree-item` div per node
    in depth-first order, indented by level. */
module Render {
  import opened Paths
  import opened FileTree
  import opened Stats

  // ---------------------------------------------------------------------------
  // Pieces of one item

  /** `s.repeat(n)`. */
  function Repeat(s: string, n: nat): (r: string)
    ensures |r| == |s| * n
    ensures forall c :: c in r ==> c in s
  {
    if n == 0 then "" else s + Repeat(s, n - 1)
  }

  /** Decimal digits of `n`, as `${n}` prints a non-negative integer. */
  function NatToString(n: nat): (r: string)
    ensures r != [] && forall i :: 0 <= i < |r| ==> '0' <= r[i] <= '9'
    ensures |r| > 1 ==> r[0] != '0'
  {
    if n < 10 then [Digit(n)] else NatToString(n / 10) + [Digit(n % 10)]
  }

  function Digit(d: nat): (c: char)
    requires d < 10
    ensures '0' <= c <= '9' && c as int - '0' as int == d
  {
    ('0' as int + d) as char
  }

  /** The value of a string of decimal digits. */
  function DigitsValue(s: string): nat
    requires forall i :: 0 <= i < |s| ==> '0' <= s[i] <= '9'
  {
    if s == [] then 0 else 10 * DigitsValue(s[..|s| - 1]) + (s[|s| - 1] as int - '0' as int)
  }

  /** The printed level reads back as the level. */
  lemma {:induction false} NatToStringValue(n: nat)
    ensures DigitsValue(NatToString(n)) == n
  {
    if n >= 10 {
      NatToStringValue(n / 10);
      var r := NatToString(n);
      assert r[..|r| - 1] == NatToString(n / 10);
    }
  }

  /** Different levels print differently. */
  lemma NatToStringInjective(m: nat, n: nat)
    requires NatToString(m) == NatToString(n)
    ensures m == n
  {
    NatToStringValue(m);
    NatToStringValue(n);
  }

  /** Two spaces per level below the first: `"  ".repeat(Math.max(0, level - 1))`. */
  function Indent(level: nat): (r: string)
    ensures |r| == if level == 0 then 0 else 2 * (level - 1)
    ensures forall c :: c in r ==> c == ' '
  {
    Repeat("  ", if level == 0 then 0 else level - 1)
  }

  /** The branch mark, shown below the first level only. */
  function Prefix(level: nat): string
  {
    if level > 1 then "\U{251C}\U{2500}\U{2500} " else ""
  }

  function Icon(isFolder: bool): string
  {
    if isFolder then "\U{1F4C1}" else "\U{1F4C4}"
  }

  /** The opening tag up to the value of `data-level`, which names the kind. */
  function OpenTag(isFolder: bool): string
  {
    "<div class=\"tree-item " + (if isFolder then "folder" else "file") + "\" data-level=\""
  }

  /** After the level: the line break and six spaces from the template, the
      indent, the branch mark and the icon. */
  function HeadTail(n: Node): string
  {
    "\">\n      " + Indent(n.level) + Prefix(n.level) + Icon(n.isFolder) + " "
  }

  /** Everything the item shows before its label. */
  function ItemHead(n: Node): string
  {
    OpenTag(n.isFolder) + NatToString(n.level) + HeadTail(n)
  }

  /** The folder name, or a link to the file's page; names go in unescaped. */
  function Label(n: Node): string
  {
    if n.isFolder then "<span class=\"tree-folder-name\">" + n.name + "</span>"
    else "<a href=\"/" + n.slug + "\" class=\"tree-file-link\">" + n.name + "</a>"
  }

  /** The markup for one node, without its children: it opens with the tag
      naming its kind, followed by the `data-level` digits, which read back
      as the level, and the label follows the head. */
  function Item(n: Node): (r: string)
    ensures |OpenTag(n.isFolder)| + |NatToString(n.level)| <= |ItemHead(n)|
    ensures |ItemHead(n)| + |Label(n)| <= |r|
    ensures r[..|OpenTag(n.isFolder)|] == OpenTag(n.isFolder)
    ensures r[|OpenTag(n.isFolder)|..|OpenTag(n.isFolder)| + |NatToString(n.level)|] == NatToString(n.level)
    ensures DigitsValue(r[|OpenTag(n.isFolder)|..|OpenTag(n.isFolder)| + |NatToString(n.level)|]) == n.level
    ensures r[|ItemHead(n)|..|ItemHead(n)| + |Label(n)|] == Label(n)
  {
    Layout(OpenTag(n.isFolder), NatToString(n.level), HeadTail(n), Label(n), "</div>");
    NatToStringValue(n.level);
    ItemHead(n) + Label(n) + "</div>"
  }

  /** A file's item links to `/` followed by its slug, and shows its name
      as given; a folder's item shows its name in a span, with no link. */
  lemma ItemLabel(n: Node)
    ensures |ItemHead(n)| + |Label(n)| <= |Item(n)|
    ensures !n.isFolder ==> (Item(n)[|ItemHead(n)|..|ItemHead(n)| + |Label(n)|] ==
      "<a href=\"/" + n.slug + "\" class=\"tree-file-link\">" + n.name + "</a>")
    ensures n.isFolder ==> (Item(n)[|ItemHead(n)|..|ItemHead(n)| + |Label(n)|] ==
      "<span class=\"tree-folder-name\">" + n.name + "</span>")
  {
  }

  /** Where the pieces of `tag + d + tail + l + close` sit. */
  lemma Layout(tag: string, d: string, tail: string, l: string, close: string)
    ensures (tag + d + tail + l + close)[..|tag|] == tag
    ensures (tag + d + tail + l + close)[|tag|..|tag| + |d|] == d
    ensures (tag + d + tail + l + close)[|tag + d + tail|..|tag + d + tail| + |l|] == l
  {
    var h := tag + d + tail;
    assert tag + d + tail + l + close == tag + d + (tail + l + close);
    assert tag + d + tail + l + close == h + l + close;
  }

  // ---------------------------------------------------------------------------
  // The renderer

  lemma ChildLevel(t: Tree, k: string, i: nat)
    requires Valid(t) && k in t && i < |t[k].children|
    ensures t[k].children[i] in t && t[t[k].children[i]].level == t[k].level + 1
    ensures t[k].level + 1 <= Height(t)
  {
    ChildSegments(t, k, t[k].children[i]);
  }

  /** `renderTreeNode(node, isRoot)`: the root contributes only its children;
      any other node its item followed by its children. Either way the output
      is the items of the subtree in depth-first order, the node first unless
      it is the root. */
  function RenderTreeNode(t: Tree, k: string, isRoot: bool): (r: string)
    requires Valid(t) && k in t
    ensures isRoot ==> r == Items(t, PreorderChildren(t, k, 0))
    ensures !isRoot ==> r == Items(t, Preorder(t, k))
    decreases Height(t) - t[k].level, 1, 0
  {
    var rest := RenderChildren(t, k, 0);
    ItemsCons(t, k, PreorderChildren(t, k, 0));
    if isRoot then rest else Item(t[k]) + rest
  }

  /** `node.children.map(child => renderTreeNode(child)).join("")`, from child
      `i` on: the children's renderings one after the other, in child order. */
  function RenderChildren(t: Tree, k: string, i: nat): (r: string)
    requires Valid(t) && k in t && i <= |t[k].children|
    ensures r == Items(t, PreorderChildren(t, k, i))
    decreases Height(t) - t[k].level, 0, |t[k].children| - i
  {
    if i == |t[k].children| then ""
    else
      ChildLevel(t, k, i);
      var c := t[k].children[i];
      ItemsAppend(t, Preorder(t, c), PreorderChildren(t, k, i + 1));
      RenderTreeNode(t, c, false) + RenderChildren(t, k, i + 1)
  }

  // ---------------------------------------------------------------------------
  // Depth-first order

  /** The slugs of the subtree of `k` in depth-first order, `k` first. */
  ghost function Preorder(t: Tree, k: string): (r: seq<string>)
    requires Valid(t) && k in t
    ensures r != [] && r[0] == k && forall x :: x in r ==> x in t
    decreases Height(t) - t[k].level, 1, 0
  {
    [k] + PreorderChildren(t, k, 0)
  }

  ghost function PreorderChildren(t: Tree, k: string, i: nat): (r: seq<string>)
    requires Valid(t) && k in t && i <= |t[k].children|
    ensures forall x :: x in r ==> x in t
    decreases Height(t) - t[k].level, 0, |t[k].children| - i
  {
    if i == |t[k].children| then []
    else
      ChildLevel(t, k, i);
      Preorder(t, t[k].children[i]) + PreorderChildren(t, k, i + 1)
  }

  /** The items of the listed nodes, one after the other. */
  function Items(t: Tree, ks: seq<string>): string
    requires forall k :: k in ks ==> k in t
  {
    if ks == [] then "" else Item(t[ks[0]]) + Items(t, ks[1..])
  }

  lemma {:induction false} ItemsAppend(t: Tree, a: seq<string>, b: seq<string>)
    requires forall k :: k in a + b ==> k in t
    ensures Items(t, a + b) == Items(t, a) + Items(t, b)
  {
    if a == [] {
      assert a + b == b;
    } else {
      var x, ys, zs := Item(t[a[0]]), Items(t, a[1..]), Items(t, b);
      SplitHead(a, b);
      ItemsCons(t, a[0], a[1..] + b);
      ItemsAppend(t, a[1..], b);
      ItemsCons(t, a[0], a[1..]);
      Associative(x, ys, zs);
    }
  }

  /** Unfolding `Items` once on a list that starts with `k`. */
  lemma ItemsCons(t: Tree, k: string, ks: seq<string>)
    requires k in t && forall x :: x in ks ==> x in t
    ensures Items(t, [k] + ks) == Item(t[k]) + Items(t, ks)
  {
    assert ([k] + ks)[0] == k && ([k] + ks)[1..] == ks;
  }

  lemma SplitHead<T>(a: seq<T>, b: seq<T>)
    requires a != []
    ensures a == [a[0]] + a[1..] && a + b == [a[0]] + (a[1..] + b)
  {
  }

  lemma Associative(x: string, y: string, z: string)
    ensures x + (y + z) == (x + y) + z
  {
  }


  lemma {:induction false} PreorderIn(t: Tree, k: string)
    requires Valid(t) && k in t
    ensures forall x :: x in Preorder(t, k) ==> x in t && Below(k, x)
    decreases Height(t) - t[k].level, 1, 0
  {
    PreorderChildrenIn(t, k, 0);
  }

  lemma {:induction false} PreorderChildrenIn(t: Tree, k: string, i: nat)
    requires Valid(t) && k in t && i <= |t[k].children|
    ensures forall x :: x in PreorderChildren(t, k, i) ==> x in t && Below(k, x) && x != k
    ensures forall x :: x in PreorderChildren(t, k, i) ==> exists j :: i <= j < |t[k].children| && Below(t[k].children[j], x)
    decreases Height(t) - t[k].level, 0, |t[k].children| - i
  {
    if i < |t[k].children| {
      var c := t[k].children[i];
      ChildLevel(t, k, i);
      PreorderIn(t, c);
      PreorderChildrenIn(t, k, i + 1);
      forall x | x in Preorder(t, c) ensures Below(k, x) && x != k {
        SubtreeUp(t, k, c, x);
        if x == k {
          ChildNotAbove(t, k, c);
        }
      }
    }
  }

  /** The root prints no item of its own: the page shows every other node. */
  lemma RenderRoot(t: Tree)
    requires Valid(t)
    ensures Preorder(t, "")[0] == "" && forall x :: x in Preorder(t, "") ==> x in t
    ensures RenderTreeNode(t, "", true) == Items(t, Preorder(t, "")[1..])
  {
    assert Preorder(t, "")[1..] == PreorderChildren(t, "", 0);
  }

  // ---------------------------------------------------------------------------
  // Each node once

  /** Depth-first order lists every node of the subtree exactly once. */
  lemma {:induction false} PreorderExact(t: Tree, k: string)
    requires Valid(t) && k in t
    ensures Distinct(Preorder(t, k))
    ensures forall x :: x in Preorder(t, k) <==> x in t && Below(k, x)
    decreases Height(t) - t[k].level, 1, 0
  {
    PreorderIn(t, k);
    PreorderChildrenExact(t, k, 0);
    PreorderChildrenIn(t, k, 0);
    var rest := PreorderChildren(t, k, 0);
    DistinctAppend([k], rest);
    forall x | x in t && Below(k, x) ensures x in Preorder(t, k) {
      SubtreeOfChildren(t, k, t[k].children, x);
    }
  }

  lemma {:induction false} PreorderChildrenExact(t: Tree, k: string, i: nat)
    requires Valid(t) && k in t && i <= |t[k].children|
    ensures Distinct(PreorderChildren(t, k, i))
    ensures forall x :: x in t && (exists j :: i <= j < |t[k].children| && Below(t[k].children[j], x)) ==>
      x in PreorderChildren(t, k, i)
    decreases Height(t) - t[k].level, 0, |t[k].children| - i
  {
    if i < |t[k].children| {
      var cs := t[k].children;
      var c := cs[i];
      ChildLevel(t, k, i);
      PreorderExact(t, c);
      PreorderChildrenExact(t, k, i + 1);
      forall x | x in Preorder(t, c) ensures x !in PreorderChildren(t, k, i + 1) {
        LaterChildrenApart(t, k, i, x);
      }
      DistinctAppend(Preorder(t, c), PreorderChildren(t, k, i + 1));
      forall x | x in t && (exists j :: i <= j < |cs| && Below(cs[j], x))
        ensures x in PreorderChildren(t, k, i)
      {
        var j :| i <= j < |cs| && Below(cs[j], x);
        if j == i {
          assert x in Preorder(t, c);
        } else {
          assert x in PreorderChildren(t, k, i + 1);
        }
      }
    }
  }

  /** A node in the subtree of child `i` is in no later child's subtree. */
  lemma LaterChildrenApart(t: Tree, k: string, i: nat, x: string)
    requires Valid(t) && k in t && NodeOk(t, k) && i < |t[k].children|
    requires x in Preorder(t, t[k].children[i])
    ensures x !in PreorderChildren(t, k, i + 1)
  {
    var cs := t[k].children;
    ChildLevel(t, k, i);
    PreorderIn(t, cs[i]);
    PreorderChildrenIn(t, k, i + 1);
    if x in PreorderChildren(t, k, i + 1) {
      var j :| i + 1 <= j < |cs| && Below(cs[j], x);
      assert NodeOk(t, k);
      ChildrenDisjoint(t, k, cs[i], cs[j], x);
      DistinctIndex(cs, i, j);
    }
  }

  lemma DistinctAppend(a: seq<string>, b: seq<string>)
    requires Distinct(a) && Distinct(b)
    requires forall x :: x in a ==> x !in b
    ensures Distinct(a + b)
  {
    assert multiset(a + b) == multiset(a) + multiset(b);
    forall x | x in a + b ensures multiset(a + b)[x] == 1 {
      if x in a {
        assert x !in multiset(b);
      } else {
        assert x !in multiset(a);
      }
    }
  }

  /** A list without repeats is as long as the set of its elements. */
  lemma {:induction false} DistinctCard(s: seq<string>)
    requires Distinct(s)
    ensures |set x | x in s| == |s|
  {
    if s != [] {
      var rest := s[1..];
      assert s == [s[0]] + rest;
      assert multiset(s) == multiset{s[0]} + multiset(rest);
      assert Distinct(rest) by {
        forall x | x in rest ensures multiset(rest)[x] == 1 {
          assert multiset(s)[x] == 1;
        }
      }
      assert s[0] !in rest by {
        assert multiset(s)[s[0]] == 1;
      }
      DistinctCard(rest);
      assert (set x | x in s) == (set x | x in rest) + {s[0]};
    }
  }

  /** The page shows one item per node other than the root: as many as the
      displayed folder count plus the file count. */
  lemma ItemCount(t: Tree)
    requires Valid(t)
    ensures |Preorder(t, "")| - 1 == |set k | k in t && k != "" && t[k].isFolder| + |set k | k in t && !t[k].isFolder|
  {
    var p := Preorder(t, "");
    PreorderExact(t, "");
    DistinctCard(p);
    assert (set x | x in p) == Subtree(t, "");
    assert Subtree(t, "") == FoldersIn(t, Subtree(t, "")) + FilesIn(t, Subtree(t, ""));
    CountDisjoint(t, FoldersIn(t, Subtree(t, "")), FilesIn(t, Subtree(t, "")));
    assert FoldersIn(t, Subtree(t, "")) * FilesIn(t, Subtree(t, "")) == {};
    WholeTree(t);
  }

  /** In a built tree the branch mark appears exactly on nodes that are not
      children of the root, and the indent is two spaces per folder above the
      node. */
  lemma PrefixOnlyBelowTop(t: Tree, k: string)
    requires Valid(t) && k in t && k != ""
    ensures Prefix(t[k].level) != "" <==> Parent(k) != ""
    ensures |Indent(t[k].level)| == 2 * |Segments(Parent(k))|
  {
    assert NodeOk(t, k) && NonRootOk(t, k);
    ParentSegments(k);
    assert Segments("") == [];
    if Parent(k) != "" {
      assert Parent(k) in t;
      ValidCanonical(t, Parent(k));
    }
  }
}

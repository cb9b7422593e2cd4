/** Path strings: splitting a content-index key into its segments, rebuilding a
    slug from segments the way the tree builder accumulates `currentPath`, and
    the `.md` suffix tests used to tell documents from other files. */
module Paths {

  /** The document-file suffix. */
  const MD: string := ".md"

  /** JavaScript `s.split("/")`: the pieces between slashes, empty pieces
      included; the empty string splits into one empty piece. */
  function Split(s: string): (r: seq<string>)
    ensures |r| >= 1
    ensures forall i :: 0 <= i < |r| ==> '/' !in r[i]
  {
    if s == [] then [""]
    else
      var rest := Split(s[1..]);
      if s[0] == '/' then [""] + rest else [[s[0]] + rest[0]] + rest[1..]
  }

  /** JavaScript `ps.join("/")`, the inverse of `Split`. */
  function JoinAll(ps: seq<string>): string
  {
    if ps == [] then ""
    else if |ps| == 1 then ps[0]
    else ps[0] + "/" + JoinAll(ps[1..])
  }

  /** `.filter(p => p.length > 0)`. */
  function NonEmpty(ps: seq<string>): (r: seq<string>)
    ensures |r| <= |ps|
    ensures forall i :: 0 <= i < |r| ==> r[i] != ""
    ensures forall p :: p in r <==> p in ps && p != ""
  {
    if ps == [] then []
    else if ps[0] == "" then NonEmpty(ps[1..])
    else [ps[0]] + NonEmpty(ps[1..])
  }

  /** The segments of a key: `key.split("/").filter(p => p.length > 0)`. */
  function Segments(key: string): seq<string>
  {
    NonEmpty(Split(key))
  }

  /** A piece that can stand between two slashes of a slug. */
  predicate IsSegment(p: string)
  {
    p != "" && '/' !in p
  }

  predicate AllSegments(ps: seq<string>)
  {
    forall i :: 0 <= i < |ps| ==> IsSegment(ps[i])
  }

  /** The next cumulative path: `currentPath ? `${currentPath}/${part}` : part`
      (the empty string is JavaScript's only falsy string). */
  function Extend(cur: string, part: string): string
  {
    if cur != "" then cur + "/" + part else part
  }

  /** The cumulative path after walking the segments `ps` from the root. */
  function Join(ps: seq<string>): string
  {
    if ps == [] then "" else Extend(Join(ps[..|ps| - 1]), ps[|ps| - 1])
  }

  /** `s.endsWith(suffix)`. */
  predicate EndsWith(s: string, suffix: string)
  {
    |suffix| <= |s| && s[|s| - |suffix|..] == suffix
  }

  predicate EndsWithMd(s: string)
  {
    EndsWith(s, MD)
  }

  /** `s.replace(/\.md$/, "")`: without the `m` flag `$` matches only at the end
      of the string, so exactly one trailing `.md` goes. */
  function StripMd(s: string): (r: string)
    ensures EndsWithMd(s) ==> r + MD == s
    ensures !EndsWithMd(s) ==> r == s
  {
    if EndsWithMd(s) then s[..|s| - |MD|] else s
  }

  // ---------------------------------------------------------------------------
  // Split and join

  lemma {:induction false} SplitOfSegment(p: string)
    requires '/' !in p
    ensures Split(p) == [p]
  {
    if p != [] {
      SplitOfSegment(p[1..]);
      assert [p[0]] + p[1..] == p;
    }
  }

  /** Splitting distributes over one slash. */
  lemma {:induction false} SplitAppend(a: string, b: string)
    ensures Split(a + "/" + b) == Split(a) + Split(b)
  {
    if a == [] {
      assert a + "/" + b == ['/'] + b;
      assert (['/'] + b)[1..] == b;
    } else {
      var s := a + "/" + b;
      assert s[0] == a[0] && s[1..] == a[1..] + "/" + b;
      SplitAppend(a[1..], b);
    }
  }

  /** `key.split("/").join("/") == key`. */
  lemma {:induction false} JoinAllSplit(s: string)
    ensures JoinAll(Split(s)) == s
  {
    if s != [] {
      var rest := Split(s[1..]);
      JoinAllSplit(s[1..]);
      if s[0] == '/' {
        if |rest| == 1 {
          assert rest[0] == s[1..];
          assert JoinAll([""] + rest) == "" + "/" + rest[0];
        } else {
          assert ([""] + rest)[1..] == rest;
        }
        assert s == "/" + s[1..];
      } else {
        var r := Split(s);
        assert r == [[s[0]] + rest[0]] + rest[1..];
        if |rest| == 1 {
          assert JoinAll(rest) == rest[0];
          assert s == [s[0]] + s[1..];
        } else {
          assert r[1..] == rest[1..];
          assert JoinAll(rest) == rest[0] + "/" + JoinAll(rest[1..]);
          assert s == [s[0]] + s[1..];
        }
      }
    }
  }

  /** The filter keeps every non-empty piece as often as it occurs and
      drops every empty one. */
  lemma {:induction false} NonEmptyCounts(ps: seq<string>)
    ensures multiset(NonEmpty(ps)) == multiset(ps)["" := 0]
  {
    if ps != [] {
      NonEmptyCounts(ps[1..]);
      assert ps == [ps[0]] + ps[1..];
    }
  }

  /** Filtering distributes over concatenation: the kept pieces stay in order. */
  lemma {:induction false} NonEmptyAppend(a: seq<string>, b: seq<string>)
    ensures NonEmpty(a + b) == NonEmpty(a) + NonEmpty(b)
  {
    if a == [] {
      assert a + b == b;
    } else {
      assert (a + b)[1..] == a[1..] + b;
      NonEmptyAppend(a[1..], b);
    }
  }

  lemma {:induction false} NonEmptyOfSegments(ps: seq<string>)
    requires AllSegments(ps)
    ensures NonEmpty(ps) == ps
  {
    if ps != [] {
      NonEmptyOfSegments(ps[1..]);
    }
  }

  /** Every segment of a key is non-empty and free of slashes. */
  lemma SegmentsAreSegments(key: string)
    ensures AllSegments(Segments(key))
  {
    var ss := Segments(key);
    forall i | 0 <= i < |ss| ensures IsSegment(ss[i]) {
      assert ss[i] in Split(key);
    }
  }

  /** Joining segments and splitting again gives the segments back: a slug built
      from segments remembers them. */
  lemma {:induction false} SegmentsOfJoin(ps: seq<string>)
    requires AllSegments(ps)
    ensures Segments(Join(ps)) == ps
    ensures ps != [] <==> Join(ps) != ""
  {
    if ps != [] {
      var init, last := ps[..|ps| - 1], ps[|ps| - 1];
      SegmentsOfJoin(init);
      SplitOfSegment(last);
      if init == [] {
        assert Join(ps) == last;
        assert Segments(last) == NonEmpty([last]);
      } else {
        assert Join(ps) == Join(init) + "/" + last;
        SplitAppend(Join(init), last);
        NonEmptyAppend(Split(Join(init)), [last]);
        assert NonEmpty([last]) == [last];
        assert init + [last] == ps;
      }
    }
  }

  lemma JoinAppend(ps: seq<string>, p: string)
    ensures Join(ps + [p]) == Extend(Join(ps), p)
  {
    assert (ps + [p])[..|ps|] == ps;
  }

  /** A slug is canonical when it is the join of its own segments (no empty
      segments, no leading or trailing slash); every node of the tree has one. */
  predicate Canonical(k: string)
  {
    Join(Segments(k)) == k
  }

  lemma CanonicalJoin(ps: seq<string>)
    requires AllSegments(ps)
    ensures Canonical(Join(ps))
  {
    SegmentsOfJoin(ps);
  }

  /** Two canonical slugs with the same segments are the same slug. */
  lemma CanonicalInjective(a: string, b: string)
    requires Canonical(a) && Canonical(b) && Segments(a) == Segments(b)
    ensures a == b
  {
  }

  /** Walking one more segment of `ps` extends the cumulative path by it. */
  lemma PrefixJoin(ps: seq<string>, n: nat)
    requires AllSegments(ps) && n < |ps|
    ensures Join(ps[..n + 1]) == Extend(Join(ps[..n]), ps[n])
    ensures Segments(Join(ps[..n])) == ps[..n] && Segments(Join(ps[..n + 1])) == ps[..n + 1]
  {
    assert ps[..n] + [ps[n]] == ps[..n + 1];
    JoinAppend(ps[..n], ps[n]);
    assert AllSegments(ps[..n]) && AllSegments(ps[..n + 1]);
    SegmentsOfJoin(ps[..n]);
    SegmentsOfJoin(ps[..n + 1]);
  }
}

/** The deny-list of folder names that the file tree never shows, and the
    case-insensitive substring test against it. */
module Exclusion {

  /** `EXCLUDED_FOLDERS`, in the source's order. */
  const EXCLUDED_FOLDERS: seq<string> := [
    "ekler", "görseller", "pdf", "pdfler", "images", "assets",
    "attachments", "files", "media", "resimler", "dosyalar"
  ]

  /** `toLowerCase` on one character, for the ASCII letters and the Latin-1
      capitals (U+00C0..U+00DE except the multiplication sign U+00D7). */
  function LowerChar(c: char): (r: char)
    ensures 'A' <= c <= 'Z' ==> r as int == c as int + 32
    ensures !('A' <= c <= 'Z') && !('À' <= c <= 'Þ' && c != '×') ==> r == c
  {
    if 'A' <= c <= 'Z' || ('À' <= c <= 'Þ' && c != '×') then
      (c as int + 32) as char
    else c
  }

  function Lower(s: string): (r: string)
    ensures |r| == |s|
    ensures forall i :: 0 <= i < |s| ==> r[i] == LowerChar(s[i])
  {
    if s == [] then [] else [LowerChar(s[0])] + Lower(s[1..])
  }

  predicate IsPrefix(w: string, s: string)
  {
    |w| <= |s| && s[..|w|] == w
  }

  /** `s.includes(w)`, searched from the left one position at a time. */
  predicate Includes(s: string, w: string)
  {
    IsPrefix(w, s) || (s != [] && Includes(s[1..], w))
  }

  /** `EXCLUDED_FOLDERS.some(excluded => lower.includes(excluded) || lower === excluded)`. */
  predicate AnyMatches(lower: string, ws: seq<string>)
  {
    ws != [] && (Includes(lower, ws[0]) || lower == ws[0] || AnyMatches(lower, ws[1..]))
  }

  /** `shouldExcludeFolder`: one of the listed words occurs, as a substring,
      in the lower-cased name. */
  function ShouldExcludeFolder(folderName: string): (r: bool)
    ensures r <==> ListedWordOccurs(Lower(folderName))
  {
    var lower := Lower(folderName);
    ListedWordIff(lower);
    AnyMatches(lower, EXCLUDED_FOLDERS)
  }

  /** `w` occurs in `s` starting at offset `i`. */
  predicate OccursAt(s: string, w: string, i: int)
  {
    0 <= i <= |s| - |w| && s[i..i + |w|] == w
  }

  /** One of the listed words occurs in `lower` at some offset. */
  predicate ListedWordOccurs(lower: string)
  {
    exists k, i :: 0 <= k < |EXCLUDED_FOLDERS| && 0 <= i <= |lower| && OccursAt(lower, EXCLUDED_FOLDERS[k], i)
  }

  /** `Includes` holds exactly when `w` occurs in `s` at some offset. */
  lemma {:induction false} IncludesIff(s: string, w: string)
    ensures Includes(s, w) <==> exists i :: OccursAt(s, w, i)
  {
    if Includes(s, w) {
      if IsPrefix(w, s) {
        assert OccursAt(s, w, 0);
      } else {
        IncludesIff(s[1..], w);
        var i :| OccursAt(s[1..], w, i);
        assert s[1..][i..i + |w|] == s[i + 1..i + 1 + |w|];
        assert OccursAt(s, w, i + 1);
      }
    }
    if exists i :: OccursAt(s, w, i) {
      var i :| OccursAt(s, w, i);
      if i == 0 {
        assert IsPrefix(w, s);
      } else {
        assert s[1..][i - 1..i - 1 + |w|] == s[i..i + |w|];
        assert OccursAt(s[1..], w, i - 1);
        IncludesIff(s[1..], w);
      }
    }
  }

  lemma {:induction false} IncludesSelf(s: string)
    ensures Includes(s, s)
  {
    assert IsPrefix(s, s);
  }

  /** The `=== excluded` disjunct adds nothing: a list entry matches exactly
      when it occurs in the lower-cased name. */
  lemma {:induction false} AnyMatchesIff(lower: string, ws: seq<string>)
    ensures AnyMatches(lower, ws) <==> exists k :: 0 <= k < |ws| && Includes(lower, ws[k])
  {
    if ws != [] {
      AnyMatchesIff(lower, ws[1..]);
      if lower == ws[0] {
        IncludesSelf(lower);
      }
      if exists k :: 0 <= k < |ws| && Includes(lower, ws[k]) {
        var k :| 0 <= k < |ws| && Includes(lower, ws[k]);
        if k > 0 {
          assert ws[1..][k - 1] == ws[k];
        }
      }
      if exists k :: 0 <= k < |ws[1..]| && Includes(lower, ws[1..][k]) {
        var k :| 0 <= k < |ws[1..]| && Includes(lower, ws[1..][k]);
        assert ws[k + 1] == ws[1..][k];
      }
    }
  }

  /** The list matches exactly when one of the eleven words occurs, as a
      substring, in the lower-cased name. */
  lemma ListedWordIff(lower: string)
    ensures AnyMatches(lower, EXCLUDED_FOLDERS) <==> ListedWordOccurs(lower)
  {
    AnyMatchesIff(lower, EXCLUDED_FOLDERS);
    if AnyMatches(lower, EXCLUDED_FOLDERS) {
      var k :| 0 <= k < |EXCLUDED_FOLDERS| && Includes(lower, EXCLUDED_FOLDERS[k]);
      IncludesIff(lower, EXCLUDED_FOLDERS[k]);
      var i :| OccursAt(lower, EXCLUDED_FOLDERS[k], i);
    }
    if exists k, i :: 0 <= k < |EXCLUDED_FOLDERS| && OccursAt(lower, EXCLUDED_FOLDERS[k], i) {
      var k, i :| 0 <= k < |EXCLUDED_FOLDERS| && OccursAt(lower, EXCLUDED_FOLDERS[k], i);
      IncludesIff(lower, EXCLUDED_FOLDERS[k]);
    }
  }

  /** "Profiles" is excluded, through "files". */
  lemma ProfilesExcluded()
    ensures ShouldExcludeFolder("Profiles")
  {
    var lower := Lower("Profiles");
    assert lower == "profiles";
    assert lower[3..] == "files";
    assert IsPrefix("files", lower[3..]);
    AnyMatchesIff(lower, EXCLUDED_FOLDERS);
    assert EXCLUDED_FOLDERS[7] == "files";
    assert Includes(lower[3..], "files");
    assert Includes(lower[2..], "files");
    assert Includes(lower[1..], "files");
    assert Includes(lower, "files");
  }

  /** The list is matched case-insensitively: "GÖRSELLER" is excluded. */
  lemma UpperCaseExcluded()
    ensures ShouldExcludeFolder("GÖRSELLER")
  {
    assert Lower("GÖRSELLER") == "görseller";
    IncludesSelf("görseller");
  }

  /** Every listed word has at least three letters, so no shorter name is
      excluded. */
  lemma ShortNameKept(folderName: string)
    requires |folderName| < 3
    ensures !ShouldExcludeFolder(folderName)
  {
    assert forall k :: 0 <= k < |EXCLUDED_FOLDERS| ==> |EXCLUDED_FOLDERS[k]| >= 3;
  }

  /** A word longer than the name does not occur in it. */
  lemma LongWordAbsent(s: string, w: string)
    requires |s| < |w|
    ensures !Includes(s, w)
  {
    IncludesIff(s, w);
  }

  /** A word that starts with a letter the name lacks does not occur in it. */
  lemma FirstLetterAbsent(s: string, w: string)
    requires w != [] && w[0] !in s
    ensures !Includes(s, w)
  {
    IncludesIff(s, w);
  }

  /** Every listed word but "pdf" has at least five letters. */
  lemma ListedLengths()
    ensures forall j :: 0 <= j < |EXCLUDED_FOLDERS| && j != 2 ==> |EXCLUDED_FOLDERS[j]| >= 5
  {
  }

  lemma PdfAbsent(lower: string)
    requires 'p' !in lower
    ensures !Includes(lower, EXCLUDED_FOLDERS[2])
  {
    assert EXCLUDED_FOLDERS[2][0] == 'p';
    FirstLetterAbsent(lower, EXCLUDED_FOLDERS[2]);
  }

  lemma LongListedAbsent(lower: string, k: nat)
    requires |lower| <= 4 && k < |EXCLUDED_FOLDERS| && k != 2
    ensures !Includes(lower, EXCLUDED_FOLDERS[k])
  {
    ListedLengths();
    LongWordAbsent(lower, EXCLUDED_FOLDERS[k]);
  }

  /** Only "pdf" has fewer than five letters, so a lower-cased name of at
      most four letters without a `p` matches no listed word. */
  lemma FourLetterNameKept(lower: string)
    requires |lower| <= 4 && 'p' !in lower
    ensures !AnyMatches(lower, EXCLUDED_FOLDERS)
  {
    forall k | 0 <= k < |EXCLUDED_FOLDERS| ensures !Includes(lower, EXCLUDED_FOLDERS[k]) {
      if k == 2 {
        PdfAbsent(lower);
      } else {
        LongListedAbsent(lower, k);
      }
    }
    AnyMatchesIff(lower, EXCLUDED_FOLDERS);
  }
}

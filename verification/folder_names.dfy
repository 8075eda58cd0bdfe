/** `sanitizeFolderName`: the directory name a board is saved under. The
    chain of replacements is modelled stage by stage; the Unicode NFD
    decomposition that precedes the mark removal is taken as already done
    (it is the identity on ASCII and on decomposed text). */
module FolderNames {
  import opened Strings

  /** The characters a filter stage keeps, in the order it met them. */
  function Keep(s: string, p: char -> bool): (r: string)
    ensures |r| <= |s|
    ensures forall i :: 0 <= i < |r| ==> p(r[i])
  {
    if |s| == 0 then [] else Keep(s[..|s| - 1], p) + (if p(s[|s| - 1]) then [s[|s| - 1]] else [])
  }

  /** A combining diacritical mark, `[̀-ͯ]`. */
  predicate IsMark(c: char) {
    '\U{300}' <= c <= '\U{36F}'
  }

  predicate Unmarked(c: char) {
    !IsMark(c)
  }

  /** What `/[^\d\s\w\-]/g` leaves in place. */
  predicate Allowed(c: char) {
    IsWordChar(c) || IsSpace(c) || c == '-'
  }

  /** `.replace(/\s/g, "-")`. */
  function Dashes(s: string): (r: string)
    ensures |r| == |s|
    ensures forall i :: 0 <= i < |s| ==> r[i] == Dash(s[i])
  {
    if |s| == 0 then [] else Dashes(s[..|s| - 1]) + [Dash(s[|s| - 1])]
  }

  function Dash(c: char): char {
    if IsSpace(c) then '-' else c
  }

  /** No two adjacent hyphens. */
  predicate NoDoubleDash(s: string) {
    forall i :: 0 <= i < |s| - 1 ==> !(s[i] == '-' && s[i + 1] == '-')
  }

  /** `.replace(/-{2,}/g, "-")`: every run of two or more hyphens becomes
      one; a hyphen is dropped exactly when the character before it in the
      input is a hyphen too. */
  function Collapse(s: string): (r: string)
    ensures NoDoubleDash(r)
    ensures forall c :: c in r ==> c in s
    ensures |s| > 0 <==> |r| > 0
    ensures |s| > 0 ==> r[|r| - 1] == s[|s| - 1]
  {
    if |s| == 0 then []
    else
      var init := Collapse(s[..|s| - 1]);
      var c := s[|s| - 1];
      if c == '-' && |s| > 1 && s[|s| - 2] == '-' then
        init
      else
        assert forall x :: x in init + [c] ==> x in init || x == c;
        init + [c]
  }

  /** A character `sanitizeFolderName` may produce: `[0-9a-z_-]`. */
  predicate SlugChar(c: char) {
    IsDigit(c) || IsLower(c) || c == '_' || c == '-'
  }

  predicate IsSlug(s: string) {
    (forall i :: 0 <= i < |s| ==> SlugChar(s[i])) && NoDoubleDash(s)
  }

  /** `sanitizeFolderName`: drop the combining marks and every character
      that is not a digit, word character, white space or hyphen, turn
      white space into hyphens, collapse hyphen runs and lower-case. The
      result holds only `[0-9a-z_-]` and never two hyphens in a row. */
  function Sanitize(name: string): (r: string)
    ensures IsSlug(r)
  {
    var kept := Keep(Keep(name, Unmarked), Allowed);
    var dashed := Dashes(kept);
    assert forall i :: 0 <= i < |dashed| ==> IsWordChar(dashed[i]) || dashed[i] == '-';
    var collapsed := Collapse(dashed);
    assert forall i :: 0 <= i < |collapsed| ==> IsWordChar(collapsed[i]) || collapsed[i] == '-' by {
      forall i | 0 <= i < |collapsed| ensures IsWordChar(collapsed[i]) || collapsed[i] == '-' {
        assert collapsed[i] in dashed;
      }
    }
    Lower(collapsed)
  }

  /** Filtering by a predicate every character meets changes nothing. */
  lemma {:induction false} KeepAll(s: string, p: char -> bool)
    requires forall i :: 0 <= i < |s| ==> p(s[i])
    ensures Keep(s, p) == s
  {
    if |s| > 0 {
      KeepAll(s[..|s| - 1], p);
      assert s == s[..|s| - 1] + [s[|s| - 1]];
    }
  }

  /** Two filters in a row are one filter by both predicates. */
  lemma {:induction false} KeepKeep(s: string, p: char -> bool, q: char -> bool, pq: char -> bool)
    requires forall c :: pq(c) == (p(c) && q(c))
    ensures Keep(Keep(s, p), q) == Keep(s, pq)
  {
    if |s| > 0 {
      var init := s[..|s| - 1];
      KeepKeep(init, p, q, pq);
      var c := s[|s| - 1];
      assert Keep(s, pq) == Keep(init, pq) + (if pq(c) then [c] else []);
      if p(c) {
        var kp := Keep(init, p) + [c];
        assert Keep(s, p) == kp;
        assert kp[..|kp| - 1] == Keep(init, p);
        assert Keep(kp, q) == Keep(Keep(init, p), q) + (if q(c) then [c] else []);
      } else {
        assert Keep(s, p) == Keep(init, p);
      }
    }
  }

  lemma {:induction false} CollapseSlug(s: string)
    requires NoDoubleDash(s)
    ensures Collapse(s) == s
  {
    if |s| > 0 {
      var init := s[..|s| - 1];
      assert NoDoubleDash(init) by {
        forall i | 0 <= i < |init| - 1 ensures !(init[i] == '-' && init[i + 1] == '-') {
          assert init[i] == s[i] && init[i + 1] == s[i + 1];
        }
      }
      CollapseSlug(init);
      assert s == init + [s[|s| - 1]];
    }
  }

  /** Sanitizing a sanitized name gives it back unchanged. */
  lemma SanitizeIdempotent(name: string)
    ensures Sanitize(Sanitize(name)) == Sanitize(name)
  {
    SanitizeSlug(Sanitize(name));
  }

  /** A name already in sanitized form is its own sanitization. */
  lemma SanitizeSlug(t: string)
    requires IsSlug(t)
    ensures Sanitize(t) == t
  {
    KeepAll(t, Unmarked);
    KeepAll(t, Allowed);
    DashesSlug(t);
    CollapseSlug(t);
    LowerSlug(t);
  }

  lemma DashesSlug(t: string)
    requires IsSlug(t)
    ensures Dashes(t) == t
  {
    var d := Dashes(t);
    forall i | 0 <= i < |t| ensures d[i] == t[i] {
      assert SlugChar(t[i]);
    }
  }

  lemma LowerSlug(t: string)
    requires IsSlug(t)
    ensures Lower(t) == t
  {
    var l := Lower(t);
    forall i | 0 <= i < |t| ensures l[i] == t[i] {
      assert SlugChar(t[i]);
    }
  }

  predicate NotDash(c: char) {
    c != '-'
  }

  /** A character that is neither white space nor a hyphen. */
  predicate Solid(c: char) {
    !IsSpace(c) && c != '-'
  }

  /** The hyphen-free text of a string. */
  function Words(s: string): (r: string)
    ensures forall i :: 0 <= i < |r| ==> r[i] != '-'
  {
    Keep(s, NotDash)
  }

  lemma {:induction false} WordsOfDashes(s: string)
    ensures Words(Dashes(s)) == Keep(s, Solid)
  {
    if |s| > 0 {
      var init := s[..|s| - 1];
      WordsOfDashes(init);
      var d := Dashes(init) + [Dash(s[|s| - 1])];
      assert d[..|d| - 1] == Dashes(init);
      assert Keep(d, NotDash) == Keep(Dashes(init), NotDash) + (if NotDash(Dash(s[|s| - 1])) then [Dash(s[|s| - 1])] else []);
    }
  }

  lemma {:induction false} WordsOfCollapse(s: string)
    ensures Words(Collapse(s)) == Words(s)
  {
    if |s| > 0 {
      var init := s[..|s| - 1];
      WordsOfCollapse(init);
      var c := s[|s| - 1];
      if !(c == '-' && |s| > 1 && s[|s| - 2] == '-') {
        var r := Collapse(init) + [c];
        assert r[..|r| - 1] == Collapse(init);
      }
    }
  }

  lemma WordsOfLower(s: string)
    ensures Words(Lower(s)) == Lower(Words(s))
  {
    WordsOfLowered(s, Lower(s));
  }

  lemma {:induction false} WordsOfLowered(a: string, b: string)
    requires |a| == |b|
    requires forall i :: 0 <= i < |a| ==> b[i] == LowerChar(a[i])
    ensures Keep(b, NotDash) == Lower(Keep(a, NotDash))
  {
    if |a| > 0 {
      var n := |a| - 1;
      WordsOfLowered(a[..n], b[..n]);
      LowerKeepsDash(a[n]);
      if a[n] != '-' {
        LowerSnoc(Keep(a[..n], NotDash), a[n]);
      }
    }
  }

  lemma KeepSnoc(s: string, c: char, p: char -> bool)
    ensures Keep(s + [c], p) == Keep(s, p) + (if p(c) then [c] else [])
  {
    assert (s + [c])[..|s|] == s;
  }

  lemma LowerKeepsDash(c: char)
    ensures LowerChar(c) == '-' <==> c == '-'
  {
  }

  lemma LowerSnoc(s: string, c: char)
    ensures Lower(s + [c]) == Lower(s) + [LowerChar(c)]
  {
    var l := Lower(s + [c]);
    assert forall i :: 0 <= i < |s| ==> (s + [c])[i] == s[i];
  }

  /** Hyphens aside, the sanitized name is exactly the lower-cased word
      characters of the name, in order: nothing but white space, hyphens,
      marks and punctuation is lost. */
  lemma SanitizeKeepsWords(name: string)
    ensures Words(Sanitize(name)) == Lower(Keep(Keep(name, Unmarked), IsWordChar))
  {
    var unmarked := Keep(name, Unmarked);
    var kept := Keep(unmarked, Allowed);
    var dashed := Dashes(kept);
    var collapsed := Collapse(dashed);
    WordsOfLower(collapsed);
    WordsOfCollapse(dashed);
    WordsOfDashes(kept);
    KeepKeep(unmarked, Allowed, Solid, IsWordChar);
  }

  /** White space turns into a single hyphen, runs of hyphens shrink to one
      and letters are lower-cased. */
  lemma SanitizeExample()
    ensures Sanitize("A  b") == "a-b"
  {
    KeptExample();
    DashesExample();
    CollapseExample();
    LowerExample();
  }

  lemma KeptExample()
    ensures Keep(Keep("A  b", Unmarked), Allowed) == "A  b"
  {
    var s := "A  b";
    assert forall i :: 0 <= i < |s| ==> Unmarked(s[i]) && Allowed(s[i]);
    KeepAll(s, Unmarked);
    KeepAll(s, Allowed);
  }

  lemma LowerExample()
    ensures Lower("A-b") == "a-b"
  {
  }

  lemma DashesExample()
    ensures Dashes("A  b") == "A--b"
  {
    var s := "A  b";
    assert s[..|s| - 1] == "A  ";
    assert s[..|s| - 1][..2] == "A ";
    assert "A "[..1] == "A";
    assert "A"[..0] == "";
  }

  lemma CollapseExample()
    ensures Collapse("A--b") == "A-b"
  {
    var d := "A--b";
    assert Collapse(d[..1]) == "A";
    assert Collapse(d[..2]) == "A-" by { assert d[..2][..1] == d[..1]; }
    assert Collapse(d[..3]) == "A-" by { assert d[..3][..2] == d[..2]; }
    assert d[..3] == d[..|d| - 1];
  }
}

/** `normalizeUrl`: turning a board address as the user typed it into one
    on `https://pinterest.com/`. Each global `replace(..., "")` is a scan
    that deletes the leftmost non-overlapping matches. */
module Urls {
  import opened Wrappers
  import opened Strings

  datatype UrlError = NoUrl

  /** A matcher: the length of the match its expression has at the start
      of a string, 0 when there is none (none of the expressions here can
      match the empty string). */
  ghost predicate Sound(m: string -> nat) {
    forall s :: m(s) <= |s|
  }

  /** `s.replace(re, "")` for a global `re` that never matches the empty
      string: scanning from the left, a match is deleted and the scan goes
      on after it; elsewhere the character stays and the scan moves one
      on. */
  function RemoveMatches(s: string, m: string -> nat): (r: string)
    requires Sound(m)
    ensures |r| <= |s|
    decreases |s|
  {
    if |s| == 0 then []
    else
      var n := m(s);
      if n > 0 then RemoveMatches(s[n..], m) else [s[0]] + RemoveMatches(s[1..], m)
  }

  /** Where no match starts, nothing is removed. */
  lemma {:induction false} RemoveNothing(s: string, m: string -> nat)
    requires Sound(m)
    requires forall i :: 0 <= i < |s| ==> m(s[i..]) == 0
    ensures RemoveMatches(s, m) == s
    decreases |s|
  {
    if |s| > 0 {
      assert m(s[0..]) == 0;
      assert s[0..] == s;
      forall i | 0 <= i < |s| - 1 ensures m(s[1..][i..]) == 0 {
        assert s[1..][i..] == s[i + 1..];
      }
      RemoveNothing(s[1..], m);
    }
  }

  /** A match at the front is deleted and the scan resumes right after it. */
  lemma RemoveFront(a: string, b: string, m: string -> nat)
    requires Sound(m)
    requires 0 < |a| && m(a + b) == |a|
    ensures RemoveMatches(a + b, m) == RemoveMatches(b, m)
  {
    assert (a + b)[|a|..] == b;
  }

  /** `/http(s)?/`: `https` when it is there, else `http`. */
  function Scheme(s: string): (n: nat)
    ensures n <= |s|
    ensures n > 0 ==> OccursAt(s, 0, "http")
  {
    if OccursAt(s, 0, "https") then 5 else if OccursAt(s, 0, "http") then 4 else 0
  }

  /** `/:\/\//`. */
  function Separator(s: string): (n: nat)
    ensures n <= |s|
    ensures n > 0 <==> OccursAt(s, 0, "://")
  {
    if OccursAt(s, 0, "://") then 3 else 0
  }

  /** The characters `.` in a JavaScript regular expression does not match. */
  predicate LineTerminator(c: char) {
    c == '\n' || c == '\r' || c == '\U{2028}' || c == '\U{2029}'
  }

  /** The end of the run of word characters starting at `i`. */
  function WordEnd(s: string, i: nat): (e: nat)
    requires i <= |s|
    ensures i <= e <= |s|
    ensures forall j :: i <= j < e ==> IsWordChar(s[j])
    ensures e < |s| ==> !IsWordChar(s[e])
    decreases |s| - i
  {
    if i < |s| && IsWordChar(s[i]) then WordEnd(s, i + 1) else i
  }

  /** `/\w+\.pinterest.com/`: a word run, `.pinterest`, any one character
      but a line terminator, then `com`. The run is greedy and a dot is not
      a word character, so the only place `\.` can match is right after
      the whole run. */
  function Host(s: string): (n: nat)
    ensures n <= |s|
    ensures n > 0 ==> Contains(s, ".pinterest")
  {
    var e := WordEnd(s, 0);
    if 0 < e && OccursAt(s, e, ".pinterest") && e + 14 <= |s| && !LineTerminator(s[e + 10]) && OccursAt(s, e + 11, "com")
    then
      ContainsIff(s, ".pinterest");
      e + 14
    else 0
  }

  /** `normalizeUrl`: it throws on an empty address; otherwise it strips
      `http`/`https`, then `://`, then `<word>.pinterest<any>com`, and puts
      the rest after `https://pinterest.com/`. */
  function NormalizeUrl(url: string): (r: Result<string, UrlError>)
    ensures r.Err? <==> url == ""
    ensures r.Ok? ==> |Prefix| <= |r.value| <= |Prefix| + |url| && r.value[..|Prefix|] == Prefix
  {
    if url == "" then Err(NoUrl)
    else
      var stripped := RemoveMatches(RemoveMatches(RemoveMatches(url, Scheme), Separator), Host);
      assert (Prefix + stripped)[..|Prefix|] == Prefix;
      Ok(Prefix + stripped)
  }

  const Prefix: string := "https://pinterest.com/"

  lemma MatchAt(s: string, i: nat, pat: string)
    requires i <= |s|
    ensures OccursAt(s[i..], 0, pat) <==> OccursAt(s, i, pat)
  {
    if i + |pat| <= |s| {
      assert s[i..][..|pat|] == s[i..i + |pat|];
    }
  }

  lemma ContainsAt(s: string, i: nat, pat: string)
    requires i <= |s| && Contains(s[i..], pat)
    ensures Contains(s, pat)
  {
    ContainsIff(s[i..], pat);
    var k :| OccursAt(s[i..], k, pat);
    assert s[i..][k..k + |pat|] == s[i + k..i + k + |pat|];
    assert OccursAt(s, i + k, pat);
    ContainsIff(s, pat);
  }

  /** An address with no `http`, no `://` and no `.pinterest` is kept as
      it is after the prefix. */
  lemma PlainPathKept(url: string)
    requires url != ""
    requires !Contains(url, "http") && !Contains(url, "://") && !Contains(url, ".pinterest")
    ensures NormalizeUrl(url) == Ok(Prefix + url)
  {
    ContainsIff(url, "http");
    ContainsIff(url, "://");
    forall i | 0 <= i < |url| ensures Scheme(url[i..]) == 0 && Separator(url[i..]) == 0 && Host(url[i..]) == 0 {
      MatchAt(url, i, "http");
      MatchAt(url, i, "://");
      if Host(url[i..]) > 0 {
        ContainsAt(url, i, ".pinterest");
      }
    }
    RemoveNothing(url, Scheme);
    RemoveNothing(url, Separator);
    RemoveNothing(url, Host);
  }

  /** `user/board/` becomes `https://pinterest.com/user/board/`. */
  lemma PlainPathExample()
    ensures NormalizeUrl("user/board/") == Ok("https://pinterest.com/user/board/")
  {
    var u := "user/board/";
    FreeNotContains(u, "http");
    FreeNotContains(u, "://");
    FreeNotContains(u, ".pinterest");
    PlainPathKept(u);
    PlainPathText();
  }

  lemma PlainPathText()
    ensures Prefix + "user/board/" == "https://pinterest.com/user/board/"
  {
  }

  /** A string without the first character of `pat` does not contain it. */
  lemma FreeNotContains(s: string, pat: string)
    requires 0 < |pat| && pat[0] !in s
    ensures !Contains(s, pat)
  {
    ContainsIff(s, pat);
    forall i | OccursAt(s, i, pat) ensures false {
      OccursAtChars(s, i, pat);
    }
  }

  /** A match of `pat` in `pre + s` lies inside `s` when `pre` lacks the
      first character of `pat`. */
  lemma NoMatchAfter(pre: string, s: string, pat: string)
    requires 0 < |pat| && Free(pre, pat[0]) && !Contains(s, pat)
    ensures !Contains(pre + s, pat)
  {
    var t := pre + s;
    ContainsIff(s, pat);
    ContainsIff(t, pat);
    forall i | OccursAt(t, i, pat) ensures false {
      OccursAtChars(t, i, pat);
      if i >= |pre| {
        assert t[i..i + |pat|] == s[i - |pre|..i - |pre| + |pat|];
        assert OccursAt(s, i - |pre|, pat);
      }
    }
  }

  /** Where `pat` does not occur, no match of a matcher that needs it starts. */
  lemma NoMatchStarts(s: string, pat: string, m: string -> nat)
    requires forall t :: m(t) > 0 ==> OccursAt(t, 0, pat)
    requires !Contains(s, pat)
    ensures forall i :: 0 <= i < |s| ==> m(s[i..]) == 0
  {
    ContainsIff(s, pat);
    forall i | 0 <= i < |s| ensures m(s[i..]) == 0 {
      MatchAt(s, i, pat);
    }
  }

  lemma FreeConcat(a: string, b: string, c: char)
    requires Free(a, c) && Free(b, c)
    ensures Free(a + b, c)
  {
    forall i | 0 <= i < |a + b| ensures (a + b)[i] != c {
      if i >= |a| {
        assert (a + b)[i] == b[i - |a|];
      }
    }
  }

  /** `<sub>.pinterest.com`. */
  function HostName(sub: string): string {
    sub + ".pinterest.com"
  }

  function SchemeName(secure: bool): string {
    if secure then "https" else "http"
  }

  /** `<scheme>://<sub>.pinterest.com<path>`. */
  function Address(secure: bool, sub: string, path: string): string {
    SchemeName(secure) + ("://" + (HostName(sub) + path))
  }

  /** A word sub-domain without `h` gives a host that holds neither `h` nor
      `:`, so after it only the path can hold `http` or `://`. */
  lemma HostFree(sub: string, path: string)
    requires AllWordChars(sub) && Free(sub, 'h')
    requires !Contains(path, "http") && !Contains(path, "://")
    ensures !Contains(HostName(sub) + path, "http") && !Contains(HostName(sub) + path, "://")
  {
    var tld := ".pinterest.com";
    assert Free(tld, 'h') && Free(tld, ':') by {
      forall i | 0 <= i < |tld| ensures tld[i] != 'h' && tld[i] != ':' {
      }
    }
    assert Free(sub, ':') by {
      forall i | 0 <= i < |sub| ensures sub[i] != ':' {
        assert IsWordChar(sub[i]);
      }
    }
    FreeConcat(sub, tld, 'h');
    FreeConcat(sub, tld, ':');
    NoMatchAfter(HostName(sub), path, "http");
    NoMatchAfter(HostName(sub), path, "://");
  }

  /** The scheme goes, and nothing else matches `http` after it. */
  lemma SchemeStage(secure: bool, rest: string)
    requires !Contains(rest, "http")
    ensures RemoveMatches(SchemeName(secure) + ("://" + rest), Scheme) == "://" + rest
  {
    var scheme := SchemeName(secure);
    var tail := "://" + rest;
    assert Scheme(scheme + tail) == |scheme| by {
      assert (scheme + tail)[..4] == "http";
      assert (scheme + tail)[4] == (if secure then 's' else ':');
      if secure {
        assert (scheme + tail)[..5] == "https";
      }
    }
    RemoveFront(scheme, tail, Scheme);
    assert Free("://", 'h');
    NoMatchAfter("://", rest, "http");
    NoMatchStarts(tail, "http", Scheme);
    RemoveNothing(tail, Scheme);
  }

  /** The separator goes, and no other `://` is left. */
  lemma SeparatorStage(rest: string)
    requires !Contains(rest, "://")
    ensures RemoveMatches("://" + rest, Separator) == rest
  {
    assert Separator("://" + rest) == 3 by {
      assert ("://" + rest)[..3] == "://";
    }
    RemoveFront("://", rest, Separator);
    NoMatchStarts(rest, "://", Separator);
    RemoveNothing(rest, Separator);
  }

  /** The host goes, and the path after it holds no other host. */
  lemma HostStage(sub: string, path: string)
    requires 0 < |sub| && AllWordChars(sub) && !Contains(path, ".pinterest")
    ensures RemoveMatches(HostName(sub) + path, Host) == path
  {
    HostAtFront(sub, path);
    RemoveFront(HostName(sub), path, Host);
    forall i | 0 <= i < |path| ensures Host(path[i..]) == 0 {
      if Host(path[i..]) > 0 {
        ContainsAt(path, i, ".pinterest");
      }
    }
    RemoveNothing(path, Host);
  }

  /** A board address on any word sub-domain, `http` or `https`, loses its
      scheme and host; the path keeps its leading slash, so the result has
      two slashes after the host. */
  lemma SubdomainAddress(secure: bool, sub: string, path: string)
    requires 0 < |sub| && AllWordChars(sub) && Free(sub, 'h')
    requires !Contains(path, "http") && !Contains(path, "://") && !Contains(path, ".pinterest")
    ensures NormalizeUrl(Address(secure, sub, path)) == Ok(Prefix + path)
  {
    var rest := HostName(sub) + path;
    HostFree(sub, path);
    SchemeStage(secure, rest);
    SeparatorStage(rest);
    HostStage(sub, path);
    Stages(Address(secure, sub, path), "://" + rest, rest, path);
  }

  /** The three removals in a row, stage by stage. */
  lemma Stages(url: string, a: string, b: string, c: string)
    requires url != ""
    requires RemoveMatches(url, Scheme) == a && RemoveMatches(a, Separator) == b && RemoveMatches(b, Host) == c
    ensures NormalizeUrl(url) == Ok(Prefix + c)
  {
  }

  lemma HostAtFront(sub: string, path: string)
    requires 0 < |sub| && AllWordChars(sub)
    ensures Host(HostName(sub) + path) == |sub| + 14
  {
    var s := HostName(sub) + path;
    var e := WordEnd(s, 0);
    forall j | 0 <= j < |sub| ensures IsWordChar(s[j]) {
      assert s[j] == sub[j];
    }
    assert s[|sub|] == '.';
    WordEndIs(s, 0, |sub|);
    assert s[|sub|..|sub| + 10] == ".pinterest";
    assert s[|sub| + 10] == '.';
    assert s[|sub| + 11..|sub| + 14] == "com";
  }

  lemma {:induction false} WordEndIs(s: string, i: nat, e: nat)
    requires i <= e < |s|
    requires forall j :: i <= j < e ==> IsWordChar(s[j])
    requires !IsWordChar(s[e])
    ensures WordEnd(s, i) == e
    decreases e - i
  {
    if i < e {
      WordEndIs(s, i + 1, e);
    }
  }

  /** `https://br.pinterest.com/user/board/` becomes
      `https://pinterest.com//user/board/`. */
  lemma BoardAddressExample()
    ensures NormalizeUrl("https://br.pinterest.com/user/board/") == Ok("https://pinterest.com//user/board/")
  {
    var path := "/user/board/";
    FreeNotContains(path, "http");
    FreeNotContains(path, "://");
    FreeNotContains(path, ".pinterest");
    SubdomainAddress(true, "br", path);
    BoardAddressText();
  }

  lemma BoardAddressText()
    ensures Address(true, "br", "/user/board/") == "https://br.pinterest.com/user/board/"
    ensures Prefix + "/user/board/" == "https://pinterest.com//user/board/"
  {
  }
}

/** The names downloaded files are saved under: the stem a media URL's
    regular expression captures, and the collision-free name a remuxed
    stream gets (`downloadM3U8Video`). */
module FileNames {
  import opened Wrappers
  import opened Strings
  import Classify

  /** The last dot in `s[lo..hi)` that has a character after it in `s`, or -1. */
  function LastDot(s: string, lo: nat, hi: nat): (d: int)
    requires hi <= |s|
    ensures d == -1 || (lo <= d < hi && s[d] == '.' && d + 1 < |s|)
    ensures forall j :: lo <= j < hi && d < j && j + 1 < |s| ==> s[j] != '.'
    decreases hi
  {
    if hi <= lo then -1
    else if s[hi - 1] == '.' && hi < |s| then hi - 1
    else LastDot(s, lo, hi - 1)
  }

  /** The capture of `\/([^\/]+)\..+$` matched at the slash `q`: the
      characters after the slash up to the last dot of its segment that
      leaves at least one character after it and at least one before it. */
  function SegmentStem(s: string, q: nat): (r: Option<string>)
    requires q < |s| && s[q] == '/'
    ensures r.Some? ==> 0 < |r.value| && Free(r.value, '/')
  {
    var e := Classify.SlashOrEnd(s, q + 1);
    var d := LastDot(s, q + 2, e);
    if d == -1 then None
    else
      var stem := s[q + 1..d];
      var segment := s[q + 1..e];
      assert forall j :: 0 <= j < |stem| ==> stem[j] == segment[j];
      Some(stem)
  }

  /** The capture at the rightmost slash in `[lo, hi)` where the rest of the
      expression matches: the greedy `.+` before the slash backtracks from
      the end. */
  function LastStem(s: string, lo: nat, hi: nat): (r: Option<string>)
    requires hi <= |s|
    ensures r.Some? ==> 0 < |r.value| && Free(r.value, '/')
    decreases hi
  {
    if hi <= lo then None
    else if s[hi - 1] == '/' && SegmentStem(s, hi - 1).Some? then SegmentStem(s, hi - 1)
    else LastStem(s, lo, hi - 1)
  }

  /** The capture of `/<marker>.+\/([^\/]+)\..+$/`, or `None` when it does
      not match. Only the first occurrence of the marker matters: every
      slash a later occurrence could use is open to the first one as well. */
  function MarkedStem(s: string, marker: string): (r: Option<string>)
    ensures r.Some? ==> Contains(s, marker) && 0 < |r.value| && Free(r.value, '/')
  {
    var o := IndexOf(s, marker, 0);
    if o == -1 then None else LastStem(s, o + |marker| + 1, |s|)
  }

  /** `LastStem` finds the last slash whose segment yields a stem. */
  lemma {:induction false} LastStemIs(s: string, lo: nat, hi: nat, q: nat)
    requires lo <= q < hi <= |s| && s[q] == '/'
    requires SegmentStem(s, q).Some?
    requires forall j :: q < j < hi ==> s[j] != '/'
    ensures LastStem(s, lo, hi) == SegmentStem(s, q)
    decreases hi
  {
    if q < hi - 1 {
      LastStemIs(s, lo, hi - 1, q);
    }
  }

  /** A media URL laid out as `<pre><marker><mid>/<name>.<ext>`, with an
      extension free of dots and slashes, saves under `name`. */
  lemma MarkedStemOfPath(pre: string, marker: string, mid: string, name: string, ext: string)
    requires 0 < |mid| && 0 < |name| && 0 < |ext|
    requires Free(name, '/') && Free(ext, '/') && Free(ext, '.')
    ensures MarkedStem(pre + marker + mid + "/" + name + "." + ext, marker) == Some(name)
  {
    var a := pre + marker + mid;
    var s := a + "/" + name + "." + ext;
    assert s == pre + marker + mid + "/" + name + "." + ext;
    assert s[|pre|..|pre| + |marker|] == marker;
    assert OccursAt(s, |pre|, marker);
    var o := IndexOf(s, marker, 0);
    assert o != -1 && o <= |pre|;
    LastSegment(a, name, ext);
    LastStemIs(s, o + |marker| + 1, |s|, |a|);
  }

  /** The last segment of `<a>/<name>.<ext>` yields `name`. */
  lemma LastSegment(a: string, name: string, ext: string)
    requires 0 < |name| && 0 < |ext|
    requires Free(name, '/') && Free(ext, '/') && Free(ext, '.')
    ensures var s := a + "/" + name + "." + ext;
      && s[|a|] == '/'
      && (forall j :: |a| < j < |s| ==> s[j] != '/')
      && SegmentStem(s, |a|) == Some(name)
  {
    var s := a + "/" + name + "." + ext;
    var q := |a|;
    var d := q + 1 + |name|;
    assert s[q] == '/';
    forall j | q < j < |s| ensures s[j] != '/' {
      if j < d {
        assert s[j] == name[j - q - 1];
      } else if d < j {
        assert s[j] == ext[j - d - 1];
      }
    }
    var e := Classify.SlashOrEnd(s, q + 1);
    assert e == |s|;
    assert s[d] == '.';
    forall j | d < j < |s| ensures s[j] != '.' {
      assert s[j] == ext[j - d - 1];
    }
    assert LastDot(s, q + 2, e) == d;
    assert s[q + 1..d] == name;
  }

  /** `${filename}` when `index` is -1, `${filename} (${index})` otherwise. */
  function Candidate(base: string, index: int): string
    requires -1 <= index
  {
    if index == -1 then base else base + " (" + NatToDecimal(index) + ")"
  }

  /** `${path}/${name}.mp4`. */
  function VideoPath(dir: string, name: string): string {
    dir + "/" + name + ".mp4"
  }

  /** The path the name search probes for the candidate with `index`. */
  function Probed(dir: string, base: string, index: int): string
    requires -1 <= index
  {
    VideoPath(dir, Candidate(base, index))
  }

  /** Distinct indices give distinct candidate names. */
  lemma CandidateInjective(base: string, n: int, m: int)
    requires -1 <= n && -1 <= m
    requires Candidate(base, n) == Candidate(base, m)
    ensures n == m
  {
    if n != -1 && m != -1 {
      var x := Candidate(base, n);
      var dn := NatToDecimal(n);
      var dm := NatToDecimal(m);
      assert |dn| == |dm|;
      assert x[|base| + 2..|base| + 2 + |dn|] == dn;
      assert Candidate(base, m)[|base| + 2..|base| + 2 + |dm|] == dm;
      DecimalInjective(n, m);
    }
  }

  lemma ProbedInjective(dir: string, base: string, n: int, m: int)
    requires -1 <= n && -1 <= m
    requires Probed(dir, base, n) == Probed(dir, base, m)
    ensures n == m
  {
    var a := Candidate(base, n);
    var b := Candidate(base, m);
    assert |a| == |b|;
    assert Probed(dir, base, n)[|dir| + 1..|dir| + 1 + |a|] == a;
    assert Probed(dir, base, m)[|dir| + 1..|dir| + 1 + |b|] == b;
    CandidateInjective(base, n, m);
  }

  /** The paths of the candidates before `index`. */
  function Taken(dir: string, base: string, index: int): (t: set<string>)
    requires -1 <= index
    decreases index + 1
  {
    if index == -1 then {} else Taken(dir, base, index - 1) + {Probed(dir, base, index - 1)}
  }

  lemma {:induction false} TakenSize(dir: string, base: string, index: int)
    requires -1 <= index
    ensures |Taken(dir, base, index)| == index + 1
    ensures forall j :: index <= j ==> Probed(dir, base, j) !in Taken(dir, base, index)
    decreases index + 1
  {
    if index > -1 {
      TakenSize(dir, base, index - 1);
      forall j | index <= j ensures Probed(dir, base, j) !in Taken(dir, base, index) {
        if Probed(dir, base, j) == Probed(dir, base, index - 1) {
          ProbedInjective(dir, base, j, index - 1);
        }
      }
    }
  }

  lemma {:induction false} TakenWithin(fs: set<string>, dir: string, base: string, index: int)
    requires -1 <= index
    requires forall j :: -1 <= j < index ==> Probed(dir, base, j) in fs
    ensures Taken(dir, base, index) <= fs
    decreases index + 1
  {
    if index > -1 {
      TakenWithin(fs, dir, base, index - 1);
    }
  }

  /** As many existing paths as candidates already probed. */
  lemma TakenBound(fs: set<string>, dir: string, base: string, index: int)
    requires -1 <= index
    requires forall j :: -1 <= j < index ==> Probed(dir, base, j) in fs
    ensures index + 1 <= |fs|
  {
    var t := Taken(dir, base, index);
    TakenSize(dir, base, index);
    TakenWithin(fs, dir, base, index);
    assert fs == t + (fs - t);
    assert t * (fs - t) == {};
  }

  /** The probing loop from `index` on: every candidate before it is taken. */
  function Probe(fs: set<string>, dir: string, base: string, index: int): (k: int)
    requires -1 <= index
    requires forall j :: -1 <= j < index ==> Probed(dir, base, j) in fs
    ensures index <= k
    ensures Probed(dir, base, k) !in fs
    ensures forall j :: -1 <= j < k ==> Probed(dir, base, j) in fs
    decreases |fs| - index
  {
    if Probed(dir, base, index) !in fs then index
    else
      TakenBound(fs, dir, base, index + 1);
      Probe(fs, dir, base, index + 1)
  }

  /** The index the name search of `downloadM3U8Video` settles on: the
      first candidate in the order `base`, `base (0)`, `base (1)`, ... whose
      `.mp4` path does not exist yet. */
  function FreeIndex(fs: set<string>, dir: string, base: string): (k: int)
    ensures -1 <= k
    ensures Probed(dir, base, k) !in fs
    ensures forall j :: -1 <= j < k ==> Probed(dir, base, j) in fs
  {
    Probe(fs, dir, base, -1)
  }

  /** The name the stream is remuxed under. */
  function FreeName(fs: set<string>, dir: string, base: string): string {
    Candidate(base, FreeIndex(fs, dir, base))
  }

  /** The name search keeps `base` when `base.mp4` is free, and otherwise
      takes `base (n)` for the smallest `n` whose path is free; the path it
      settles on never exists yet. */
  lemma FreeNameSpec(fs: set<string>, dir: string, base: string)
    ensures VideoPath(dir, FreeName(fs, dir, base)) !in fs
    ensures VideoPath(dir, base) !in fs ==> FreeName(fs, dir, base) == base
    ensures VideoPath(dir, base) in fs ==>
              exists n: nat ::
                && FreeName(fs, dir, base) == base + " (" + NatToDecimal(n) + ")"
                && forall j :: 0 <= j < n ==> Probed(dir, base, j) in fs
  {
    var k := FreeIndex(fs, dir, base);
    if VideoPath(dir, base) in fs {
      assert k != -1;
      var n: nat := k;
      assert FreeName(fs, dir, base) == base + " (" + NatToDecimal(n) + ")";
    }
  }

  /** A second stream with the same stem, once `base.mp4` exists, is named
      `base (0).mp4`. */
  lemma SecondCopyNamedZero(fs: set<string>, dir: string, base: string)
    requires VideoPath(dir, base) !in fs
    requires VideoPath(dir, base + " (0)") !in fs
    ensures FreeName(fs, dir, base) == base
    ensures FreeName(fs + {VideoPath(dir, base)}, dir, base) == base + " (0)"
  {
    assert NatToDecimal(0) == "0";
    assert Candidate(base, 0) == base + " (0)";
    var fs' := fs + {VideoPath(dir, base)};
    assert Probed(dir, base, -1) in fs';
    if Probed(dir, base, 0) == VideoPath(dir, base) {
      ProbedInjective(dir, base, 0, -1);
    }
    assert Probed(dir, base, 0) !in fs';
    assert Probe(fs', dir, base, -1) == Probe(fs', dir, base, 0);
  }
}

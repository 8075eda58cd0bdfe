/** `deepVerify`: checking a downloaded folder against the crawl logs. The
    directory listings and the parsed log files are inputs; the console
    output becomes a report. */
module Verification {
  import opened Wrappers
  import opened Strings
  import opened Pins
  import opened OrderedMaps

  /** A file under `./logs`: its name and the `pins` of its JSON. */
  datatype LogFile = LogFile(name: string, pins: seq<PinData>)

  /** What `deepVerify` reads from disk: the listing of every existing
      `./output/<folder>`, and the files of `./logs` when it exists. */
  datatype Disk = Disk(outputs: map<string, seq<string>>, logs: Option<seq<LogFile>>)

  /** How `deepVerify` ends: it throws without a folder name, stops early
      when a directory is missing, throws when a logged record has no
      `media` (a folder record, or a deleted pin nobody recovered), and
      otherwise reports the count it expects, the count it found, whether
      that is short, the pins it prints as not found and whether it got to
      the closing success line. */
  datatype Verdict =
    | NoFolderGiven
    | OutputMissing
    | LogsMissing
    | Crashed
    | Report(expected: nat, found: nat, short: bool, missing: seq<PinData>, finished: bool)

  /** The log files whose name contains the folder string. */
  function Relevant(logs: seq<LogFile>, folder: string): (r: seq<LogFile>)
    ensures forall l :: l in r <==> l in logs && Contains(l.name, folder)
  {
    if |logs| == 0 then []
    else
      var last := logs[|logs| - 1];
      var init := Relevant(logs[..|logs| - 1], folder);
      assert logs == logs[..|logs| - 1] + [last];
      init + (if Contains(last.name, folder) then [last] else [])
  }

  /** `.flat()` of the logged pin lists. The identity filter after it
      compares parsed objects by reference, and every parsed record is a
      distinct object, so it removes nothing. */
  function Flatten(logs: seq<LogFile>): (ps: seq<PinData>)
    ensures forall p :: p in ps <==> exists l :: l in logs && p in l.pins
  {
    if |logs| == 0 then []
    else
      var last := logs[|logs| - 1];
      var init := logs[..|logs| - 1];
      var r := Flatten(init) + last.pins;
      assert logs == init + [last];
      assert forall p :: p in r <==> p in Flatten(init) || p in last.pins;
      r
  }

  /** The records `deepVerify` checks for `folder`. */
  function LogPins(logs: seq<LogFile>, folder: string): seq<PinData> {
    Flatten(Relevant(logs, folder))
  }

  /** Only log files whose name contains the folder string contribute, and
      every record of each of them does. */
  lemma LogPinsFromMatchingFiles(logs: seq<LogFile>, folder: string)
    ensures forall p :: p in LogPins(logs, folder) <==>
              exists l :: l in logs && Contains(l.name, folder) && p in l.pins
  {
  }

  predicate AllHaveMedia(ps: seq<PinData>) {
    forall i :: 0 <= i < |ps| ==> ps[i].media.Some?
  }

  /** A record with a non-empty `media.src`. */
  predicate HasSrc(p: PinData) {
    p.media.Some? && Truthy(p.media.value.src)
  }

  function Src(p: PinData): string
    requires HasSrc(p)
  {
    p.media.value.src.value
  }

  /** The `reduce` into a `Map` keyed by `media.src`. */
  function Tally(ps: seq<PinData>): (m: OMap<string, PinData>)
    requires AllHaveMedia(ps)
    ensures m.Valid()
  {
    if |ps| == 0 then Empty()
    else
      var last := ps[|ps| - 1];
      var init := Tally(ps[..|ps| - 1]);
      if HasSrc(last) then init.Put(Src(last), last) else init
  }

  /** The distinct sources the records carry. */
  function SrcSet(ps: seq<PinData>): set<string> {
    set i | 0 <= i < |ps| && HasSrc(ps[i]) :: Src(ps[i])
  }

  lemma {:induction false} TallyKeys(ps: seq<PinData>)
    requires AllHaveMedia(ps)
    ensures forall k :: k in Tally(ps).keys <==> k in SrcSet(ps)
  {
    if |ps| > 0 {
      var init := ps[..|ps| - 1];
      var last := ps[|ps| - 1];
      TallyKeys(init);
      assert SrcSet(ps) == SrcSet(init) + (if HasSrc(last) then {Src(last)} else {}) by {
        forall k ensures k in SrcSet(ps) <==> k in SrcSet(init) || (HasSrc(last) && k == Src(last)) {
          if k in SrcSet(ps) {
            var i :| 0 <= i < |ps| && HasSrc(ps[i]) && Src(ps[i]) == k;
            if i < |ps| - 1 {
              assert ps[i] == init[i];
            }
          }
          if k in SrcSet(init) {
            var i :| 0 <= i < |init| && HasSrc(init[i]) && Src(init[i]) == k;
            assert ps[i] == init[i];
          }
        }
      }
    }
  }

  /** The expected count is the number of distinct non-empty sources; a
      record without a source does not count. */
  lemma TallySize(ps: seq<PinData>)
    requires AllHaveMedia(ps)
    ensures Tally(ps).Size() == |SrcSet(ps)|
  {
    var ks := Tally(ps).keys;
    TallyKeys(ps);
    DistinctCard(ks);
    assert (set x | x in ks) == SrcSet(ps);
  }

  /** The capture of `/\/+(?![^\/]*\/)(.*)\./`: the text after the last
      slash up to the last dot after it; `None` when there is no slash, no
      such dot, or nothing before the dot. */
  function FileStem(src: string): (r: Option<string>)
    ensures r.Some? ==> 0 < |r.value| && Free(r.value, '/')
  {
    var l := LastIndexOf(src, '/');
    if l == -1 then None
    else
      var rest := src[l + 1..];
      var d := LastIndexOf(rest, '.');
      if d <= 0 then None
      else
        assert forall j :: 0 <= j < d ==> rest[..d][j] == src[l + 1 + j];
        Some(rest[..d])
  }

  /** A source laid out as `<dir>/<name>.<ext>`, with an extension free of
      dots and slashes, has the stem `name`. */
  lemma FileStemOfPath(dir: string, name: string, ext: string)
    requires 0 < |name| && Free(name, '/') && Free(ext, '/') && Free(ext, '.')
    ensures FileStem(dir + "/" + name + "." + ext) == Some(name)
  {
    var s := dir + "/" + name + "." + ext;
    var l := |dir|;
    assert s[l] == '/';
    forall j | l < j < |s| ensures s[j] != '/' {
      if j < l + 1 + |name| {
        assert s[j] == name[j - l - 1];
      } else if j > l + 1 + |name| {
        assert s[j] == ext[j - l - 2 - |name|];
      }
    }
    assert LastIndexOf(s, '/') == l;
    var rest := s[l + 1..];
    assert rest == name + "." + ext;
    forall j | |name| < j < |rest| ensures rest[j] != '.' {
      assert rest[j] == ext[j - |name| - 1];
    }
    assert rest[|name|] == '.';
    assert LastIndexOf(rest, '.') == |name|;
    assert rest[..|name|] == name;
  }

  /** A source without a slash yields no stem. */
  lemma FileStemNeedsSlash(src: string)
    requires Free(src, '/')
    ensures FileStem(src).None?
  {
  }

  /** A pin printed as not found: it has a source with a stem, and the
      stem is not a substring of the `", "`-joined listing. */
  predicate Missing(p: PinData, listing: string) {
    HasSrc(p) && FileStem(Src(p)).Some? && !Contains(listing, FileStem(Src(p)).value)
  }

  /** A record that ends the check early: a source without a stem. */
  predicate Stops(p: PinData) {
    HasSrc(p) && FileStem(Src(p)).None?
  }

  datatype Checked = Checked(missing: seq<PinData>, finished: bool)

  /** The loop over the logged records: records without a source are
      passed over, a pin whose stem the listing lacks is printed, and a
      source without a stem ends `deepVerify` on the spot. */
  function CheckPins(ps: seq<PinData>, listing: string): Checked {
    if |ps| == 0 then Checked([], true)
    else if !HasSrc(ps[0]) then CheckPins(ps[1..], listing)
    else
      match FileStem(Src(ps[0]))
      case None => Checked([], false)
      case Some(stem) =>
        var rest := CheckPins(ps[1..], listing);
        Checked((if Contains(listing, stem) then [] else [ps[0]]) + rest.missing, rest.finished)
  }

  /** The check finishes exactly when no record stops it. */
  lemma {:induction false} CheckPinsFinished(ps: seq<PinData>, listing: string)
    ensures CheckPins(ps, listing).finished <==> forall i :: 0 <= i < |ps| ==> !Stops(ps[i])
  {
    if |ps| > 0 {
      var tail := ps[1..];
      CheckPinsFinished(tail, listing);
      assert forall i :: 0 < i < |ps| ==> ps[i] == tail[i - 1];
    }
  }

  /** A record precedes every record that stops the check. */
  predicate Reached(ps: seq<PinData>, i: int) {
    0 <= i < |ps| && forall j :: 0 <= j < i ==> !Stops(ps[j])
  }

  /** The pins the check prints are exactly the missing ones it reaches. */
  lemma {:induction false} CheckPinsMissing(ps: seq<PinData>, listing: string)
    ensures forall p :: p in CheckPins(ps, listing).missing <==>
              exists i :: Reached(ps, i) && ps[i] == p && Missing(p, listing)
  {
    if |ps| > 0 {
      var tail := ps[1..];
      CheckPinsMissing(tail, listing);
      var c := CheckPins(ps, listing);
      if !Stops(ps[0]) {
        forall p | p in c.missing
          ensures exists i :: Reached(ps, i) && ps[i] == p && Missing(p, listing)
        {
          if p != ps[0] || !Missing(p, listing) {
            var i :| Reached(tail, i) && tail[i] == p && Missing(p, listing);
            ReachedShift(ps, i);
          } else {
            assert Reached(ps, 0);
          }
        }
        forall p | exists i :: Reached(ps, i) && ps[i] == p && Missing(p, listing)
          ensures p in c.missing
        {
          var i :| Reached(ps, i) && ps[i] == p && Missing(p, listing);
          if i > 0 {
            ReachedShift(ps, i - 1);
          }
        }
      }
    }
  }

  /** Reaching a record of the tail is reaching it in the whole list, once
      the first record does not stop the check. */
  lemma ReachedShift(ps: seq<PinData>, i: nat)
    requires 0 < |ps| && !Stops(ps[0])
    ensures Reached(ps[1..], i) <==> Reached(ps, i + 1)
    ensures i < |ps| - 1 ==> ps[1..][i] == ps[i + 1]
  {
    if i < |ps| - 1 {
      if Reached(ps[1..], i) {
        forall j | 0 <= j < i + 1 ensures !Stops(ps[j]) {
          if j > 0 {
            assert ps[j] == ps[1..][j - 1];
          }
        }
      }
      if Reached(ps, i + 1) {
        forall j | 0 <= j < i ensures !Stops(ps[1..][j]) {
          assert ps[1..][j] == ps[j + 1];
        }
      }
    }
  }

  /** `deepVerify` on a folder name and the disk. */
  function DeepVerify(folder: Option<string>, disk: Disk): (v: Verdict)
    ensures v == NoFolderGiven <==> !Truthy(folder)
    ensures v.Report? ==>
              && Truthy(folder) && folder.value in disk.outputs && disk.logs.Some?
              && AllHaveMedia(LogPins(disk.logs.value, folder.value))
              && v.found == |disk.outputs[folder.value]|
              && (v.short <==> v.found < v.expected)
  {
    if !Truthy(folder) then NoFolderGiven
    else if folder.value !in disk.outputs then OutputMissing
    else if disk.logs.None? then LogsMissing
    else
      var pins := LogPins(disk.logs.value, folder.value);
      if !AllHaveMedia(pins) then Crashed
      else
        var listing := disk.outputs[folder.value];
        var expected := Tally(pins).Size();
        var c := CheckPins(pins, Join(listing, ", "));
        Report(expected, |listing|, |listing| < expected, c.missing, c.finished)
  }

  /** The report of `deepVerify`: it expects one file per distinct
      non-empty source in the matching log files, flags the count exactly
      when fewer files were found, prints the missing pins before the
      first source without a stem, and gets to its success line exactly
      when no source lacks a stem. */
  lemma DeepVerifyReport(folder: Option<string>, disk: Disk)
    requires DeepVerify(folder, disk).Report?
    ensures var v := DeepVerify(folder, disk);
      var ps := LogPins(disk.logs.value, folder.value);
      var listing := Join(disk.outputs[folder.value], ", ");
      && v.expected == |SrcSet(ps)|
      && (v.short <==> |disk.outputs[folder.value]| < |SrcSet(ps)|)
      && (v.finished <==> forall i :: 0 <= i < |ps| ==> !Stops(ps[i]))
      && (forall p :: p in v.missing <==> exists i :: Reached(ps, i) && ps[i] == p && Missing(p, listing))
  {
    var ps := LogPins(disk.logs.value, folder.value);
    TallySize(ps);
    CheckPinsFinished(ps, Join(disk.outputs[folder.value], ", "));
    CheckPinsMissing(ps, Join(disk.outputs[folder.value], ", "));
  }

  /** A stem inside one of the listed file names is found in the joined
      listing, so such a pin is never printed. */
  lemma {:induction false} ListedStemFound(names: seq<string>, k: nat, stem: string)
    requires k < |names| && Contains(names[k], stem)
    ensures Contains(Join(names, ", "), stem)
  {
    ContainsIff(names[k], stem);
    var i :| OccursAt(names[k], i, stem);
    var joined := Join(names, ", ");
    if |names| == 1 {
      assert joined == names[0];
    } else if k == 0 {
      OccursWithin([], names[0], ", " + Join(names[1..], ", "), i, stem);
      assert joined == [] + names[0] + (", " + Join(names[1..], ", "));
    } else {
      ListedStemFound(names[1..], k - 1, stem);
      ContainsIff(Join(names[1..], ", "), stem);
      var i' :| OccursAt(Join(names[1..], ", "), i', stem);
      OccursWithin(names[0] + ", ", Join(names[1..], ", "), [], i', stem);
      assert joined == names[0] + ", " + Join(names[1..], ", ") + [];
    }
    ContainsIff(joined, stem);
  }

  lemma OccursWithin(pre: string, s: string, post: string, i: int, pat: string)
    requires OccursAt(s, i, pat)
    ensures OccursAt(pre + s + post, |pre| + i, pat)
  {
    var t := pre + s + post;
    assert t[|pre| + i..|pre| + i + |pat|] == s[i..i + |pat|];
  }
}

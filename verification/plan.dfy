/** `saveFolderOnDisk` as a pure plan: the ordered list of file-system and
    network actions it performs for a crawled folder. The file system is
    the set of paths that exist; whether a fetch or a remux produces its
    file is an oracle. */
module Plan {
  import opened Wrappers
  import opened Strings
  import opened Pins
  import opened FolderNames
  import opened FileNames

  /** One effect. `pin` is the record handed to the downloader: the pin
      itself, or a carousel part. */
  datatype Action =
    | MakeDir(dir: string)
    | Fetch(pin: PinData, target: string, ok: bool)
    | Remux(pin: PinData, target: string, ok: bool)
    | WriteText(path: string, text: string)
    | Delete(id: string)

  /** The path an action touches on disk. Deleting a pin from the board is
      a request to the site and touches none. */
  function Touched(a: Action): Option<string> {
    match a
    case MakeDir(d) => Some(d)
    case Fetch(_, t, _) => Some(t)
    case Remux(_, t, _) => Some(t)
    case WriteText(path, _) => Some(path)
    case Delete(_) => None
  }

  /** An action together with the directory of the folder whose pass issued
      it; the tag only records provenance, the paths touched are in the
      action. */
  datatype Step = Step(folder: string, action: Action)

  /** Actions issued by the pass over `folder`. */
  function Tagged(folder: string, acts: seq<Action>): (s: seq<Step>)
    ensures |s| == |acts|
    ensures forall k :: 0 <= k < |acts| ==> s[k] == Step(folder, acts[k])
  {
    seq(|acts|, k requires 0 <= k < |acts| => Step(folder, acts[k]))
  }

  // ---------------------------------------------------------------------
  // Paths

  /** `d` starts with `dir/`: it names `dir` itself, spelled with a
      trailing slash, or a path below it. */
  predicate Nested(dir: string, d: string) {
    |dir| < |d| && d[..|dir| + 1] == dir + "/"
  }

  /** `d` names `dir` or a path below it. */
  predicate Within(dir: string, d: string) {
    d == dir || Nested(dir, d)
  }

  /** `d` names a path strictly below `dir`: `dir/` followed by at least
      one more character. */
  predicate Below(dir: string, d: string) {
    Nested(dir, d) && |dir| + 1 < |d|
  }

  /** What the action touches on disk, if anything, lies strictly below
      `dir`. */
  predicate BelowDir(a: Action, dir: string) {
    Touched(a).None? || Below(dir, Touched(a).value)
  }

  /** What the action touches on disk, if anything, is `dir` or lies below
      it. */
  predicate InDir(a: Action, dir: string) {
    Touched(a).None? || Within(dir, Touched(a).value)
  }

  /** The side file of a download that reported no path: `.log`, relative
      to the working directory of the process. */
  predicate Stray(a: Action) {
    a.WriteText? && a.path == ".log"
  }

  lemma BelowJoin(dir: string, rest: string)
    requires rest != ""
    ensures Below(dir, dir + "/" + rest)
  {
    assert (dir + "/" + rest)[..|dir| + 1] == dir + "/";
  }

  lemma BelowExtend(dir: string, d: string, more: string)
    requires Below(dir, d)
    ensures Below(dir, d + more)
  {
    assert (d + more)[..|dir| + 1] == d[..|dir| + 1];
  }

  /** A path within a directory within `path` is within `path`. */
  lemma WithinWithin(path: string, dir: string, d: string)
    requires Within(path, dir) && Within(dir, d)
    ensures Within(path, d)
  {
    if dir != path && d != dir {
      assert d[..|dir| + 1][..|path| + 1] == d[..|path| + 1];
    }
  }

  /** A path nested in a directory within `path` is nested in `path`. */
  lemma NestedWithin(path: string, dir: string, d: string)
    requires Nested(path, dir) && Within(dir, d)
    ensures Nested(path, d)
  {
    if d != dir {
      assert d[..|dir| + 1][..|path| + 1] == d[..|path| + 1];
    }
  }

  /** The stray side file lies below no directory. */
  lemma StrayOutside(dir: string)
    ensures !Below(dir, ".log")
  {
    if |dir| < 3 {
      assert (dir + "/")[|dir|] == '/' != ".log"[|dir|];
    }
  }

  // ---------------------------------------------------------------------
  // Downloads

  /** Why `saveFolderOnDisk` rejects: a pin without `media` (a deleted pin
      nobody recovered), a media without `src`, a carousel part that was not
      saved, or a carousel whose story list held only empty strings, which
      leaves `downloadResult` unset. */
  datatype Fault =
    | MissingMedia(url: string)
    | MissingSrc(url: string)
    | PartFailed(url: string)
    | NoPartSaved(url: string)

  /** Whether fetching a URL and writing the body succeeds, and whether
      `ffmpeg` produces its output file for a stream URL when the output
      name reaches it intact. */
  datatype Net = Net(fetches: string -> bool, remuxes: string -> bool)

  /** The result of one downloader call: its actions, the paths existing
      afterwards, and `ICheckDownload`. */
  datatype Saved = Saved(steps: seq<Action>, fs: set<string>, fault: Option<Fault>, downloaded: bool, path: string)

  /** The steps of a run, the paths existing afterwards, and the fault
      that ended it early, if any. */
  datatype Outcome = Outcome(steps: seq<Step>, fs: set<string>, fault: Option<Fault>)

  /** Run `b` after `a`, which did not fault. */
  function Then(a: Outcome, b: Outcome): Outcome {
    Outcome(a.steps + b.steps, b.fs, b.fault)
  }

  /** The three downloaders the `switch` on `media.extension` picks from. */
  datatype Strategy = RemuxStream | FetchVideo | FetchImage

  function StrategyOf(extension: Option<string>): (s: Strategy)
    ensures s == RemuxStream <==> extension == Some("m3u8")
    ensures s == FetchVideo <==> extension == Some("mp4")
  {
    if extension == Some("m3u8") then RemuxStream
    else if extension == Some("mp4") then FetchVideo
    else FetchImage
  }

  /** `downloadMP4Video` and `downloadImage` once `src` is known to be set:
      the file is named by the marker's capture, else by the pin id, and
      carries the media extension as written, `undefined` included. A
      failed fetch reports no path. */
  function FetchAs(p: PinData, src: string, marker: string, extension: Option<string>,
                   dir: string, net: Net, fs: set<string>): (d: Saved)
    ensures |d.steps| == 1 && d.steps[0].Fetch? && d.steps[0].pin == p && d.fault.None?
    ensures d.steps[0].target == dir + "/" + MarkedStem(src, marker).GetOr(Show(p.id)) + "." + Show(extension)
    ensures Below(dir, d.steps[0].target)
    ensures d.downloaded == d.steps[0].ok == net.fetches(src)
    ensures d.downloaded ==> d.path == d.steps[0].target && d.fs == fs + {d.path}
    ensures !d.downloaded ==> d.path == "" && d.fs == fs
  {
    var name := MarkedStem(src, marker).GetOr(Show(p.id)) + "." + Show(extension);
    var target := dir + "/" + MarkedStem(src, marker).GetOr(Show(p.id)) + "." + Show(extension);
    assert target == dir + "/" + name;
    BelowJoin(dir, name);
    if net.fetches(src) then Saved([Fetch(p, target, true)], fs + {target}, None, true, target)
    else Saved([Fetch(p, target, false)], fs, None, false, "")
  }

  /** The characters a POSIX shell treats specially in an unquoted word:
      white space, quotes, `$`, the backquote, the backslash and
      `|&;()<>`. */
  const ShellSpecial: string := " \t\n\r\"'$`\\|&;()<>"

  /** `s` passes through the shell as one word, unchanged. */
  predicate ShellSafe(s: string) {
    forall i :: 0 <= i < |s| ==> s[i] !in ShellSpecial
  }

  /** `downloadM3U8Video` once `src` is set, with the output path of the
      `ffmpeg` command line quoted: the stream is remuxed into the first
      free `.mp4` name, and the reported path is that name whether or not
      `ffmpeg` produced the file. Whether the file is produced depends on
      the stream alone, renamed or not. */
  function RemuxAs(p: PinData, src: string, dir: string, net: Net, fs: set<string>): (d: Saved)
    ensures |d.steps| == 1 && d.steps[0].Remux? && d.steps[0].pin == p && d.fault.None?
    ensures d.path == d.steps[0].target && d.path !in fs && Below(dir, d.path)
    ensures d.path == VideoPath(dir, FreeName(fs, dir, MarkedStem(src, "videos").GetOr(Show(p.id))))
    ensures d.downloaded == d.steps[0].ok == net.remuxes(src)
    ensures d.fs == if d.downloaded then fs + {d.path} else fs
  {
    var target := RemuxTarget(p, src, dir, fs);
    var ok := net.remuxes(src);
    Saved([Remux(p, target, ok)], if ok then fs + {target} else fs, None, ok, target)
  }

  /** The first free `.mp4` path for the stream's stem. */
  function RemuxTarget(p: PinData, src: string, dir: string, fs: set<string>): (t: string)
    ensures t !in fs && Below(dir, t)
    ensures t == VideoPath(dir, FreeName(fs, dir, MarkedStem(src, "videos").GetOr(Show(p.id))))
  {
    var base := MarkedStem(src, "videos").GetOr(Show(p.id));
    var name := FreeName(fs, dir, base);
    FreeNameSpec(fs, dir, base);
    assert VideoPath(dir, name) == dir + "/" + (name + ".mp4");
    BelowJoin(dir, name + ".mp4");
    VideoPath(dir, name)
  }

  /** `downloadM3U8Video` as written: the output path is spliced into the
      shell command line unquoted, so `ffmpeg` produces the file only when
      the path passes through the shell as one word. */
  function RemuxAsWritten(p: PinData, src: string, dir: string, net: Net, fs: set<string>): (d: Saved)
    ensures |d.steps| == 1 && d.steps[0].Remux? && d.steps[0].pin == p && d.fault.None?
    ensures d.path == d.steps[0].target == RemuxTarget(p, src, dir, fs)
    ensures d.downloaded == d.steps[0].ok
    ensures d.downloaded <==> net.remuxes(src) && ShellSafe(d.path)
  {
    var target := RemuxTarget(p, src, dir, fs);
    var ok := net.remuxes(src) && ShellSafe(target);
    Saved([Remux(p, target, ok)], if ok then fs + {target} else fs, None, ok, target)
  }

  /** As written, once `<stem>.mp4` exists the stream goes to
      `<stem> (<n>).mp4`, whose space and parentheses break the unquoted
      command line: the renamed copy is never saved, while the quoted
      command saves it whenever the stream remuxes. */
  lemma RenamedRemuxNeverSaves(p: PinData, src: string, dir: string, net: Net, fs: set<string>)
    requires VideoPath(dir, MarkedStem(src, "videos").GetOr(Show(p.id))) in fs
    ensures !RemuxAsWritten(p, src, dir, net, fs).downloaded
    ensures RemuxAs(p, src, dir, net, fs).downloaded == net.remuxes(src)
    ensures RemuxAsWritten(p, src, dir, net, fs).path == RemuxAs(p, src, dir, net, fs).path
  {
    var base := MarkedStem(src, "videos").GetOr(Show(p.id));
    FreeNameSpec(fs, dir, base);
    var n: nat :| FreeName(fs, dir, base) == base + " (" + NatToDecimal(n) + ")";
    var t := RemuxTarget(p, src, dir, fs);
    assert t == dir + "/" + base + " (" + NatToDecimal(n) + ")" + ".mp4";
    assert t[|dir| + 1 + |base|] == ' ';
    assert ' ' in ShellSpecial;
  }

  /** When the output path needs no quoting, quoting changes nothing. */
  lemma QuotingAgrees(p: PinData, src: string, dir: string, net: Net, fs: set<string>)
    requires ShellSafe(RemuxTarget(p, src, dir, fs))
    ensures RemuxAsWritten(p, src, dir, net, fs) == RemuxAs(p, src, dir, net, fs)
  {
  }

  /** The `switch` on `media.extension`. */
  function Dispatch(p: PinData, m: Media, dir: string, net: Net, fs: set<string>): (d: Saved)
    requires Truthy(m.src)
  {
    match StrategyOf(m.extension)
    case RemuxStream => RemuxAs(p, m.src.value, dir, net, fs)
    case FetchVideo => FetchAs(p, m.src.value, "videos", m.extension, dir, net, fs)
    case FetchImage => FetchAs(p, m.src.value, "originals", m.extension, dir, net, fs)
  }

  /** The fake pin a carousel part is downloaded as: id `<id>-<index>`,
      typed PIN, its URL as `url` and `src`, typed IMAGE, with the extension
      of its URL as written. */
  function Part(p: PinData, item: string, index: nat): PinData {
    PinData(Some(Show(p.id) + "-" + NatToDecimal(index)), Pin, item, None,
            Some(Media(Some(Image), Some(item), None, PinExtension(item))))
  }

  /** The story items that are not empty strings, in order. */
  function Filled(items: seq<string>): (r: seq<string>)
    ensures |r| <= |items|
  {
    if |items| == 0 then [] else (if items[0] == "" then [] else [items[0]]) + Filled(items[1..])
  }

  /** A download action that produced its file. */
  predicate Saves(a: Action) {
    (a.Fetch? || a.Remux?) && a.ok
  }

  /** Saving one carousel part: `downloadImage` on its fake pin. */
  function SavePart(p: PinData, dir: string, net: Net): (string, nat, set<string>) -> Saved {
    (item: string, index: nat, fs: set<string>) =>
      FetchAs(Part(p, item, index), item, "originals", PinExtension(item), dir, net, fs)
  }

  /** `save` fetches the part with the given item and index as one action
      into a path below `dir`, and reports whether it saved the file and,
      if so, that path. */
  ghost predicate FetchesParts(save: (string, nat, set<string>) -> Saved, part: (string, nat) -> PinData, dir: string) {
    forall item: string, index: nat, fs: set<string> {:trigger save(item, index, fs)} ::
      var d := save(item, index, fs);
      && |d.steps| == 1 && d.steps[0].Fetch? && Below(dir, d.steps[0].target) && d.steps[0].pin == part(item, index)
      && d.fault.None? && d.downloaded == d.steps[0].ok
      && (d.downloaded ==> d.path == d.steps[0].target)
  }

  /** The fake pins of a carousel's parts. */
  function PartOf(p: PinData): (string, nat) -> PinData {
    (item: string, index: nat) => Part(p, item, index)
  }

  lemma SavePartFetches(p: PinData, dir: string, net: Net)
    ensures FetchesParts(SavePart(p, dir, net), PartOf(p), dir)
  {
  }

  /** The carousel loop: empty items are passed over without using an
      index, every other item is saved under the next index, and the first
      failed part ends the whole run. `last` is the path of the last saved
      part. */
  function SaveParts(p: PinData, save: (string, nat, set<string>) -> Saved, items: seq<string>, index: nat,
                     fs: set<string>, last: Option<string>): Saved
  {
    if |items| == 0 then
      if last.None? then Saved([], fs, Some(NoPartSaved(p.url)), false, "")
      else Saved([], fs, None, true, last.value)
    else if items[0] == "" then SaveParts(p, save, items[1..], index, fs, last)
    else
      var d := save(items[0], index, fs);
      if !d.downloaded then Saved(d.steps, d.fs, Some(PartFailed(p.url)), false, "")
      else
        var rest := SaveParts(p, save, items[1..], index + 1, d.fs, Some(d.path));
        rest.(steps := d.steps + rest.steps)
  }

  /** The carousel parts: the `k`-th action fetches the `k`-th non-empty
      story item as the IMAGE pin `<id>-<index + k>`. */
  lemma {:induction false} SavePartsNumbered(p: PinData, save: (string, nat, set<string>) -> Saved, part: (string, nat) -> PinData, dir: string,
                                             items: seq<string>, index: nat, fs: set<string>, last: Option<string>)
    requires FetchesParts(save, part, dir)
    ensures var d := SaveParts(p, save, items, index, fs, last);
      && |d.steps| <= |Filled(items)|
      && forall k :: 0 <= k < |d.steps| ==> d.steps[k].Fetch? && d.steps[k].pin == part(Filled(items)[k], index + k)
  {
    if |items| > 0 {
      var tail := Filled(items[1..]);
      if items[0] == "" {
        SavePartsNumbered(p, save, part, dir, items[1..], index, fs, last);
        assert Filled(items) == tail;
      } else {
        var d := save(items[0], index, fs);
        assert Filled(items) == [items[0]] + tail;
        if d.downloaded {
          var rest := SaveParts(p, save, items[1..], index + 1, d.fs, Some(d.path));
          SavePartsNumbered(p, save, part, dir, items[1..], index + 1, d.fs, Some(d.path));
          var r := SaveParts(p, save, items, index, fs, last);
          assert r.steps == d.steps + rest.steps;
          forall k | 1 <= k < |r.steps|
            ensures r.steps[k].Fetch? && r.steps[k].pin == part(Filled(items)[k], index + k)
          {
            assert r.steps[k] == rest.steps[k - 1];
            assert Filled(items)[k] == tail[k - 1];
          }
        }
      }
    }
  }

  /** Every action is a fetch into a path below `dir`. */
  predicate FetchesBelow(steps: seq<Action>, dir: string) {
    forall k :: 0 <= k < |steps| ==> steps[k].Fetch? && Below(dir, steps[k].target)
  }

  /** Every carousel part is fetched into a path below the folder. */
  lemma {:induction false} SavePartsBelow(p: PinData, save: (string, nat, set<string>) -> Saved, part: (string, nat) -> PinData, dir: string,
                                          items: seq<string>, index: nat, fs: set<string>, last: Option<string>)
    requires FetchesParts(save, part, dir)
    ensures FetchesBelow(SaveParts(p, save, items, index, fs, last).steps, dir)
  {
    var r := SaveParts(p, save, items, index, fs, last);
    if |items| > 0 {
      if items[0] == "" {
        var rest := SaveParts(p, save, items[1..], index, fs, last);
        SavePartsBelow(p, save, part, dir, items[1..], index, fs, last);
        assert r == rest;
      } else {
        var d := save(items[0], index, fs);
        assert d.steps[0].Fetch? && Below(dir, d.steps[0].target);
        if d.downloaded {
          var rest := SaveParts(p, save, items[1..], index + 1, d.fs, Some(d.path));
          SavePartsBelow(p, save, part, dir, items[1..], index + 1, d.fs, Some(d.path));
          assert r.steps == d.steps + rest.steps;
          forall k | 0 <= k < |r.steps| ensures r.steps[k].Fetch? && Below(dir, r.steps[k].target) {
            if k > 0 {
              assert r.steps[k] == rest.steps[k - 1];
            }
          }
        } else {
          assert r.steps == d.steps;
        }
      }
    }
  }

  /** How the carousel loop ends: without a fault every non-empty item was
      fetched and saved, and the loop faults for want of a result exactly
      when no non-empty item was met at all; no other fault arises but a
      failed part. */
  lemma {:induction false} SavePartsOutcome(p: PinData, save: (string, nat, set<string>) -> Saved, part: (string, nat) -> PinData, dir: string,
                                            items: seq<string>, index: nat, fs: set<string>, last: Option<string>)
    requires FetchesParts(save, part, dir)
    ensures var d := SaveParts(p, save, items, index, fs, last);
      && (d.fault.None? ==>
            && |d.steps| == |Filled(items)|
            && d.downloaded
            && (forall k :: 0 <= k < |d.steps| ==> Saves(d.steps[k])))
      && (d.fault == Some(NoPartSaved(p.url)) <==> |Filled(items)| == 0 && last.None?)
      && (d.fault.None? || d.fault == Some(PartFailed(p.url)) || d.fault == Some(NoPartSaved(p.url)))
  {
    if |items| > 0 {
      var tail := Filled(items[1..]);
      if items[0] == "" {
        SavePartsOutcome(p, save, part, dir, items[1..], index, fs, last);
        assert Filled(items) == tail;
      } else {
        var d := save(items[0], index, fs);
        assert Filled(items) == [items[0]] + tail;
        if d.downloaded {
          var rest := SaveParts(p, save, items[1..], index + 1, d.fs, Some(d.path));
          SavePartsOutcome(p, save, part, dir, items[1..], index + 1, d.fs, Some(d.path));
          var r := SaveParts(p, save, items, index, fs, last);
          assert r.steps == d.steps + rest.steps;
          if r.fault.None? {
            forall k | 1 <= k < |r.steps| ensures r.steps[k] == rest.steps[k - 1] {
            }
          }
        }
      }
    }
  }

  /** Any failed part aborts: it is the last action, and every part before
      it was saved. */
  lemma {:induction false} SavePartsAbort(p: PinData, save: (string, nat, set<string>) -> Saved, part: (string, nat) -> PinData, dir: string,
                                          items: seq<string>, index: nat, fs: set<string>, last: Option<string>)
    requires FetchesParts(save, part, dir)
    ensures var d := SaveParts(p, save, items, index, fs, last);
      d.fault == Some(PartFailed(p.url)) ==>
        && 0 < |d.steps|
        && !Saves(d.steps[|d.steps| - 1])
        && (forall k :: 0 <= k < |d.steps| - 1 ==> Saves(d.steps[k]))
  {
    if |items| > 0 {
      if items[0] == "" {
        SavePartsAbort(p, save, part, dir, items[1..], index, fs, last);
      } else {
        var d := save(items[0], index, fs);
        if d.downloaded {
          var rest := SaveParts(p, save, items[1..], index + 1, d.fs, Some(d.path));
          SavePartsAbort(p, save, part, dir, items[1..], index + 1, d.fs, Some(d.path));
          var r := SaveParts(p, save, items, index, fs, last);
          assert r.steps == d.steps + rest.steps;
          if r.fault == Some(PartFailed(p.url)) {
            forall k | 1 <= k < |r.steps| ensures r.steps[k] == rest.steps[k - 1] {
            }
          }
        }
      }
    }
  }

  /** A carousel loop that ends without a fault reports the path of its
      last part, which lies below the folder. */
  lemma {:induction false} SavePartsPath(p: PinData, save: (string, nat, set<string>) -> Saved, part: (string, nat) -> PinData, dir: string,
                                         items: seq<string>, index: nat, fs: set<string>, last: Option<string>)
    requires FetchesParts(save, part, dir)
    requires last.Some? ==> Below(dir, last.value)
    ensures var d := SaveParts(p, save, items, index, fs, last);
      d.fault.None? ==> Below(dir, d.path)
  {
    if |items| > 0 {
      if items[0] == "" {
        SavePartsPath(p, save, part, dir, items[1..], index, fs, last);
      } else {
        var d := save(items[0], index, fs);
        if d.downloaded {
          SavePartsPath(p, save, part, dir, items[1..], index + 1, d.fs, Some(d.path));
        }
      }
    }
  }

  /** What `saveFolderOnDisk` does to one pin before the side file and the
      delete: a carousel walks its parts, anything else needs a `src` and
      goes to the downloader its extension picks. Every file it writes lies
      below the folder; without a fault it reports a path below the folder,
      except after one failed fetch, which reports none. */
  function Attempt(p: PinData, m: Media, dir: string, net: Net, fs: set<string>): (d: Saved)
    ensures forall k :: 0 <= k < |d.steps| ==> (d.steps[k].Fetch? || d.steps[k].Remux?) && Below(dir, d.steps[k].target)
    ensures d.fault.None? && d.path != "" ==> Below(dir, d.path)
    ensures d.fault.None? ==> (d.path == "" <==> |d.steps| == 1 && d.steps[0].Fetch? && !d.steps[0].ok)
  {
    if m.storyImages.Some? && |m.storyImages.value| > 0 then
      var save := SavePart(p, dir, net);
      var items := m.storyImages.value;
      SavePartFetches(p, dir, net);
      SavePartsBelow(p, save, PartOf(p), dir, items, 0, fs, None);
      SavePartsOutcome(p, save, PartOf(p), dir, items, 0, fs, None);
      SavePartsPath(p, save, PartOf(p), dir, items, 0, fs, None);
      SaveParts(p, save, items, 0, fs, None)
    else if !Truthy(m.src) then Saved([], fs, Some(MissingSrc(p.url)), false, "")
    else Dispatch(p, m, dir, net, fs)
  }

  /** A pin with a non-empty story list is saved part by part: the `k`-th
      action fetches the `k`-th non-empty story item as the IMAGE pin
      `<id>-k`. */
  lemma {:induction false} CarouselParts(p: PinData, m: Media, dir: string, net: Net, fs: set<string>)
    requires m.storyImages.Some? && |m.storyImages.value| > 0
    ensures var d := Attempt(p, m, dir, net, fs);
      var parts := Filled(m.storyImages.value);
      && |d.steps| <= |parts|
      && (forall k :: 0 <= k < |d.steps| ==> d.steps[k].Fetch? && d.steps[k].pin == Part(p, parts[k], k))
  {
    var items := m.storyImages.value;
    var save := SavePart(p, dir, net);
    var d := SaveParts(p, save, items, 0, fs, None);
    var parts := Filled(items);
    assert |d.steps| <= |parts| && forall k :: 0 <= k < |d.steps| ==> d.steps[k].Fetch? && d.steps[k].pin == Part(p, parts[k], k) by {
      var part := PartOf(p);
      SavePartFetches(p, dir, net);
      SavePartsNumbered(p, save, part, dir, items, 0, fs, None);
      forall k | 0 <= k < |d.steps| ensures d.steps[k].Fetch? && d.steps[k].pin == Part(p, parts[k], k) {
        PartOfIs(p, parts[k], k);
      }
    }
    AttemptCarousel(p, m, dir, net, fs);
  }

  lemma PartOfIs(p: PinData, item: string, index: nat)
    ensures PartOf(p)(item, index) == Part(p, item, index)
  {
  }

  /** How a carousel ends: without a fault every non-empty story item was
      saved, a failed part is the last action taken, and the pin faults as
      having no saved part exactly when no story item is non-empty. */
  lemma CarouselOutcome(p: PinData, m: Media, dir: string, net: Net, fs: set<string>)
    requires m.storyImages.Some? && |m.storyImages.value| > 0
    ensures var d := Attempt(p, m, dir, net, fs);
      var parts := Filled(m.storyImages.value);
      && (d.fault.None? ==> |d.steps| == |parts| && forall k :: 0 <= k < |d.steps| ==> Saves(d.steps[k]))
      && (d.fault == Some(PartFailed(p.url)) ==>
            0 < |d.steps| && !Saves(d.steps[|d.steps| - 1]) && forall k :: 0 <= k < |d.steps| - 1 ==> Saves(d.steps[k]))
      && (d.fault == Some(NoPartSaved(p.url)) <==> |parts| == 0)
  {
    var items := m.storyImages.value;
    var save := SavePart(p, dir, net);
    var part := PartOf(p);
    SavePartFetches(p, dir, net);
    SavePartsOutcome(p, save, part, dir, items, 0, fs, None);
    SavePartsAbort(p, save, part, dir, items, 0, fs, None);
    AttemptCarousel(p, m, dir, net, fs);
  }

  /** With a non-empty story list the attempt is the part loop. */
  lemma AttemptCarousel(p: PinData, m: Media, dir: string, net: Net, fs: set<string>)
    requires m.storyImages.Some? && |m.storyImages.value| > 0
    ensures Attempt(p, m, dir, net, fs) == SaveParts(p, SavePart(p, dir, net), m.storyImages.value, 0, fs, None)
  {
  }

  /** Without a story list, a pin with a `src` goes to one downloader by its
      extension: `m3u8` is remuxed into the first free `.mp4` name, `mp4` is
      fetched under the stem after `videos`, and anything else is fetched
      under the stem after `originals`, each falling back to the pin id. */
  lemma DispatchByExtension(p: PinData, m: Media, dir: string, net: Net, fs: set<string>)
    requires !(m.storyImages.Some? && |m.storyImages.value| > 0) && Truthy(m.src)
    ensures var d := Attempt(p, m, dir, net, fs);
      var src := m.src.value;
      && |d.steps| == 1 && d.steps[0].pin == p && d.fault.None?
      && (m.extension == Some("m3u8") ==>
            && d.steps[0].Remux?
            && d.steps[0].target == VideoPath(dir, FreeName(fs, dir, MarkedStem(src, "videos").GetOr(Show(p.id))))
            && d.steps[0].target !in fs)
      && (m.extension == Some("mp4") ==>
            && d.steps[0].Fetch?
            && d.steps[0].target == dir + "/" + MarkedStem(src, "videos").GetOr(Show(p.id)) + ".mp4")
      && (m.extension != Some("m3u8") && m.extension != Some("mp4") ==>
            && d.steps[0].Fetch?
            && d.steps[0].target == dir + "/" + MarkedStem(src, "originals").GetOr(Show(p.id)) + "." + Show(m.extension))
      && d.downloaded == Saves(d.steps[0])
  {
  }

  /** The side file of a pin with text, named after the reported path. */
  function Sidecar(p: PinData, path: string): seq<Action> {
    if Truthy(p.text) then [WriteText(path + ".log", p.text.value)] else []
  }

  /** The delete request for a downloaded pin, when the option asks. */
  function Removal(p: PinData, downloaded: bool, deleteAfter: bool): seq<Action> {
    if downloaded && deleteAfter then [Delete(Show(p.id))] else []
  }

  /** One pass of the pin loop: folder records are passed over; after the
      download, a pin with text gets `<saved path>.log`, and a downloaded
      pin is deleted from the board when the option asks for it. Every path
      touched lies below the folder's directory, except the side file of a
      failed fetch (see `StraySidecar`). */
  function SavePin(p: PinData, dir: string, deleteAfter: bool, net: Net, fs: set<string>): (o: Outcome)
    ensures forall k :: 0 <= k < |o.steps| ==> o.steps[k].folder == dir
    ensures forall k :: 0 <= k < |o.steps| ==> BelowDir(o.steps[k].action, dir) || Stray(o.steps[k].action)
  {
    if p.kind == Folder then Outcome([], fs, None)
    else if p.media.None? then Outcome([], fs, Some(MissingMedia(p.url)))
    else
      var d := Attempt(p, p.media.value, dir, net, fs);
      if d.fault.Some? then Outcome(Tagged(dir, d.steps), d.fs, d.fault)
      else
        var acts := d.steps + Sidecar(p, d.path) + Removal(p, d.downloaded, deleteAfter);
        var logged := if Truthy(p.text) then d.fs + {d.path + ".log"} else d.fs;
        assert forall k :: 0 <= k < |acts| ==> BelowDir(acts[k], dir) || Stray(acts[k]) by {
          if d.path != "" {
            BelowExtend(dir, d.path, ".log");
          }
        }
        Outcome(Tagged(dir, acts), logged, None)
  }

  /** The side file escapes the folder exactly when the pin has text and
      its download was one failed fetch: `downloadImage` and
      `downloadMP4Video` then report the path `""`, and the text is written
      to `.log` in the working directory, which lies below no directory. */
  lemma StraySidecar(p: PinData, dir: string, deleteAfter: bool, net: Net, fs: set<string>)
    ensures var o := SavePin(p, dir, deleteAfter, net, fs);
      && ((exists k :: 0 <= k < |o.steps| && Stray(o.steps[k].action)) <==>
            && p.kind != Folder && p.media.Some? && Truthy(p.text)
            && var d := Attempt(p, p.media.value, dir, net, fs);
               d.fault.None? && |d.steps| == 1 && d.steps[0].Fetch? && !d.steps[0].ok)
      && forall k :: 0 <= k < |o.steps| && Stray(o.steps[k].action) ==> !BelowDir(o.steps[k].action, dir)
  {
    var o := SavePin(p, dir, deleteAfter, net, fs);
    StrayOutside(dir);
    if p.kind != Folder && p.media.Some? {
      var d := Attempt(p, p.media.value, dir, net, fs);
      if d.fault.None? {
        var acts := d.steps + Sidecar(p, d.path) + Removal(p, d.downloaded, deleteAfter);
        assert forall k :: 0 <= k < |o.steps| ==> o.steps[k].action == acts[k];
        if Truthy(p.text) && d.path == "" {
          assert Stray(o.steps[|d.steps|].action);
        }
      }
    }
  }

  /** A pin is deleted from the board exactly when its download ran to the
      end, saved its file and the option asks for deletion; the delete is
      the last action for the pin. */
  lemma DeleteOnlyWhenSaved(p: PinData, dir: string, deleteAfter: bool, net: Net, fs: set<string>)
    ensures var o := SavePin(p, dir, deleteAfter, net, fs);
      && ((exists k :: 0 <= k < |o.steps| && o.steps[k].action.Delete?) <==>
            && p.kind != Folder && p.media.Some? && deleteAfter
            && var d := Attempt(p, p.media.value, dir, net, fs); d.fault.None? && d.downloaded)
      && forall k :: 0 <= k < |o.steps| && o.steps[k].action.Delete? ==>
           k == |o.steps| - 1 && o.steps[k].action.id == Show(p.id)
  {
    var o := SavePin(p, dir, deleteAfter, net, fs);
    if p.kind != Folder && p.media.Some? {
      var d := Attempt(p, p.media.value, dir, net, fs);
      if d.fault.None? {
        var acts := d.steps + Sidecar(p, d.path) + Removal(p, d.downloaded, deleteAfter);
        assert forall k :: 0 <= k < |o.steps| ==> o.steps[k].action == acts[k];
        if d.downloaded && deleteAfter {
          assert o.steps[|o.steps| - 1].action.Delete?;
        }
      }
    }
  }

  /** `while (folder.pins.length)`: the pins in order, stopping at the
      first fault. Every path touched lies below the folder's directory,
      stray side files apart. */
  function SavePins(ps: seq<PinData>, dir: string, deleteAfter: bool, net: Net, fs: set<string>): (o: Outcome)
    ensures forall k :: 0 <= k < |o.steps| ==> o.steps[k].folder == dir
    ensures forall k :: 0 <= k < |o.steps| ==> BelowDir(o.steps[k].action, dir) || Stray(o.steps[k].action)
  {
    if |ps| == 0 then Outcome([], fs, None)
    else
      var o := SavePin(ps[0], dir, deleteAfter, net, fs);
      if o.fault.Some? then o else Then(o, SavePins(ps[1..], dir, deleteAfter, net, o.fs))
  }

  /** The records that are not folder records, in order. */
  function NonFolders(ps: seq<PinData>): (r: seq<PinData>)
    ensures forall k :: 0 <= k < |r| ==> r[k].kind != Folder
  {
    if |ps| == 0 then [] else (if ps[0].kind == Folder then [] else [ps[0]]) + NonFolders(ps[1..])
  }

  /** Folder records are passed over: the pin loop does exactly what it
      does on the folder's other records alone. */
  lemma {:induction false} FolderRecordsSkipped(ps: seq<PinData>, dir: string, deleteAfter: bool, net: Net, fs: set<string>)
    ensures SavePins(ps, dir, deleteAfter, net, fs) == SavePins(NonFolders(ps), dir, deleteAfter, net, fs)
  {
    if |ps| > 0 {
      FolderRecordsSkipped(ps[1..], dir, deleteAfter, net, fs);
      var o := SavePin(ps[0], dir, deleteAfter, net, fs);
      if ps[0].kind == Folder {
        assert NonFolders(ps) == NonFolders(ps[1..]);
        assert o == Outcome([], fs, None);
        var rest := SavePins(ps[1..], dir, deleteAfter, net, fs);
        assert [] + rest.steps == rest.steps;
      } else {
        var nf := NonFolders(ps);
        assert nf == [ps[0]] + NonFolders(ps[1..]);
        assert nf[0] == ps[0] && nf[1..] == NonFolders(ps[1..]);
        if o.fault.None? {
          FolderRecordsSkipped(ps[1..], dir, deleteAfter, net, o.fs);
        }
      }
    }
  }

  /** The directory a folder is saved in: nested in the parent path, and
      strictly below it exactly when the name keeps a character through
      sanitizing. */
  function FolderPath(path: string, name: string): (dir: string)
    ensures Nested(path, dir)
    ensures Below(path, dir) <==> Sanitize(name) != ""
  {
    assert (path + "/" + Sanitize(name))[..|path| + 1] == path + "/";
    path + "/" + Sanitize(name)
  }

  /** A board named only with characters outside `\w` (here a single CJK
      ideograph) sanitizes to the empty string, and is saved in the parent
      directory itself, spelled `<path>/`. */
  lemma UnsluggedNameSavesInParent(path: string)
    ensures Sanitize("\U{732B}") == ""
    ensures FolderPath(path, "\U{732B}") == path + "/"
    ensures !Below(path, FolderPath(path, "\U{732B}"))
  {
    var name := "\U{732B}";
    assert !Allowed(name[0]);
    assert Keep(name, Unmarked) == name by {
      assert name[..0] == [];
    }
    assert Keep(name, Allowed) == [] by {
      assert name[..0] == [];
    }
  }

  /** `saveFolderOnDisk`: create `<path>/<sanitized name>` unless it
      exists, save the folder's pins into it, then save each subfolder
      inside it. Every path touched is `path` or lies below it, stray side
      files apart, and every step is issued by a folder nested in `path`. */
  function SaveFolder(f: FolderData, path: string, deleteAfter: bool, net: Net, fs: set<string>): (o: Outcome)
    ensures forall k :: 0 <= k < |o.steps| ==> InDir(o.steps[k].action, path) || Stray(o.steps[k].action)
    ensures forall k :: 0 <= k < |o.steps| ==> Nested(path, o.steps[k].folder)
    decreases f, 1
  {
    var dir := FolderPath(path, f.name);
    var own := OwnSteps(f, path, deleteAfter, net, fs);
    assert forall k :: 0 <= k < |own.steps| ==> InDir(own.steps[k].action, path) || Stray(own.steps[k].action) by {
      forall k | 0 <= k < |own.steps| && !Stray(own.steps[k].action) ensures InDir(own.steps[k].action, path) {
        if Touched(own.steps[k].action).Some? {
          WithinWithin(path, dir, Touched(own.steps[k].action).value);
        }
      }
    }
    if own.fault.Some? then own
    else
      var subs := SaveSubfolders(f, 0, dir, deleteAfter, net, own.fs);
      assert forall k :: 0 <= k < |subs.steps| ==> InDir(subs.steps[k].action, path) || Stray(subs.steps[k].action) by {
        forall k | 0 <= k < |subs.steps| && !Stray(subs.steps[k].action) ensures InDir(subs.steps[k].action, path) {
          if Touched(subs.steps[k].action).Some? {
            WithinWithin(path, dir, Touched(subs.steps[k].action).value);
          }
        }
      }
      assert forall k :: 0 <= k < |subs.steps| ==> Nested(path, subs.steps[k].folder) by {
        forall k | 0 <= k < |subs.steps| ensures Nested(path, subs.steps[k].folder) {
          NestedWithin(path, dir, subs.steps[k].folder);
        }
      }
      Then(own, subs)
  }

  /** The part of `saveFolderOnDisk` before the subfolder loop: the
      directory, then the pins, all issued for the folder's own directory
      and touching only it and paths below it, stray side files apart. */
  function OwnSteps(f: FolderData, path: string, deleteAfter: bool, net: Net, fs: set<string>): (o: Outcome)
    ensures forall k :: 0 <= k < |o.steps| ==> o.steps[k].folder == FolderPath(path, f.name)
    ensures forall k :: 0 <= k < |o.steps| ==>
              InDir(o.steps[k].action, FolderPath(path, f.name)) || Stray(o.steps[k].action)
  {
    var dir := FolderPath(path, f.name);
    var made := if dir in fs then Outcome([], fs, None) else Outcome([Step(dir, MakeDir(dir))], fs + {dir}, None);
    Then(made, SavePins(f.pins, dir, deleteAfter, net, made.fs))
  }

  /** `while (folder.subfolders.length)`, from the `i`-th subfolder on:
      every step is issued by a folder nested in `dir` and touches only
      `dir` and paths below it, stray side files apart. */
  function SaveSubfolders(f: FolderData, i: nat, dir: string, deleteAfter: bool, net: Net, fs: set<string>): (o: Outcome)
    ensures forall k :: 0 <= k < |o.steps| ==> Nested(dir, o.steps[k].folder)
    ensures forall k :: 0 <= k < |o.steps| ==> InDir(o.steps[k].action, dir) || Stray(o.steps[k].action)
    decreases f, 0, |f.subfolders| - i
  {
    if i >= |f.subfolders| then Outcome([], fs, None)
    else
      var o := SaveFolder(f.subfolders[i], dir, deleteAfter, net, fs);
      if o.fault.Some? then o else Then(o, SaveSubfolders(f, i + 1, dir, deleteAfter, net, o.fs))
  }

  /** All subfolders are processed after all pins: every step issued for
      the folder's own directory comes before every step issued for a
      subfolder, whose directories are nested in it. */
  lemma PinsBeforeSubfolders(f: FolderData, path: string, deleteAfter: bool, net: Net, fs: set<string>)
    ensures var o := SaveFolder(f, path, deleteAfter, net, fs);
      var dir := FolderPath(path, f.name);
      && (forall k :: 0 <= k < |o.steps| ==> o.steps[k].folder == dir || Nested(dir, o.steps[k].folder))
      && (forall i, j :: 0 <= i < j < |o.steps| && o.steps[j].folder == dir ==> o.steps[i].folder == dir)
  {
    var o := SaveFolder(f, path, deleteAfter, net, fs);
    var dir := FolderPath(path, f.name);
    var own := OwnSteps(f, path, deleteAfter, net, fs);
    if own.fault.None? {
      var subs := SaveSubfolders(f, 0, dir, deleteAfter, net, own.fs);
      assert o.steps == own.steps + subs.steps;
      forall k | 0 <= k < |o.steps| ensures o.steps[k].folder == dir || Nested(dir, o.steps[k].folder) {
        if k >= |own.steps| {
          assert o.steps[k] == subs.steps[k - |own.steps|];
        }
      }
      forall i, j | 0 <= i < j < |o.steps| && o.steps[j].folder == dir ensures o.steps[i].folder == dir {
      }
    }
  }
}

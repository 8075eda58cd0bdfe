/** `getFolderItems`: crawling one board page into its records and, when
    asked, its subfolders. The browser, the deleted-pin recovery and the
    pin-resource request are inputs. */
module Crawl {
  import opened Wrappers
  import opened Pins
  import opened OrderedMaps
  import opened Classify

  /** One screenful of the board: its grid items, and whether the bottom
      check after scrolling past it succeeds. */
  datatype Screen = Screen(items: seq<GridItem>, bottom: bool)

  /** A board page as the browser shows it: the text of its last main
      heading, if any, and its screens from the top. */
  datatype Page = Page(title: Option<string>, screens: seq<Screen>)

  /** What `getPinResource` extracts from the pin resource response. */
  datatype PinResource = PinResource(streamUrl: string, storyImages: seq<string>)

  /** How the pin-resource request for one id ends: with the extracted
      resource; with nothing, when the response is not ok or its body does
      not parse (the function returns `undefined`); or rejected, when a
      session cookie is missing or the request or the reading of its body
      fails, none of which is caught. */
  datatype Lookup = Found(res: PinResource) | Unavailable | Rejected

  /** The world the crawl sees: the page behind each URL, the source URL
      recovered for a deleted pin (`None` when the recovery throws), and how
      the pin-resource request for an id ends. */
  datatype Web = Web(
    page: string -> Page,
    recover: string -> Option<string>,
    lookup: string -> Lookup)

  datatype CrawlError =
    | TitleNotFound(url: string)
    | ScreenFailed(cause: ScreenError)
    | ResourceRejected(id: string)

  /** The screen shown after `i` scrolls. Past the screens listed, the page
      shows nothing more and the bottom check succeeds. */
  function ScreenAt(pg: Page, i: nat): (s: Screen)
    ensures |pg.screens| <= i ==> s.bottom
  {
    if i < |pg.screens| then pg.screens[i] else Screen([], true)
  }

  /** `getFolderName`: the heading text, which must be non-empty. */
  function FolderName(url: string, title: Option<string>): (r: Result<string, CrawlError>)
    ensures r.Ok? <==> Truthy(title)
    ensures r.Ok? ==> r.value == title.value
    ensures r.Err? ==> r.error == TitleNotFound(url)
  {
    if Truthy(title) then Ok(title.value) else Err(TitleNotFound(url))
  }

  // ---------------------------------------------------------------------
  // Collection

  /** A well-formed collected map whose records have the shape their kind
      promises. */
  predicate Sound(m: OMap<string, PinData>) {
    m.Valid() && forall k :: k in m.items ==> Shaped(m.items[k])
  }

  type SoundMap = m: OMap<string, PinData> | Sound(m) witness OMap([], map[])

  /** The maps read from one screen. */
  type Screenful = x: Extracted | Filed(x) witness Extracted(OMap([], map[]), OMap([], map[]))

  predicate NoFolders(m: OMap<string, PinData>) {
    forall k :: k in m.items ==> m.items[k].kind != Folder
  }

  /** The merging part of the loop body: the screen's pins, then, only when
      recursing, its folders, set into the collected map. */
  function Merge(found: SoundMap, x: Screenful, recursive: bool): (r: SoundMap)
  {
    var withPins := SetAll(found, x.pins);
    SetAllSpec(found, x.pins);
    if recursive then
      SetAllSpec(withPins, x.folders);
      SetAll(withPins, x.folders)
    else withPins
  }

  /** Merging keeps the keys already collected in their positions. */
  lemma MergeKeepsPositions(found: SoundMap, x: Screenful, recursive: bool)
    ensures var r := Merge(found, x, recursive);
            |found.keys| <= |r.keys| && r.keys[..|found.keys|] == found.keys
  {
    var withPins := SetAll(found, x.pins);
    SetAllSpec(found, x.pins);
    if recursive {
      SetAllSpec(withPins, x.folders);
      var r := SetAll(withPins, x.folders);
      assert r.keys[..|found.keys|] == withPins.keys[..|found.keys|];
    }
  }

  /** Merging lets the last writer win: pins overwrite what was collected,
      folders, when merged at all, overwrite both, and every other key keeps
      its record. */
  lemma MergeSpec(found: SoundMap, x: Screenful, recursive: bool)
    ensures var r := Merge(found, x, recursive);
            && (forall k :: k in r.items <==>
                  k in found.items || k in x.pins.items || (recursive && k in x.folders.items))
            && (recursive ==> forall k :: k in x.folders.items ==> r.items[k] == x.folders.items[k])
            && (forall k :: k in x.pins.items && !(recursive && k in x.folders.items) ==>
                  r.items[k] == x.pins.items[k])
            && (forall k :: k in found.items && k !in x.pins.items && !(recursive && k in x.folders.items) ==>
                  r.items[k] == found.items[k])
  {
    var withPins := SetAll(found, x.pins);
    SetAllSpec(found, x.pins);
    if recursive {
      SetAllSpec(withPins, x.folders);
    }
  }

  /** Without recursion merging adds no folder record. */
  lemma MergeNoFolders(found: SoundMap, x: Screenful)
    requires NoFolders(found)
    ensures NoFolders(Merge(found, x, false))
  {
    SetAllSpec(found, x.pins);
  }

  /** Merging as a step of the loop. */
  function Merges(recursive: bool): (SoundMap, Screenful) -> SoundMap {
    (f: SoundMap, x: Screenful) => Merge(f, x, recursive)
  }

  /** A merge step that keeps the keys already collected in place. */
  ghost predicate KeepsPositions(merge: (SoundMap, Screenful) -> SoundMap) {
    forall f: SoundMap, x: Screenful :: |f.keys| <= |merge(f, x).keys| && merge(f, x).keys[..|f.keys|] == f.keys
  }

  /** A merge step that adds every pin of the screen. */
  ghost predicate AddsPins(merge: (SoundMap, Screenful) -> SoundMap) {
    forall f: SoundMap, x: Screenful, k: string :: k in x.pins.items ==> k in merge(f, x).items
  }

  /** A merge step that adds no folder record. */
  ghost predicate KeepsOutFolders(merge: (SoundMap, Screenful) -> SoundMap) {
    forall f: SoundMap, x: Screenful :: NoFolders(f) ==> NoFolders(merge(f, x))
  }

  lemma MergesSpec(recursive: bool)
    ensures KeepsPositions(Merges(recursive)) && AddsPins(Merges(recursive))
    ensures !recursive ==> KeepsOutFolders(Merges(recursive))
  {
    forall f: SoundMap, x: Screenful
      ensures |f.keys| <= |Merges(recursive)(f, x).keys|
      ensures Merges(recursive)(f, x).keys[..|f.keys|] == f.keys
      ensures forall k: string :: k in x.pins.items ==> k in Merges(recursive)(f, x).items
      ensures !recursive && NoFolders(f) ==> NoFolders(Merges(recursive)(f, x))
    {
      MergeKeepsPositions(f, x, recursive);
      MergeSpec(f, x, recursive);
      if !recursive && NoFolders(f) {
        MergeNoFolders(f, x);
      }
    }
  }

  /** Reading the grid of the screen shown after `j` scrolls. */
  function Scan(pg: Page, j: nat): (r: Result<Screenful, CrawlError>)
    ensures r.Err? <==> ExtractScreen(ScreenAt(pg, j).items).Err?
    ensures r.Ok? ==> r.value == ExtractScreen(ScreenAt(pg, j).items).value
  {
    match ExtractScreen(ScreenAt(pg, j).items)
    case Err(e) => Err(ScreenFailed(e))
    case Ok(x) => Ok(x)
  }

  /** The reading of every screen of a page. */
  function Scans(pg: Page): nat -> Result<Screenful, CrawlError> {
    (j: nat) => Scan(pg, j)
  }

  datatype Stop = LimitReached | BottomReached

  /** The collected map, the number of screens read, and why the loop ended. */
  datatype Collected = Collected(found: SoundMap, next: nat, stop: Stop)

  /** The `while (limit > size)` loop from screen `i` on: read the current
      screen, merge it, scroll, and stop at the bottom. */
  function Collect(pg: Page, scan: nat -> Result<Screenful, CrawlError>, merge: (SoundMap, Screenful) -> SoundMap,
                   limit: int, found: SoundMap, i: nat): Result<Collected, CrawlError>
    decreases |pg.screens| - i
  {
    if limit <= found.Size() then Ok(Collected(found, i, LimitReached))
    else
      match scan(i)
      case Err(e) => Err(e)
      case Ok(x) =>
        var merged := merge(found, x);
        if ScreenAt(pg, i).bottom then Ok(Collected(merged, i + 1, BottomReached))
        else Collect(pg, scan, merge, limit, merged, i + 1)
  }

  /** The loop as `getFolderItems` runs it: an empty map, the first screen. */
  function Crawled(pg: Page, limit: int, recursive: bool): Result<Collected, CrawlError> {
    Collect(pg, Scans(pg), Merges(recursive), limit, OMap([], map[]), 0)
  }

  /** While under the limit the loop reads at least one screen, and the
      keys already collected keep their positions. */
  lemma {:induction false} CollectGrows(pg: Page, scan: nat -> Result<Screenful, CrawlError>,
                                        merge: (SoundMap, Screenful) -> SoundMap, limit: int, found: SoundMap, i: nat)
    requires KeepsPositions(merge)
    ensures var r := Collect(pg, scan, merge, limit, found, i);
            r.Ok? ==>
              && i <= r.value.next
              && (found.Size() < limit ==> i < r.value.next)
              && |found.keys| <= |r.value.found.keys|
              && r.value.found.keys[..|found.keys|] == found.keys
    decreases |pg.screens| - i
  {
    if found.Size() < limit && scan(i).Ok? && !ScreenAt(pg, i).bottom {
      var merged := merge(found, scan(i).value);
      CollectGrows(pg, scan, merge, limit, merged, i + 1);
      var c := Collect(pg, scan, merge, limit, merged, i + 1);
      if c.Ok? {
        assert c.value.found.keys[..|found.keys|] == c.value.found.keys[..|merged.keys|][..|found.keys|];
      }
    }
  }

  /** The loop ends only when the map has reached the limit or the bottom
      check after a scroll succeeds. */
  lemma {:induction false} CollectStops(pg: Page, scan: nat -> Result<Screenful, CrawlError>,
                                        merge: (SoundMap, Screenful) -> SoundMap, limit: int, found: SoundMap, i: nat)
    ensures var r := Collect(pg, scan, merge, limit, found, i);
            r.Ok? ==>
              && (r.value.stop == LimitReached ==> limit <= r.value.found.Size())
              && (r.value.stop == BottomReached ==> i < r.value.next && ScreenAt(pg, r.value.next - 1).bottom)
    decreases |pg.screens| - i
  {
    if found.Size() < limit && scan(i).Ok? && !ScreenAt(pg, i).bottom {
      CollectStops(pg, scan, merge, limit, merge(found, scan(i).value), i + 1);
    }
  }

  /** No screen before the last one read was the bottom. */
  lemma {:induction false} CollectNoEarlierBottom(pg: Page, scan: nat -> Result<Screenful, CrawlError>,
                                                  merge: (SoundMap, Screenful) -> SoundMap, limit: int,
                                                  found: SoundMap, i: nat)
    ensures var r := Collect(pg, scan, merge, limit, found, i);
            r.Ok? ==>
              && (forall j :: i <= j < r.value.next - 1 ==> !ScreenAt(pg, j).bottom)
              && (r.value.stop == LimitReached ==> forall j :: i <= j < r.value.next ==> !ScreenAt(pg, j).bottom)
    decreases |pg.screens| - i
  {
    if found.Size() < limit && scan(i).Ok? && !ScreenAt(pg, i).bottom {
      CollectNoEarlierBottom(pg, scan, merge, limit, merge(found, scan(i).value), i + 1);
    }
  }

  /** Without recursion no folder record is ever collected. */
  lemma {:induction false} CollectNoFolders(pg: Page, scan: nat -> Result<Screenful, CrawlError>,
                                            merge: (SoundMap, Screenful) -> SoundMap, limit: int,
                                            found: SoundMap, i: nat)
    requires KeepsOutFolders(merge) && NoFolders(found)
    ensures var r := Collect(pg, scan, merge, limit, found, i);
            r.Ok? ==> NoFolders(r.value.found)
    decreases |pg.screens| - i
  {
    if found.Size() < limit && scan(i).Ok? && !ScreenAt(pg, i).bottom {
      CollectNoFolders(pg, scan, merge, limit, merge(found, scan(i).value), i + 1);
    }
  }

  /** The limit does not cap the collection: a first screen holding more
      pins than the limit is taken whole. */
  lemma CollectOvershoots(pg: Page, scan: nat -> Result<Screenful, CrawlError>,
                          merge: (SoundMap, Screenful) -> SoundMap, limit: int)
    requires KeepsPositions(merge) && AddsPins(merge)
    requires 0 < limit
    requires scan(0).Ok? && limit < scan(0).value.pins.Size()
    ensures Collect(pg, scan, merge, limit, OMap([], map[]), 0).Ok?
    ensures limit < Collect(pg, scan, merge, limit, OMap([], map[]), 0).value.found.Size()
  {
    var x := scan(0).value;
    var merged := merge(OMap([], map[]), x);
    assert forall k :: k in x.pins.keys ==> k in merged.keys by {
      assert forall k :: k in x.pins.keys ==> k in x.pins.items;
      assert forall k :: k in merged.items ==> k in merged.keys;
    }
    DistinctSubsetSize(x.pins.keys, merged.keys);
    if !ScreenAt(pg, 0).bottom {
      CollectGrows(pg, scan, merge, limit, merged, 1);
    }
  }

  /** On a board page the crawl ends at the limit only once the map has
      reached it. */
  lemma {:induction false} CrawledStopsAtLimit(pg: Page, limit: int, recursive: bool)
    ensures var r := Crawled(pg, limit, recursive);
            r.Ok? && r.value.stop == LimitReached ==> limit <= r.value.found.Size()
  {
    CollectStops(pg, Scans(pg), Merges(recursive), limit, OMap([], map[]), 0);
  }

  /** The last screen read passed the bottom check, if the loop stopped there. */
  predicate EndsAtBottom(pg: Page, c: Collected) {
    c.stop == BottomReached ==> 0 < c.next && ScreenAt(pg, c.next - 1).bottom
  }

  /** On a board page the crawl ends early only after a screen whose bottom
      check succeeded. */
  lemma {:induction false} CrawledStopsAtBottom(pg: Page, limit: int, recursive: bool)
    ensures Crawled(pg, limit, recursive).Ok? ==> EndsAtBottom(pg, Crawled(pg, limit, recursive).value)
  {
    var c := Collect(pg, Scans(pg), Merges(recursive), limit, OMap([], map[]), 0);
    assert c.Ok? ==> EndsAtBottom(pg, c.value) by {
      CollectStops(pg, Scans(pg), Merges(recursive), limit, OMap([], map[]), 0);
    }
    assert Crawled(pg, limit, recursive) == c;
  }

  /** On a board page no screen before the last one read was the bottom. */
  lemma {:induction false} CrawledNoEarlierBottom(pg: Page, limit: int, recursive: bool)
    ensures var r := Crawled(pg, limit, recursive);
            r.Ok? ==> forall j :: 0 <= j < r.value.next - 1 ==> !ScreenAt(pg, j).bottom
  {
    CollectNoEarlierBottom(pg, Scans(pg), Merges(recursive), limit, OMap([], map[]), 0);
  }

  /** Without recursion the crawl collects no folder record. */
  lemma {:induction false} CrawledNoFolders(pg: Page, limit: int)
    ensures var r := Crawled(pg, limit, false);
            r.Ok? ==> NoFolders(r.value.found)
  {
    MergesSpec(false);
    CollectNoFolders(pg, Scans(pg), Merges(false), limit, OMap([], map[]), 0);
  }

  /** The limit does not cap the crawl: a first screen with more pins than
      the limit is collected whole. */
  lemma {:induction false} CrawledOvershoots(pg: Page, limit: int, recursive: bool)
    requires 0 < limit
    requires ExtractScreen(ScreenAt(pg, 0).items).Ok?
    requires limit < ExtractScreen(ScreenAt(pg, 0).items).value.pins.Size()
    ensures Crawled(pg, limit, recursive).Ok?
    ensures limit < Crawled(pg, limit, recursive).value.found.Size()
  {
    MergesSpec(recursive);
    assert Scans(pg)(0) == Scan(pg, 0);
    CollectOvershoots(pg, Scans(pg), Merges(recursive), limit);
  }

  /** A sequence of distinct elements drawn from another distinct sequence
      is no longer than it. */
  lemma DistinctSubsetSize(a: seq<string>, b: seq<string>)
    requires forall i, j :: 0 <= i < j < |a| ==> a[i] != a[j]
    requires forall x :: x in a ==> x in b
    ensures |a| <= |b|
  {
    var sa := set x | x in a;
    var sb := set x | x in b;
    assert sa <= sb;
    DistinctCard(a);
    SetCardBound(b);
    assert sb == sa + (sb - sa);
    assert sa !! (sb - sa);
    assert |sb| == |sa| + |sb - sa|;
  }

  // ---------------------------------------------------------------------
  // Resolution

  /** The body of the resolution loop for one record: a deleted pin whose
      source can be recovered becomes a plain pin; a plain pin without a
      source asks for its pin resource, is dropped when there is none, and
      fails the crawl when the request is rejected; every plain pin then
      gets its extension and media type. */
  function Resolve(web: Web, p: PinData): (r: Result<Option<PinData>, CrawlError>)
    requires Shaped(p)
  {
    var q := if p.kind == DeletedPin && Truthy(web.recover(p.url))
             then p.(kind := Pin, media := Some(Media(None, web.recover(p.url), None, None)))
             else p;
    if q.kind != Pin then Ok(Some(q))
    else
      var m := q.media.value;
      if Truthy(m.src) then Ok(Some(q.(media := Some(Typed(m, m.src.value)))))
      else
        match web.lookup(Show(q.id))
        case Rejected => Err(ResourceRejected(Show(q.id)))
        case Unavailable => Ok(None)
        case Found(res) => Ok(Some(q.(media := Some(Typed(m.(storyImages := Some(res.storyImages)), res.streamUrl)))))
  }

  /** A plain pin that has to ask for its pin resource. */
  predicate NeedsResource(p: PinData)
    requires Shaped(p)
  {
    p.kind == Pin && !Truthy(p.media.value.src)
  }

  /** What resolution does to one record. */
  lemma ResolveSpec(web: Web, p: PinData)
    requires Shaped(p)
    ensures var r := Resolve(web, p);
            && (r.Err? <==> NeedsResource(p) && web.lookup(Show(p.id)).Rejected?)
            && (r.Err? ==> r.error == ResourceRejected(Show(p.id)))
            && (r == Ok(None) <==> NeedsResource(p) && web.lookup(Show(p.id)).Unavailable?)
            && (r.Ok? && r.value.Some? ==>
                  && r.value.value.id == p.id && r.value.value.url == p.url && r.value.value.text == p.text
                  && Shaped(r.value.value))
            && (p.kind == DeletedPin && Truthy(web.recover(p.url)) ==>
                  r.Ok? && r.value.Some? && r.value.value.kind == Pin
                  && r.value.value.media.value.src == web.recover(p.url)
                  && r.value.value.media.value.storyImages.None?)
            && (p.kind == DeletedPin && !Truthy(web.recover(p.url)) ==> r == Ok(Some(p)))
            && (p.kind == Folder || p.kind == CarouselPin ==> r == Ok(Some(p)))
            && (p.kind == Pin && Truthy(p.media.value.src) ==>
                  r.Ok? && r.value.Some? && r.value.value.media.value == Typed(p.media.value, p.media.value.src.value))
            && (NeedsResource(p) && web.lookup(Show(p.id)).Found? ==>
                  var res := web.lookup(Show(p.id)).res;
                  && r.Ok? && r.value.Some?
                  && r.value.value.media.value.src == Some(res.streamUrl)
                  && r.value.value.media.value.storyImages == Some(res.storyImages))
            && (r.Ok? && r.value.Some? && r.value.value.kind == Pin ==> WellTyped(r.value.value.media.value))
  {
  }

  /** The key a resolved record is stored under: `pinData.id ?? key`. */
  function OutKey(key: string, q: PinData): string {
    q.id.GetOr(key)
  }

  /** The resolution loop over the collected entries, in order, into a new
      map; the first rejected resource request fails it. */
  function ResolveAll(web: Web, es: seq<(string, PinData)>): (r: Result<OMap<string, PinData>, CrawlError>)
    requires forall i :: 0 <= i < |es| ==> Shaped(es[i].1)
    ensures r.Ok? ==> r.value.Valid()
  {
    if |es| == 0 then Ok(Empty())
    else
      var e := es[|es| - 1];
      var out :- ResolveAll(web, es[..|es| - 1]);
      SetResolved(out, e.0, Resolve(web, e.1))
  }

  /** One turn of the resolution loop after the earlier ones succeeded. */
  function SetResolved(out: OMap<string, PinData>, key: string, r: Result<Option<PinData>, CrawlError>): Result<OMap<string, PinData>, CrawlError>
    requires out.Valid()
  {
    match r
    case Err(err) => Err(err)
    case Ok(None) => Ok(out)
    case Ok(Some(q)) => Ok(out.Put(OutKey(key, q), q))
  }

  /** What one resolved record contributes to the output. */
  function Survivor(key: string, r: Result<Option<PinData>, CrawlError>): seq<(string, PinData)> {
    match r
    case Ok(Some(q)) => [(OutKey(key, q), q)]
    case _ => []
  }

  /** The entries that survive resolution, under their output keys, in the
      order they were collected. */
  function Kept(web: Web, es: seq<(string, PinData)>): (ks: seq<(string, PinData)>)
    requires forall i :: 0 <= i < |es| ==> Shaped(es[i].1)
    ensures |ks| <= |es|
  {
    if |es| == 0 then []
    else
      var e := es[|es| - 1];
      Kept(web, es[..|es| - 1]) + Survivor(e.0, Resolve(web, e.1))
  }

  /** The resolution loop fails exactly when one record's resource request
      is rejected. */
  lemma ResolveAllFails(web: Web, es: seq<(string, PinData)>)
    requires forall i :: 0 <= i < |es| ==> Shaped(es[i].1)
    ensures ResolveAll(web, es).Err? <==> exists i :: 0 <= i < |es| && Resolve(web, es[i].1).Err?
  {
    if ResolveAll(web, es).Ok? {
      forall i | 0 <= i < |es| ensures Resolve(web, es[i].1).Ok? {
        ResolvedEach(web, es, i);
      }
    } else {
      RejectedSome(web, es);
    }
  }

  /** A successful loop resolved every record. */
  lemma {:induction false} ResolvedEach(web: Web, es: seq<(string, PinData)>, i: nat)
    requires forall i :: 0 <= i < |es| ==> Shaped(es[i].1)
    requires i < |es| && ResolveAll(web, es).Ok?
    ensures Resolve(web, es[i].1).Ok?
  {
    var init := es[..|es| - 1];
    var ra := ResolveAll(web, init);
    assert ra.Ok?;
    if i < |init| {
      ResolvedEach(web, init, i);
      assert init[i] == es[i];
    } else {
      assert ResolveAll(web, es) == SetResolved(ra.value, es[i].0, Resolve(web, es[i].1));
    }
  }

  /** A failed loop met a rejected request. */
  lemma {:induction false} RejectedSome(web: Web, es: seq<(string, PinData)>)
    requires forall i :: 0 <= i < |es| ==> Shaped(es[i].1)
    requires ResolveAll(web, es).Err?
    ensures exists i :: 0 <= i < |es| && Resolve(web, es[i].1).Err?
  {
    var init := es[..|es| - 1];
    var e := es[|es| - 1];
    var ra := ResolveAll(web, init);
    if ra.Err? {
      RejectedSome(web, init);
      var i :| 0 <= i < |init| && Resolve(web, init[i].1).Err?;
      assert init[i] == es[i];
    } else {
      assert ResolveAll(web, es) == SetResolved(ra.value, e.0, Resolve(web, e.1));
      assert Resolve(web, es[|es| - 1].1).Err?;
    }
  }

  /** When the resolution loop succeeds it sets exactly the surviving
      entries, in order, so the output keys are those entries' keys in
      first-seen order. */
  lemma ResolveAllKept(web: Web, es: seq<(string, PinData)>)
    requires forall i :: 0 <= i < |es| ==> Shaped(es[i].1)
    ensures ResolveAll(web, es).Ok? ==> ResolveAll(web, es).value == PutAll(Empty(), Kept(web, es))
    ensures ResolveAll(web, es).Ok? ==> ResolveAll(web, es).value.keys == FirstSeen(KeysOf(Kept(web, es)))
  {
    ResolveAllPuts(web, es);
    PutAllKeys(Empty(), Kept(web, es));
    assert Empty<string, PinData>().keys + KeysOf(Kept(web, es)) == KeysOf(Kept(web, es));
  }

  lemma {:induction false} ResolveAllPuts(web: Web, es: seq<(string, PinData)>)
    requires forall i :: 0 <= i < |es| ==> Shaped(es[i].1)
    ensures ResolveAll(web, es).Ok? ==> ResolveAll(web, es).value == PutAll(Empty(), Kept(web, es))
  {
    if |es| > 0 {
      var init := es[..|es| - 1];
      var e := es[|es| - 1];
      var ra := ResolveAll(web, init);
      var r := Resolve(web, e.1);
      ResolveAllStep(web, es);
      if ra.Ok? && r.Ok? {
        ResolveAllPuts(web, init);
        var k := Kept(web, init);
        var ks := k + Survivor(e.0, r);
        assert Kept(web, es) == ks;
        if r.value.Some? {
          assert ks[..|ks| - 1] == k;
          assert PutAll(Empty(), ks) == PutAll(Empty(), k).Put(OutKey(e.0, r.value.value), r.value.value);
        } else {
          assert ks == k;
        }
      }
    }
  }

  /** One more entry: the loop over the earlier ones, then one turn. */
  lemma ResolveAllStep(web: Web, es: seq<(string, PinData)>)
    requires forall i :: 0 <= i < |es| ==> Shaped(es[i].1)
    requires |es| > 0
    ensures var ra := ResolveAll(web, es[..|es| - 1]);
            ResolveAll(web, es) == if ra.Err? then Err(ra.error) else SetResolved(ra.value, es[|es| - 1].0, Resolve(web, es[|es| - 1].1))
  {
  }

  /** Each collected entry that survives resolution is among the kept
      entries. */
  lemma {:induction false} KeptHolds(web: Web, es: seq<(string, PinData)>, i: nat)
    requires forall i :: 0 <= i < |es| ==> Shaped(es[i].1)
    requires i < |es|
    ensures Resolve(web, es[i].1).Ok? && Resolve(web, es[i].1).value.Some? ==>
              var q := Resolve(web, es[i].1).value.value;
              (OutKey(es[i].0, q), q) in Kept(web, es)
  {
    var init := es[..|es| - 1];
    if i < |es| - 1 {
      KeptHolds(web, init, i);
      assert init[i] == es[i];
    }
  }

  /** Resolution never turns a record into a folder, so a map without
      folders resolves to one without folders. */
  lemma {:induction false} ResolveAllNoFolders(web: Web, es: seq<(string, PinData)>)
    requires forall i :: 0 <= i < |es| ==> Shaped(es[i].1) && es[i].1.kind != Folder
    ensures ResolveAll(web, es).Ok? ==> NoFolders(ResolveAll(web, es).value)
  {
    if |es| > 0 {
      var e := es[|es| - 1];
      ResolveAllNoFolders(web, es[..|es| - 1]);
      ResolveSpec(web, e.1);
    }
  }

  // ---------------------------------------------------------------------
  // The whole crawl

  /** `output.pins` filtered to folder records, in order. */
  function FolderRecords(ps: seq<PinData>): (fs: seq<PinData>)
    ensures forall p :: p in fs <==> p in ps && p.kind == Folder
  {
    if |ps| == 0 then []
    else
      var p := ps[|ps| - 1];
      assert ps == ps[..|ps| - 1] + [p];
      FolderRecords(ps[..|ps| - 1]) + (if p.kind == Folder then [p] else [])
  }

  lemma {:induction false} NoFolderRecords(ps: seq<PinData>)
    requires forall p :: p in ps ==> p.kind != Folder
    ensures FolderRecords(ps) == []
  {
    if |ps| > 0 {
      NoFolderRecords(ps[..|ps| - 1]);
    }
  }

  /** `getFolderItems`. Without recursion no folder record is collected, so
      the subfolder loop has nothing to do (see `NonRecursiveHasNoSubfolders`). */
  function GetFolderItems(web: Web, url: string, limit: int, recursive: bool): (r: Result<FolderData, CrawlError>)
    decreases if recursive then 1 else 0, 1
  {
    var pg := web.page(url);
    var name :- FolderName(url, pg.title);
    if limit <= 0 then Ok(FolderData(name, [], []))
    else
      var c :- Crawled(pg, limit, recursive);
      var out :- ResolveAll(web, c.found.Entries());
      var pins := out.Values();
      if recursive then
        var subs :- Drain(Children(web), FolderRecords(pins), limit, c.found.Size());
        Ok(FolderData(name, pins, subs))
      else
        Ok(FolderData(name, pins, []))
  }

  /** Crawling a subfolder: without recursion, under the given limit. */
  function Children(web: Web): (string, int) -> Result<FolderData, CrawlError>
    decreases 1, 0
  {
    (u: string, l: int) => GetFolderItems(web, u, l, false)
  }

  /** The subfolder loop: shift the next folder record and crawl it with
      the limit less the number collected that are not still waiting. */
  function Drain(crawl: (string, int) -> Result<FolderData, CrawlError>, folders: seq<PinData>, limit: int,
                 collected: nat): Result<seq<FolderData>, CrawlError>
  {
    if |folders| == 0 then Ok([])
    else
      var d :- crawl(folders[0].url, limit - (collected - (|folders| - 1)));
      var rest :- Drain(crawl, folders[1..], limit, collected);
      Ok([d] + rest)
  }

  /** The budget of the `i`-th subfolder crawl. */
  function ChildLimit(limit: int, collected: nat, pending: nat, i: nat): int {
    limit - (collected - (pending - 1 - i))
  }

  /** One subfolder per folder record, in order, each crawled under its
      budget; the first failing crawl fails the loop. */
  lemma {:induction false} DrainSpec(crawl: (string, int) -> Result<FolderData, CrawlError>, folders: seq<PinData>,
                                     limit: int, collected: nat)
    ensures var r := Drain(crawl, folders, limit, collected);
            && (r.Ok? ==>
                  && |r.value| == |folders|
                  && forall i :: 0 <= i < |folders| ==>
                       crawl(folders[i].url, ChildLimit(limit, collected, |folders|, i)) == Ok(r.value[i]))
            && (r.Err? <==> exists i :: 0 <= i < |folders| && crawl(folders[i].url, ChildLimit(limit, collected, |folders|, i)).Err?)
    decreases |folders|
  {
    if |folders| > 0 {
      var rest := folders[1..];
      DrainSpec(crawl, rest, limit, collected);
      forall i | 0 < i < |folders|
        ensures crawl(folders[i].url, ChildLimit(limit, collected, |folders|, i))
                == crawl(rest[i - 1].url, ChildLimit(limit, collected, |rest|, i - 1))
      {
        assert rest[i - 1] == folders[i];
      }
      var r := Drain(crawl, folders, limit, collected);
      if crawl(folders[0].url, ChildLimit(limit, collected, |folders|, 0)).Ok? {
        if r.Err? {
          var j :| 0 <= j < |rest| && crawl(rest[j].url, ChildLimit(limit, collected, |rest|, j)).Err?;
          assert crawl(folders[j + 1].url, ChildLimit(limit, collected, |folders|, j + 1)).Err?;
        }
      }
    }
  }

  /** The name comes from the page heading and its absence is an error; a
      non-positive limit reads nothing. */
  lemma GetFolderItemsSpec(web: Web, url: string, limit: int, recursive: bool)
    ensures var r := GetFolderItems(web, url, limit, recursive);
            && (!Truthy(web.page(url).title) ==> r == Err(TitleNotFound(url)))
            && (r.Ok? ==> r.value.name == web.page(url).title.value)
            && (Truthy(web.page(url).title) && limit <= 0 ==>
                  r == Ok(FolderData(web.page(url).title.value, [], [])))
  {
  }

  /** With recursion, every folder record among the output pins yields one
      subfolder, in order, crawled without recursion on the budget formula. */
  lemma RecursiveSubfolders(web: Web, url: string, limit: int)
    requires 0 < limit
    ensures var r := GetFolderItems(web, url, limit, true);
            var c := Crawled(web.page(url), limit, true);
            r.Ok? ==>
              && c.Ok?
              && var fs := FolderRecords(r.value.pins);
                 && |r.value.subfolders| == |fs|
                 && forall i :: 0 <= i < |fs| ==>
                      GetFolderItems(web, fs[i].url, ChildLimit(limit, c.value.found.Size(), |fs|, i), false)
                      == Ok(r.value.subfolders[i])
  {
    var r := GetFolderItems(web, url, limit, true);
    if r.Ok? {
      var c := Crawled(web.page(url), limit, true).value;
      var pins := ResolveAll(web, c.found.Entries()).value.Values();
      var fs := FolderRecords(pins);
      DrainSpec(Children(web), fs, limit, c.found.Size());
      forall i | 0 <= i < |fs|
        ensures Children(web)(fs[i].url, ChildLimit(limit, c.found.Size(), |fs|, i))
                == GetFolderItems(web, fs[i].url, ChildLimit(limit, c.found.Size(), |fs|, i), false)
      {
      }
    }
  }

  /** Without recursion no folder record reaches the output, so the
      subfolder loop runs zero times. */
  lemma NonRecursiveHasNoSubfolders(web: Web, url: string, limit: int)
    ensures var r := GetFolderItems(web, url, limit, false);
            r.Ok? ==>
              && r.value.subfolders == []
              && FolderRecords(r.value.pins) == []
              && Drain(Children(web), FolderRecords(r.value.pins), limit, |r.value.pins|) == Ok([])
  {
    var r := GetFolderItems(web, url, limit, false);
    var pg := web.page(url);
    if r.Ok? && 0 < limit {
      CrawledNoFolders(pg, limit);
      var c := Crawled(pg, limit, false).value;
      var es := c.found.Entries();
      forall i | 0 <= i < |es| ensures Shaped(es[i].1) && es[i].1.kind != Folder {
        assert es[i] == (c.found.keys[i], c.found.items[c.found.keys[i]]);
      }
      ResolveAllNoFolders(web, es);
      var out := ResolveAll(web, es).value;
      var pins := out.Values();
      forall p | p in pins ensures p.kind != Folder {
        var i :| 0 <= i < |pins| && pins[i] == p;
      }
      NoFolderRecords(pins);
    }
  }
}

/** One screen of the board: each masonry grid item becomes a typed record
    (download.ts:179-215), and each record is filed under its identity key in
    the screen's pin map or folder map (download.ts:219-240). */
module Classify {
  import opened Wrappers
  import opened Strings
  import opened Pins
  import opened OrderedMaps

  /** The two URLs the page script's srcset pattern captures: the one listed
      with the `3x` density and the later `originals` one. */
  datatype SrcsetMatch = SrcsetMatch(threeX: string, originals: string)

  /** What the page script reads from one grid item. */
  datatype GridItem = GridItem(
    anchor: Option<string>,         // href of the item's first anchor
    carousel: Option<seq<string>>,  // src of each image under the carousel marker, when the marker exists
    unavailable: bool,              // the unavailable-pin marker
    video: bool,                    // a video element
    badge: Option<string>,          // text of the media-type badge
    srcset: Option<SrcsetMatch>,    // the srcset pattern's match on the pin image, if any
    footer: Option<string>,         // caption in the pin footer
    title: Option<string>)          // caption in the related-pin title

  datatype ScreenError =
    | PinIdNotFound(href: string)   // `getPinId` threw inside the page script
    | PinKeyNotFound(url: string)   // no key for a plain pin
    | NullRecord                    // `pin.type` read on a `null` entry

  const PinMarker := "/pin/"

  // ---------------------------------------------------------------------
  // Pin ids: `/.*\/pin\/(.*)?\//`

  /** `href` reads `pre + "/pin/" + id + "/" + tail` with the marker at `p`
      and no slash in `tail`. */
  ghost predicate IdFrame(href: string, p: int, id: string) {
    && OccursAt(href, p, PinMarker)
    && p + 5 + |id| < |href|
    && href[p + 5..p + 5 + |id|] == id
    && href[p + 5 + |id|] == '/'
    && Free(href[p + 6 + |id|..], '/')
  }

  /** No later marker ends inside the framed id. */
  ghost predicate NoMarkerWithin(href: string, p: int, id: string) {
    forall q :: p < q && q + 5 <= p + 5 + |id| ==> !OccursAt(href, q, PinMarker)
  }

  /** `getPinId`: the text between the last `/pin/` that has a slash after
      it and the final slash; an empty capture throws. */
  function GetPinId(href: string): (r: Result<string, ScreenError>)
    ensures r.Ok? ==>
              |r.value| > 0 && exists p :: IdFrame(href, p, r.value) && NoMarkerWithin(href, p, r.value)
    ensures r.Err? ==> r == Err(PinIdNotFound(href))
  {
    var last := LastIndexOf(href, '/');
    if last < 0 then Err(PinIdNotFound(href))
    else
      var p := LastOccurrence(href, PinMarker, last);
      if p < 0 || last == p + |PinMarker| then Err(PinIdNotFound(href))
      else
        assert IdFrame(href, p, href[p + 5..last]);
        Ok(href[p + 5..last])
  }

  /** Any framing with no later marker inside is the one `getPinId` finds,
      so the id above is unique. */
  lemma PinIdComplete(href: string, p: int, id: string)
    requires |id| > 0 && IdFrame(href, p, id) && NoMarkerWithin(href, p, id)
    ensures GetPinId(href) == Ok(id)
  {
    var e := p + 5 + |id|;
    forall j | e < j < |href| ensures href[j] != '/' {
      assert href[j] == href[e + 1..][j - e - 1];
    }
    var last := LastIndexOf(href, '/');
    assert last == e;
    var q := LastOccurrence(href, PinMarker, last);
    assert q == p;
  }

  /** The canonical pin URL `…/pin/<id>/` yields `<id>`. */
  lemma PinIdOfPinUrl(pre: string, id: string)
    requires |id| > 0 && Free(id, '/')
    ensures GetPinId(pre + PinMarker + id + "/") == Ok(id)
  {
    var s := pre + PinMarker + id + "/";
    var p := |pre|;
    assert s[p..p + 5] == PinMarker;
    assert s[p + 5..p + 5 + |id|] == id;
    assert s[p + 6 + |id|..] == [];
    forall q | p < q && q + 5 <= p + 5 + |id| ensures !OccursAt(s, q, PinMarker) {
      OccursAtChars(s, q, PinMarker);
      if q < p + 4 {
        assert s[q] == PinMarker[q - p];
      } else if q == p + 4 {
        assert s[q + 4] == id[3];
      } else {
        assert s[q] == id[q - p - 5];
      }
    }
    PinIdComplete(s, p, id);
  }

  // ---------------------------------------------------------------------
  // Classification of a grid item

  /** The media URL read from a plain pin's image: none for a video or a
      badge other than GIF; otherwise the `originals` URL, unless it names a
      HEIC file, in which case the `3x` one (download.ts:158-169). */
  function GridSrc(item: GridItem): (r: Option<string>)
    ensures item.video ==> r.None?
    ensures item.badge.Some? && Upper(item.badge.value) != "GIF" ==> r.None?
    ensures item.srcset.None? ==> r.None?
    ensures !item.video && (item.badge.None? || Upper(item.badge.value) == "GIF") && item.srcset.Some? ==>
              r == Some(if Contains(item.srcset.value.originals, ".heic")
                        then item.srcset.value.threeX else item.srcset.value.originals)
  {
    if item.video then None
    else if item.badge.Some? && Upper(item.badge.value) != "GIF" then None
    else match item.srcset
      case None => None
      case Some(m) => if Contains(m.originals, ".heic") then Some(m.threeX) else Some(m.originals)
  }

  /** The footer caption, or the related-pin title when the footer is empty. */
  function Caption(item: GridItem): Option<string> {
    if Truthy(item.footer) then item.footer else item.title
  }

  /** Each carousel thumbnail URL with its first `236` raised to `736`. */
  function Upgraded(srcs: seq<string>): (r: seq<string>)
    ensures |r| == |srcs|
    ensures forall i :: 0 <= i < |srcs| ==> r[i] == ReplaceFirst(srcs[i], "236", "736")
  {
    if |srcs| == 0 then [] else [ReplaceFirst(srcs[0], "236", "736")] + Upgraded(srcs[1..])
  }

  /** The kind a grid item with anchor `href` is given: carousel marker first,
      then the unavailable marker, then a link without `/pin/` is a folder. */
  function KindOf(item: GridItem, href: string): PinType {
    if item.carousel.Some? then CarouselPin
    else if item.unavailable then DeletedPin
    else if !Contains(href, PinMarker) then Folder
    else Pin
  }

  /** The page script's record for one grid item; `None` for an item
      without an anchor. */
  function ClassifyItem(item: GridItem): (r: Result<Option<PinData>, ScreenError>)
    ensures item.anchor.None? <==> r == Ok(None)
    ensures r.Ok? && r.value.Some? ==> Shaped(r.value.value)
  {
    match item.anchor
    case None => Ok(None)
    case Some(href) =>
      if item.carousel.Some? then
        var id :- GetPinId(href);
        Ok(Some(PinData(Some(id), CarouselPin, href, None,
                        Some(Media(None, None, Some(Upgraded(item.carousel.value)), None)))))
      else if item.unavailable then
        var id :- GetPinId(href);
        Ok(Some(PinData(Some(id), DeletedPin, href, None, None)))
      else if !Contains(href, PinMarker) then
        Ok(Some(PinData(None, Folder, href, None, None)))
      else
        var id :- GetPinId(href);
        Ok(Some(PinData(Some(id), Pin, href, Caption(item), Some(Media(None, GridSrc(item), None, None)))))
  }

  /** Classification of an anchored grid item: the kind follows the marker
      precedence; every kind but a folder carries the id of its URL and
      fails exactly when that id cannot be read; a folder carries neither id
      nor media; a deleted pin no media; a carousel its upgraded images; a
      plain pin its caption and grid media URL. */
  lemma ClassifyItemSpec(item: GridItem)
    requires item.anchor.Some?
    ensures var r := ClassifyItem(item);
            var href := item.anchor.value;
            var kind := KindOf(item, href);
            && (r.Err? <==> kind != Folder && GetPinId(href).Err?)
            && (r.Err? ==> r.error == PinIdNotFound(href))
            && (r.Ok? ==> r.value.Some? && r.value.value.kind == kind && r.value.value.url == href)
            && (r.Ok? && kind != Folder ==> r.value.value.id == Some(GetPinId(href).value))
            && (r.Ok? && kind == Folder ==> r.value.value.id.None? && r.value.value.media.None?)
            && (r.Ok? && kind == DeletedPin ==> r.value.value.media.None?)
            && (r.Ok? && kind == CarouselPin ==>
                  r.value.value.media == Some(Media(None, None, Some(Upgraded(item.carousel.value)), None)))
            && (r.Ok? && kind == Pin ==>
                  && r.value.value.media == Some(Media(None, GridSrc(item), None, None))
                  && r.value.value.text == Caption(item))
  {
  }

  /** `Promise.all` over the grid: the records in grid order, or the first
      error. */
  function ClassifyAll(items: seq<GridItem>): (r: Result<seq<Option<PinData>>, ScreenError>)
    ensures r.Ok? ==>
              |r.value| == |items| && forall i :: 0 <= i < |items| ==> ClassifyItem(items[i]) == Ok(r.value[i])
  {
    if |items| == 0 then Ok([])
    else
      var init := items[..|items| - 1];
      assert forall i :: 0 <= i < |init| ==> init[i] == items[i];
      var cs :- ClassifyAll(init);
      var c :- ClassifyItem(items[|items| - 1]);
      Ok(cs + [c])
  }

  // ---------------------------------------------------------------------
  // Identity keys

  /** The first index at or after `from` holding a slash, or `|s|`. */
  function SlashOrEnd(s: string, from: nat): (e: nat)
    requires from <= |s|
    ensures from <= e <= |s|
    ensures Free(s[from..e], '/')
    ensures e < |s| ==> s[e] == '/'
    decreases |s| - from
  {
    if from == |s| || s[from] == '/' then from else SlashOrEnd(s, from + 1)
  }

  /** The first index at or after `from` holding a non-word character, or `|s|`. */
  function WordRunEnd(s: string, from: nat): (e: nat)
    requires from <= |s|
    ensures from <= e <= |s|
    ensures AllWordChars(s[from..e])
    ensures e < |s| ==> !IsWordChar(s[e])
    decreases |s| - from
  {
    if from == |s| || !IsWordChar(s[from]) then from else WordRunEnd(s, from + 1)
  }

  /** The capture of `/\/[\d\w]{2}\/([^\/]+)\./` matched at `i`: after
      `/xx/`, the slash-free run up to its last dot. */
  function SrcCaptureAt(s: string, i: nat): (r: Option<string>)
    ensures r.Some? ==>
              && i + 4 + |r.value| < |s|
              && s[i] == '/' && IsWordChar(s[i + 1]) && IsWordChar(s[i + 2]) && s[i + 3] == '/'
              && |r.value| > 0 && Free(r.value, '/')
              && s[i + 4..i + 4 + |r.value|] == r.value && s[i + 4 + |r.value|] == '.'
              && Free(s[i + 5 + |r.value|..SlashOrEnd(s, i + 4)], '.')
  {
    if i + 4 > |s| then None
    else if s[i] == '/' && IsWordChar(s[i + 1]) && IsWordChar(s[i + 2]) && s[i + 3] == '/' then
      var e := SlashOrEnd(s, i + 4);
      var run := s[i + 4..e];
      var d := LastIndexOf(run, '.');
      if d > 0 then
        var stem := run[..d];
        var rest := run[d + 1..];
        assert forall j :: 0 <= j < |stem| ==> stem[j] == s[i + 4 + j];
        assert s[i + 4..i + 4 + d] == stem;
        assert forall j :: 0 <= j < |rest| ==> rest[j] == s[i + 5 + d + j];
        assert s[i + 5 + d..e] == rest;
        Some(stem)
      else None
    else None
  }

  /** The capture of `/pin\/([\d\w]+)/` matched at `i`: the word run after `pin/`. */
  function UrlCaptureAt(s: string, i: nat): (r: Option<string>)
    ensures r.Some? <==> OccursAt(s, i, "pin/") && i + 4 < |s| && IsWordChar(s[i + 4])
    ensures r.Some? ==>
              && |r.value| > 0 && AllWordChars(r.value) && i + 4 + |r.value| <= |s|
              && s[i + 4..i + 4 + |r.value|] == r.value
              && (i + 4 + |r.value| == |s| || !IsWordChar(s[i + 4 + |r.value|]))
  {
    if OccursAt(s, i, "pin/") && i + 4 < |s| && IsWordChar(s[i + 4]) then
      Some(s[i + 4..WordRunEnd(s, i + 4)])
    else None
  }

  function SrcCaptures(src: string): nat -> Option<string> {
    (j: nat) => SrcCaptureAt(src, j)
  }

  function UrlCaptures(url: string): nat -> Option<string> {
    (j: nat) => UrlCaptureAt(url, j)
  }

  /** The id embedded in a media URL: the leftmost match of the pattern. */
  function SrcKey(src: string): Option<string> {
    FirstCapture(src, SrcCaptures(src), 0)
  }

  /** The id after `pin/` in a pin URL: the leftmost match of the pattern. */
  function UrlKey(url: string): Option<string> {
    FirstCapture(url, UrlCaptures(url), 0)
  }

  /** The capture at the hashed file name of a media path `…/xx/<h>.<ext>`. */
  lemma SrcCaptureOfHashedPath(pre: string, d: string, h: string, ext: string)
    requires |d| == 2 && AllWordChars(d)
    requires |h| > 0 && Free(h, '/') && Free(h, '.')
    requires Free(ext, '/') && Free(ext, '.')
    ensures SrcCaptureAt(pre + "/" + d + "/" + h + "." + ext, |pre|) == Some(h)
  {
    var s := pre + "/" + d + "/" + h + "." + ext;
    var i := |pre|;
    assert s[i] == '/' && s[i + 1] == d[0] && s[i + 2] == d[1] && s[i + 3] == '/';
    assert s[i + 4..] == h + "." + ext;
    var e := SlashOrEnd(s, i + 4);
    forall j | i + 4 <= j < |s| ensures s[j] != '/' {
      var k := j - (i + 4);
      assert s[j] == (h + "." + ext)[k];
      if k < |h| {
        assert s[j] == h[k];
      } else if k > |h| {
        assert s[j] == ext[k - |h| - 1];
      }
    }
    assert e == |s|;
    var run := s[i + 4..e];
    assert run == h + "." + ext;
    assert run[|h|] == '.';
    forall j | |h| < j < |run| ensures run[j] != '.' {
      assert run[j] == ext[j - |h| - 1];
    }
    assert LastIndexOf(run, '.') == |h|;
    assert run[..|h|] == h;
  }

  /** A pin URL whose first `pin/` is followed by the word run `id` yields `id`. */
  lemma UrlKeyOfPinPath(pre: string, id: string, rest: string)
    requires forall j :: 0 <= j < |pre| ==> !OccursAt(pre + "pin/", j, "pin/")
    requires |id| > 0 && AllWordChars(id)
    requires |rest| == 0 || !IsWordChar(rest[0])
    ensures UrlKey(pre + "pin/" + id + rest) == Some(id)
  {
    var s := pre + "pin/" + id + rest;
    var head := pre + "pin/";
    assert s[..|head|] == head;
    forall j: nat | j < |pre| ensures UrlCaptureAt(s, j).None? {
      assert !OccursAt(head, j, "pin/");
      assert s[j..j + 4] == head[j..j + 4];
    }
    assert s[|pre|..|pre| + 4] == "pin/";
    assert s[|pre| + 4] == id[0];
    var e := WordRunEnd(s, |pre| + 4);
    assert s[|pre| + 4..|pre| + 4 + |id|] == id;
    forall j | |pre| + 4 <= j < |pre| + 4 + |id| ensures IsWordChar(s[j]) {
      assert s[j] == id[j - |pre| - 4];
    }
    assert e == |pre| + 4 + |id| by {
      if |pre| + 4 + |id| < |s| {
        assert s[|pre| + 4 + |id|] == rest[0];
      }
      forall j | |pre| + 4 <= j < e ensures IsWordChar(s[j]) {
        assert s[j] == s[|pre| + 4..e][j - |pre| - 4];
      }
    }
    assert UrlCaptureAt(s, |pre|) == Some(id);
    FirstCaptureIs(s, UrlCaptures(s), |pre|);
  }

  /** The key a plain pin is filed under: the id in its media URL when it
      has one, else the id after `pin/` in its URL. */
  function PinKey(p: PinData): (r: Result<string, ScreenError>)
    requires p.media.Some?
    ensures Truthy(p.media.value.src) && SrcKey(p.media.value.src.value).Some? ==>
              r == Ok(SrcKey(p.media.value.src.value).value)
    ensures !(Truthy(p.media.value.src) && SrcKey(p.media.value.src.value).Some?) ==>
              r == (match UrlKey(p.url) case Some(k) => Ok(k) case None => Err(PinKeyNotFound(p.url)))
  {
    var fromSrc := if Truthy(p.media.value.src) then SrcKey(p.media.value.src.value) else None;
    if fromSrc.Some? then Ok(fromSrc.value)
    else match UrlKey(p.url)
      case Some(k) => Ok(k)
      case None => Err(PinKeyNotFound(p.url))
  }

  /** The folder name key: the last path segment (`/\/([^\/]+)\/?$/`). */
  function FolderKey(url: string): (r: Option<string>)
    ensures r.Some? ==>
              && |r.value| > 0 && Free(r.value, '/')
              && (IsSuffix("/" + r.value, url) || IsSuffix("/" + r.value + "/", url))
  {
    var t := if |url| > 0 && url[|url| - 1] == '/' then url[..|url| - 1] else url;
    var last := LastIndexOf(t, '/');
    if last < 0 || last == |t| - 1 then None
    else
      assert t[last..] == "/" + t[last + 1..];
      assert url == t || url == t + "/";
      Some(t[last + 1..])
  }

  /** Every URL ending in a slash-free segment, with or without a final
      slash, is keyed by that segment. */
  lemma FolderKeyOfPath(pre: string, k: string, trailing: bool)
    requires |k| > 0 && Free(k, '/')
    ensures FolderKey(pre + "/" + k + (if trailing then "/" else "")) == Some(k)
  {
    var url := pre + "/" + k + (if trailing then "/" else "");
    var t := pre + "/" + k;
    assert (if |url| > 0 && url[|url| - 1] == '/' then url[..|url| - 1] else url) == t;
    forall j | |pre| < j < |t| ensures t[j] != '/' {
      assert t[j] == k[j - |pre| - 1];
    }
    assert t[|pre|] == '/';
    assert LastIndexOf(t, '/') == |pre|;
    assert t[|pre| + 1..] == k;
  }

  // ---------------------------------------------------------------------
  // The screen's maps

  /** The two maps one screen fills: pins by key and folders by name. */
  datatype Extracted = Extracted(pins: OMap<string, PinData>, folders: OMap<string, PinData>)

  /** Both maps are well formed, the pin map holds well-typed non-folder
      records and the folder map only folders. */
  predicate Filed(x: Extracted) {
    && x.pins.Valid() && x.folders.Valid()
    && (forall k :: k in x.pins.items ==> x.pins.items[k].kind != Folder && Shaped(x.pins.items[k]))
    && (forall k :: k in x.folders.items ==> x.folders.items[k].kind == Folder)
  }

  const NoneFiled := Extracted(Empty(), Empty())

  /** One iteration of the `switch` at download.ts:220. */
  function File(x: Extracted, p: PinData): (r: Result<Extracted, ScreenError>)
    requires Filed(x) && Shaped(p)
    ensures r.Ok? ==> Filed(r.value)
  {
    match p.kind
    case DeletedPin => Ok(x.(pins := x.pins.Put(Show(p.id), p)))
    case CarouselPin => Ok(x.(pins := x.pins.Put(Show(p.id), p)))
    case Folder =>
      (match FolderKey(p.url)
       case Some(k) => Ok(x.(folders := x.folders.Put(k, p)))
       case None => Ok(x))
    case Pin =>
      var k :- PinKey(p);
      Ok(x.(pins := x.pins.Put(k, p)))
  }

  /** Keying: deleted and carousel pins go in the pin map by id; a folder
      goes in the folder map by its last segment, or nowhere when it has
      none; a plain pin goes in the pin map by `PinKey`, and only a plain pin
      without a key stops the screen. */
  lemma FileSpec(x: Extracted, p: PinData)
    requires Filed(x) && Shaped(p)
    ensures File(x, p).Err? <==> p.kind == Pin && PinKey(p).Err?
    ensures File(x, p).Err? ==> File(x, p).error == PinKeyNotFound(p.url)
    ensures p.kind == DeletedPin || p.kind == CarouselPin ==>
              File(x, p) == Ok(x.(pins := x.pins.Put(Show(p.id), p)))
    ensures p.kind == Folder && FolderKey(p.url).None? ==> File(x, p) == Ok(x)
    ensures p.kind == Folder && FolderKey(p.url).Some? ==>
              File(x, p) == Ok(x.(folders := x.folders.Put(FolderKey(p.url).value, p)))
    ensures p.kind == Pin && PinKey(p).Ok? ==> File(x, p) == Ok(x.(pins := x.pins.Put(PinKey(p).value, p)))
  {
  }

  /** The records that are present, in order. */
  function Present(cs: seq<Option<PinData>>): (ps: seq<PinData>)
    ensures forall p :: p in ps <==> Some(p) in cs
  {
    if |cs| == 0 then []
    else
      assert cs == cs[..|cs| - 1] + [cs[|cs| - 1]];
      Present(cs[..|cs| - 1]) + (match cs[|cs| - 1] case Some(p) => [p] case None => [])
  }

  /** The keying loop over present records, in order; the first error wins. */
  function FileAll(ps: seq<PinData>): (r: Result<Extracted, ScreenError>)
    requires forall p :: p in ps ==> Shaped(p)
    ensures r.Ok? ==> Filed(r.value)
  {
    if |ps| == 0 then Ok(NoneFiled)
    else
      assert forall p :: p in ps[..|ps| - 1] ==> p in ps;
      var x :- FileAll(ps[..|ps| - 1]);
      File(x, ps[|ps| - 1])
  }

  /** The keying loop as the code runs it: a `null` entry of the page
      script's result is dereferenced, which throws. */
  function FileAllAsWritten(cs: seq<Option<PinData>>): (r: Result<Extracted, ScreenError>)
    requires forall c :: c in cs && c.Some? ==> Shaped(c.value)
    ensures r.Ok? ==> Filed(r.value)
  {
    if |cs| == 0 then Ok(NoneFiled)
    else
      assert forall c :: c in cs[..|cs| - 1] ==> c in cs;
      var x :- FileAllAsWritten(cs[..|cs| - 1]);
      match cs[|cs| - 1]
      case None => Err(NullRecord)
      case Some(p) => File(x, p)
  }

  /** `extractPinDataFromCurrentScreen` as intended: grid items without an
      anchor are left out. */
  function ExtractScreen(items: seq<GridItem>): (r: Result<Extracted, ScreenError>)
    ensures r.Ok? ==> Filed(r.value)
  {
    var cs :- ClassifyAll(items);
    FileAll(Present(cs))
  }

  /** `extractPinDataFromCurrentScreen` as written: the `null` kept for an
      anchor-less item reaches the keying loop. */
  function ExtractScreenAsWritten(items: seq<GridItem>): (r: Result<Extracted, ScreenError>)
    ensures r.Ok? ==> Filed(r.value)
  {
    var cs :- ClassifyAll(items);
    FileAllAsWritten(cs)
  }

  // ---------------------------------------------------------------------
  // Anchor-less grid items

  /** The grid items that have an anchor, in order. */
  function Anchored(items: seq<GridItem>): (r: seq<GridItem>)
    ensures forall it :: it in r <==> it in items && it.anchor.Some?
  {
    if |items| == 0 then []
    else
      assert items == items[..|items| - 1] + [items[|items| - 1]];
      Anchored(items[..|items| - 1]) + (if items[|items| - 1].anchor.Some? then [items[|items| - 1]] else [])
  }

  /** As written, a screen with an anchor-less grid item never yields maps. */
  lemma AsWrittenRejectsAnchorless(items: seq<GridItem>)
    ensures ExtractScreenAsWritten(items).Ok? ==> forall i :: 0 <= i < |items| ==> items[i].anchor.Some?
  {
    match ClassifyAll(items)
    case Err(_) =>
    case Ok(cs) =>
      FileAllAsWrittenNeedsRecords(cs);
  }

  lemma {:induction false} FileAllAsWrittenNeedsRecords(cs: seq<Option<PinData>>)
    requires forall c :: c in cs && c.Some? ==> Shaped(c.value)
    ensures FileAllAsWritten(cs).Ok? ==> None !in cs
  {
    if |cs| > 0 {
      var init := cs[..|cs| - 1];
      assert cs == init + [cs[|cs| - 1]];
      assert forall c :: c in init ==> c in cs;
      FileAllAsWrittenNeedsRecords(init);
      FileAllAsWrittenStep(cs);
    }
  }

  lemma FileAllAsWrittenStep(cs: seq<Option<PinData>>)
    requires |cs| > 0
    requires forall c :: c in cs && c.Some? ==> Shaped(c.value)
    ensures FileAllAsWritten(cs).Ok? ==> FileAllAsWritten(cs[..|cs| - 1]).Ok? && cs[|cs| - 1].Some?
  {
  }

  /** The smallest witness: one grid item with no anchor. */
  lemma AnchorlessItemExample()
    ensures ExtractScreenAsWritten([GridItem(None, None, false, false, None, None, None, None)]) == Err(NullRecord)
    ensures ExtractScreen([GridItem(None, None, false, false, None, None, None, None)]) == Ok(NoneFiled)
  {
    var items := [GridItem(None, None, false, false, None, None, None, None)];
    var cs: seq<Option<PinData>> := [None];
    assert items[..0] == [];
    assert ClassifyAll(items[..0]) == Ok([]);
    assert ClassifyItem(items[0]) == Ok(None);
    assert [] + cs == cs;
    assert ClassifyAll(items) == Ok(cs);
    assert cs[..0] == [];
    assert Present(cs) == [];
  }

  /** As intended, anchor-less grid items are simply left out. */
  lemma {:induction false} AnchorlessItemsDropped(items: seq<GridItem>)
    ensures ExtractScreen(items) == ExtractScreen(Anchored(items))
  {
    ClassifyAnchored(items);
  }

  lemma {:induction false} ClassifyAnchored(items: seq<GridItem>)
    ensures ClassifyAll(items).Err? ==> ClassifyAll(Anchored(items)) == ClassifyAll(items)
    ensures ClassifyAll(items).Ok? ==>
              && ClassifyAll(Anchored(items)).Ok?
              && Present(ClassifyAll(Anchored(items)).value) == Present(ClassifyAll(items).value)
  {
    if |items| > 0 {
      var init := items[..|items| - 1];
      var x := items[|items| - 1];
      assert items == init + [x];
      ClassifyAnchored(init);
      var a := Anchored(init);
      ClassifyAllSnoc(init, x);
      if x.anchor.None? {
        assert Anchored(items) == a;
        if ClassifyAll(init).Ok? {
          PresentSnoc(ClassifyAll(init).value, None);
        }
      } else {
        assert Anchored(items) == a + [x];
        ClassifyAllSnoc(a, x);
        if ClassifyAll(init).Ok? && ClassifyItem(x).Ok? {
          PresentSnoc(ClassifyAll(init).value, ClassifyItem(x).value);
          PresentSnoc(ClassifyAll(a).value, ClassifyItem(x).value);
        }
      }
    }
  }

  lemma ClassifyAllSnoc(init: seq<GridItem>, x: GridItem)
    ensures ClassifyAll(init + [x])
            == if ClassifyAll(init).Err? then Err(ClassifyAll(init).error)
               else if ClassifyItem(x).Err? then Err(ClassifyItem(x).error)
               else Ok(ClassifyAll(init).value + [ClassifyItem(x).value])
  {
    var items := init + [x];
    assert items[..|items| - 1] == init;
  }

  lemma PresentSnoc(cs: seq<Option<PinData>>, c: Option<PinData>)
    ensures Present(cs + [c]) == Present(cs) + (match c case Some(p) => [p] case None => [])
  {
    var s := cs + [c];
    assert s[..|s| - 1] == cs;
  }

  /** On screens where every grid item has an anchor the code as written
      and as intended agree. */
  lemma AsWrittenAgreesWhenAnchored(items: seq<GridItem>)
    requires forall i :: 0 <= i < |items| ==> items[i].anchor.Some?
    ensures ExtractScreenAsWritten(items) == ExtractScreen(items)
  {
    match ClassifyAll(items)
    case Err(_) =>
    case Ok(cs) =>
      forall c | c in cs
        ensures c.Some? && Shaped(c.value)
      {
        var i :| 0 <= i < |cs| && cs[i] == c;
        assert ClassifyItem(items[i]) == Ok(c);
      }
      FileAllAgree(cs);
  }

  lemma {:induction false} FileAllAgree(cs: seq<Option<PinData>>)
    requires forall c :: c in cs ==> c.Some? && Shaped(c.value)
    ensures FileAllAsWritten(cs) == FileAll(Present(cs))
  {
    if |cs| > 0 {
      var init := cs[..|cs| - 1];
      var last := cs[|cs| - 1].value;
      assert forall c :: c in init ==> c in cs;
      FileAllAgree(init);
      var ps := Present(init);
      assert Present(cs) == ps + [last];
      FileAllSnoc(ps, last);
    }
  }

  /** The keying loop over one more record files it after the rest. */
  lemma FileAllSnoc(ps: seq<PinData>, p: PinData)
    requires forall q :: q in ps ==> Shaped(q)
    requires Shaped(p)
    ensures FileAll(ps + [p]) == match FileAll(ps) case Err(e) => Err(e) case Ok(x) => File(x, p)
  {
    var s := ps + [p];
    assert s[..|s| - 1] == ps;
    assert s[|s| - 1] == p;
  }
}

/** The records the downloader passes around (`PinData`, `FolderData`) and
    the two small rules that type a pin's media by its URL. */
module Pins {
  import opened Wrappers
  import opened Strings

  datatype PinType = Pin | DeletedPin | CarouselPin | Folder

  datatype MediaType = Image | Video

  /** `PinData.media`; every field may be `undefined`. */
  datatype Media = Media(
    kind: Option<MediaType>,
    src: Option<string>,
    storyImages: Option<seq<string>>,
    extension: Option<string>)

  /** `PinData`. A folder record has no `id` and no `media`; a deleted pin
      has no `media` until it is recovered. */
  datatype PinData = PinData(
    id: Option<string>,
    kind: PinType,
    url: string,
    text: Option<string>,
    media: Option<Media>)

  /** `FolderData`: a crawled board, its records and its crawled subfolders. */
  datatype FolderData = FolderData(name: string, pins: seq<PinData>, subfolders: seq<FolderData>)

  const NoMedia := Media(None, None, None, None)

  /** The declared type of `PinData` promises `media` on the records the
      code reads it from: plain pins and carousel pins. */
  predicate Shaped(p: PinData) {
    (p.kind == Pin || p.kind == CarouselPin) ==> p.media.Some?
  }

  /** JavaScript truthiness of an optional string. */
  predicate Truthy(s: Option<string>) {
    s.Some? && s.value != ""
  }

  /** A template literal's rendering of an optional string. */
  function Show(s: Option<string>): string {
    match s
    case Some(v) => v
    case None => "undefined"
  }

  /** Where the run of word characters ending at `j` starts. */
  function RunStart(url: string, j: nat): (b: nat)
    requires j <= |url|
    ensures b <= j
    ensures forall i :: b <= i < j ==> IsWordChar(url[i])
    ensures 0 < b ==> !IsWordChar(url[b - 1])
  {
    if j == 0 || !IsWordChar(url[j - 1]) then j else RunStart(url, j - 1)
  }

  /** The number of word characters `url` ends with. */
  function TrailingWordRun(url: string): (k: nat)
    ensures k <= |url|
    ensures AllWordChars(url[|url| - k..])
    ensures k < |url| ==> !IsWordChar(url[|url| - k - 1])
  {
    var b := RunStart(url, |url|);
    var run := url[b..];
    assert forall i :: 0 <= i < |run| ==> run[i] == url[b + i];
    |url| - b
  }

  /** `getPinExtension`: the run of word characters after a final dot
      (`/\.(\w+)$/`), or `undefined`. */
  function PinExtension(url: string): (r: Option<string>)
    ensures r.Some? ==> |r.value| > 0 && AllWordChars(r.value) && IsSuffix("." + r.value, url)
    ensures r.None? ==>
              forall d :: 0 <= d < |url| - 1 && url[d] == '.' ==> !AllWordChars(url[d + 1..])
  {
    var k := TrailingWordRun(url);
    if 0 < k < |url| && url[|url| - k - 1] == '.' then
      assert url[|url| - k - 1..] == "." + url[|url| - k..];
      Some(url[|url| - k..])
    else
      forall d | 0 <= d < |url| - 1 && url[d] == '.'
        ensures !AllWordChars(url[d + 1..])
      {
        DotBeforeWordRun(url, d);
      }
      None
  }

  /** A dot followed by nothing but word characters starts the trailing run. */
  lemma DotBeforeWordRun(url: string, d: nat)
    requires d < |url| && url[d] == '.'
    ensures AllWordChars(url[d + 1..]) ==> TrailingWordRun(url) == |url| - d - 1
  {
    if AllWordChars(url[d + 1..]) {
      var w := url[d + 1..];
      forall i | d < i < |url| ensures IsWordChar(url[i]) {
        assert url[i] == w[i - d - 1];
      }
      RunStartAfter(url, d, |url|);
    }
  }

  /** The run ending at `j` starts right after the last character before
      `j` that is not a word character. */
  lemma {:induction false} RunStartAfter(url: string, d: nat, j: nat)
    requires d < j <= |url| && !IsWordChar(url[d])
    requires forall i :: d < i < j ==> IsWordChar(url[i])
    ensures RunStart(url, j) == d + 1
    decreases j
  {
    if j > d + 1 {
      RunStartAfter(url, d, j - 1);
    }
  }

  const ImageExtensions: seq<string> := ["png", "jpeg", "jpg", "gif"]

  /** `getPinType`: the extensions of still images are typed IMAGE, every
      other extension VIDEO. */
  function PinTypeOf(extension: string): (t: MediaType)
    ensures t == Image <==> extension in ImageExtensions
  {
    if extension in ImageExtensions then Image else Video
  }

  /** Media whose extension and type agree with its `src`: the extension is
      the lower-cased word run after the final dot, absent when there is
      none, and the type is IMAGE exactly for the still-image extensions and
      VIDEO for any other, absent with the extension. */
  predicate WellTyped(m: Media) {
    && m.src.Some?
    && (m.extension.Some? <==> PinExtension(m.src.value).Some?)
    && (m.extension.Some? ==> m.extension.value == Lower(PinExtension(m.src.value).value))
    && (m.kind.Some? <==> m.extension.Some?)
    && (m.kind == Some(Image) <==> m.extension.Some? && m.extension.value in ImageExtensions)
  }

  /** The typing step of the resolution pass: the lower-cased extension of
      `src` and the media type it implies. */
  function Typed(m: Media, src: string): (r: Media)
    ensures r.src == Some(src) && r.storyImages == m.storyImages
    ensures WellTyped(r)
  {
    var ext := match PinExtension(src) case Some(e) => Some(Lower(e)) case None => None;
    m.(src := Some(src), extension := ext, kind := if ext.Some? then Some(PinTypeOf(ext.value)) else None)
  }

  /** Concrete instances of the typing rule. */
  lemma TypedImageExample()
    ensures Typed(NoMedia, "a/x.JPG").kind == Some(Image)
  {
    var u := "a/x.JPG";
    assert u[3] == '.' && u[4..] == "JPG";
    DotBeforeWordRun(u, 3);
    assert PinExtension(u) == Some("JPG");
    assert Lower("JPG") == "jpg";
  }
}

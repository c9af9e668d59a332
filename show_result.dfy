/** showResult without its rendering (script.js lines 112-152): the title and
    thumbnail with their defaults, and the download link found by the `links`
    array, then the `url` field, then a scan of the serialised body. */
module ShowResult {
  import opened Opt
  import opened Json
  import opened JsValue
  import Mp4Scan

  const DefaultTitle := "Video descargado"
  const PlaceholderThumbnail := "https://via.placeholder.com/640x360?text=No+Thumbnail"
  const NoLinkMessage := "No se pudo extraer el enlace de descarga del video."

  /** The three values the result card is rendered from. */
  datatype Media = Media(title: JsValue, thumbnail: JsValue, downloadUrl: JsValue)

  /** Either the card to render, or the "no se pudo extraer" outcome. */
  datatype Resolution = Resolved(media: Media) | NoLink

  /** `data.title || "Video descargado"` (line 121). */
  function Title(data: Json): (r: JsValue)
    requires !data.JNull?
    ensures Truthy(r)
    ensures r == if Truthy(Get(data, "title")) then Get(data, "title") else Value(JString(DefaultTitle))
  {
    Or(Get(data, "title"), Value(JString(DefaultTitle)))
  }

  /** `data.picture || data.thumbnail || <placeholder>` (line 122): the first
      truthy one of the two fields, else the placeholder image. */
  function Thumbnail(data: Json): (r: JsValue)
    requires !data.JNull?
    ensures Truthy(r)
    ensures Truthy(Get(data, "picture")) ==> r == Get(data, "picture")
    ensures !Truthy(Get(data, "picture")) && Truthy(Get(data, "thumbnail")) ==> r == Get(data, "thumbnail")
    ensures !Truthy(Get(data, "picture")) && !Truthy(Get(data, "thumbnail")) ==> r == Value(JString(PlaceholderThumbnail))
  {
    Or(Or(Get(data, "picture"), Get(data, "thumbnail")), Value(JString(PlaceholderThumbnail)))
  }

  /** `data.links` passes the test of line 128: typeof is "object" and it is an
      array, which holds exactly when it is an array. */
  predicate HasLinksArray(data: Json): (b: bool)
    requires !data.JNull?
    ensures b <==> exists items :: Get(data, "links") == Value(JArray(items))
  {
    TypeOf(Get(data, "links")) == "object" && IsArray(Get(data, "links"))
  }

  /** The value of `downloadUrl` after lines 126-133: `links[0]?.link` when
      `data.links` is an array, else `data.url` when that is truthy, else the
      initial null. Only the first element of `links` matters: an object gives
      its own `link` field, a string the inherited String.prototype.link, and
      anything else (or no element at all) gives undefined. */
  function LinkCandidate(data: Json): (r: JsValue)
    requires !data.JNull?
    ensures HasLinksArray(data) ==> var items := Get(data, "links").json.items;
      && (items == [] ==> r == Undefined)
      && (items != [] && items[0].JObject? ==> r == Lookup(items[0].fields, "link"))
      && (items != [] && items[0].JString? ==> r == NativeLinkMethod)
      && (items != [] && !items[0].JObject? && !items[0].JString? ==> r == Undefined)
    ensures !HasLinksArray(data) && Truthy(Get(data, "url")) ==> r == Get(data, "url")
    ensures !HasLinksArray(data) && !Truthy(Get(data, "url")) ==> r == Value(JNull)
  {
    if HasLinksArray(data) then OptionalGet(At(Get(data, "links").json.items, 0), "link")
    else if Truthy(Get(data, "url")) then Get(data, "url")
    else Value(JNull)
  }

  /** The value of `downloadUrl` after lines 142-147: a truthy candidate is
      kept; a falsy one is replaced by the match of the scan over
      `JSON.stringify(data)`, if there is one. The result is truthy exactly when
      the candidate is or the scan matches. */
  function DownloadUrl(data: Json): (r: JsValue)
    requires !data.JNull?
    ensures Truthy(LinkCandidate(data)) ==> r == LinkCandidate(data)
    ensures !Truthy(LinkCandidate(data)) && Mp4Scan.Match(Serialize(data)).Some? ==>
      r == Value(JString(Mp4Scan.Match(Serialize(data)).value))
    ensures Truthy(r) <==> Truthy(LinkCandidate(data)) || Mp4Scan.Match(Serialize(data)).Some?
  {
    var c := LinkCandidate(data);
    if Truthy(c) then c
    else match Mp4Scan.Match(Serialize(data))
      case Some(w) => Value(JString(w))
      case None => c
  }

  /** showResult(data), short of rendering: lines 149-152 give up when no
      truthy link was found; the title and thumbnail play no part in that. */
  function Resolve(data: Json): (r: Resolution)
    requires !data.JNull?
    ensures r.NoLink? <==> !Truthy(DownloadUrl(data))
    ensures r.Resolved? ==> r.media == Media(Title(data), Thumbnail(data), DownloadUrl(data))
    ensures r.Resolved? ==> Truthy(r.media.title) && Truthy(r.media.thumbnail) && Truthy(r.media.downloadUrl)
  {
    var title := Title(data);
    var thumbnail := Thumbnail(data);
    var downloadUrl := DownloadUrl(data);
    if !Truthy(downloadUrl) then NoLink else Resolved(Media(title, thumbnail, downloadUrl))
  }

  /** The same outcome, computed as showResult does: by reassigning the local
      `downloadUrl` in three conditional steps. */
  method ResolveSteps(data: Json) returns (r: Resolution)
    requires !data.JNull?
    ensures r == Resolve(data)
  {
    var title := Title(data);
    var thumbnail := Thumbnail(data);
    var downloadUrl := Value(JNull);
    var links := Get(data, "links");
    if TypeOf(links) == "object" && IsArray(links) {
      downloadUrl := OptionalGet(At(links.json.items, 0), "link");
    } else if Truthy(Get(data, "url")) {
      downloadUrl := Get(data, "url");
    }
    if !Truthy(downloadUrl) {
      var possibleUrl := Mp4Scan.Match(Serialize(data));
      if possibleUrl.Some? {
        downloadUrl := Value(JString(possibleUrl.value));
      }
    }
    if !Truthy(downloadUrl) {
      return NoLink;
    }
    r := Resolved(Media(title, thumbnail, downloadUrl));
  }

  /** When `data.links` is an array the candidate depends on that array alone:
      `data.url` is never consulted, even when the array is empty or its first
      element has no `link`. */
  lemma LinksArrayDecides(d1: Json, d2: Json)
    requires !d1.JNull? && !d2.JNull?
    requires HasLinksArray(d1) && Get(d1, "links") == Get(d2, "links")
    ensures LinkCandidate(d1) == LinkCandidate(d2)
  {
  }

  /** Elements after `links[0]` never change the candidate: two bodies whose
      `links` arrays start with the same element give the same candidate. */
  lemma FirstLinkDecides(d1: Json, d2: Json, first: Json, rest1: seq<Json>, rest2: seq<Json>)
    requires !d1.JNull? && !d2.JNull?
    requires Get(d1, "links") == Value(JArray([first] + rest1))
    requires Get(d2, "links") == Value(JArray([first] + rest2))
    ensures LinkCandidate(d1) == LinkCandidate(d2)
  {
    assert HasLinksArray(d1) && HasLinksArray(d2);
  }

  /** An empty `links` array gives no candidate, whatever `data.url` holds. */
  lemma EmptyLinksShadowUrl(data: Json)
    requires !data.JNull? && Get(data, "links") == Value(JArray([]))
    ensures LinkCandidate(data) == Undefined
  {
  }

  /** The first element of `links` is used as it is: a string element yields the
      inherited String.prototype.link, a truthy value that is no URL. */
  lemma StringLinkIsTruthy(data: Json, items: seq<Json>, s: string)
    requires !data.JNull? && Get(data, "links") == Value(JArray(items))
    requires items != [] && items[0] == JString(s)
    ensures LinkCandidate(data) == NativeLinkMethod
    ensures DownloadUrl(data) == NativeLinkMethod && Resolve(data).Resolved?
  {
  }

  /** Without a `links` array, a truthy `data.url` is taken verbatim, with no
      check that it names a media file. */
  lemma UrlTakenVerbatim(data: Json)
    requires !data.JNull? && !HasLinksArray(data) && Truthy(Get(data, "url"))
    ensures DownloadUrl(data) == Get(data, "url")
    ensures Resolve(data) == Resolved(Media(Title(data), Thumbnail(data), Get(data, "url")))
  {
  }

  /** A page URL echoed back in `url` is returned as the download link. */
  lemma SourcePageUrlAccepted()
    ensures var page := "https://example.com/source-page";
      Resolve(JObject([Field("url", JString(page))])) ==
        Resolved(Media(Value(JString(DefaultTitle)), Value(JString(PlaceholderThumbnail)), Value(JString(page))))
  {
    var data := JObject([Field("url", JString("https://example.com/source-page"))]);
    assert Get(data, "links") == Undefined;
    assert Get(data, "title") == Undefined;
    assert Get(data, "picture") == Undefined && Get(data, "thumbnail") == Undefined;
    UrlTakenVerbatim(data);
  }

  /** The scan never overrides a truthy link found earlier. */
  lemma ScanNeverOverrides(data: Json)
    requires !data.JNull? && Truthy(LinkCandidate(data))
    ensures DownloadUrl(data) == LinkCandidate(data)
  {
  }

  /** When no earlier link was found, the link is the leftmost (and there the
      longest) match in the serialised body, when there is one; it begins with
      `http://` or `https://`, ends with `.mp4` and holds no quote. */
  lemma ScanFindsLeftmost(data: Json) returns (i: nat, e: nat)
    requires !data.JNull? && !Truthy(LinkCandidate(data))
    requires Mp4Scan.Match(Serialize(data)).Some?
    ensures var t := Serialize(data);
      && Mp4Scan.IsMatch(t, i, e)
      && DownloadUrl(data) == Value(JString(t[i..e]))
      && (forall i', e' | i' < i :: !Mp4Scan.IsMatch(t, i', e'))
      && (forall e' | Mp4Scan.IsMatch(t, i, e') :: e' <= e)
    ensures var w := DownloadUrl(data).json.s;
      && (Mp4Scan.StartsWith(w, "http://") || Mp4Scan.StartsWith(w, "https://"))
      && w[|w| - 4..] == ".mp4" && '"' !in w
  {
    i, e := Mp4Scan.MatchIsLeftmostLongest(Serialize(data));
    Mp4Scan.Mp4UrlShape(Serialize(data)[i..e]);
  }

  /** The outcome is a failure exactly when neither the fields nor the scan give
      a truthy link. */
  lemma NoLinkIff(data: Json)
    requires !data.JNull?
    ensures Resolve(data).NoLink? <==>
      !Truthy(LinkCandidate(data)) && Mp4Scan.Match(Serialize(data)).None?
  {
    var c := LinkCandidate(data);
    if !Truthy(c) {
      match Mp4Scan.Match(Serialize(data))
      case Some(w) => Mp4Scan.Mp4UrlShape(w);
      case None =>
    }
  }

  /** The scheme and the suffix of the pattern need no escaping. */
  lemma EscapeHttps()
    ensures Escape("https://") == "https://"
  {
    var s := "https://";
    assert forall i | 0 <= i < |s| :: IsPlain(s[i]);
    EscapePlain(s);
  }

  lemma EscapeHttp()
    ensures Escape("http://") == "http://"
  {
    var s := "http://";
    assert forall i | 0 <= i < |s| :: IsPlain(s[i]);
    EscapePlain(s);
  }

  lemma EscapeMp4()
    ensures Escape(".mp4") == ".mp4"
  {
    var s := ".mp4";
    assert forall i | 0 <= i < |s| :: IsPlain(s[i]);
    EscapePlain(s);
  }

  /** A scheme, a body free of quotes and `.mp4` make a whole match. */
  lemma Mp4UrlOfParts(head: string, body: string)
    requires head == "https://" || head == "http://"
    requires |body| >= 1 && '"' !in body
    ensures Mp4Scan.Mp4Url(head + body + ".mp4")
  {
    var w := head + body + ".mp4";
    assert w[..|head|] == head;
    if head == "http://" {
      assert w[4] == ':';
      assert !Mp4Scan.StartsWith(w, "https://");
    }
    assert Mp4Scan.SchemeLength(w) == |head|;
    assert w[|w| - 4..] == ".mp4";
    assert w[|head|..|w| - 4] == body;
  }

  /** JSON.stringify keeps a whole match a whole match: escaping leaves the
      scheme and `.mp4` alone and adds no quote. */
  lemma EscapeKeepsMp4Url(u: string)
    requires Mp4Scan.Mp4Url(u)
    ensures Mp4Scan.Mp4Url(Escape(u))
  {
    var p := Mp4Scan.SchemeLength(u);
    var head, m, tail := u[..p], u[p..|u| - 4], u[|u| - 4..];
    assert u == head + m + tail;
    assert head == "https://" || head == "http://";
    EscapeHttps();
    EscapeHttp();
    EscapeMp4();
    EscapeAppend(head + m, tail);
    EscapeAppend(head, m);
    assert Escape(u) == head + Escape(m) + ".mp4";
    Mp4UrlOfParts(head, Escape(m));
  }

  /** A well-formed `.mp4` URL anywhere in the body, as a string value or as a
      key, is found by the scan when no earlier link was found. */
  lemma EmbeddedMp4UrlFound(data: Json, u: string)
    requires !data.JNull? && !Truthy(LinkCandidate(data))
    requires Occurs(u, data) && Mp4Scan.Mp4Url(u)
    ensures Resolve(data).Resolved?
    ensures DownloadUrl(data).Value? && DownloadUrl(data).json.JString?
    ensures Mp4Scan.Mp4Url(DownloadUrl(data).json.s)
  {
    var off := Embedded(u, data);
    EscapeKeepsMp4Url(u);
    Mp4Scan.MatchFindsEmbedded(Serialize(data), Escape(u), off);
    ScanHitResolves(data);
  }

  /** A match of the scan, taken when no earlier link was found, is a truthy
      link, so the outcome is a card. */
  lemma ScanHitResolves(data: Json)
    requires !data.JNull? && !Truthy(LinkCandidate(data))
    requires Mp4Scan.Match(Serialize(data)).Some?
    ensures DownloadUrl(data) == Value(JString(Mp4Scan.Match(Serialize(data)).value))
    ensures Mp4Scan.Mp4Url(DownloadUrl(data).json.s)
    ensures Resolve(data).Resolved?
  {
    var w := Mp4Scan.Match(Serialize(data)).value;
    Mp4Scan.Mp4UrlShape(w);
    assert w != [];
  }
}

/** handleDownload (script.js lines 45-75) without the DOM: what one click
    leaves in the message area and in the result card, and which request, if
    any, it sends. The fetch reply is a parameter. */
module HandleDownload {
  import opened Opt
  import opened Json
  import opened JsValue
  import JsString
  import UriComponent
  import opened VideoRequest
  import opened ShowResult

  const InvalidUrlMessage := "Por favor, ingresa una URL válida."
  const MissingKeyMessage := "⚠️ Falta la API Key. Por favor configura el archivo script.js (línea 16)."
  const FoundMessage := "¡Video encontrado con éxito!"
  const NotFoundMessage := "No se pudo encontrar el video. Verifica el enlace."
  const FailureMessage := "Ocurrió un error al procesar tu solicitud."

  /** The two styles showMessage gives the message area. */
  datatype Kind = Error | Success

  /** The message last shown, its style, the card rendered (if any) and the
      request sent (if any). */
  datatype Screen = Screen(message: string, kind: Kind, card: Option<Media>, sent: Option<Request>)

  /** The input passes both checks of lines 46-57 and a request is sent: it
      holds a character other than white space, and the key is not the
      placeholder. */
  predicate Sends(input: string, apiKey: string): (b: bool)
    ensures b <==> (exists k | 0 <= k < |input| :: !JsString.IsWhiteSpace(input[k]))
                   && apiKey != PlaceholderKey
  {
    JsString.TrimEmptyIff(input);
    JsString.Trim(input) != [] && apiKey != PlaceholderKey
  }

  /** handleDownload with the outcome of showResult kept: a body that yields
      no link ends with showResult's error message. */
  function HandleDownload(input: string, apiKey: string, reply: Reply): (r: Screen)
    ensures r.sent.Some? <==> Sends(input, apiKey)
    ensures r.sent.Some? ==> r.sent.value == Build(JsString.Trim(input), apiKey)
    ensures r.kind == Success <==> r.card.Some?
    ensures r.card.Some? ==> r.message == FoundMessage && Truthy(r.card.value.downloadUrl)
    ensures r.kind == Error ==>
      r.message in {InvalidUrlMessage, MissingKeyMessage, FailureMessage, NotFoundMessage, NoLinkMessage}
  {
    var url := JsString.Trim(input);
    if url == [] then Screen(InvalidUrlMessage, Error, None, None)
    else if apiKey == PlaceholderKey then Screen(MissingKeyMessage, Error, None, None)
    else
      var request := Build(url, apiKey);
      match Receive(reply)
      case Thrown(_) => Screen(FailureMessage, Error, None, Some(request))
      case Returned(data) =>
        if !Truthy(Value(data)) then Screen(NotFoundMessage, Error, None, Some(request))
        else match Resolve(data)
          case NoLink => Screen(NoLinkMessage, Error, None, Some(request))
          case Resolved(m) => Screen(FoundMessage, Success, Some(m), Some(request))
  }

  /** handleDownload as written: the success message of line 66 follows
      showResult whatever showResult did, so it replaces the error message
      showResult shows when it finds no link. */
  function HandleDownloadAsWritten(input: string, apiKey: string, reply: Reply): (r: Screen)
    ensures r.sent.Some? <==> Sends(input, apiKey)
    ensures r.kind == Success ==> r.message == FoundMessage
  {
    var url := JsString.Trim(input);
    if url == [] then Screen(InvalidUrlMessage, Error, None, None)
    else if apiKey == PlaceholderKey then Screen(MissingKeyMessage, Error, None, None)
    else
      var request := Build(url, apiKey);
      match Receive(reply)
      case Thrown(_) => Screen(FailureMessage, Error, None, Some(request))
      case Returned(data) =>
        if !Truthy(Value(data)) then Screen(NotFoundMessage, Error, None, Some(request))
        else
          var card := match Resolve(data) case NoLink => None case Resolved(m) => Some(m);
          Screen(FoundMessage, Success, card, Some(request))
  }

  /** An empty or all-blank input is refused before anything else, whatever the
      key and the reply. */
  lemma BlankInputRefused(input: string, apiKey: string, reply: Reply)
    requires forall k | 0 <= k < |input| :: JsString.IsWhiteSpace(input[k])
    ensures HandleDownload(input, apiKey, reply) == Screen(InvalidUrlMessage, Error, None, None)
  {
    JsString.TrimEmptyIff(input);
  }

  /** With the placeholder key still in place no request is ever sent: the
      user sees one of the two pre-check messages. */
  lemma PlaceholderKeyNeverSends(input: string, reply: Reply)
    ensures var r := HandleDownload(input, PlaceholderKey, reply);
      r.sent.None? && r.kind == Error && r.card.None?
      && (r.message == InvalidUrlMessage <==> JsString.Trim(input) == [])
      && (r.message == MissingKeyMessage <==> JsString.Trim(input) != [])
  {
  }

  /** The request sent carries the trimmed input, read back from the query
      string, and the key, in a GET with the two RapidAPI headers. */
  lemma SentRequestCarriesInput(input: string, apiKey: string, reply: Reply)
    requires Sends(input, apiKey)
    ensures var q := HandleDownload(input, apiKey, reply).sent.value;
      && q.verb == "GET"
      && HeaderValue(q.headers, "X-RapidAPI-Key") == Some(apiKey)
      && HeaderValue(q.headers, "X-RapidAPI-Host") == Some(ApiHost)
      && q.url == ApiUrl + "?url=" + UriComponent.Encode(JsString.Trim(input))
      && ReadUrlParameter(q.url) == Some((ApiUrl, JsString.Trim(input)))
  {
    BuildReadsBack(JsString.Trim(input), apiKey);
  }

  /** Any failed fetch, refused status or unreadable body ends with the generic
      message: the authorisation and server messages never reach the user. */
  lemma FailuresShowGenericMessage(input: string, apiKey: string, reply: Reply)
    requires Sends(input, apiKey) && Receive(reply).Thrown?
    ensures HandleDownload(input, apiKey, reply).message == FailureMessage
    ensures HandleDownload(input, apiKey, reply).message != AuthorizationMessage
  {
  }

  /** An ok reply whose body is falsy (null, false, 0 or "") is reported as a
      video not found. */
  lemma FalsyBodyNotFound(input: string, apiKey: string, status: nat, data: Json)
    requires Sends(input, apiKey) && IsOk(status) && !Truthy(Value(data))
    ensures HandleDownload(input, apiKey, Response(status, Parsed(data))) ==
      Screen(NotFoundMessage, Error, None, Some(Build(JsString.Trim(input), apiKey)))
  {
  }

  /** An ok reply with a truthy body succeeds exactly when showResult finds a
      link, and the card then shows what showResult computed. */
  lemma TruthyBodyOutcome(input: string, apiKey: string, status: nat, data: Json)
    requires Sends(input, apiKey) && IsOk(status) && Truthy(Value(data))
    ensures var r := HandleDownload(input, apiKey, Response(status, Parsed(data)));
      && (r.kind == Success <==> Resolve(data).Resolved?)
      && (r.kind == Success ==> r.card == Some(Media(Title(data), Thumbnail(data), DownloadUrl(data))))
      && (r.kind == Error ==> r.message == NoLinkMessage)
  {
  }

  /** As written, a truthy body without a link is reported as a success with no
      card; the corrected handler reports the missing link instead. */
  lemma AsWrittenHidesMissingLink(input: string, apiKey: string, status: nat, data: Json)
    requires Sends(input, apiKey) && IsOk(status) && Truthy(Value(data))
    requires Resolve(data).NoLink?
    ensures var r := HandleDownloadAsWritten(input, apiKey, Response(status, Parsed(data)));
      r.kind == Success && r.message == FoundMessage && r.card.None?
    ensures HandleDownload(input, apiKey, Response(status, Parsed(data))).message == NoLinkMessage
  {
  }

  /** A body with an empty `links` array and no other text holding `h` gives no
      link, so it triggers the discrepancy. */
  lemma EmptyLinksBodyHasNoLink()
    ensures Resolve(JObject([Field("links", JArray([]))])).NoLink?
  {
    var data := JObject([Field("links", JArray([]))]);
    EmptyLinksShadowUrl(data);
    EmptyLinksText();
    NoMatchWithoutH(Serialize(data));
    NoLinkIff(data);
  }

  lemma EmptyLinksText()
    ensures 'h' !in Serialize(JObject([Field("links", JArray([]))]))
  {
    EmptyLinksSerialized();
    EmptyLinksLiteral();
  }

  lemma EmptyLinksLiteral()
    ensures 'h' !in "{\"links\":[]}"
  {
    var t: string := "{\"links\":[]}";
    assert forall i | 0 <= i < |t| :: t[i] != 'h';
  }

  lemma EmptyLinksSerialized()
    ensures Serialize(JObject([Field("links", JArray([]))])) == "{\"links\":[]}"
  {
    var f := Field("links", JArray([]));
    EmptyLinksField();
    assert SerializeFields([f]) == SerializeField(f);
    assert Serialize(JObject([f])) == "{" + ("\"links\"" + ":" + "[]") + "}";
    EmptyLinksJoin();
  }

  lemma EmptyLinksJoin()
    ensures "{" + ("\"links\"" + ":" + "[]") + "}" == "{\"links\":[]}"
  {
  }

  lemma EmptyLinksField()
    ensures SerializeField(Field("links", JArray([]))) == "\"links\"" + ":" + "[]"
  {
    QuotedLinks();
    assert Serialize(JArray([])) == "[]";
  }

  lemma QuotedLinks()
    ensures Quote("links") == "\"links\""
  {
    var key := "links";
    assert forall i | 0 <= i < |key| :: IsPlain(key[i]);
    EscapePlain(key);
  }

  /** Every match starts with `h`, so text without one has no match. */
  lemma NoMatchWithoutH(t: string)
    requires 'h' !in t
    ensures Mp4Scan.Match(t).None?
  {
    if Mp4Scan.Match(t).Some? {
      var i, e := Mp4Scan.MatchIsLeftmostLongest(t);
      MatchStartsWithH(t, i, e);
    }
  }

  lemma MatchStartsWithH(t: string, i: int, e: int)
    requires Mp4Scan.IsMatch(t, i, e)
    ensures i < |t| && t[i] == 'h'
  {
    var w := t[i..e];
    Mp4Scan.Mp4UrlShape(w);
    assert w[0] == 'h';
  }

  /** The concrete case: key set, a video URL typed, status 200 and the body
      `{"links":[]}`; as written the screen says the video was found. */
  lemma EmptyLinksShownAsSuccess(apiKey: string)
    requires apiKey != PlaceholderKey
    ensures var reply := Response(200, Parsed(JObject([Field("links", JArray([]))])));
      && HandleDownloadAsWritten("https://example.com/v", apiKey, reply).message == FoundMessage
      && HandleDownload("https://example.com/v", apiKey, reply).message == NoLinkMessage
  {
    var input := "https://example.com/v";
    assert !JsString.IsWhiteSpace(input[0]);
    assert JsString.Trim(input) != [] by {
      JsString.TrimEmptyIff(input);
    }
    EmptyLinksBodyHasNoLink();
    AsWrittenHidesMissingLink(input, apiKey, 200, JObject([Field("links", JArray([]))]));
  }

  /** Apart from that one case the two handlers agree. */
  lemma AsWrittenAgreesOtherwise(input: string, apiKey: string, reply: Reply)
    requires !(Sends(input, apiKey) && Receive(reply).Returned?
               && Truthy(Value(Receive(reply).data)) && Resolve(Receive(reply).data).NoLink?)
    ensures HandleDownloadAsWritten(input, apiKey, reply) == HandleDownload(input, apiKey, reply)
  {
  }
}

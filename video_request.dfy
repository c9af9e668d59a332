/** fetchVideoData: the GET request it describes for a video URL, and what it
    makes of the reply (script.js lines 78-110). The transport, fetch itself,
    and response.json() are outside the model: their outcome is an input. */
module VideoRequest {
  import opened Opt
  import opened Json
  import Decimal
  import UriComponent

  /** The key the file ships with, which the user is asked to replace. */
  const PlaceholderKey := "YOUR_RAPIDAPI_KEY_HERE"
  const ApiHost := "social-media-video-downloader.p.rapidapi.com"
  const ApiUrl := "https://" + ApiHost + "/smvd/get/all"

  datatype Header = Header(name: string, value: string)

  /** What `fetch(queryUrl, options)` is asked to send. */
  datatype Request = Request(verb: string, url: string, headers: seq<Header>)

  /** The request for `videoUrl`: a GET of the endpoint with the video URL as
      the single query parameter `url`, and the two gateway headers. */
  function Build(videoUrl: string, apiKey: string): (r: Request)
    ensures r.verb == "GET" && |r.headers| == 2
    ensures HeaderValue(r.headers, "X-RapidAPI-Key") == Some(apiKey)
    ensures HeaderValue(r.headers, "X-RapidAPI-Host") == Some(ApiHost)
    ensures r.url == ApiUrl + "?url=" + UriComponent.Encode(videoUrl)
    ensures |r.url| >= |ApiUrl| + 5 && r.url[..|ApiUrl| + 5] == ApiUrl + "?url="
    ensures UriComponent.Decode(r.url[|ApiUrl| + 5..]) == Some(videoUrl)
  {
    UriComponent.DecodeEncode(videoUrl);
    var url := ApiUrl + "?url=" + UriComponent.Encode(videoUrl);
    assert url[|ApiUrl| + 5..] == UriComponent.Encode(videoUrl);
    Request("GET", url, [Header("X-RapidAPI-Key", apiKey), Header("X-RapidAPI-Host", ApiHost)])
  }

  /** The value of the first header called `name`. */
  function HeaderValue(headers: seq<Header>, name: string): (r: Option<string>)
    ensures r.None? <==> forall k | 0 <= k < |headers| :: headers[k].name != name
    ensures r.Some? ==> exists k | 0 <= k < |headers| :: headers[k] == Header(name, r.value)
  {
    if headers == [] then None
    else if headers[0].name == name then Some(headers[0].value)
    else HeaderValue(headers[1..], name)
  }

  /** The position of the first `c` in `s`, or |s|. */
  function IndexOf(s: string, c: char): (k: nat)
    ensures k <= |s| && c !in s[..k]
    ensures k < |s| ==> s[k] == c
  {
    if s == [] then 0
    else if s[0] == c then 0
    else
      var k := IndexOf(s[1..], c);
      assert s[..k + 1] == [s[0]] + s[1..][..k];
      k + 1
  }

  /** A reader of request URLs: the part before the first `?`, and the decoded
      value of a query made of the one parameter `url` (no `&`, no fragment). */
  function ReadUrlParameter(url: string): (r: Option<(string, string)>)
  {
    var k := IndexOf(url, '?');
    if k == |url| then None
    else
      var query := url[k + 1..];
      if |query| < 4 || query[..4] != "url=" || '&' in query[4..] || '#' in query[4..] then None
      else match UriComponent.Decode(query[4..])
        case None => None
        case Some(v) => Some((url[..k], v))
  }

  lemma ApiUrlHasNoQuery()
    ensures '?' !in ApiUrl
  {
    assert '?' !in "https://";
    assert '?' !in ApiHost;
    assert '?' !in "/smvd/get/all";
  }

  lemma {:induction false} IndexOfAfter(a: string, b: string, c: char)
    requires c !in a && b != [] && b[0] == c
    ensures IndexOf(a + b, c) == |a|
    decreases |a|
  {
    if a != [] {
      assert (a + b)[1..] == a[1..] + b;
      IndexOfAfter(a[1..], b, c);
    }
  }

  /** The query of a built URL is `url=` and the encoding of the video URL. */
  lemma ReadBuiltUrl(videoUrl: string)
    ensures ReadUrlParameter(ApiUrl + "?url=" + UriComponent.Encode(videoUrl)) == Some((ApiUrl, videoUrl))
  {
    var enc := UriComponent.Encode(videoUrl);
    UriComponent.EncodeHasNoDelimiters(videoUrl);
    UriComponent.DecodeEncode(videoUrl);
    ReadQuery(enc);
  }

  /** A value without `&` and `#` behind the endpoint and `?url=` is read back
      as its decoding. */
  lemma ReadQuery(enc: string)
    requires '&' !in enc && '#' !in enc
    ensures ReadUrlParameter(ApiUrl + "?url=" + enc) ==
      match UriComponent.Decode(enc) case None => None case Some(v) => Some((ApiUrl, v))
  {
    var url := ApiUrl + "?url=" + enc;
    QueryStart(enc);
    assert ("url=" + enc)[..4] == "url=";
    assert ("url=" + enc)[4..] == enc;
  }

  /** The first `?` of a built URL ends the endpoint. */
  lemma QueryStart(enc: string)
    ensures var url := ApiUrl + "?url=" + enc;
      && IndexOf(url, '?') == |ApiUrl|
      && url[..|ApiUrl|] == ApiUrl
      && url[|ApiUrl| + 1..] == "url=" + enc
  {
    var url := ApiUrl + "?url=" + enc;
    ApiUrlHasNoQuery();
    assert url == ApiUrl + ("?" + ("url=" + enc));
    IndexOfAfter(ApiUrl, "?" + ("url=" + enc), '?');
  }

  /** The query value sent is percent-encoded text: unreserved characters and
      `%HH` triplets only, so it holds no `&`, `=`, `#`, `?`, space or `+`. */
  lemma BuildQueryIsEncoded(videoUrl: string, apiKey: string)
    ensures var q := Build(videoUrl, apiKey).url[|ApiUrl| + 5..];
      && UriComponent.PercentEncoded(q)
      && '&' !in q && '=' !in q && '#' !in q && '?' !in q && ' ' !in q && '+' !in q
  {
    var r := Build(videoUrl, apiKey);
    assert r.url[|ApiUrl| + 5..] == UriComponent.Encode(videoUrl);
    UriComponent.EncodeIsPercentEncoded(videoUrl);
    UriComponent.EncodeHasNoDelimiters(videoUrl);
  }

  /** The request is a GET carrying exactly the two gateway headers, and its URL
      reads back as the endpoint with `videoUrl` as the one parameter `url`. */
  lemma BuildReadsBack(videoUrl: string, apiKey: string)
    ensures Build(videoUrl, apiKey).verb == "GET"
    ensures |Build(videoUrl, apiKey).headers| == 2
    ensures HeaderValue(Build(videoUrl, apiKey).headers, "X-RapidAPI-Key") == Some(apiKey)
    ensures HeaderValue(Build(videoUrl, apiKey).headers, "X-RapidAPI-Host") == Some(ApiHost)
    ensures ReadUrlParameter(Build(videoUrl, apiKey).url) == Some((ApiUrl, videoUrl))
  {
    ReadBuiltUrl(videoUrl);
  }

  /** Two requests with the same key differ exactly when the video URLs do. */
  lemma BuildInjective(a: string, b: string, apiKey: string)
    requires Build(a, apiKey) == Build(b, apiKey)
    ensures a == b
  {
    BuildReadsBack(a, apiKey);
    BuildReadsBack(b, apiKey);
  }

  const AuthorizationMessage := "Error de autorización. Verifica tu API Key."
  const ServerPrefix := "Error del servidor: "

  /** response.ok: the status is in the range 200 to 299. */
  predicate IsOk(status: nat) {
    200 <= status <= 299
  }

  datatype StatusClass = Accepted | Refused(message: string)

  /** The check of script.js lines 98-103: a reply that is not ok is refused,
      with the authorisation message for 401 and 403 and the server message
      naming the status otherwise. */
  function Classify(status: nat): (r: StatusClass)
    ensures r.Accepted? <==> IsOk(status)
    ensures !IsOk(status) && (status == 401 || status == 403) ==> r == Refused(AuthorizationMessage)
  {
    if !IsOk(status) then
      if status == 401 || status == 403 then Refused(AuthorizationMessage)
      else Refused(ServerPrefix + Decimal.FromNat(status))
    else Accepted
  }

  /** The message a refused reply other than 401 and 403 carries is the prefix
      followed by the shortest decimal numeral of the status (no leading zero),
      which reads back as the status; it never reads as the authorisation
      message. */
  lemma ServerMessageNamesStatus(status: nat)
    requires !IsOk(status) && status != 401 && status != 403
    ensures Classify(status).Refused?
    ensures var m := Classify(status).message;
      |m| > |ServerPrefix| && m[..|ServerPrefix|] == ServerPrefix
      && m[|ServerPrefix|..] == Decimal.FromNat(status)
      && Decimal.Parse(m[|ServerPrefix|..]) == Some(status)
      && m != AuthorizationMessage
  {
    var m := Classify(status).message;
    assert m[|ServerPrefix|..] == Decimal.FromNat(status);
    Decimal.ParseFromNat(status);
  }

  /** What response.json() gives: the decoded value, or the error it throws. */
  datatype Body = Parsed(value: Json) | Unparsable(reason: string)

  /** What fetch settles with: a network error, or a reply. */
  datatype Reply = NetworkError(reason: string) | Response(status: nat, body: Body)

  /** How fetchVideoData settles: it returns the decoded body or throws. */
  datatype Fetched = Returned(data: Json) | Thrown(message: string)

  /** fetchVideoData after fetch has settled with `reply`. The catch clause at
      lines 107-109 rethrows, so every failure reaches the caller unchanged. */
  function Receive(reply: Reply): (r: Fetched)
    ensures r.Returned? <==> reply.Response? && IsOk(reply.status) && reply.body.Parsed?
    ensures r.Returned? ==> r.data == reply.body.value
  {
    match reply
    case NetworkError(reason) => Thrown(reason)
    case Response(status, body) =>
      match Classify(status)
      case Refused(message) => Thrown(message)
      case Accepted =>
        match body
        case Parsed(value) => Returned(value)
        case Unparsable(reason) => Thrown(reason)
  }

  /** The body is read only for a reply that is ok: any other reply settles the
      same way whatever its body. */
  lemma BodyReadOnlyWhenOk(status: nat, b1: Body, b2: Body)
    requires !IsOk(status)
    ensures Receive(Response(status, b1)) == Receive(Response(status, b2))
    ensures Receive(Response(status, b1)) == Thrown(Classify(status).message)
  {
  }

  /** 401 and 403 always throw the authorisation message, whatever the body. */
  lemma UnauthorizedAlwaysThrows(status: nat, body: Body)
    requires status == 401 || status == 403
    ensures Receive(Response(status, body)) == Thrown(AuthorizationMessage)
  {
  }
}

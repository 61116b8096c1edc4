/** The curl import undoes the raw curl export on exactly the faithful requests. */
module CurlImport {
  import opened Text
  import opened Curl
  import opened CurlTokens
  import opened CurlHeaders
  import opened CurlRoundTrip
  import opened CurlConservation

  /** What a request must be for its export to be imported unchanged. */
  ghost predicate Faithful(req: Request, validUrl: string -> bool) {
    var hs := Replayable(req.headers);
    && ValidVerb(req.verb) && req.verb[0] != '\''
    && validUrl(req.uri) && QuoteFree(req.uri) && Unbroken(req.uri)
    && DistinctNames(hs)
    && (forall i :: 0 <= i < |hs| ==> Carried(hs[i]) && QuoteFree(hs[i].0) && QuoteFree(hs[i].1))
    && QuoteFree(req.body) && Unbroken(req.body) && !StartsWith(req.body, "@")
  }

  /** The case in which the tokeniser reads every header line as it was written. */
  lemma PlainHeadersComeBack(req: Request, validUrl: string -> bool)
    requires UrlLaw(validUrl) && ValidVerb(req.verb) && req.verb[0] != '\''
    requires validUrl(req.uri) && QuoteFree(req.uri) && QuoteFreeHeaders(Replayable(req.headers))
    ensures RoundTrips(req, validUrl) <==> Faithful(req, validUrl)
  {
    VerbIsWord(req.verb);
    ParseToBody(req, validUrl);
    if QuoteFree(req.body) {
      PlainBody(req.body, BeforeBody(req));
      PlainRequestComesBack(req, validUrl);
    } else {
      QuotedBodyFails(req.body, BeforeBody(req));
    }
  }

  lemma PlainRequestComesBack(req: Request, validUrl: string -> bool)
    requires UrlLaw(validUrl) && ValidVerb(req.verb) && req.verb[0] != '\''
    requires validUrl(req.uri) && QuoteFree(req.uri) && QuoteFree(req.body)
    requires QuoteFreeHeaders(Replayable(req.headers))
    ensures GivesBack(Check(BeforeBody(req).(body := StripAt(Normalise(req.body))), validUrl), req) <==>
            Faithful(req, validUrl)
  {
    var hs := Replayable(req.headers);
    HeadersReadBack(hs);
    NormaliseFixed(req.uri);
    BodyReadBack(req.body);
    QuoteFreeAt(hs);
  }

  /** Only a valid method and a valid URL get past the final checks. */
  lemma ComesBackValid(req: Request, validUrl: string -> bool)
    ensures RoundTrips(req, validUrl) ==> ValidVerb(req.verb) && validUrl(req.uri)
  {
    var tokens := Tokens(Normalise(Trim(CurlText(req))));
    if tokens.Ok? && ParseTokens(tokens.value, validUrl).Ok? {
      CheckedIsValid(ReadOptions(tokens.value[1..], EMPTY), validUrl);
    }
  }

  lemma CheckedIsValid(done: Parsed, validUrl: string -> bool)
    ensures var r := Check(done, validUrl); r.Ok? ==> ValidVerb(r.value.verb) && validUrl(r.value.url)
  {}

  /** Exporting and importing gives back the method, URL, replayable headers and body
      exactly when the request is faithful. */
  lemma ImportInvertsExport(req: Request, validUrl: string -> bool)
    requires UrlLaw(validUrl)
    ensures RoundTrips(req, validUrl) <==> Faithful(req, validUrl)
  {
    ComesBackValid(req, validUrl);
    if ValidVerb(req.verb) && validUrl(req.uri) {
      if req.verb[0] == '\'' {
        QuotedVerbFails(req, validUrl);
      } else if !QuoteFree(req.uri) {
        VerbIsWord(req.verb);
        UrlEndsEarly(req, validUrl);
      } else if !QuoteFreeHeaders(Replayable(req.headers)) {
        QuotedHeaderFails(req, validUrl);
        QuoteFreeAt(Replayable(req.headers));
      } else {
        PlainHeadersComeBack(req, validUrl);
      }
    }
  }

  lemma QuoteFreeAt(hs: seq<Header>)
    ensures QuoteFreeHeaders(hs) <==> forall i :: 0 <= i < |hs| ==> QuoteFree(hs[i].0) && QuoteFree(hs[i].1)
  {
    assert forall i :: 0 <= i < |hs| ==> hs[i] in hs;
  }

  /** A single quote in the URL, in a header that is replayed or in the body: the request
      never comes back, whatever the rest of it. */
  lemma QuoteNeverComesBack(req: Request, validUrl: string -> bool)
    requires UrlLaw(validUrl)
    requires !QuoteFree(req.uri) || !QuoteFreeHeaders(Replayable(req.headers)) || !QuoteFree(req.body)
    ensures !RoundTrips(req, validUrl)
  {
    ImportInvertsExport(req, validUrl);
    QuoteFreeAt(Replayable(req.headers));
  }

  /** For instance: GET http://a with the header x: a'b. */
  lemma QuotedHeaderExample(validUrl: string -> bool)
    requires UrlLaw(validUrl)
    ensures !RoundTrips(Request("GET", "http://a", [("x", "a'b")], ""), validUrl)
  {
    var req := Request("GET", "http://a", [("x", "a'b")], "");
    assert !SkipsReplay("x") by {
      TrimFixed("x");
      assert Lower("x") == "x";
    }
    assert [("x", "a'b")][1..] == [] && "a'b"[1] == '\'';
    assert Replayable(req.headers) == [("x", "a'b")];
    assert Replayable(req.headers)[0].1 == "a'b";
    ImportInvertsExport(req, validUrl);
  }
}

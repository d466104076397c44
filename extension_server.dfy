/**
 * The request handler of src/extension_server.rs as a decision over one request.
 * Sending the response is abstracted into returning it; `url_matches`, which lives
 * outside this model, is the parameter `urlMatches(entryUrl, queryUrl)`.
 */
module ExtensionServer {
  import opened Wrappers
  import opened JsonModel
  import opened VaultEntry
  import Seqs

  datatype HttpMethod = Post | OtherMethod(verb: string)

  /** A request: its method and its body, None when the body is not valid JSON. */
  datatype Request = Request(verb: HttpMethod, body: Option<Json>)

  /** A response body: plain text, or a JSON value sent as its `to_string()`. */
  datatype Body = Text(text: string) | JsonText(json: Json)

  datatype Response = Response(status: nat, contentType: Option<string>, body: Body)

  /** What the handler finds when it locks the shared session. */
  datatype SharedSession =
    | Poisoned                                  // a thread panicked while holding the lock
    | NoSession                                 // the lock holds None
    | Present(openedVault: Option<VaultData>)   // a session, with the vault it holds, if any

  /** The handler gave up before responding (the body was not JSON). */
  datatype HandlerError = MalformedBody

  function ErrorStatus(message: string): Json
  {
    Obj(map["status" := Str("error"), "message" := Str(message)])
  }

  /** The entries whose url is set and matches the queried url, in vault order. */
  function Matches(entries: seq<Entry>, query: string, urlMatches: (string, string) -> bool): (r: seq<Entry>)
    ensures forall i :: 0 <= i < |r| ==> r[i] in entries && r[i].url.Some? && urlMatches(r[i].url.value, query)
    ensures forall i :: 0 <= i < |entries| && entries[i].url.Some? && urlMatches(entries[i].url.value, query) ==>
              entries[i] in r
  {
    Seqs.Retain(entries, (e: Entry) => e.url.Some? && urlMatches(e.url.value, query))
  }

  /** One match as the handler lists it. */
  function MatchJson(e: Entry): Json
  {
    Obj(map["username" := OptStr(e.username), "password" := OptStr(e.password), "url" := OptStr(e.url)])
  }

  /** No matches, one match (its credentials) or several (all, each with its url). */
  function Classify(matches: seq<Json>): Json
  {
    if |matches| == 0 then Obj(map["status" := Str("not_found")])
    else if |matches| == 1 then
      Obj(map["status" := Str("ok"), "mode" := Str("single"),
               "username" := Member(matches[0], "username"), "password" := Member(matches[0], "password")])
    else Obj(map["status" := Str("ok"), "mode" := Str("multiple"), "entries" := Arr(matches)])
  }

  /** The listed matches of a list of entries. */
  function Rendered(ms: seq<Entry>): (r: seq<Json>)
    ensures |r| == |ms| && forall i :: 0 <= i < |ms| ==> r[i] == MatchJson(ms[i])
  {
    seq(|ms|, i requires 0 <= i < |ms| => MatchJson(ms[i]))
  }

  /** What `match_entries_by_url` answers for the session's vault. */
  function MatchResponse(openedVault: Option<VaultData>, query: string, urlMatches: (string, string) -> bool): (r: Json)
    ensures openedVault.None? ==> r == ErrorStatus("No vault open")
    ensures openedVault.Some? && Matches(openedVault.value.entries, query, urlMatches) == [] ==>
              r == Obj(map["status" := Str("not_found")])
    ensures openedVault.Some? && |Matches(openedVault.value.entries, query, urlMatches)| == 1 ==>
              var e := Matches(openedVault.value.entries, query, urlMatches)[0];
              r == Obj(map["status" := Str("ok"), "mode" := Str("single"),
                           "username" := OptStr(e.username), "password" := OptStr(e.password)])
    ensures openedVault.Some? && |Matches(openedVault.value.entries, query, urlMatches)| >= 2 ==>
              r == Obj(map["status" := Str("ok"), "mode" := Str("multiple"),
                           "entries" := Arr(Rendered(Matches(openedVault.value.entries, query, urlMatches)))])
  {
    match openedVault
    case None => ErrorStatus("No vault open")
    case Some(v) => Classify(Rendered(Matches(v.entries, query, urlMatches)))
  }

  /** `match_entries_by_url`: walk the vault's entries, collecting the matches. */
  method MatchEntriesByUrl(openedVault: Option<VaultData>, query: string, urlMatches: (string, string) -> bool)
    returns (r: Json)
    ensures r == MatchResponse(openedVault, query, urlMatches)
  {
    if openedVault.None? {
      return ErrorStatus("No vault open");
    }
    var entries := openedVault.value.entries;
    ghost var keep := (e: Entry) => e.url.Some? && urlMatches(e.url.value, query);
    var matches: seq<Json> := [];
    for i := 0 to |entries|
      invariant matches == Rendered(Seqs.Retain(entries[..i], keep))
    {
      var entry := entries[i];
      Seqs.RetainAppend(entries[..i], [entry], keep);
      Seqs.RetainSingleton(entry, keep);
      assert entries[..i + 1] == entries[..i] + [entry];
      if entry.url.Some? {
        if urlMatches(entry.url.value, query) {
          matches := matches + [MatchJson(entry)];
        }
      }
    }
    assert entries[..|entries|] == entries;
    r := Classify(matches);
  }

  /**
   * `handle_request`: 405 for anything but POST; for a body that is not JSON the handler
   * returns an error before responding (what the HTTP library then sends is not modelled); 401 for a missing, non-string or wrong token; then a fill request is
   * answered from the session, and anything else is an invalid request.
   */
  function HandleRequest(req: Request, token: string, shared: SharedSession, urlMatches: (string, string) -> bool)
    : (r: Result<Response, HandlerError>)
    ensures req.verb != Post ==> r == Ok(Response(405, None, Text("Method not allowed")))
    ensures req.verb == Post && req.body.None? ==> r == Err(MalformedBody)
    ensures req.verb == Post && req.body.Some? && GetStr(req.body.value, "token") != Some(token) ==>
              r == Ok(Response(401, None, JsonText(Obj(map["error" := Str("invalid token")]))))
    ensures r.Ok? && r.value.status == 200 ==>
              req.verb == Post && req.body.Some? && GetStr(req.body.value, "token") == Some(token)
    ensures req.verb == Post && req.body.Some? && GetStr(req.body.value, "token") == Some(token) ==>
              var body := req.body.value;
              var asked := GetStr(body, "action") == Some("fill") && GetStr(body, "url").Some?;
              r.Ok? && r.value.status == 200 && r.value.contentType == Some("application/json") &&
              r.value.body == JsonText(
                if !asked then Obj(map["error" := Str("Invalid request")])
                else match shared
                  case Poisoned => ErrorStatus("Session state unavailable")
                  case NoSession => ErrorStatus("No session open")
                  case Present(v) => MatchResponse(v, GetStr(body, "url").value, urlMatches))
  {
    if req.verb != Post then Ok(Response(405, None, Text("Method not allowed")))
    else if req.body.None? then Err(MalformedBody)
    else
      var body := req.body.value;
      if GetStr(body, "token") != Some(token) then
        Ok(Response(401, None, JsonText(Obj(map["error" := Str("invalid token")]))))
      else
        var response :=
          match (GetStr(body, "action"), GetStr(body, "url"))
          case (Some("fill"), Some(url)) =>
            (match shared
             case Poisoned => ErrorStatus("Session state unavailable")
             case NoSession => ErrorStatus("No session open")
             case Present(v) => MatchResponse(v, url, urlMatches))
          case _ => Obj(map["error" := Str("Invalid request")]);
        Ok(Response(200, Some("application/json"), JsonText(response)))
  }

  /** The token check comes before the session is consulted: a bad token gets 401 whatever the session. */
  lemma TokenCheckedBeforeSession(req: Request, token: string, s1: SharedSession, s2: SharedSession,
                                  m: (string, string) -> bool)
    requires req.verb == Post && req.body.Some? && GetStr(req.body.value, "token") != Some(token)
    ensures HandleRequest(req, token, s1, m) == HandleRequest(req, token, s2, m)
    ensures HandleRequest(req, token, s1, m).value.status == 401
  {
  }
}

/** The one-time handshake of get_refresh_token.py: the authorization code
    grant of RFC 6749. It builds the authorize URL (section 4.1.1), captures
    the `code` of the redirect (section 4.1.2) with a local handler that
    serves exactly one request, and exchanges the code for a refresh token
    (section 4.1.3). */
module RefreshToken {

  import opened Python
  import opened FormEncoding
  import opened Http

  const RedirectUri := "http://127.0.0.1:3000/callback"
  const AuthorizeEndpoint := "https://accounts.spotify.com/authorize"
  const Scope := "user-read-currently-playing"

  const SuccessPage := "<h2>Done! You can close this tab.</h2>"
  const FailurePage := "<h2>Authorization failed.</h2>"
  const NoCodeMessage := "Failed to capture authorization code."
  const NoRefreshTokenMessage := "No refresh token in response."

  // ---------------------------------------------------------------------------
  // The callback handler

  /** `values[0] if values else None` for `values = parse_qs(query).get("code", [])`. */
  function CodeOfQuery(query: string, unquote: string -> string): (code: Option<string>)
    ensures code.Some? ==> code.value in QueryValues(query, "code", unquote)
  {
    var values := QueryValues(query, "code", unquote);
    if values != [] then Some(values[0]) else None
  }

  /** The code do_GET stores for a request target: the first value of a
      `code` field in the query, None when there is none, and None when
      parsing raises. */
  function CapturedCode(target: string, unquote: string -> string, isIPv6: string -> bool): (code: Option<string>)
    ensures UrlQuery(target, isIPv6).Raised? ==> code == None
    ensures code.Some? ==> code.value in QueryValues(UrlQuery(target, isIPv6).value, "code", unquote)
  {
    match UrlQuery(target, isIPv6)
    case Raised(_) => None
    case Returned(query) => CodeOfQuery(query, unquote)
  }

  /** A query segment that parse_qs turns into a non-blank `code` value. */
  predicate IsCodeSegment(seg: string, unquote: string -> string)
  {
    '=' in seg && seg[IndexOf(seg, '=') + 1..] != "" && DecodeField(seg[..IndexOf(seg, '=')], unquote) == "code"
  }

  function CodeValue(seg: string, unquote: string -> string): string
    requires '=' in seg
  {
    DecodeField(seg[IndexOf(seg, '=') + 1..], unquote)
  }

  /** Some segment carries a non-blank code. */
  ghost predicate HasCodeSegment(segs: seq<string>, unquote: string -> string)
  {
    exists i :: 0 <= i < |segs| && IsCodeSegment(segs[i], unquote)
  }

  /** Segment i is the first one that carries a non-blank code. */
  ghost predicate IsFirstCodeSegment(segs: seq<string>, i: nat, unquote: string -> string)
  {
    && i < |segs|
    && IsCodeSegment(segs[i], unquote)
    && forall j :: 0 <= j < i ==> !IsCodeSegment(segs[j], unquote)
  }

  lemma {:induction false} FirstCodeValue(segs: seq<string>, unquote: string -> string)
    ensures var values := ValuesOf(ParseSegments(segs, unquote), "code");
            && (values != [] <==> HasCodeSegment(segs, unquote))
            && (values != [] ==> exists i: nat :: IsFirstCodeSegment(segs, i, unquote) && values[0] == CodeValue(segs[i], unquote))
  {
    if segs != [] {
      FirstCodeValue(segs[1..], unquote);
      var seg := segs[0];
      var values := ValuesOf(ParseSegments(segs, unquote), "code");
      if IsCodeSegment(seg, unquote) {
        assert values != [] && values[0] == CodeValue(seg, unquote);
        assert IsFirstCodeSegment(segs, 0, unquote);
      } else {
        assert values == ValuesOf(ParseSegments(segs[1..], unquote), "code");
        if values != [] {
          var i: nat :| IsFirstCodeSegment(segs[1..], i, unquote) && values[0] == CodeValue(segs[1..][i], unquote);
          assert IsFirstCodeSegment(segs, i + 1, unquote);
        }
        assert forall i :: 1 <= i < |segs| ==> segs[i] == segs[1..][i - 1];
      }
    }
  }

  /** The code read from a query is the decoded value of its first segment
      whose name decodes to "code" and whose raw value is not blank; there
      is none exactly when no segment qualifies. */
  lemma CodeOfQueryIsFirstNonBlank(query: string, unquote: string -> string)
    ensures CodeOfQuery(query, unquote).Some? <==> HasCodeSegment(Split(query, '&'), unquote)
    ensures CodeOfQuery(query, unquote).Some? ==>
              exists i: nat :: IsFirstCodeSegment(Split(query, '&'), i, unquote) &&
                CodeOfQuery(query, unquote).value == CodeValue(Split(query, '&')[i], unquote)
  {
    var segs := Split(query, '&');
    FirstCodeValue(segs, unquote);
    assert QueryValues(query, "code", unquote) == ValuesOf(ParseSegments(segs, unquote), "code");
  }

  /** The stored code is the decoded value of the first query segment whose
      name decodes to "code" and whose raw value is not blank; there is none
      exactly when no segment qualifies or urlparse raises. */
  lemma CapturedCodeIsFirstNonBlank(target: string, unquote: string -> string, isIPv6: string -> bool)
    ensures CapturedCode(target, unquote, isIPv6).Some? <==>
              && UrlQuery(target, isIPv6).Returned?
              && HasCodeSegment(Split(UrlQuery(target, isIPv6).value, '&'), unquote)
    ensures CapturedCode(target, unquote, isIPv6).Some? ==>
              var segs := Split(UrlQuery(target, isIPv6).value, '&');
              exists i: nat :: IsFirstCodeSegment(segs, i, unquote) && CapturedCode(target, unquote, isIPv6).value == CodeValue(segs[i], unquote)
  {
    var query := UrlQuery(target, isIPv6);
    if query.Returned? {
      CodeOfQueryIsFirstNonBlank(query.value, unquote);
    }
  }

  /** An origin-form target with no query separator and no fragment. */
  predicate IsPlainPath(path: string)
  {
    path != [] && path[0] == '/' && (|path| < 2 || path[1] != '/') && '?' !in path && '#' !in path
  }

  /** A redirect such as `/callback?code=ABC123`
      stores the decoded code. */
  lemma CodeCaptured(path: string, code: string, unquote: string -> string, isIPv6: string -> bool)
    requires IsPlainPath(path) && FormSafe(code) && code != ""
    requires DecodeField("code", unquote) == "code"
    ensures CapturedCode(path + "?code=" + code, unquote, isIPv6) == Some(DecodeField(code, unquote))
  {
    var q := "code" + "=" + code;
    assert path + "?code=" + code == path + ['?'] + q;
    SingleField("code", code);
    QueryOfPath(path, q, isIPv6);
    FieldPairs("code", code, unquote);
  }

  /** A target whose only `code` is blank stores None. */
  lemma BlankCodeNotCaptured(path: string, unquote: string -> string, isIPv6: string -> bool)
    requires IsPlainPath(path)
    ensures CapturedCode(path + "?code=", unquote, isIPv6) == None
  {
    var q := "code" + "=" + "";
    assert path + "?code=" == path + ['?'] + q;
    SingleField("code", "");
    QueryOfPath(path, q, isIPv6);
    FieldPairs("code", "", unquote);
  }

  /** A target with no query stores None. */
  lemma NoQueryNotCaptured(path: string, unquote: string -> string, isIPv6: string -> bool)
    requires IsPlainPath(path)
    ensures CapturedCode(path, unquote, isIPv6) == None
  {
    PathWithoutQuery(path, isIPv6);
    assert Split("", '&') == [""];
  }

  lemma PathWithoutQuery(path: string, isIPv6: string -> bool)
    requires IsPlainPath(path)
    ensures UrlQuery(path, isIPv6) == Returned("")
  {
    assert AfterScheme(path) == path;
  }

  /** A redirect whose absolute-form target brackets a host that urlsplit
      rejects (`http://[abc]/callback?code=X`): the ValueError is caught
      and None is stored, whatever the query holds. */
  lemma RejectedHostNotCaptured(scheme: string, host: string, path: string, q: string,
                                unquote: string -> string, isIPv6: string -> bool)
    requires scheme != [] && IsAsciiLetter(scheme[0])
    requires forall k :: 0 <= k < |scheme| ==> IsSchemeChar(scheme[k])
    requires IsPlainHost(host) && '@' !in host && !BracketedHostOk(host, isIPv6)
    requires path != [] && path[0] == '/' && '?' !in path && '#' !in path
    requires '#' !in q
    ensures CapturedCode(scheme + "://[" + host + "]" + path + "?" + q, unquote, isIPv6) == None
  {
    assert scheme + "://[" + host + "]" + path + "?" + q == scheme + "://[" + host + "]" + "" + path + "?" + q;
    BracketedUrlQuery(scheme, host, "", path, q, isIPv6);
  }

  /** One name=value segment, with neither containing a separator. */
  lemma SingleField(name: string, value: string)
    requires FormSafe(name) && FormSafe(value)
    ensures Split(name + "=" + value, '&') == [name + "=" + value]
    ensures '=' in name + "=" + value && IndexOf(name + "=" + value, '=') == |name|
    ensures (name + "=" + value)[|name| + 1..] == value && (name + "=" + value)[..|name|] == name
    ensures '#' !in name + "=" + value
  {
    var seg := name + "=" + value;
    assert seg == name + ['='] + value;
    IndexOfAt(name, '=', value);
    forall k | 0 <= k < |seg|
      ensures seg[k] != '&' && seg[k] != '#'
    {
      if k < |name| {
        assert seg[k] == name[k];
      } else if k > |name| {
        assert seg[k] == value[k - |name| - 1];
      }
    }
  }

  /** parse_qsl of one name=value segment: the decoded pair, or nothing when
      the value is blank. */
  lemma FieldPairs(name: string, value: string, unquote: string -> string)
    requires FormSafe(name) && FormSafe(value)
    ensures ParseQsl(name + "=" + value, unquote) ==
              if value == "" then [] else [(DecodeField(name, unquote), DecodeField(value, unquote))]
  {
    SingleField(name, value);
    var seg := name + "=" + value;
    assert ParseSegments([seg], unquote) ==
             if value == "" then [] else [(DecodeField(name, unquote), DecodeField(value, unquote))] by {
      assert [seg][1..] == [];
    }
  }

  /** What do_GET writes back to the browser. */
  datatype CallbackReply = CallbackReply(status: int, contentType: string, page: string)

  /** The redirect listener: `RequestHandler.auth_code`, the class-level
      slot do_GET writes, together with whether the one-request server has
      already handled its request. */
  class CallbackListener {
    var authCode: Option<string>
    var handled: bool

    /** The class attribute starts as None and no request has been served. */
    constructor ()
      ensures authCode == None && !handled
    {
      authCode := None;
      handled := false;
    }

    /** RequestHandler.do_GET: parse the target, store the code (None when
        parsing raises), answer 200 with the success page exactly when the
        stored code is truthy and 400 with the failure page otherwise. */
    method DoGet(target: string, unquote: string -> string, isIPv6: string -> bool) returns (reply: CallbackReply)
      modifies this`authCode
      ensures authCode == CapturedCode(target, unquote, isIPv6)
      ensures reply.status == (if TruthyText(authCode) then 200 else 400)
      ensures reply.page == (if reply.status == 200 then SuccessPage else FailurePage)
      ensures reply.contentType == "text/html"
    {
      var query := UrlQuery(target, isIPv6);
      if query.Raised? {
        authCode := None;
      } else {
        var values := QueryValues(query.value, "code", unquote);
        authCode := if values != [] then Some(values[0]) else None;
      }
      var status := if TruthyText(authCode) then 200 else 400;
      reply := CallbackReply(status, "text/html", if TruthyText(authCode) then SuccessPage else FailurePage);
    }

    /** `server.handle_request()`: the first request is served by DoGet;
        once one has been handled the server is closed, so any later request
        is not served and leaves the stored code as it was. */
    method HandleRequest(target: string, unquote: string -> string, isIPv6: string -> bool) returns (reply: Option<CallbackReply>)
      modifies this
      ensures handled
      ensures old(handled) ==> reply == None && authCode == old(authCode)
      ensures !old(handled) ==> reply.Some? && authCode == CapturedCode(target, unquote, isIPv6)
      ensures !old(handled) ==> reply.value.status == (if TruthyText(authCode) then 200 else 400)
      ensures !old(handled) ==> reply.value.page == (if reply.value.status == 200 then SuccessPage else FailurePage)
    {
      if handled {
        reply := None;
      } else {
        var r := DoGet(target, unquote, isIPv6);
        reply := Some(r);
        handled := true;
      }
    }
  }

  // ---------------------------------------------------------------------------
  // The main flow

  /** The query of the authorize URL, in the order section 4.1.1 of RFC 6749
      lists them. */
  function AuthorizeParams(clientId: string): seq<Param>
  {
    [("response_type", "code"), ("client_id", clientId), ("scope", Scope), ("redirect_uri", RedirectUri)]
  }

  function AuthorizeUrl(clientId: string, quote: string -> string): string
  {
    AuthorizeEndpoint + "?" + UrlEncode(AuthorizeParams(clientId), quote)
  }

  /** Parsing the authorize URL gives back its four parameters in order
      (a blank client id is dropped by the decoder, as parse_qs drops it). */
  lemma AuthorizeUrlRoundTrip(clientId: string, quote: string -> string, unquote: string -> string, isIPv6: string -> bool)
    requires FormCodec(quote, unquote)
    ensures UrlQuery(AuthorizeUrl(clientId, quote), isIPv6).Returned?
    ensures var fields := ParseQsl(UrlQuery(AuthorizeUrl(clientId, quote), isIPv6).value, unquote);
            clientId != "" ==> fields == [("response_type", "code"), ("client_id", clientId), ("scope", Scope), ("redirect_uri", RedirectUri)]
    ensures var fields := ParseQsl(UrlQuery(AuthorizeUrl(clientId, quote), isIPv6).value, unquote);
            clientId == "" ==> fields == [("response_type", "code"), ("scope", Scope), ("redirect_uri", RedirectUri)]
  {
    var ps := AuthorizeParams(clientId);
    AuthorizeQuery(clientId, quote, unquote, isIPv6);
    ParseUrlEncoded(ps, quote, unquote);
    if clientId != "" {
      NonBlankKeepsFilled(ps);
    } else {
      var kept := [("response_type", "code"), ("scope", Scope), ("redirect_uri", RedirectUri)];
      assert ps == [ps[0], ps[1]] + ps[2..];
      NonBlankKeepsFilled(ps[2..]);
      assert NonBlank(ps[1..]) == NonBlank(ps[2..]);
      assert NonBlank(ps) == [ps[0]] + NonBlank(ps[1..]);
    }
  }

  /** The authorize URL's query is exactly the encoded parameter list. */
  lemma AuthorizeQuery(clientId: string, quote: string -> string, unquote: string -> string, isIPv6: string -> bool)
    requires FormCodec(quote, unquote)
    ensures UrlQuery(AuthorizeUrl(clientId, quote), isIPv6) == Returned(UrlEncode(AuthorizeParams(clientId), quote))
  {
    EncodedHasNoHash(AuthorizeParams(clientId), quote, unquote);
    AuthorizeEndpointQuery(UrlEncode(AuthorizeParams(clientId), quote), isIPv6);
  }

  /** urlparse finds q as the query of the authorize endpoint followed by "?" + q. */
  lemma AuthorizeEndpointQuery(q: string, isIPv6: string -> bool)
    requires '#' !in q
    ensures UrlQuery(AuthorizeEndpoint + "?" + q, isIPv6) == Returned(q)
  {
    AuthorizeEndpointParts();
    QueryOfUrl("https", "accounts.spotify.com", "/authorize", q, isIPv6);
  }

  /** The authorize endpoint is an https URL with a plain host and a path
      that holds neither '?' nor '#'. */
  lemma AuthorizeEndpointParts()
    ensures AuthorizeEndpoint == "https" + "://" + "accounts.spotify.com" + "/authorize"
    ensures IsAsciiLetter("https"[0]) && forall k :: 0 <= k < |"https"| ==> IsSchemeChar("https"[k])
    ensures IsPlainHost("accounts.spotify.com")
    ensures "/authorize"[0] == '/' && '?' !in "/authorize" && '#' !in "/authorize"
  {
    EndpointSplits();
    HttpsIsScheme();
    SpotifyHostIsPlain();
  }

  lemma EndpointSplits()
    ensures AuthorizeEndpoint == "https" + "://" + "accounts.spotify.com" + "/authorize"
  {
  }

  lemma HttpsIsScheme()
    ensures IsAsciiLetter("https"[0]) && forall k :: 0 <= k < |"https"| ==> IsSchemeChar("https"[k])
  {
  }

  lemma SpotifyHostIsPlain()
    ensures IsPlainHost("accounts.spotify.com")
  {
  }

  lemma {:induction false} EncodedHasNoHash(ps: seq<Param>, quote: string -> string, unquote: string -> string)
    requires FormCodec(quote, unquote)
    ensures '#' !in UrlEncode(ps, quote)
  {
    var segs := EncodePairs(ps, quote);
    forall k | 0 <= k < |segs| ensures '#' !in segs[k] {
      assert FormSafe(quote(ps[k].0)) && FormSafe(quote(ps[k].1));
    }
    JoinHasNo(segs, "&", '#');
  }

  /** The form of the token request, section 4.1.3 of RFC 6749. */
  function CodeGrantForm(code: string): seq<Param>
  {
    [("grant_type", "authorization_code"), ("code", code), ("redirect_uri", RedirectUri)]
  }

  function CodeGrantRequest(clientId: string, clientSecret: string, code: string): Request
  {
    Request("POST", TokenEndpoint, Basic(clientId, clientSecret), CodeGrantForm(code))
  }

  /** The token endpoint decodes exactly the three fields of the grant. */
  lemma CodeGrantFormDecodes(code: string, quote: string -> string, unquote: string -> string)
    requires FormCodec(quote, unquote)
    requires code != ""
    ensures ParseQsl(UrlEncode(CodeGrantForm(code), quote), unquote) ==
              [("grant_type", "authorization_code"), ("code", code), ("redirect_uri", "http://127.0.0.1:3000/callback")]
  {
    ParseUrlEncoded(CodeGrantForm(code), quote, unquote);
    NonBlankKeepsFilled(CodeGrantForm(code));
  }

  /** How the script ends. */
  datatype HandshakeEnd =
    | PrintedRefreshToken(token: Json)  // prints the token, exit status 0
    | Exited(message: string)           // SystemExit(message), exit status 1
    | Crashed(error: PyError)           // an uncaught exception

  /** `json.load(response)` and the refresh_token check; urlopen's HTTPError
      and URLError are not caught here. */
  function RefreshTokenFrom(reply: HttpReply): (end: HandshakeEnd)
    ensures end.PrintedRefreshToken? <==> reply.Response? && reply.body.Some? && HasTruthyField(reply.body.value, "refresh_token")
    ensures end.PrintedRefreshToken? ==> end.token == reply.body.value.fields["refresh_token"]
    ensures reply.Response? && reply.body.Some? && !HasTruthyField(reply.body.value, "refresh_token") ==>
              end == Exited(NoRefreshTokenMessage)
    ensures reply.ErrorStatus? ==> end == Crashed(HTTPError(reply.code))
    ensures reply.NoConnection? ==> end == Crashed(URLError)
    ensures reply.Response? && reply.body.None? ==> end == Crashed(JSONDecodeError)
  {
    match reply
    case NoConnection => Crashed(URLError)
    case ErrorStatus(code) => Crashed(HTTPError(code))
    case Response(_, body) =>
      if body.None? then Crashed(JSONDecodeError)
      else
        var info := body.value;
        if info.JObject? && Truthy(Get(info, "refresh_token")) then PrintedRefreshToken(Get(info, "refresh_token"))
        else Exited(NoRefreshTokenMessage)
  }

  /** The whole handshake: the URL opened in the browser, the reply to the
      one redirect, the token request if one was sent, and how it ended. */
  datatype Handshake = Handshake(
    authorizeUrl: string,
    callback: CallbackReply,
    tokenRequest: Option<Request>,
    end: HandshakeEnd)

  /** The `__main__` block, with the browser redirect target, the token
      endpoint's reply and the form codec as inputs. */
  method RunHandshake(clientId: string, clientSecret: string, redirectTarget: string, tokenReply: HttpReply,
                      quote: string -> string, unquote: string -> string, isIPv6: string -> bool)
    returns (run: Handshake)
    ensures run.authorizeUrl == AuthorizeUrl(clientId, quote)
    ensures run.callback.status == 200 <==> TruthyText(CapturedCode(redirectTarget, unquote, isIPv6))
    ensures run.callback.status == 400 <==> !TruthyText(CapturedCode(redirectTarget, unquote, isIPv6))
    ensures !TruthyText(CapturedCode(redirectTarget, unquote, isIPv6)) ==>
              run.tokenRequest == None && run.end == Exited(NoCodeMessage)
    ensures TruthyText(CapturedCode(redirectTarget, unquote, isIPv6)) ==>
              && run.tokenRequest == Some(CodeGrantRequest(clientId, clientSecret, CapturedCode(redirectTarget, unquote, isIPv6).value))
              && run.end == RefreshTokenFrom(tokenReply)
  {
    var url := AuthorizeUrl(clientId, quote);
    var listener := new CallbackListener();
    var reply := listener.HandleRequest(redirectTarget, unquote, isIPv6);
    var code := listener.authCode;
    if !TruthyText(code) {
      return Handshake(url, reply.value, None, Exited(NoCodeMessage));
    }
    var request := CodeGrantRequest(clientId, clientSecret, code.value);
    run := Handshake(url, reply.value, Some(request), RefreshTokenFrom(tokenReply));
  }

  /** A second request after the first is not served and does not change
      the code captured from the first. */
  method SecondRequestIgnored(first: string, second: string, unquote: string -> string, isIPv6: string -> bool)
    returns (code: Option<string>, secondReply: Option<CallbackReply>)
    ensures code == CapturedCode(first, unquote, isIPv6)
    ensures secondReply == None
  {
    var listener := new CallbackListener();
    var firstReply := listener.HandleRequest(first, unquote, isIPv6);
    secondReply := listener.HandleRequest(second, unquote, isIPv6);
    code := listener.authCode;
  }
}

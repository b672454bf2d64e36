/** The pieces of Python's `urllib.parse` the core relies on: splitting a
    request target to find its query (`urlparse(...).query`), splitting a
    query into name/value pairs (`parse_qs` with `keep_blank_values=False`),
    and building one (`urlencode`). Percent-encoding and -decoding are not
    modelled character by character: `quote` (quote_plus) and `unquote` are
    parameters, and FormCodec states the two facts about them the round trip
    needs. */
module FormEncoding {

  import opened Python

  /** One name/value pair of a form or query string. */
  type Param = (string, string)

  /** `s.replace('+', ' ')`, applied before percent-decoding a form field. */
  function PlusToSpace(s: string): (r: string)
    ensures |r| == |s|
    ensures forall k :: 0 <= k < |s| ==> r[k] == (if s[k] == '+' then ' ' else s[k])
  {
    if s == [] then [] else [if s[0] == '+' then ' ' else s[0]] + PlusToSpace(s[1..])
  }

  /** How parse_qsl decodes a name or a value. */
  function DecodeField(raw: string, unquote: string -> string): string
  {
    unquote(PlusToSpace(raw))
  }

  // ---------------------------------------------------------------------------
  // urlparse(target).query

  predicate IsAsciiLetter(c: char) { 'a' <= c <= 'z' || 'A' <= c <= 'Z' }

  /** The characters urlsplit accepts in a scheme. */
  predicate IsSchemeChar(c: char)
  {
    IsAsciiLetter(c) || '0' <= c <= '9' || c == '+' || c == '-' || c == '.'
  }

  /** urlsplit's scheme step: text before the first ':' is a scheme when it is
      non-empty, starts with a letter and holds only scheme characters. */
  function AfterScheme(url: string): (rest: string)
    ensures |rest| <= |url|
  {
    if ':' in url then
      var i := IndexOf(url, ':');
      if i > 0 && IsAsciiLetter(url[0]) && forall k :: 0 <= k < i ==> IsSchemeChar(url[k])
      then url[i + 1..] else url
    else url
  }

  /** Length of the network location that follows "//": up to the first '/', '?' or '#'. */
  function NetlocLength(s: string): (n: nat)
    ensures n <= |s|
    ensures forall k :: 0 <= k < n ==> s[k] != '/' && s[k] != '?' && s[k] != '#'
    ensures n < |s| ==> s[n] == '/' || s[n] == '?' || s[n] == '#'
  {
    if s == [] || s[0] == '/' || s[0] == '?' || s[0] == '#' then 0 else 1 + NetlocLength(s[1..])
  }

  /** The query of what is left after scheme and netloc: drop the fragment
      (from the first '#'), then take what follows the first '?'. */
  function QueryPart(u: string): (q: string)
    ensures '#' !in q
  {
    var v := if '#' in u then u[..IndexOf(u, '#')] else u;
    assert '#' !in v;
    if '?' in v then v[IndexOf(v, '?') + 1..] else ""
  }

  /** The text after the last occurrence of c (`s.rpartition(c)[2]`). */
  function AfterLast(s: string, c: char): (t: string)
    ensures c !in t
    decreases |s|
  {
    if c in s then AfterLast(s[IndexOf(s, c) + 1..], c) else s
  }

  /** `s.partition(c)[0]`: the text before the first c, or all of s. */
  function Before(s: string, c: char): string
  {
    if c in s then s[..IndexOf(s, c)] else s
  }

  /** `s.partition(c)[2]`: the text after the first c, or "". */
  function After(s: string, c: char): string
  {
    if c in s then s[IndexOf(s, c) + 1..] else ""
  }

  predicate IsHexDigitChar(c: char)
  {
    '0' <= c <= '9' || 'a' <= c <= 'f' || 'A' <= c <= 'F'
  }

  /** The number of hexadecimal digits s starts with. */
  function HexRun(s: string): (n: nat)
    ensures n <= |s|
    ensures forall k :: 0 <= k < n ==> IsHexDigitChar(s[k])
    ensures n < |s| ==> !IsHexDigitChar(s[n])
  {
    if s != [] && IsHexDigitChar(s[0]) then 1 + HexRun(s[1..]) else 0
  }

  /** `re.match(r"\Av[a-fA-F0-9]+\..+\Z", host)`: a 'v', hexadecimal digits,
      a '.', then at least one character, none of them a line break. */
  predicate IsIPvFuture(host: string)
  {
    && |host| >= 1 && host[0] == 'v'
    && var n := HexRun(host[1..]);
       && n >= 1 && n + 2 < |host| && host[n + 1] == '.'
       && '\n' !in host[n + 2..]
  }

  /** `_check_bracketed_host` does not raise: a host starting with 'v' must
      be an IPvFuture address, any other must be read by
      `ipaddress.ip_address` as an IPv6 address. `isIPv6(h)` stands for
      `ipaddress.IPv6Address(h)` accepting h; an IPv4 dotted quad, which
      ip_address reads as IPv4 and is then rejected, is never IPv6 text. */
  predicate BracketedHostOk(host: string, isIPv6: string -> bool)
  {
    if host != [] && host[0] == 'v' then IsIPvFuture(host) else isIPv6(host)
  }

  /** `_check_bracketed_netloc` does not raise: after the last '@', nothing
      may precede the '[', only a ':' port may follow the ']', and the text
      between them must pass BracketedHostOk. Without a '[' there, the text
      before the first ':' is checked instead. */
  predicate BracketedNetlocOk(netloc: string, isIPv6: string -> bool)
  {
    var hostAndPort := AfterLast(netloc, '@');
    if '[' in hostAndPort then
      var bracketed := After(hostAndPort, '[');
      var port := After(bracketed, ']');
      && Before(hostAndPort, '[') == ""
      && (port == "" || port[0] == ':')
      && BracketedHostOk(Before(bracketed, ']'), isIPv6)
    else
      BracketedHostOk(Before(hostAndPort, ':'), isIPv6)
  }

  /** `urlparse(target).query`. urlsplit raises ValueError when the network
      location holds one square bracket without the other, and when it holds
      both and fails `_check_bracketed_netloc`. The query never holds the
      fragment's '#'. */
  function UrlQuery(target: string, isIPv6: string -> bool): (r: Outcome<string>)
    ensures r.Raised? ==> r.error == ValueError
    ensures r.Returned? ==> '#' !in r.value
  {
    var rest := AfterScheme(target);
    if |rest| >= 2 && rest[..2] == "//" then
      var netloc := rest[2..2 + NetlocLength(rest[2..])];
      if ('[' in netloc) != (']' in netloc) then Raised(ValueError)
      else if '[' in netloc && !BracketedNetlocOk(netloc, isIPv6) then Raised(ValueError)
      else Returned(QueryPart(rest[2 + |netloc|..]))
    else Returned(QueryPart(rest))
  }

  // ---------------------------------------------------------------------------
  // parse_qsl(qs, keep_blank_values=False) and parse_qs(...).get(name, [])

  /** The pairs parse_qsl keeps from a list of '&'-separated segments: an
      empty segment, a segment without '=' and one whose raw value is empty
      are all skipped; name and value are split at the first '='. */
  function ParseSegments(segments: seq<string>, unquote: string -> string): seq<Param>
  {
    if segments == [] then []
    else
      var seg := segments[0];
      var rest := ParseSegments(segments[1..], unquote);
      if seg == "" then rest
      else if '=' !in seg then rest
      else
        var i := IndexOf(seg, '=');
        if seg[i + 1..] == "" then rest
        else [(DecodeField(seg[..i], unquote), DecodeField(seg[i + 1..], unquote))] + rest
  }

  function ParseQsl(qs: string, unquote: string -> string): seq<Param>
  {
    ParseSegments(Split(qs, '&'), unquote)
  }

  /** The values paired with `name`, in order of appearance: what the dict
      built by parse_qs holds under that name. */
  function ValuesOf(pairs: seq<Param>, name: string): (vs: seq<string>)
    ensures forall v :: v in vs <==> (name, v) in pairs
  {
    if pairs == [] then []
    else if pairs[0].0 == name then [pairs[0].1] + ValuesOf(pairs[1..], name)
    else ValuesOf(pairs[1..], name)
  }

  /** `parse_qs(qs, keep_blank_values=False).get(name, [])`. */
  function QueryValues(qs: string, name: string, unquote: string -> string): seq<string>
  {
    ValuesOf(ParseQsl(qs, unquote), name)
  }

  // ---------------------------------------------------------------------------
  // urlencode(params), with quote_via=quote_plus

  function EncodePair(p: Param, quote: string -> string): string
  {
    quote(p.0) + "=" + quote(p.1)
  }

  function EncodePairs(ps: seq<Param>, quote: string -> string): (segs: seq<string>)
    ensures |segs| == |ps|
    ensures forall k :: 0 <= k < |ps| ==> segs[k] == EncodePair(ps[k], quote)
  {
    if ps == [] then [] else [EncodePair(ps[0], quote)] + EncodePairs(ps[1..], quote)
  }

  function UrlEncode(ps: seq<Param>, quote: string -> string): string
  {
    Join(EncodePairs(ps, quote), "&")
  }

  /** What quote_plus produces never contains a separator of a form or URL. */
  predicate FormSafe(t: string)
  {
    '&' !in t && '=' !in t && '#' !in t
  }

  /** The facts about quote_plus/unquote the round trip rests on: the
      empty string encodes and decodes to itself, an encoding holds no
      separator, and decoding (after '+' to ' ') undoes encoding. */
  ghost predicate FormCodec(quote: string -> string, unquote: string -> string)
  {
    && quote("") == ""
    && unquote("") == ""
    && forall s :: FormSafe(quote(s)) && DecodeField(quote(s), unquote) == s
  }

  /** The pairs that survive keep_blank_values=False. */
  function NonBlank(ps: seq<Param>): seq<Param>
  {
    if ps == [] then []
    else if ps[0].1 == "" then NonBlank(ps[1..])
    else [ps[0]] + NonBlank(ps[1..])
  }

  // ---------------------------------------------------------------------------
  // Lemmas

  lemma {:induction false} NonBlankKeepsFilled(ps: seq<Param>)
    requires forall k :: 0 <= k < |ps| ==> ps[k].1 != ""
    ensures NonBlank(ps) == ps
  {
    if ps != [] {
      NonBlankKeepsFilled(ps[1..]);
    }
  }

  /** A well-formed scheme and its ':' are stripped. */
  lemma AfterSchemeOf(scheme: string, rest: string)
    requires scheme != [] && IsAsciiLetter(scheme[0])
    requires forall k :: 0 <= k < |scheme| ==> IsSchemeChar(scheme[k])
    ensures AfterScheme(scheme + [':'] + rest) == rest
  {
    assert forall k :: 0 <= k < |scheme| ==> scheme[k] != ':';
    IndexOfAt(scheme, ':', rest);
  }

  /** A host name with no character that ends or brackets a network location. */
  predicate IsPlainHost(host: string)
  {
    forall k :: 0 <= k < |host| ==> host[k] !in "/?#[]"
  }

  /** Text that urlsplit keeps inside a network location: no '/', '?' or '#'. */
  predicate InNetloc(s: string)
  {
    forall k :: 0 <= k < |s| ==> s[k] != '/' && s[k] != '?' && s[k] != '#'
  }

  lemma {:induction false} NetlocOf(netloc: string, tail: string)
    requires InNetloc(netloc)
    requires tail != [] && tail[0] == '/'
    ensures NetlocLength(netloc + tail) == |netloc|
  {
    if netloc != [] {
      assert (netloc + tail)[1..] == netloc[1..] + tail;
      assert InNetloc(netloc[1..]) by {
        forall k | 0 <= k < |netloc| - 1 ensures netloc[1..][k] == netloc[k + 1] { }
      }
      NetlocOf(netloc[1..], tail);
    }
  }

  /** urlparse of scheme://host/path?q, with no fragment, has query q. */
  lemma QueryOfUrl(scheme: string, host: string, path: string, q: string, isIPv6: string -> bool)
    requires scheme != [] && IsAsciiLetter(scheme[0])
    requires forall k :: 0 <= k < |scheme| ==> IsSchemeChar(scheme[k])
    requires IsPlainHost(host)
    requires path != [] && path[0] == '/' && '?' !in path && '#' !in path
    requires '#' !in q
    ensures UrlQuery(scheme + "://" + host + path + "?" + q, isIPv6) == Returned(q)
  {
    var tail := path + ['?'] + q;
    var rest := "//" + host + tail;
    assert scheme + "://" + host + path + "?" + q == scheme + [':'] + rest;
    AfterSchemeOf(scheme, rest);
    assert '[' !in host && ']' !in host && InNetloc(host) by {
      forall k | 0 <= k < |host| ensures host[k] != '[' && host[k] != ']' && host[k] != '/' && host[k] != '?' && host[k] != '#' {
        assert host[k] !in "/?#[]";
      }
    }
    NetlocThenTail(host, tail);
    QueryPartOf(path, q);
  }

  /** After "//", a network location ends where the path begins. */
  lemma NetlocThenTail(netloc: string, tail: string)
    requires InNetloc(netloc)
    requires tail != [] && tail[0] == '/'
    ensures var rest := "//" + netloc + tail;
            && |rest| >= 2 && rest[..2] == "//"
            && rest[2..2 + NetlocLength(rest[2..])] == netloc
            && rest[2 + |netloc|..] == tail
  {
    var rest := "//" + netloc + tail;
    assert rest[2..] == netloc + tail;
    NetlocOf(netloc, tail);
  }

  /** urlparse of scheme://netloc/path...: the network location is checked
      and the query is read from what follows it. */
  lemma UrlQueryOfNetloc(scheme: string, netloc: string, tail: string, isIPv6: string -> bool)
    requires scheme != [] && IsAsciiLetter(scheme[0])
    requires forall k :: 0 <= k < |scheme| ==> IsSchemeChar(scheme[k])
    requires InNetloc(netloc)
    requires tail != [] && tail[0] == '/'
    ensures UrlQuery(scheme + "://" + netloc + tail, isIPv6) ==
              if ('[' in netloc) != (']' in netloc) then Raised(ValueError)
              else if '[' in netloc && !BracketedNetlocOk(netloc, isIPv6) then Raised(ValueError)
              else Returned(QueryPart(tail))
  {
    var url := scheme + "://" + netloc + tail;
    var rest := "//" + netloc + tail;
    assert url == scheme + [':'] + rest;
    AfterSchemeOf(scheme, rest);
    NetlocThenTail(netloc, tail);
    assert AfterScheme(url) == rest;
    assert rest[2..2 + NetlocLength(rest[2..])] == netloc;
  }

  /** urlparse of scheme://[host]port/path?q, with no '@' and no fragment:
      the bracketed host is checked, so the query comes back exactly when
      the host passes `_check_bracketed_host`, and ValueError is raised
      otherwise. An IPv6 literal such as `[::1]` passes; `[abc]` does not. */
  lemma BracketedUrlQuery(scheme: string, host: string, port: string, path: string, q: string, isIPv6: string -> bool)
    requires scheme != [] && IsAsciiLetter(scheme[0])
    requires forall k :: 0 <= k < |scheme| ==> IsSchemeChar(scheme[k])
    requires IsPlainHost(host) && '@' !in host
    requires IsPlainHost(port) && '@' !in port && (port == "" || port[0] == ':')
    requires path != [] && path[0] == '/' && '?' !in path && '#' !in path
    requires '#' !in q
    ensures UrlQuery(scheme + "://[" + host + "]" + port + path + "?" + q, isIPv6) ==
              if BracketedHostOk(host, isIPv6) then Returned(q) else Raised(ValueError)
  {
    var netloc := "[" + host + "]" + port;
    var tail := path + ['?'] + q;
    assert scheme + "://[" + host + "]" + port + path + "?" + q == scheme + "://" + netloc + tail;
    BracketedNetlocChars(host, port);
    UrlQueryOfNetloc(scheme, netloc, tail, isIPv6);
    BracketedNetlocOf(host, port, isIPv6);
    QueryPartOf(path, q);
  }

  lemma BracketedNetlocChars(host: string, port: string)
    requires IsPlainHost(host) && IsPlainHost(port)
    ensures var netloc := "[" + host + "]" + port;
            InNetloc(netloc) && '[' in netloc && ']' in netloc
  {
    var netloc := "[" + host + "]" + port;
    assert netloc[0] == '[' && netloc[|host| + 1] == ']';
    forall k | 0 <= k < |netloc|
      ensures netloc[k] != '/' && netloc[k] != '?' && netloc[k] != '#'
    {
      if 1 <= k <= |host| {
        assert netloc[k] == host[k - 1] && host[k - 1] !in "/?#[]";
      } else if k > |host| + 1 {
        assert netloc[k] == port[k - |host| - 2] && port[k - |host| - 2] !in "/?#[]";
      }
    }
  }

  /** `_check_bracketed_netloc` on "[host]port" checks exactly the host. */
  lemma BracketedNetlocOf(host: string, port: string, isIPv6: string -> bool)
    requires IsPlainHost(host) && '@' !in host
    requires '@' !in port && (port == "" || port[0] == ':')
    ensures BracketedNetlocOk("[" + host + "]" + port, isIPv6) == BracketedHostOk(host, isIPv6)
  {
    var netloc := "[" + host + "]" + port;
    assert '@' !in netloc by {
      forall k | 0 <= k < |netloc| ensures netloc[k] != '@' {
        if 1 <= k <= |host| { assert netloc[k] == host[k - 1]; }
        else if k > |host| + 1 { assert netloc[k] == port[k - |host| - 2]; }
      }
    }
    assert AfterLast(netloc, '@') == netloc;
    assert ']' !in host by {
      forall k | 0 <= k < |host| ensures host[k] != ']' { assert host[k] !in "/?#[]"; }
    }
    IndexOfAt([], '[', host + "]" + port);
    assert netloc == [] + ['['] + (host + "]" + port);
    IndexOfAt(host, ']', port);
    assert host + "]" + port == host + [']'] + port;
  }

  /** urlparse of an origin-form target /path?q, with no fragment, has query q. */
  lemma QueryOfPath(path: string, q: string, isIPv6: string -> bool)
    requires path != [] && path[0] == '/' && (|path| < 2 || path[1] != '/')
    requires '?' !in path && '#' !in path && '#' !in q
    ensures UrlQuery(path + ['?'] + q, isIPv6) == Returned(q)
  {
    var url := path + ['?'] + q;
    NoSchemeBeforeSlash(url);
    assert !(|url| >= 2 && url[..2] == "//") by {
      if |url| >= 2 {
        assert url[1] == (if |path| >= 2 then path[1] else '?');
        assert url[..2][1] == url[1];
      }
    }
    QueryPartOf(path, q);
  }

  /** A target that starts with '/' has no scheme. */
  lemma NoSchemeBeforeSlash(url: string)
    requires url != [] && url[0] == '/'
    ensures AfterScheme(url) == url
  {
    assert !IsAsciiLetter(url[0]);
  }

  lemma QueryPartOf(path: string, q: string)
    requires '?' !in path && '#' !in path && '#' !in q
    ensures QueryPart(path + ['?'] + q) == q
  {
    var u := path + ['?'] + q;
    assert '#' !in u by {
      forall k | 0 <= k < |u| ensures u[k] != '#' {
        if k < |path| { assert u[k] == path[k]; }
        else if k > |path| { assert u[k] == q[k - |path| - 1]; }
      }
    }
    IndexOfAt(path, '?', q);
  }

  /** Encoded pairs parse back to the pairs whose value is not blank. */
  lemma {:induction false} ParseEncodedSegments(ps: seq<Param>, quote: string -> string, unquote: string -> string)
    requires FormCodec(quote, unquote)
    ensures ParseSegments(EncodePairs(ps, quote), unquote) == NonBlank(ps)
  {
    if ps != [] {
      var segs := EncodePairs(ps, quote);
      assert segs[1..] == EncodePairs(ps[1..], quote);
      ParseEncodedSegments(ps[1..], quote, unquote);
      var (k, v) := ps[0];
      assert FormSafe(quote(k)) && FormSafe(quote(v));
      IndexOfAt(quote(k), '=', quote(v));
      assert segs[0] == quote(k) + ['='] + quote(v);
      assert PlusToSpace("") == "";
      assert DecodeField(quote(v), unquote) == v;
    }
  }

  /** `urlencode` writes one `quote(name)=quote(value)` segment per pair,
      joined by '&': splitting at '&' gives them back, one per pair. */
  lemma EncodedSegments(ps: seq<Param>, quote: string -> string, unquote: string -> string)
    requires FormCodec(quote, unquote) && ps != []
    ensures Split(UrlEncode(ps, quote), '&') == EncodePairs(ps, quote)
    ensures forall k :: 0 <= k < |ps| ==> EncodePairs(ps, quote)[k] == quote(ps[k].0) + "=" + quote(ps[k].1)
  {
    var segs := EncodePairs(ps, quote);
    forall k | 0 <= k < |segs| ensures '&' !in segs[k] {
      assert FormSafe(quote(ps[k].0)) && FormSafe(quote(ps[k].1));
    }
    SplitJoin(segs, '&');
  }

  /** `parse_qsl(urlencode(ps))` returns ps without its blank-valued pairs:
      the form round trip, under FormCodec. */
  lemma {:induction false} ParseUrlEncoded(ps: seq<Param>, quote: string -> string, unquote: string -> string)
    requires FormCodec(quote, unquote)
    ensures ParseQsl(UrlEncode(ps, quote), unquote) == NonBlank(ps)
  {
    ParseEncodedSegments(ps, quote, unquote);
    if ps == [] {
      assert Split("", '&') == [""];
    } else {
      EncodedSegments(ps, quote, unquote);
    }
  }

  lemma {:induction false} ParseSegmentsAppend(a: seq<string>, b: seq<string>, unquote: string -> string)
    ensures ParseSegments(a + b, unquote) == ParseSegments(a, unquote) + ParseSegments(b, unquote)
  {
    if a == [] {
      assert a + b == b;
    } else {
      assert (a + b)[0] == a[0] && (a + b)[1..] == a[1..] + b;
      ParseSegmentsAppend(a[1..], b, unquote);
    }
  }

  /** parse_qsl reads the segments on either side of an '&' independently:
      the pairs of `a&b` are those of a followed by those of b. */
  lemma ParseQslConcat(a: string, b: string, unquote: string -> string)
    ensures ParseQsl(a + "&" + b, unquote) == ParseQsl(a, unquote) + ParseQsl(b, unquote)
  {
    assert a + "&" + b == a + ['&'] + b;
    SplitAt(a, b, '&');
    ParseSegmentsAppend(Split(a, '&'), Split(b, '&'), unquote);
  }
}

/** The session flow of utils/spotify_current_song.py: exchange the stored
    refresh token for an access token (section 6 of RFC 6749), then ask the
    currently-playing endpoint and pick the URL of the narrowest album image.
    Both replies are inputs; the functions decide what Python returns or
    raises, and which requests were sent. */
module CurrentSong {

  import opened Python
  import opened FormEncoding
  import opened Http

  /** The four values read from env.toml at import time. */
  datatype Config = Config(clientId: string, clientSecret: string, redirectUri: string, refreshToken: string)

  const CurrentlyPlayingEndpoint := "https://api.spotify.com/v1/me/player/currently-playing"

  /** The refresh-token grant sent by get_access_token. */
  function RefreshRequest(cfg: Config): Request
  {
    Request("POST", TokenEndpoint, Basic(cfg.clientId, cfg.clientSecret),
            [("grant_type", "refresh_token"), ("refresh_token", cfg.refreshToken)])
  }

  /** The token endpoint sees exactly the two fields of section 6 of RFC 6749
      once the form is encoded and decoded (a blank refresh token is dropped
      by the decoder). */
  lemma RefreshFormDecodes(cfg: Config, quote: string -> string, unquote: string -> string)
    requires FormCodec(quote, unquote)
    ensures var fields := ParseQsl(UrlEncode(RefreshRequest(cfg).form, quote), unquote);
            fields == [("grant_type", "refresh_token")] +
                      (if cfg.refreshToken != "" then [("refresh_token", cfg.refreshToken)] else [])
  {
    var form := RefreshRequest(cfg).form;
    ParseUrlEncoded(form, quote, unquote);
    assert form[1..][1..] == [];
    assert NonBlank(form) == [form[0]] + NonBlank(form[1..]);
  }

  /** get_access_token, from the reply of the token endpoint: None on an HTTP
      error or a status other than 200, the `access_token` field when the body
      is a dict in which it is truthy, None otherwise; a transport failure or
      a 200 body that is not JSON raises. */
  function AccessTokenFrom(reply: HttpReply): (r: Outcome<Option<Json>>)
    ensures reply.ErrorStatus? ==> r == Returned(None)
    ensures reply.Response? && reply.status != 200 ==> r == Returned(None)
    ensures r.Raised? <==> reply.NoConnection? || (reply.Response? && reply.status == 200 && reply.body.None?)
    ensures (r.Returned? && r.value.Some?) <==>
              reply.Response? && reply.status == 200 && reply.body.Some? && HasTruthyField(reply.body.value, "access_token")
    ensures r.Returned? && r.value.Some? ==>
              Truthy(r.value.value) && r.value.value == reply.body.value.fields["access_token"]
  {
    match reply
    case NoConnection => Raised(URLError)
    case ErrorStatus(_) => Returned(None)
    case Response(status, body) =>
      if status != 200 then Returned(None)
      else if body.None? then Raised(JSONDecodeError)
      else
        var info := body.value;
        if info.JObject? && Truthy(Get(info, "access_token")) then Returned(Some(Get(info, "access_token")))
        else Returned(None)
  }

  // ---------------------------------------------------------------------------
  // min(images, key=lambda img: img.get("width", float("inf")))

  /** A key as Python compares it: a number (bool counts as 0 or 1), the
      float infinity given for a missing width, a string, or a value that
      supports no ordering here. */
  datatype SortKey = Num(x: real) | Inf | Str(s: string) | Unordered

  function KeyOf(v: Json): SortKey
  {
    match v
    case JNum(n) => Num(n)
    case JBool(b) => Num(if b then 1.0 else 0.0)
    case JString(s) => Str(s)
    case _ => Unordered
  }

  /** The key function: `.get` fails on anything but a dict. */
  function WidthKey(img: Json): (r: Outcome<SortKey>)
    ensures r.Returned? <==> img.JObject?
    ensures !img.JObject? ==> r == Raised(AttributeError)
    ensures img.JObject? && "width" !in img.fields ==> r == Returned(Inf)
    ensures img.JObject? && "width" in img.fields ==> r == Returned(KeyOf(img.fields["width"]))
  {
    if !img.JObject? then Raised(AttributeError)
    else if "width" in img.fields then Returned(KeyOf(img.fields["width"]))
    else Returned(Inf)
  }

  /** Python's `a < b` on strings: lexicographic by code point. */
  predicate StrLess(a: string, b: string)
  {
    if a == [] then b != []
    else if b == [] then false
    else if a[0] != b[0] then a[0] < b[0]
    else StrLess(a[1..], b[1..])
  }

  /** Python's `a < b` on two keys; mixing kinds other than number and
      infinity raises TypeError. */
  function KeyLess(a: SortKey, b: SortKey): Outcome<bool>
  {
    match (a, b)
    case (Num(x), Num(y)) => Returned(x < y)
    case (Num(_), Inf) => Returned(true)
    case (Inf, Num(_)) => Returned(false)
    case (Inf, Inf) => Returned(false)
    case (Str(s), Str(t)) => Returned(StrLess(s, t))
    case _ => Raised(TypeError)
  }

  lemma {:induction false} StrLessTransitive(a: string, b: string, c: string)
    requires StrLess(a, b) && StrLess(b, c)
    ensures StrLess(a, c)
    decreases |a|
  {
    if a != [] && a[0] == b[0] && b[0] == c[0] {
      StrLessTransitive(a[1..], b[1..], c[1..]);
    }
  }

  lemma {:induction false} StrLessTotal(a: string, b: string)
    ensures !(StrLess(a, b) && StrLess(b, a))
    ensures a != b ==> StrLess(a, b) || StrLess(b, a)
    decreases |a|
  {
    if a != [] && b != [] && a[0] == b[0] {
      StrLessTotal(a[1..], b[1..]);
      assert a == [a[0]] + a[1..] && b == [b[0]] + b[1..];
    }
  }

  /** Python's `<` on the keys min() compares is a strict total order
      wherever it does not raise: never k < k, never both a < b and b < a,
      transitive, and two keys neither of which is below the other are
      equal. A missing width sits above every number. */
  lemma KeyLessStrictOrder(a: SortKey, b: SortKey, c: SortKey)
    ensures KeyLess(a, a) != Returned(true)
    ensures KeyLess(a, b) == Returned(true) ==> KeyLess(b, a) == Returned(false)
    ensures KeyLess(a, b) == Returned(true) && KeyLess(b, c) == Returned(true) ==> KeyLess(a, c) == Returned(true)
    ensures KeyLess(a, b) == Returned(false) && KeyLess(b, a) == Returned(false) ==> a == b
  {
    if a.Str? && b.Str? {
      StrLessTotal(a.s, b.s);
      StrLessTotal(a.s, a.s);
      if c.Str? && StrLess(a.s, b.s) && StrLess(b.s, c.s) {
        StrLessTransitive(a.s, b.s, c.s);
      }
    } else if a.Str? {
      StrLessTotal(a.s, a.s);
    }
  }

  /** The element min() keeps and its key. */
  datatype Best = Best(index: nat, key: SortKey)

  /** `min(images, key=...)` as CPython runs it: compute the key of each
      element in turn and replace the kept one only when the new key is
      strictly smaller, so ties keep the earlier element. */
  function Smallest(images: seq<Json>): (r: Outcome<Best>)
    requires images != []
    ensures r.Returned? ==> r.value.index < |images| && WidthKey(images[r.value.index]) == Returned(r.value.key)
    decreases |images|
  {
    var n := |images|;
    if n == 1 then
      match WidthKey(images[0])
      case Raised(e) => Raised(e)
      case Returned(k) => Returned(Best(0, k))
    else
      match Smallest(images[..n - 1])
      case Raised(e) => Raised(e)
      case Returned(best) =>
        match WidthKey(images[n - 1])
        case Raised(e) => Raised(e)
        case Returned(k) =>
          match KeyLess(k, best.key)
          case Raised(e) => Raised(e)
          case Returned(less) => Returned(if less then Best(n - 1, k) else best)
  }

  /** A width that is present is a number; an absent one is None, read as +infinity. */
  function Width(img: Json): Option<real>
  {
    if img.JObject? && "width" in img.fields then
      match img.fields["width"]
      case JNum(n) => Some(n)
      case JBool(b) => Some(if b then 1.0 else 0.0)
      case _ => None
    else None
  }

  /** Every element is a dict whose width, if present, is a number. */
  predicate NumericWidths(images: seq<Json>)
  {
    forall i :: 0 <= i < |images| ==>
      images[i].JObject? &&
      ("width" in images[i].fields ==> images[i].fields["width"].JNum? || images[i].fields["width"].JBool?)
  }

  /** a <= b where None stands above every number. */
  predicate AtMost(a: Option<real>, b: Option<real>)
  {
    b.None? || (a.Some? && a.value <= b.value)
  }

  /** Index k holds a narrowest image and no earlier image is as narrow. */
  ghost predicate IsFirstNarrowest(images: seq<Json>, k: nat)
  {
    && k < |images|
    && (forall j :: 0 <= j < |images| ==> AtMost(Width(images[k]), Width(images[j])))
    && (forall j :: 0 <= j < k ==> !AtMost(Width(images[j]), Width(images[k])))
  }

  function AsKey(w: Option<real>): SortKey
  {
    if w.Some? then Num(w.value) else Inf
  }

  lemma WidthKeyIsWidth(img: Json)
    requires NumericWidths([img])
    ensures WidthKey(img) == Returned(AsKey(Width(img)))
  {
    assert [img][0] == img;
  }

  lemma KeyLessIsStrict(a: Option<real>, b: Option<real>)
    ensures KeyLess(AsKey(a), AsKey(b)) == Returned(!AtMost(b, a))
  {
  }

  /** For dicts with numeric or missing widths, min() succeeds and picks the
      first element of least width; a width-less image wins only when no
      image has a width. */
  lemma SmallestIsFirstNarrowest(images: seq<Json>)
    requires images != [] && NumericWidths(images)
    ensures Smallest(images).Returned?
    ensures IsFirstNarrowest(images, Smallest(images).value.index)
    ensures Width(images[Smallest(images).value.index]).None? ==> forall j :: 0 <= j < |images| ==> Width(images[j]).None?
  {
    SmallestFindsFirstNarrowest(images);
    var k := Smallest(images).value.index;
    assert forall j :: 0 <= j < |images| ==> AtMost(Width(images[k]), Width(images[j]));
  }

  lemma {:induction false} SmallestFindsFirstNarrowest(images: seq<Json>)
    requires images != [] && NumericWidths(images)
    ensures Smallest(images).Returned?
    ensures IsFirstNarrowest(images, Smallest(images).value.index)
    decreases |images|
  {
    var n := |images|;
    if n == 1 {
      WidthKeyIsWidth(images[0]);
    } else {
      var prefix := images[..n - 1];
      assert NumericWidths(prefix) by {
        forall i | 0 <= i < |prefix| ensures prefix[i] == images[i] { }
      }
      SmallestFindsFirstNarrowest(prefix);
      var k := Smallest(prefix).value.index;
      assert prefix[k] == images[k];
      assert NumericWidths([images[k]]) && NumericWidths([images[n - 1]]) by {
        assert [images[k]][0] == images[k] && [images[n - 1]][0] == images[n - 1];
      }
      WidthKeyIsWidth(images[k]);
      WidthKeyIsWidth(images[n - 1]);
      KeyLessIsStrict(Width(images[n - 1]), Width(images[k]));
      ExtendFirstNarrowest(images, k);
    }
  }

  /** Appending one image to a list whose first narrowest image is k: the new
      image becomes the first narrowest exactly when it is strictly narrower. */
  lemma ExtendFirstNarrowest(images: seq<Json>, k: nat)
    requires |images| >= 2 && IsFirstNarrowest(images[..|images| - 1], k)
    ensures var last := |images| - 1;
            IsFirstNarrowest(images, if !AtMost(Width(images[k]), Width(images[last])) then last else k)
  {
    var last := |images| - 1;
    assert forall j :: 0 <= j < last ==> images[..last][j] == images[j];
  }

  /** min() only succeeds when every element is a dict: the key is computed
      for each of them. */
  lemma {:induction false} SmallestNeedsDicts(images: seq<Json>)
    requires images != []
    ensures Smallest(images).Returned? ==> forall i :: 0 <= i < |images| ==> images[i].JObject?
    decreases |images|
  {
    var n := |images|;
    if n > 1 {
      SmallestNeedsDicts(images[..n - 1]);
      assert forall i :: 0 <= i < n - 1 ==> images[..n - 1][i] == images[i];
    }
  }

  /** `min(images, key=...)["url"]` for a non-empty list: the exception of
      min(), or KeyError when the chosen image has no `url`. */
  function SmallestImageUrl(images: seq<Json>): (r: Outcome<Option<Json>>)
    requires images != []
    ensures r.Returned? ==> r.value.Some?
    ensures Smallest(images).Raised? ==> r == Raised(Smallest(images).error)
    ensures Smallest(images).Returned? ==>
              var chosen := images[Smallest(images).value.index];
              && chosen.JObject?
              && (r.Returned? <==> "url" in chosen.fields)
              && (r.Returned? ==> r.value.value == chosen.fields["url"])
              && (r.Raised? ==> r.error == KeyError("url"))
  {
    match Smallest(images)
    case Raised(e) => Raised(e)
    case Returned(best) =>
      var img := images[best.index];
      if "url" in img.fields then Returned(Some(img.fields["url"])) else Raised(KeyError("url"))
  }

  /** `current_track["item"]["album"]["images"]`, with a missing key, a
      subscript of a non-dict, or a result that is not a list all giving []. */
  function AlbumImages(track: Json): (images: seq<Json>)
    ensures images != [] ==>
              && Subscript(track, "item").Some?
              && Subscript(Subscript(track, "item").value, "album").Some?
              && Subscript(Subscript(track, "item").value, "album").value.JObject?
              && Subscript(Subscript(track, "item").value, "album").value.fields.Keys >= {"images"}
              && Subscript(Subscript(track, "item").value, "album").value.fields["images"] == JArray(images)
    ensures var item := Subscript(track, "item");
            var album := if item.Some? then Subscript(item.value, "album") else None;
            var found := if album.Some? then Subscript(album.value, "images") else None;
            found.Some? && found.value.JArray? ==> images == found.value.items
  {
    match Subscript(track, "item")
    case None => []
    case Some(item) =>
      match Subscript(item, "album")
      case None => []
      case Some(album) =>
        match Subscript(album, "images")
        case None => []
        case Some(images) => if images.JArray? then images.items else []
  }

  /** The decisions after a 200 body was decoded: a non-dict or a falsy
      `is_playing` gives None, so does an empty image list; otherwise the url
      of the narrowest image. */
  function ImageOfTrack(track: Json): (r: Outcome<Option<Json>>)
    ensures !track.JObject? ==> r == Returned(None)
    ensures track.JObject? && !Truthy(Get(track, "is_playing")) ==> r == Returned(None)
    ensures AlbumImages(track) == [] ==> r == Returned(None)
    ensures r.Returned? && r.value.Some? ==>
              track.JObject? && Truthy(Get(track, "is_playing")) && AlbumImages(track) != []
    ensures track.JObject? && Truthy(Get(track, "is_playing")) && AlbumImages(track) != [] ==>
              r == SmallestImageUrl(AlbumImages(track))
  {
    if !track.JObject? then Returned(None)
    else if !Truthy(Get(track, "is_playing")) then Returned(None)
    else
      var images := AlbumImages(track);
      if images != [] then SmallestImageUrl(images) else Returned(None)
  }

  /** The currently-playing request and what follows it: an HTTP error or
      204 gives None, a transport failure or an undecodable body raises. */
  function ImageFromPlayer(reply: HttpReply): (r: Outcome<Option<Json>>)
    ensures reply.ErrorStatus? ==> r == Returned(None)
    ensures reply.Response? && reply.status == 204 ==> r == Returned(None)
    ensures reply.NoConnection? ==> r == Raised(URLError)
    ensures reply.Response? && reply.status != 204 && reply.body.None? ==> r == Raised(JSONDecodeError)
    ensures reply.Response? && reply.status != 204 && reply.body.Some? ==> r == ImageOfTrack(reply.body.value)
  {
    match reply
    case NoConnection => Raised(URLError)
    case ErrorStatus(_) => Returned(None)
    case Response(status, body) =>
      if status == 204 then Returned(None)
      else if body.None? then Raised(JSONDecodeError)
      else ImageOfTrack(body.value)
  }

  function PlayerRequest(token: Json): Request
  {
    Request("GET", CurrentlyPlayingEndpoint, Bearer(token), [])
  }

  /** One run of get_album_image_of_current_track: the requests sent, in
      order, and what the function returns or raises. */
  datatype Session = Session(requests: seq<Request>, image: Outcome<Option<Json>>)

  function AlbumImageSession(cfg: Config, tokenReply: HttpReply, playerReply: HttpReply): (s: Session)
    ensures 1 <= |s.requests| <= 2 && s.requests[0] == RefreshRequest(cfg)
    ensures AccessTokenFrom(tokenReply) == Returned(None) ==> s == Session([RefreshRequest(cfg)], Returned(None))
    ensures AccessTokenFrom(tokenReply).Raised? ==> s == Session([RefreshRequest(cfg)], AccessTokenFrom(tokenReply))
    ensures |s.requests| == 2 <==> AccessTokenFrom(tokenReply).Returned? && AccessTokenFrom(tokenReply).value.Some?
    ensures |s.requests| == 2 ==>
              && s.requests[1] == PlayerRequest(AccessTokenFrom(tokenReply).value.value)
              && s.image == ImageFromPlayer(playerReply)
  {
    var refresh := RefreshRequest(cfg);
    match AccessTokenFrom(tokenReply)
    case Raised(e) => Session([refresh], Raised(e))
    case Returned(token) =>
      if token.None? || !Truthy(token.value) then Session([refresh], Returned(None))
      else Session([refresh, PlayerRequest(token.value)], ImageFromPlayer(playerReply))
  }

  /** With a playing track whose images are dicts with numeric or missing
      widths, the result is the url of the first narrowest image, or KeyError
      if that image has no url. */
  lemma NarrowestImageUrl(track: Json)
    requires track.JObject? && Truthy(Get(track, "is_playing"))
    requires AlbumImages(track) != [] && NumericWidths(AlbumImages(track))
    ensures var images := AlbumImages(track);
            exists k: nat :: IsFirstNarrowest(images, k) &&
              ImageOfTrack(track) ==
                (if "url" in images[k].fields then Returned(Some(images[k].fields["url"])) else Raised(KeyError("url")))
  {
    var images := AlbumImages(track);
    SmallestIsFirstNarrowest(images);
    var k := Smallest(images).value.index;
    assert IsFirstNarrowest(images, k);
  }

  /** A currently-playing reply with a 300-wide "big" and a
      64-wide "small" image gives "small". */
  lemma SmallestOfTwoExample()
    ensures var big := JObject(map["width" := JNum(300.0), "url" := JString("big")]);
            var small := JObject(map["width" := JNum(64.0), "url" := JString("small")]);
            var track := JObject(map["is_playing" := JBool(true),
                                     "item" := JObject(map["album" := JObject(map["images" := JArray([big, small])])])]);
            ImageFromPlayer(Response(200, Some(track))) == Returned(Some(JString("small")))
  {
  }
}

# spotify-album-art-matrix, modelled in Dafny

This project models the logic of the three Python scripts behind an LED
matrix that shows the album art of the track playing on Spotify:

- `utils/spotify_current_song.py` exchanges the stored refresh token for an
  access token, asks the currently-playing endpoint, and returns the `url`
  of the narrowest album image. `min(..., key=...)` is modelled as CPython
  evaluates it.
- `get_refresh_token.py` is the one-time authorization-code handshake of
  RFC 6749. It builds the authorize URL. It captures the `code` of the
  browser redirect with a handler that serves one request. It exchanges the
  code for a refresh token.
- `utils/img_to_rgb565.py` packs RGB pixels into 16-bit RGB565 words and
  writes them as a C `PROGMEM` array, `width` hexadecimal literals per row.

Every network reply is an input (`Http.HttpReply`): an HTTP error status,
no connection, or a status with a body that either decodes as JSON or does
not. Each Python function that computes a value becomes a Dafny function.
A function that can raise returns an `Outcome`: the value returned, or the
exception raised.
The request handler and the `__main__` handshake, which change state step
by step, become methods.

The handler of the redirect is imperative in the source. It writes the
class attribute `RequestHandler.auth_code`, and the server handles exactly
one request. It is therefore a class, `RefreshToken.CallbackListener`, with
an `authCode` field and a `handled` flag.

Percent-encoding is not modelled character by character. `quote_plus` and
`unquote` are function parameters. `FormEncoding.FormCodec` states what the
form round trips need from them: the empty string maps to itself, an
encoded string contains no `&`, `=` or `#`, and decoding undoes encoding.
Likewise, whether `ipaddress.IPv6Address` accepts a text is the parameter
`isIPv6` of `FormEncoding.UrlQuery`. The rest of urlsplit's check of a
bracketed host, including the IPvFuture pattern, is written out.

Modules:

| file | module | contents |
|---|---|---|
| python.dfy | Python | Option, Outcome, Python exceptions, JSON values, truthiness, `dict.get`/subscript, `str.split`/`join` |
| form_encoding.dfy | FormEncoding | `urlparse(...).query`, `parse_qsl`/`parse_qs(...).get`, `urlencode`, the form round trip |
| http.dfy | Http | replies of `urlopen`, symbolic requests |
| current_song.dfy | CurrentSong | `get_access_token`, `get_album_image_of_current_track`, `min` by width |
| refresh_token.dfy | RefreshToken | `RequestHandler.do_GET`, `handle_request`, the `__main__` handshake |
| rgb565.dfy | Rgb565 | `to_rgb565`, literal and decimal formatting, row layout, `convert` |

## Model

| member | source | states |
|---|---|---|
| CurrentSong.RefreshFormDecodes | utils/spotify_current_song.py:22-32 | The form of `RefreshRequest(cfg)` decodes at the token endpoint to `grant_type=refresh_token` followed by `refresh_token`. A blank refresh token is dropped, as `parse_qs` drops it. |
| CurrentSong.AccessTokenFrom | utils/spotify_current_song.py:33-50 | An HTTP error or a status other than 200 gives None. A transport failure, or a 200 body that is not JSON, raises. Otherwise a token is returned if and only if the body is a dict with a truthy `access_token`, and it is exactly that field. |
| CurrentSong.WidthKey | utils/spotify_current_song.py:90 | The key is computed if and only if the element is a dict. A non-dict raises AttributeError. A dict without `width` gets +infinity, and one with it gets that value's key. |
| CurrentSong.KeyLessStrictOrder | utils/spotify_current_song.py:90 | `KeyLess`, Python's `<` on the keys `min` compares, is a strict total order wherever it does not raise. No key is below itself, and two keys are never below each other. It is transitive, and two keys neither of which is below the other are equal. Strings compare lexicographically (`StrLess`). |
| CurrentSong.Smallest | utils/spotify_current_song.py:90 | When `min` succeeds, the kept index is in range and the key reported is that element's key. That it is the first element of least width is SmallestIsFirstNarrowest. |
| CurrentSong.SmallestIsFirstNarrowest | utils/spotify_current_song.py:89-93 | Suppose every element is a dict whose width is a number or missing. Then `min` succeeds and picks the first image of least width, a missing width counting as +infinity. An image without a width is chosen only when no image has one. |
| CurrentSong.SmallestNeedsDicts | utils/spotify_current_song.py:90 | `min` succeeds only if every element is a dict. |
| CurrentSong.SmallestImageUrl | utils/spotify_current_song.py:89-93 | If `min` raises, that exception escapes. Otherwise the chosen image is a dict. The result is its `url` when it has one, and KeyError("url") when it has none. It is never None. |
| CurrentSong.AlbumImages | utils/spotify_current_song.py:83-88 | When the subscripts `item`, `album`, `images` all succeed and reach a list, that list is returned. A non-empty result is always that list, so a missing key, a non-dict on the path, or a non-list value gives []. |
| CurrentSong.ImageOfTrack | utils/spotify_current_song.py:73-93 | A non-dict body, a falsy or missing `is_playing`, or an empty image list gives None. A url is returned only for a playing track with images. For such a track the result is `SmallestImageUrl` of its album images: the url of the image `min` chose, KeyError("url") when that image has none, or the AttributeError or TypeError `min` raises. |
| CurrentSong.ImageFromPlayer | utils/spotify_current_song.py:63-73 | An HTTP error or status 204 gives None. A transport failure raises URLError. An undecodable body raises. Any other body is handled by ImageOfTrack. |
| CurrentSong.AlbumImageSession | utils/spotify_current_song.py:53-62 | The refresh request is always sent first. Without an access token the result is None, or the token step's exception, and no second request is sent. With one, exactly one Bearer request follows, `PlayerRequest(token)`, and its reply decides the result. |
| CurrentSong.NarrowestImageUrl | utils/spotify_current_song.py:83-93 | For a playing track whose images are dicts with numeric or missing widths, the result is the `url` of a first-narrowest image, or KeyError when that image has none. |
| CurrentSong.SmallestOfTwoExample | utils/spotify_current_song.py:89-93 | A 300-wide "big" image followed by a 64-wide "small" image gives "small". |
| FormEncoding.ParseUrlEncoded | get_refresh_token.py:43-50 | `parse_qsl(urlencode(ps))` gives back `ps` in order, minus the pairs whose value is blank. |
| FormEncoding.EncodedSegments | get_refresh_token.py:63-69 | `UrlEncode` writes one `quote(name)=quote(value)` segment per pair. Splitting its text at `&` gives back exactly those segments, in order. |
| FormEncoding.ParseQslConcat | get_refresh_token.py:18-20 | `ParseQsl` reads the text on either side of an `&` independently. The pairs of `a&b` are those of `a` followed by those of `b`. |
| FormEncoding.ValuesOf | get_refresh_token.py:18-21 | `parse_qs(...).get(name, [])` holds a value if and only if some kept pair has that name and value. |
| FormEncoding.UrlQuery | get_refresh_token.py:19 | `urlparse` raises nothing but ValueError. The query it returns never holds a `#`. |
| FormEncoding.UrlQueryOfNetloc | get_refresh_token.py:19 | For `scheme://netloc/...`, ValueError is raised when the network location holds one bracket without the other, or holds both and fails `_check_bracketed_netloc`. Otherwise the query is read from what follows the network location. |
| FormEncoding.BracketedUrlQuery | get_refresh_token.py:19 | For `scheme://[host]port/path?q`, the query `q` comes back if and only if the host passes `_check_bracketed_host`. If it fails, ValueError is raised. |
| FormEncoding.QueryOfUrl | get_refresh_token.py:19 | `urlparse(scheme://host/path?q).query` is `q` when `q` has no `#`. |
| FormEncoding.QueryOfPath | get_refresh_token.py:19 | The query of an origin-form target `/path?q` is `q`. |
| RefreshToken.CapturedCode | get_refresh_token.py:17-24 | When `urlparse` raises, the exception is caught and None is stored. A stored code is one of the `code` values `parse_qs` keeps. |
| RefreshToken.CodeOfQueryIsFirstNonBlank | get_refresh_token.py:18-22 | `CodeOfQuery` reads a code from a query if and only if some segment has a name decoding to `code` and a non-blank raw value. The code read is the decoded value of the first such segment. |
| RefreshToken.RejectedHostNotCaptured | get_refresh_token.py:17-24 | A target such as `http://[abc]/callback?code=X` brackets a host that urlsplit rejects. None is stored, whatever the query holds. |
| RefreshToken.CapturedCodeIsFirstNonBlank | get_refresh_token.py:17-24 | A code is stored if and only if `urlparse` does not raise and some query segment has a name decoding to `code` and a non-blank raw value. The stored code is the decoded value of the first such segment. |
| RefreshToken.FirstCodeValue | get_refresh_token.py:18-22 | `parse_qs(...).get("code", [])[0]` is the value of the first segment carrying a non-blank `code`. The list is empty exactly when there is none. |
| RefreshToken.CodeCaptured | get_refresh_token.py:16-25 | A redirect to `path?code=C` with a non-empty C stores the decoded C. |
| RefreshToken.BlankCodeNotCaptured | get_refresh_token.py:16-25 | A redirect whose only `code=` is blank stores None. |
| RefreshToken.NoQueryNotCaptured | get_refresh_token.py:16-25 | A redirect with no query stores None. |
| RefreshToken.FieldPairs | get_refresh_token.py:18-21 | One `name=value` segment parses to the decoded pair, or to nothing when the value is blank. |
| RefreshToken.CallbackListener.constructor | get_refresh_token.py:13-14 | `auth_code` starts as None, and no request has been served. |
| RefreshToken.CallbackListener.DoGet | get_refresh_token.py:16-32 | Stores the captured code, or None when parsing fails. Answers 200 with the success page if and only if the stored code is truthy, and 400 with the failure page otherwise. The content type is `text/html`. |
| RefreshToken.CallbackListener.HandleRequest | get_refresh_token.py:55-56 | The first request is served by DoGet. After that nothing is served and the stored code does not change. |
| RefreshToken.SecondRequestIgnored | get_refresh_token.py:55-56 | With two redirects, the code kept is the one from the first, and the second gets no reply. |
| RefreshToken.AuthorizeUrlRoundTrip | get_refresh_token.py:41-50 | The query of the authorize URL, `AuthorizeUrl` built from `AuthorizeParams`, parses back to `response_type=code`, `client_id`, `scope`, `redirect_uri`, in that order. `client_id` is absent when it is blank. |
| RefreshToken.AuthorizeQuery | get_refresh_token.py:43-50 | The query of the authorize URL is exactly the urlencoded parameter list. |
| RefreshToken.CodeGrantFormDecodes | get_refresh_token.py:61-69 | The token request's form, `CodeGrantForm(code)`, decodes to `grant_type=authorization_code`, the captured code, and the redirect URI, in that order. |
| RefreshToken.RefreshTokenFrom | get_refresh_token.py:76-83 | The token is printed if and only if the body decodes to a dict with a truthy `refresh_token`, and it is that field. Any other JSON body exits with "No refresh token in response.". An HTTP error status escapes as HTTPError, a failed connection as URLError, and a body that is not JSON as a JSON decoding error. |
| RefreshToken.RunHandshake | get_refresh_token.py:41-83 | The authorize URL is built from the client id. The callback answers 200 if and only if a truthy code was captured. Without one, no token request is sent and the script exits with "Failed to capture authorization code.". With one, the authorization-code request `CodeGrantRequest` is sent and its reply decides the end. |
| Rgb565.ToRgb565 | utils/img_to_rgb565.py:10-11 | The word is below 65536. Bits 11-15 hold `r >> 3`, bits 5-10 hold `g >> 2`, and bits 0-4 hold `b >> 3`. |
| Rgb565.UnpackToRgb565 | utils/img_to_rgb565.py:11 | Unpacking a packed colour gives back its truncated channels. |
| Rgb565.PackUnpack | utils/img_to_rgb565.py:11 | Every 16-bit word is the packing of the three fields it holds. |
| Rgb565.SameWord | utils/img_to_rgb565.py:11 | Two colours pack to the same word if and only if they agree on `r >> 3`, `g >> 2` and `b >> 3`. |
| Rgb565.LowBitsDropped | utils/img_to_rgb565.py:11 | Changing only the low 3 bits of red or blue, or the low 2 bits of green, leaves the word unchanged. |
| Rgb565.Pixels | utils/img_to_rgb565.py:16-21 | One word per pixel, in pixel order. |
| Rgb565.Literal | utils/img_to_rgb565.py:36 | `f"0x{v:04X}"` is "0x" followed by exactly four upper-case hex digits. |
| Rgb565.ParseLiteral | utils/img_to_rgb565.py:36 | A string read as a word is exactly the literal of that word. |
| Rgb565.ParseLiteralOf | utils/img_to_rgb565.py:36 | Every literal reads back as its word, so distinct words get distinct literals. |
| Rgb565.Decimal | utils/img_to_rgb565.py:32-33 | `str(n)` is a non-empty string of decimal digits with no leading zero. |
| Rgb565.ParseDecimalOf | utils/img_to_rgb565.py:33 | `int(str(n)) == n`. |
| Rgb565.RowsFrom | utils/img_to_rgb565.py:36-38 | Every row produced by `range(0, n, width)` holds between 1 and `width` words. |
| Rgb565.FlattenRows | utils/img_to_rgb565.py:34-39 | Concatenating the rows gives the pixel words in order, none lost or repeated. |
| Rgb565.RowsShape | utils/img_to_rgb565.py:36-38 | `Rows` makes ceil(n / width) rows: (rows - 1) * width < n <= rows * width. Every row but the last has exactly `width` words. The last has between 1 and `width`. There are no rows exactly when there are no pixels. |
| Rgb565.DeclaredLength | utils/img_to_rgb565.py:33 | The number between `[` and `]` in `Declaration` reads back as the number of pixels. |
| Rgb565.BodyReadsBack | utils/img_to_rgb565.py:33-40 | Read as a comma-separated initialiser list, `ArrayBody` is exactly the literals of the pixel words, in order. Each reads back as its word. |
| Rgb565.Convert | utils/img_to_rgb565.py:14-41 | A width or height below 1 raises ValueError, and no other size raises. What the text says is ConvertOutput. |
| Rgb565.ConvertOutput | utils/img_to_rgb565.py:14-41 | For a positive size the text is the banner, the `Comment` line, then `const unsigned short name[N] PROGMEM = {`, the body and `};`. N reads back as the number of pixels. The body is empty for no pixels. Otherwise it reads back as the literals of the packed pixel words, one per pixel, in order, and each literal reads back as its word. |

## Left out

- Network I/O is not modelled: sockets, TLS, the 10-second timeouts, HTTP redirects and reading the body. Each `urlopen` outcome is an input.
- Console output is not modelled: every `print` and the `log_message` override. `SystemExit(message)` is kept as the message the script ends with.
- CurrentSong.AccessTokenFrom and CurrentSong.ImageFromPlayer: the body of an error reply is not modelled. `utils/spotify_current_song.py` decodes it as UTF-8 while printing it (lines 37, 42 and 70). A body that is not valid UTF-8 raises UnicodeDecodeError there, where the model returns None.
- `input`, `getpass` and `webbrowser.open` are not modelled. The client id and secret are parameters, and so is the target the browser is redirected to.
- Loading `env.toml` with `tomllib` at import time is not modelled. `CurrentSong.Config` holds the four values.
- The Basic header text is not built. `Basic(user, password)` stands for "Basic " + base64(user + ":" + password) (section 2 of RFC 7617). The header text is not needed to decide anything the scripts do.
- The request body is not serialised to bytes. A request keeps the pair list that `urlencode` serialises, and the form lemmas relate that list to what `parse_qsl` reads.
- Percent-encoding and -decoding are parameters constrained by `FormEncoding.FormCodec`, not character-level functions.
- `FormEncoding.UrlQuery` follows urlsplit's scheme, netloc, fragment and query steps and both of its bracket checks. It leaves out the WHATWG stripping of leading control characters and of tabs and newlines, and the NFKC netloc check. Which texts `ipaddress.IPv6Address` accepts is the parameter `isIPv6`.
- `http.server`'s own request-line parsing is not modelled. This includes collapsing a leading `//` in the path. The target handed to `do_GET` is an input.
- JSON numbers are reals. `NaN` and `Infinity`, which `json.loads` accepts, are not modelled.
- CurrentSong.Smallest: a `width` that is a JSON list, object or null is a key that raises TypeError against any other key. Python does compare two lists element by element, so the model fails where two list-valued widths would compare. This weaker contract is deliberate.
- CurrentSong.SmallestImageUrl: a `url` that is JSON null is returned as `Some(JNull)`, while Python returns None. The caller's truthiness test treats both alike.
- RefreshToken.RefreshTokenFrom: the source catches none of urlopen's HTTPError and URLError, nor the error `json.load` raises on a body that is not JSON, on the token exchange. The model ends with `Crashed(...)` for each of them, not with a clean exit.
- Image decoding is not modelled: `Image.open`, `convert("RGB")` and the LANCZOS `resize` are floating-point image processing. `Rgb565.Convert` takes the resized pixels as input and does not require that there are `width * height` of them.
- Rgb565.Convert: the ValueError for a width or height below 1 stands for the error Pillow's resize raises. Its message is not modelled.
- `argparse`, the file-existence check and `main` are not modelled. `Convert` takes the file name, size and variable name as parameters.

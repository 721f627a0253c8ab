# Split browser relay: a Dafny model

The split browser shows several web pages side by side, each in its own iframe
pane. Most sites refuse to be framed, so the page in a pane is fetched through a
small relay server. Its `/proxy?url=...` route fetches the target, forwards the
status and most headers, removes the headers that forbid framing, and streams the
body back. An upstream redirect is turned into a redirect back into `/proxy`, so
the next hop goes through the relay as well. Of the response, connection-error and
timeout callbacks of one request, at most one writes the answer. The browser
keeps an ordered list of panes, a counter that pane ids are issued from, and a
layout direction, and it saves this session to browser storage.

The model has these modules:

- `UriComponent` (uri_component.dfy): `encodeURIComponent` of section 18.2.6.5 of
  ECMA-262 (2015 edition). Every character is UTF-8 encoded and `%XX`-escaped unless
  it is in the unreserved set. There is a decoder, and a proof that decoding an
  encoding gives the text back.
- `Url` (url.dfy): a simplified `new URL(s)` and `new URL(ref, base)`. A URL is a
  lower-cased scheme (section 3.1 of RFC 3986) and the text after the first `:`.
  Relative references are resolved in the shape of section 5.2.2 of RFC 3986.
- `HeaderPolicy` (header_policy.dfy): the three deletes of the frame-blocking
  headers, the case-insensitive hop-by-hop filter, and the validation Node's
  `setHeader` applies. A name must be a token of section 3.2.6 of RFC 7230. A value
  may hold only tab, space, visible ASCII and 0x80 to 0xFF. `Relayed` is the header
  map the response ends up with.
- `ProxyRelay` (proxy_relay.dfy): the route itself. `Decide` is the synchronous
  decision about the `url` parameter. Class `Response` stands for Express's `res`
  and records every terminal write in `log`. Class `ProxyHandler` holds the
  `responseSent` flag. Its event methods `OnResponse`, `OnError` and `OnTimeout`
  may be called in any order and any number of times. `Valid()` says at most one
  terminal write was made, and every event method keeps it.
- `SplitBrowser` (split_browser.dfy): class `Browser` with the pane list, the
  counter, the direction and the storage entry. Pure functions state what each
  operation means: `Save`/`Restore` for the session, `AfterRemove` for removal,
  `NormalizeUrl` for address-bar input. `WellNumbered` says pane ids are distinct,
  positive and at most the counter, and every pane-list operation keeps it.
- `Strings` and `Wrappers`: ASCII lower-casing, `startsWith`, index searches,
  `Option` and `Result`.

The plaintext `http` module refuses a target whose protocol is not `http:` by
throwing `Protocol "ftp:" not supported. Expected "http:"`. It throws at once,
inside the route's `try`, so such a target gets the 400 "Invalid URL" page with
that message. `Decide` models this.

## Model

| member | source | states |
|---|---|---|
| `UriComponent.Encode` | server.js:62 | every character of `encodeURIComponent(s)` is an unreserved character or the `%` of an escape |
| `UriComponent.DecodeEncode` | server.js:62 | decoding `encodeURIComponent(s)` gives `s` back, for every string |
| `UriComponent.EncodeHasNoDelimiters` | server.js:62 | the encoding holds no raw `:`, `/`, `?`, `&`, `=`, `#`, `+` or space |
| `UriComponent.EncodeUnescaped` | server.js:62 | text made only of unreserved characters is encoded as itself |
| `UriComponent.EncodeConcat` | server.js:62 | the encoding of a concatenation is the concatenation of the encodings |
| `Url.Parse` | server.js:40 | parsing fails exactly when the text has no valid scheme before its first `:`, with the message "Invalid URL"; a parsed scheme is valid and lower-cased |
| `Url.Resolve` | server.js:58 | a reference with a scheme resolves to its own parse; any other keeps the base's scheme |
| `Url.ParseHref` | server.js:58 | the href of a URL with a valid lower-case scheme parses back to that URL |
| `Url.HrefOfParse` | server.js:58 | a parsed URL's href is the input with its scheme lower-cased |
| `Url.ProtocolHttps` | server.js:41 | the protocol is `https:` exactly when the input begins with `https:` in any letter case |
| `Url.ResolveAbsolutePath` | server.js:58 | a path-absolute reference keeps the base's scheme and authority and replaces path, query and fragment |
| `HeaderPolicy.Without` | server.js:69-71 | `delete headers[key]` keeps exactly the headers with another name, and keeps node's header object well formed |
| `HeaderPolicy.StripFrameBlocking` | server.js:69-71 | the three deletes keep exactly the headers whose name is not one of the three frame-blocking names |
| `HeaderPolicy.IsHopByHop` | server.js:77 | the hop-by-hop test gives the same answer for a name and for its lower-cased form, so letter case never matters |
| `HeaderPolicy.Forwarded` | server.js:76-84 | the setHeader loop never removes an entry the response already held |
| `HeaderPolicy.ForwardedFrom` | server.js:76-84 | every entry after the loop is the old one, or a header of the list that is not hop-by-hop, is accepted by setHeader, and is stored under its lower-cased name |
| `HeaderPolicy.Relayed` | server.js:66-84 | no entry of the response is removed; every entry is the old one or an upstream header that passes the deletes, the hop-by-hop filter and setHeader, stored under its lower-cased name |
| `HeaderPolicy.ForwardedAt` | server.js:76-84 | over node's header objects, a key ends up set iff it was set before or a header of that name is neither hop-by-hop nor rejected, and then it holds that header; otherwise the old entry stays |
| `HeaderPolicy.RelayedAt` | server.js:66-84 | a key ends up in the response iff it was already there or an upstream header of that name passes all three filters; a passing header is set with its value unchanged; otherwise the old entry stays |
| `HeaderPolicy.BlockedNeverForwarded` | server.js:69-77 | for the six blocked names, the response's entry is exactly what it was before the loop |
| `HeaderPolicy.HopByHopNeverForwarded` | server.js:77 | the hop-by-hop names are never set, whatever letter case the upstream uses |
| `HeaderPolicy.OthersForwardedUnlessRejected` | server.js:76-84 | any other header is set with its value unchanged when setHeader accepts it, and a rejected one changes nothing and does not stop the loop |
| `HeaderPolicy.FrameBlockingDeleteIsExact` | server.js:69-71 | the deletes match the exact lower-case name: `X-Frame-Options` in other letter case is not deleted (node always delivers lower-case names) |
| `ProxyRelay.Decide` | server.js:18-41 | missing iff the parameter is absent or empty; no scheme gives "Invalid URL"; a fetch has a parsed `http:` or `https:` target, over https exactly for `https:`; any other parsed scheme `p` is refused with `Protocol "p:" not supported. Expected "http:"` |
| `ProxyRelay.TransportFor` | server.js:41 | https exactly for `https:`; the chosen module's agent serves the target's protocol exactly when that is `http:` or `https:` |
| `ProxyRelay.IsRedirect` | server.js:53 | on node's header object: a 3xx status and a `location` header with a non-empty value |
| `ProxyRelay.RedirectTarget` | server.js:54-59 | a Location beginning with "http" is kept; any other becomes the href of its resolution against the target, which parses back to that resolution |
| `ProxyRelay.RedirectLocation` | server.js:62 | the relay's Location is `/proxy?url=` followed by a parameter that decodes to the redirect target |
| `ProxyRelay.LocationOf` | server.js:53-54 | finds the `location` header if and only if there is one, with its value |
| `ProxyRelay.Response.Status` | server.js:74 | `res.status(code)` sets the status and changes neither the headers nor the writes |
| `ProxyRelay.Response.Send` | server.js:21 | `res.status(s).send(body)` records one `Sent` write with that status and body, headers unchanged (also server.js:29-36) |
| `ProxyRelay.Response.Redirect` | server.js:62 | `res.redirect(location)` records one 302 `Redirected` write to that location |
| `ProxyRelay.Response.Pipe` | server.js:87 | `proxyRes.pipe(res)` records one `Piped` write with the current status and headers, neither of them changed |
| `ProxyRelay.Response.SetHeader` | server.js:78-82 | throws exactly for a header setHeader rejects, and otherwise stores it under its lower-cased name |
| `ProxyRelay.ProxyHandler.constructor` | server.js:18-103 | a missing target answers 400 "Missing url parameter"; an invalid one writes exactly one 400 "Invalid URL" page with the parse message; either way no upstream request; otherwise one upstream request with the 15000 ms timeout and nothing written |
| `ProxyRelay.ProxyHandler.SendError` | server.js:26-37 | writes the error page and sets the flag unless a response was already sent, in which case nothing is written |
| `ProxyRelay.ProxyHandler.OnResponse` | server.js:49-88 | after a sent response nothing changes; a 3xx with a Location gives one 302 to `/proxy?url=` plus the encoded target; otherwise one piped response with the upstream status and the relayed headers |
| `ProxyRelay.ProxyHandler.CopyHeaders` | server.js:66-84 | the loop leaves the response headers equal to `Relayed` of the upstream headers |
| `ProxyRelay.ProxyHandler.SetHeaders` | server.js:76-84 | the loop offers each header that is not hop-by-hop to setHeader, skips one it rejects, and leaves the response headers equal to `Forwarded` of the headers it went over |
| `ProxyRelay.ProxyHandler.OnError` | server.js:90-93 | one 500 "Failed to load page" page naming the target and the error, unless already answered |
| `ProxyRelay.ProxyHandler.OnTimeout` | server.js:95-98 | destroys the upstream request in every case, then one 504 "Request timed out" page unless already answered |
| `ProxyRelay.TimeoutWins` | server.js:24-98 | a timeout followed by an error and a late response writes only the 504 page |
| `ProxyRelay.ResponseWins` | server.js:49-98 | a response followed by an error and a timeout writes only the piped response |
| `ProxyRelay.RedirectCarriesTarget` | server.js:62 | the relay's redirect is the prefix and then a parameter with no delimiter in it, and that parameter decodes to the redirect target |
| `ProxyRelay.RelativeRedirectRefetched` | server.js:57-62 | a relative Location comes back to the route as a target it fetches, over the same transport, at the location resolved against the first target |
| `ProxyRelay.HttpLocationVerbatim` | server.js:57 | a Location that begins with "http" travels unchanged |
| `ProxyRelay.RedirectExample` | server.js:53-62 | Location `/b` from `https://example.com/a` becomes `/proxy?url=https%3A%2F%2Fexample.com%2Fb` |
| `ProxyRelay.ExampleParse` | server.js:40 | `https://example.com/a` parses to scheme `https` and the rest `//example.com/a` |
| `SplitBrowser.Save` | js/app.js:287-296 | the snapshot holds the pane list, the direction and the counter, and a layout with panes and a nonzero counter is restored from it exactly |
| `SplitBrowser.Restore` | js/app.js:308-311 | a snapshot is adopted iff it has a non-empty pane list; the direction is vertical only for a saved `false`; the restored counter is never 0, and falls back to the pane count when missing or 0 |
| `SplitBrowser.RestoreSave` | js/app.js:287-311 | a layout with panes and a nonzero counter comes back from its own snapshot exactly |
| `SplitBrowser.SessionRoundTrip` | js/app.js:287-311 | every well-numbered layout with at least one pane survives a save and a restore |
| `SplitBrowser.RestoreStable` | js/app.js:287-311 | saving a restored layout and restoring it again changes nothing |
| `SplitBrowser.IndexOfId` | js/app.js:59 | the index of the first pane with the id, or -1 exactly when no pane has it |
| `SplitBrowser.AfterRemove` | js/app.js:53-66 | one pane or none is kept; an absent id changes nothing; otherwise exactly the first pane with the id is removed and the rest keep their order; the list is never emptied |
| `SplitBrowser.RemoveDropsExactlyThatPane` | js/app.js:59-61 | for a well-numbered layout, the panes left are exactly those whose id differs |
| `SplitBrowser.RemoveKeepsNumbering` | js/app.js:53-66 | removal keeps the ids distinct, positive and within the counter |
| `SplitBrowser.AddKeepsNumbering` | js/app.js:37-45 | the id the counter issues is fresh, so appending keeps the numbering |
| `SplitBrowser.SetUrlKeepsNumbering` | js/app.js:165 | changing one pane's url keeps the numbering |
| `SplitBrowser.Trim` | js/app.js:154 | the result is a slice of the input with only white space before and after it; it neither begins nor ends with white space, and it is empty exactly when the input is all white space |
| `SplitBrowser.TrimOfTrimmed` | js/app.js:154 | text without white space at either end is its own trim |
| `SplitBrowser.NormalizeUrl` | js/app.js:154-159 | nothing for blank input; otherwise a url that begins with `http://` or `https://` and ends with the trimmed text: the trimmed text itself when that already has a prefix, and `https://` followed by it when not |
| `SplitBrowser.AddressBarUrl` | js/app.js:154-159 | the step-by-step trim and `https://` default compute exactly `NormalizeUrl` of the typed text |
| `SplitBrowser.NormalizeIdempotent` | js/app.js:154-159 | normalising a stored url gives it back |
| `SplitBrowser.Browser.AddPane` | js/app.js:36-51 | the counter goes up by one and is returned as the id; exactly one pane `{id, url, 1}` is appended; the session is saved; the numbering is kept |
| `SplitBrowser.Browser.RemovePane` | js/app.js:53-66 | the list becomes `AfterRemove` of the old one, the session is saved exactly when a pane was removed, and the numbering is kept |
| `SplitBrowser.Browser.LoadURL` | js/app.js:147-168 | a missing pane or blank input changes nothing; otherwise only that pane's url changes, to the normalised input, and the session is saved |
| `SplitBrowser.Browser.SetPaneUrl` | js/app.js:164-165 | only the url of the pane at that index changes; ids, order, counter, direction and storage stay, and so does the numbering |
| `SplitBrowser.Browser.LoadPDF` | js/app.js:170-187 | with a chosen file and an existing pane, only that pane's url changes, to `""`; storage is never written |
| `SplitBrowser.Browser.ToggleLayout` | js/app.js:254-263 | flips the direction, changes no pane, and saves |
| `SplitBrowser.Browser.ToggleTwice` | js/app.js:255 | two toggles give back the original direction |
| `SplitBrowser.Browser.SaveState` | js/app.js:287-299 | storage holds the snapshot of the current layout, and nothing else changes |
| `SplitBrowser.Browser.LoadState` | js/app.js:301-322 | adopts exactly `Restore` of a stored snapshot when there is one to adopt, and otherwise changes nothing |
| `SplitBrowser.Browser.AsWritten` | js/app.js:19-32 | startup as written: whatever was stored, the browser shows the two default panes and storage holds their snapshot |
| `SplitBrowser.Browser.constructor` | js/app.js:19-32 | corrected startup: a stored session that can be restored is shown, and storage is left alone; otherwise the two default panes are shown and saved |
| `SplitBrowser.SessionLostAtStartup` | js/app.js:19-32 | a stored one-pane session is replaced by the defaults under the startup as written, and shown under the corrected one |

## Left out

- Network I/O is left out: `http.get`, `https.get`, sockets and what `destroy()` does to them. The upstream's outcomes are the calls `OnResponse`, `OnError` and `OnTimeout`, in any order.
- Body streaming through `pipe` and its backpressure are left out. They are recorded as one `Piped` write.
- The timer is left out. The 15000 ms timeout is kept only as a constant stored in the issued upstream request.
- Express, CORS and static-file middleware, `app.listen` and the banner are left out. The headers earlier middleware set are the `preset` map a `Response` starts with.
- The `res.redirect`, `res.status` and `res.send` internals are left out, except that `res.redirect` answers 302. The HTML of the error page is reduced to its title and message.
- The spoofed request headers and `console.error` logging are left out: they are constants with nothing to prove.
- Url.Parse: full WHATWG parsing (host validation, percent-decoding, port and path normalisation, special-scheme rules) is not modelled. Only "has a valid scheme" decides success.
- Url.Resolve: dot segments are not removed, and no resolution fails. A resolution the real parser rejects would throw inside the response callback, outside the route's `try`; that is not modelled.
- ProxyRelay.ProxyHandler.Valid: states that at most one answer is written, not that one always is. When the resolution at server.js:58 throws (a Location such as `//`), the real route writes nothing at all. The model resolves every Location, so it cannot show that case. Because the timer is left out, the model also does not show that some callback always arrives.
- A repeated `url` query parameter, which Express delivers as an array, is not modelled; the parameter is a string or absent.
- Header values are strings. Node's arrays for `set-cookie` are not modelled.
- `Strings.ToLower` lower-cases ASCII only, where JavaScript's `toLowerCase` covers all of Unicode. Header names are tokens, so the hop-by-hop test sees only ASCII.
- There is no redirect-loop bound, because the route has none.
- All DOM work in the browser is left out: `render`, the pane and handle elements, `alert`, `updateToolbarInfo`, the iframe `src`, the object URL and the `[PDF]` label of `loadPDF`. A pane element exists exactly when the list holds a pane with its id, because every change to the list renders it again.
- Resize (`startResize`, `doResize`, `endResize`, `updatePaneSizes`) is left out. It is floating-point and pixel arithmetic. A pane's size is kept as a `real` and only copied.
- `localStorage` and `JSON` are modelled as one storage entry holding a parsed snapshot, or nothing, or text that does not parse. Fields of the wrong JSON type and storage access errors are not modelled. Ids and the counter are integers.
- The keyboard shortcut is `AddPane("")`. The event listeners are left out.

## Findings

| source | as written | input that shows it | evidently intended | confidence | as-written member | corrected member |
|---|---|---|---|---|---|---|
| js/app.js:19-32 | `init` adds the two default panes before `loadState`, and each `addPane` saves the session, so the stored session is overwritten before it is read and `loadState` restores the defaults | storage holding a saved session with one pane of id 3, shown in vertical layout | the saved session is shown at startup, and the defaults only when there is nothing to restore | high; not executed | `SplitBrowser.Browser.AsWritten`, `SplitBrowser.SessionLostAtStartup` | `SplitBrowser.Browser.constructor` |

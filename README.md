# getScriptWebpackPlugin, modelled in Dafny

A webpack plugin that, when a build emits its assets, collects the script and
stylesheet URLs of every entry point into a manifest record
(`publicPath`, `js`, `css`, `manifest`, `favicon`), writes that record as JSON
into the build's assets under a configured file name (`files.json` by
default) and passes it to a completion callback. This project models the
plugin's one source file, `index.js`, and proves what the record holds.

Modules, one per concern of `index.js`:

- `Wrappers` (`wrappers.dfy`): `Option` and `Result`.
- `UriComponent` (`uri_component.dfy`): `encodeURIComponent` and its inverse
  `decodeURIComponent` (sections 18.2.6.5 and 18.2.6.3 of ECMAScript 2015,
  percent-encoding as in section 2.1 of RFC 3986, UTF-8 as in RFC 3629), with
  the round trip proved for every string.
- `UrlPath` (`url_path.dfy`): `split('/')`, `join('/')` and `urlencodePath`.
- `JsString` (`js_string.dfy`): `String.prototype.trim`.
- `NodePath` (`node_path.dfy`): the POSIX `path.extname`, used to find the
  `.appcache` asset.
- `ExtensionPattern` (`extension_pattern.dfy`): `exec` of the regular
  expression `/\.(css|js|mjs)(\?|$)/` (leftmost match, first capture group).
- `AssetManifest` (`asset_manifest.dfy`): `getAssets`. `AssetsOf` is its
  specification, a left fold (`Collect` of `Step`s) over the URLs in encounter
  order; `GetAssets` is the source's imperative loop (the two buckets and the
  seen-table updated in place, `publicPath` reassigned) proved equal to it; the
  lemmas state soundness, completeness, absence of duplicates and
  first-encounter order of the buckets.
- `Plugin` (`plugin.dfy`): the class `GetScriptWebpackPlugin` with its
  constructor and `Emit`, the body of the `emit` hook, over a `Compilation`
  class that holds the build's entry points and its asset table.

Behaviour of the code that the model keeps, where a reader might expect
otherwise:

- A blank public path (empty or only white space once trimmed) always makes
  `getAssets` throw: the fallback branch at `index.js:35` reads
  `childCompilationOutputName`, which is declared nowhere, so it throws a
  ReferenceError. The handler catches it, so the build gets no manifest. The
  relative-path computation that branch was meant to do is never reached.
- A public path that is not blank is used untrimmed.
- `this.options` is always `{}` (`index.js:6`); the constructor's options
  only supply `filename`. The `Object.assign` at `index.js:103` therefore
  never changes the state, and no configured field can override a computed
  one.
- The extension pattern is unanchored and runs on the whole URL, public path
  included: the leftmost `.css`, `.js` or `.mjs` followed by `?` or the end
  decides. `a.css.js` is a script, and a public path whose leftmost `.css?`,
  `.js?` or `.mjs?` is `.css?` would classify every URL as a stylesheet.
- The seen-table is shared by both buckets and keyed by the full URL.
- `content.length`, the asset's size, counts UTF-16 code units.

## Model

| member | source | states |
|---|---|---|
| UriComponent.EncodeURIComponent | index.js:17 | the encoding of a segment uses only unreserved characters, `%` and upper-case hex digits, and is at least as long as the segment |
| UriComponent.DecodeEncode | index.js:17 | decodeURIComponent gives back every string that encodeURIComponent encoded (UTF-8 percent-escapes included) |
| UriComponent.EncodeUnreservedIdentity | index.js:17 | a segment made of unreserved characters only (such as `main.abc123.js`) is left unchanged |
| UrlPath.Split | index.js:17 | `split('/')` yields one more piece than there are separators, and no piece holds a `/` |
| UrlPath.JoinSplit | index.js:17 | joining the pieces of a split with `/` gives back the path |
| UrlPath.SplitJoin | index.js:17 | splitting a `/`-join of pieces without `/` gives back the pieces |
| UrlPath.UrlencodePathAlphabet | index.js:16-18 | the encoded path consists of `/` and encoder output only, so it holds no `?` |
| UrlPath.UrlencodePathSegments | index.js:16-18 | the encoded path keeps the separators: same number of segments, each the encoding of the input segment, and decoding each gives back the input segment |
| UrlPath.UrlencodePathRoundTrip | index.js:16-18 | decoding the encoded path segment by segment and rejoining gives back the file path |
| JsString.Trim | index.js:30 | `trim()` is empty exactly when every character is white space or a line terminator, and otherwise starts and ends with a kept character |
| AssetManifest.NormalizePublicPath | index.js:29-40 | a blank public path throws the ReferenceError of the fallback branch; otherwise the untrimmed path is kept, ends in `/`, and at most one `/` is appended, none if it already ends in one |
| NodePath.AppcacheIff | index.js:59 | an asset name has extension `.appcache` exactly when its base name ends in `.appcache` after at least one other character (the dotfile `.appcache` has none) |
| AssetManifest.FirstAppcacheFinds | index.js:59 | `manifest` is the first asset key in key order whose extension is `.appcache`, and absent exactly when no key has it |
| ExtensionPattern.ExecFrom | index.js:65 | the search returns the leftmost position at or after the start where an alternative matches, with that alternative, or nothing when no position matches |
| ExtensionPattern.ExecLeftmost | index.js:79 | `exec` yields an extension exactly when some position matches, and then the one matched at the leftmost such position |
| AssetManifest.GetAssets | index.js:21-96 | the loop over entries and files, with buckets and seen-table updated in place, returns exactly the specification `AssetsOf`: the ReferenceError for a blank public path, else the normalised public path, the collected buckets, the first `.appcache` key and no favicon |
| AssetManifest.CollectWellCollected | index.js:78-93 | after any prefix of the URLs, the seen-table is the union of the buckets, the buckets are duplicate-free and disjoint, hold only URLs met so far with their matching extension, hold every matching URL met so far, and keep first-encounter order |
| AssetManifest.AllUrlsMembership | index.js:66-76 | a URL is met by the loop exactly when it is the public path followed by the encoded path of some file of some entry |
| AssetManifest.GetAssetsUrlsFromFiles | index.js:72-92 | every URL in `js` or `css` is the public path plus the encoded path of some entry file; `css` holds only `.css` matches and `js` only `.js` or `.mjs` matches |
| AssetManifest.GetAssetsComplete | index.js:78-92 | every entry file whose URL matches is in exactly the bucket its extension selects; a file whose URL does not match is in neither |
| AssetManifest.GetAssetsNoDuplicates | index.js:84-89 | no URL occurs twice in `js` and `css` taken together |
| AssetManifest.GetAssetsFirstEncounterOrder | index.js:66-92 | within each bucket, URLs are ordered by the position where the loop first met them, entries in order and then files in order |
| Plugin.Assign | index.js:103 | `Object.assign` keeps the keys of both objects, the source's values winning |
| Plugin.Utf16Units | index.js:107 | a code point below U+10000 is one code unit equal to it; any other is a high surrogate followed by a low surrogate that together give back the code point |
| Plugin.Utf16Length | index.js:107 | the size is exactly the number of UTF-16 code units of the content: it lies between the number of code points and twice that, and equals it when no code point is above U+FFFF |
| Plugin.ResolveFilename | index.js:4 | the file name is `options.filename` when present and non-empty, `files.json` otherwise, and never empty |
| Plugin.GetScriptWebpackPlugin.constructor | index.js:3-8 | the new plugin has the resolved file name, an empty state, empty options and the given callback (a no-op by default) |
| Plugin.Compilation.SetAsset | index.js:105-108 | assigning an asset property replaces the value under that name and appends a new name to the key order |
| Plugin.GetScriptWebpackPlugin.Emit | index.js:99-113 | when `getAssets` throws, nothing changes and the error is logged; otherwise the state is the `getAssets` record unchanged by the merge, the asset under `filename` holds its serialisation with the UTF-16 length as size, the callback receives the state, and a throwing callback is logged after the asset is registered; nothing escapes |
| Plugin.GetScriptWebpackPlugin.Publish | index.js:103-109 | after `getAssets` returned, the state is its record (the merge with the empty options changes nothing), the serialised state is registered under `filename` with its UTF-16 length, the callback receives the state once, and its throwing is reported rather than propagated |

## Left out

- The hook registration `compiler.hooks.emit.tap` (`index.js:98-99`) and the
  host's object model: `Emit` is the handler body, applied to a `Compilation`
  holding the public path, the entry points and the asset table.
- `compilation.hash` and `mainTemplate.getPublicPath`: the public path they
  produce is an input string.
- The fallback branch's `path.relative`, `path.resolve`, `path.dirname` and
  `path.sep` (`index.js:35-36`): the branch always throws before they matter,
  and the model returns that error.
- `path.extname` on Windows (backslash separators, drive letters): the model is
  the POSIX version.
- `JSON.stringify(state, null, 2)`: the serialisation is a parameter of `Emit`;
  nothing is proved about its text.
- `console.log(e)` in the catch block: `Emit` returns what would be logged
  instead of printing it.
- The callback is modelled only by whether it throws; anything it does to the
  state object it receives (which is the plugin's own `state`) is not modelled.
- Entry lookup by name (`compilation.entrypoints.get(name).getFiles()`): the
  names come from the same map's keys, so the lookup cannot fail, and the model
  walks the (name, files) pairs in the map's order directly.
- The seen-table is a set: a plain `{}` also answers truthy for inherited names
  such as `toString` or `constructor`, but none of them contains `.`, so none
  can equal a URL the pattern matched.
- `Object.keys` lists integer-like keys first; an `.appcache` name is never
  integer-like, so the model keeps the asset keys in insertion order.
- A filename option that is not a string: the constructor's options are
  modelled as an optional string.
- UTF-16 lone surrogates, on which `encodeURIComponent` throws a URIError:
  a Dafny string is a sequence of Unicode scalar values and cannot hold one.

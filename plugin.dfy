/**
 * The plugin object and the `emit` hook it registers: compute the asset record,
 * store it as the plugin's state, add the serialised record to the build's
 * assets under the configured file name and hand the state to the callback,
 * with every exception caught and logged.
 */
module Plugin {
  import opened Wrappers
  import opened AssetManifest

  /** The values the plugin's state object holds. */
  datatype JsValue = Str(s: string) | StrArray(items: seq<string>) | Undefined

  /** A plain JavaScript object, by property name. */
  type JsObject = map<string, JsValue>

  /** The object literal `getAssets` builds. */
  function AssetsObject(a: Assets): (o: JsObject)
    ensures o.Keys == {"publicPath", "js", "css", "manifest", "favicon"}
  {
    map[
      "publicPath" := Str(a.publicPath),
      "js" := StrArray(a.js),
      "css" := StrArray(a.css),
      "manifest" := if a.manifest.Some? then Str(a.manifest.value) else Undefined,
      "favicon" := if a.favicon.Some? then Str(a.favicon.value) else Undefined]
  }

  /** `Object.assign(target, source)`: the properties of `source` win over those of `target`. */
  function Assign(target: JsObject, source: JsObject): (r: JsObject)
    ensures r.Keys == target.Keys + source.Keys
    ensures forall k :: k in source ==> r[k] == source[k]
    ensures forall k :: k in target && k !in source ==> r[k] == target[k]
  {
    target + source
  }

  /** Merging the empty object changes nothing. */
  lemma AssignEmpty(target: JsObject)
    ensures Assign(target, map[]) == target
  {
    assert Assign(target, map[]).Keys == target.Keys;
  }

  /** The UTF-16 code units of one code point: itself below U+10000, a surrogate pair above. */
  function Utf16Units(c: char): (u: seq<int>)
    ensures 1 <= |u| <= 2
    ensures |u| == 1 <==> c as int < 0x1_0000
    ensures |u| == 1 ==> u[0] == c as int
    ensures |u| == 2 ==>
      && 0xD800 <= u[0] < 0xDC00 && 0xDC00 <= u[1] < 0xE000
      && 0x1_0000 + (u[0] - 0xD800) * 0x400 + (u[1] - 0xDC00) == c as int
  {
    var v := c as int;
    if v < 0x1_0000 then [v]
    else [0xD800 + (v - 0x1_0000) / 0x400, 0xDC00 + (v - 0x1_0000) % 0x400]
  }

  /** The UTF-16 encoding of a string, code point by code point. */
  function Utf16Encode(s: string): seq<int> {
    if s == [] then [] else Utf16Units(s[0]) + Utf16Encode(s[1..])
  }

  /** The `length` of a JavaScript string: the number of its UTF-16 code units. */
  function Utf16Length(s: string): (n: nat)
    ensures n == |Utf16Encode(s)|
    ensures |s| <= n <= 2 * |s|
    ensures (forall i :: 0 <= i < |s| ==> s[i] as int < 0x1_0000) ==> n == |s|
  {
    if s == [] then 0 else (if s[0] as int < 0x1_0000 then 1 else 2) + Utf16Length(s[1..])
  }

  /** An entry of `compilation.assets`: the content and its size, as the host reads them. */
  datatype Asset = Asset(source: string, size: nat)

  /** The constructor's first argument. */
  datatype PluginOptions = PluginOptions(filename: Option<string>)

  /** The output file name: `options.filename` when it is truthy (present and not empty), `files.json` otherwise. */
  function ResolveFilename(options: PluginOptions): (r: string)
    ensures r != ""
    ensures options.filename.Some? && options.filename.value != "" ==> r == options.filename.value
    ensures options.filename.None? || options.filename.value == "" ==> r == "files.json"
  {
    match options.filename
    case Some(name) => if name != "" then name else "files.json"
    case None => "files.json"
  }

  /** Why the `emit` handler logged instead of finishing. */
  datatype EmitFailure = GetAssetsThrew(error: GetAssetsError) | CallbackThrew

  /**
   * The part of the host's compilation object the handler uses. `publicPath` is
   * what `mainTemplate.getPublicPath({ hash })` gives for this build's hash;
   * `assetKeys` is the property order of `compilation.assets`.
   */
  class Compilation {
    const publicPath: string
    const entrypoints: seq<Entrypoint>
    var assetKeys: seq<string>
    var assets: map<string, Asset>

    ghost predicate Valid()
      reads this
    {
      && (forall k :: k in assets <==> k in assetKeys)
      && (forall p, q :: 0 <= p < q < |assetKeys| ==> assetKeys[p] != assetKeys[q])
    }

    constructor(publicPath: string, entrypoints: seq<Entrypoint>, assetKeys: seq<string>, assets: map<string, Asset>)
      requires forall k :: k in assets <==> k in assetKeys
      requires forall p, q :: 0 <= p < q < |assetKeys| ==> assetKeys[p] != assetKeys[q]
      ensures Valid()
      ensures this.publicPath == publicPath && this.entrypoints == entrypoints
      ensures this.assetKeys == assetKeys && this.assets == assets
    {
      this.publicPath := publicPath;
      this.entrypoints := entrypoints;
      this.assetKeys := assetKeys;
      this.assets := assets;
    }

    /** `compilation.assets[name] = asset`: a new name goes last in property order, an existing one keeps its place. */
    method SetAsset(name: string, asset: Asset)
      requires Valid()
      modifies this
      ensures Valid()
      ensures assets == old(assets)[name := asset]
      ensures assetKeys == if name in old(assets) then old(assetKeys) else old(assetKeys) + [name]
    {
      if name !in assets {
        assetKeys := assetKeys + [name];
      }
      assets := assets[name := asset];
    }
  }

  class GetScriptWebpackPlugin {
    var filename: string
    var state: JsObject
    var options: JsObject
    /** The completion callback; it returns `true` when it throws. */
    var afterAssetsGenerater: JsObject -> bool
    /** The arguments the callback has been called with, oldest first. */
    ghost var callbackCalls: seq<JsObject>

    /** The extra options are always the empty object, and the file name is never empty. */
    ghost predicate Valid()
      reads this
    {
      options == map[] && filename != ""
    }

    constructor(pluginOptions: PluginOptions := PluginOptions(None), callback: JsObject -> bool := _ => false)
      ensures Valid()
      ensures filename == ResolveFilename(pluginOptions)
      ensures state == map[] && options == map[]
      ensures afterAssetsGenerater == callback && callbackCalls == []
    {
      filename := ResolveFilename(pluginOptions);
      state := map[];
      options := map[];
      afterAssetsGenerater := callback;
      callbackCalls := [];
    }

    /**
     * The `emit` handler. When `getAssets` throws, nothing changes and the
     * error is logged. Otherwise the state is the record `getAssets` returns
     * (merging the empty options changes nothing), the serialised state is
     * registered under `filename` with its UTF-16 length as size, and the
     * callback receives the state; if the callback throws, the asset stays
     * registered and the exception is logged. No exception escapes.
     * `stringify` stands for `JSON.stringify(_, null, 2)`.
     */
    method Emit(compilation: Compilation, stringify: JsObject -> string) returns (logged: Option<EmitFailure>)
      requires Valid() && compilation.Valid()
      modifies this, compilation
      ensures Valid() && compilation.Valid()
      ensures filename == old(filename) && afterAssetsGenerater == old(afterAssetsGenerater)
      ensures match AssetsOf(compilation.publicPath, compilation.entrypoints, old(compilation.assetKeys))
        case Err(e) =>
          && logged == Some(GetAssetsThrew(e))
          && state == old(state)
          && compilation.assets == old(compilation.assets)
          && compilation.assetKeys == old(compilation.assetKeys)
          && callbackCalls == old(callbackCalls)
        case Ok(a) =>
          && state == AssetsObject(a)
          && compilation.assets == old(compilation.assets)[filename := Asset(stringify(state), Utf16Length(stringify(state)))]
          && compilation.assetKeys ==
               (if filename in old(compilation.assets) then old(compilation.assetKeys)
                else old(compilation.assetKeys) + [filename])
          && callbackCalls == old(callbackCalls) + [state]
          && logged == (if afterAssetsGenerater(state) then Some(CallbackThrew) else None)
    {
      var result := GetAssets(compilation.publicPath, compilation.entrypoints, compilation.assetKeys);
      if result.Err? {
        return Some(GetAssetsThrew(result.error));
      }
      logged := Publish(compilation, result.value, stringify);
    }

    /** The `try` block of the handler after `getAssets` returned. */
    method Publish(compilation: Compilation, assets: Assets, stringify: JsObject -> string)
      returns (logged: Option<EmitFailure>)
      requires Valid() && compilation.Valid()
      modifies this, compilation
      ensures Valid() && compilation.Valid()
      ensures filename == old(filename) && afterAssetsGenerater == old(afterAssetsGenerater)
      ensures state == AssetsObject(assets)
      ensures compilation.assets == old(compilation.assets)[filename := Asset(stringify(state), Utf16Length(stringify(state)))]
      ensures compilation.assetKeys ==
        if filename in old(compilation.assets) then old(compilation.assetKeys) else old(compilation.assetKeys) + [filename]
      ensures callbackCalls == old(callbackCalls) + [state]
      ensures logged == if afterAssetsGenerater(state) then Some(CallbackThrew) else None
    {
      state := AssetsObject(assets);
      AssignEmpty(state);
      state := Assign(state, options);
      var content := stringify(state);
      compilation.SetAsset(filename, Asset(content, Utf16Length(content)));
      callbackCalls := callbackCalls + [state];
      var threw := afterAssetsGenerater(state);
      logged := if threw then Some(CallbackThrew) else None;
    }
  }
}

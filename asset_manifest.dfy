/**
 * `getAssets`: from a finished build's public path, its entry points with their
 * output files and its asset names, the record of script and stylesheet URLs
 * the manifest file is made of.
 *
 * The specification is a left fold over the URLs in encounter order (entries
 * in the given order, then the files of each entry); the method `GetAssets`
 * builds the same record with the loops and the seen-table of the source, and
 * the lemmas state what the record holds.
 */
module AssetManifest {
  import opened Wrappers
  import opened JsString
  import opened UrlPath
  import opened NodePath
  import opened ExtensionPattern

  /** An entry point and its output files, in the host's chunk order. */
  datatype Entrypoint = Entrypoint(name: string, files: seq<string>)

  /** What `getAssets` throws. */
  datatype GetAssetsError = ReferenceError(identifier: string)

  /** The record `getAssets` returns. */
  datatype Assets = Assets(
    publicPath: string,
    js: seq<string>,
    css: seq<string>,
    manifest: Option<string>,
    favicon: Option<string>)

  /**
   * The URL prefix. A public path that is not blank is used as configured,
   * untrimmed, with a `/` appended unless it already ends in one. A blank one
   * takes the fallback branch, whose first step reads the undeclared variable
   * `childCompilationOutputName` and so always throws a ReferenceError.
   */
  function NormalizePublicPath(webpackPublicPath: string): (r: Result<string, GetAssetsError>)
    ensures r.Err? <==> IsBlank(webpackPublicPath)
    ensures r.Err? ==> r.error == ReferenceError("childCompilationOutputName")
    ensures r.Ok? ==> |r.value| > 0 && r.value[|r.value| - 1] == '/'
    ensures r.Ok? ==> r.value == webpackPublicPath || r.value == webpackPublicPath + "/"
    ensures r.Ok? ==>
      (|webpackPublicPath| > 0 && (webpackPublicPath[|webpackPublicPath| - 1] == '/' ==> r.value == webpackPublicPath))
  {
    if Trim(webpackPublicPath) == "" then Err(ReferenceError("childCompilationOutputName"))
    else if |webpackPublicPath| > 0 && webpackPublicPath[|webpackPublicPath| - 1] != '/' then
      Ok(webpackPublicPath + "/")
    else Ok(webpackPublicPath)
  }

  /** `keys.find(pred)`: the first key that satisfies `pred`. */
  function Find(keys: seq<string>, pred: string -> bool): Option<string> {
    if keys == [] then None
    else if pred(keys[0]) then Some(keys[0])
    else Find(keys[1..], pred)
  }

  /** `find` yields the first key that satisfies the predicate, and nothing exactly when no key does. */
  lemma {:induction false} FindFirst(keys: seq<string>, pred: string -> bool)
    ensures Find(keys, pred).None? <==> forall k :: 0 <= k < |keys| ==> !pred(keys[k])
    ensures Find(keys, pred).Some? ==>
      exists k :: 0 <= k < |keys| && keys[k] == Find(keys, pred).value && pred(keys[k]) &&
        (forall j :: 0 <= j < k ==> !pred(keys[j]))
  {
    if keys != [] && !pred(keys[0]) {
      var tail := keys[1..];
      FindFirst(tail, pred);
      if Find(tail, pred).Some? {
        var k :| 0 <= k < |tail| && tail[k] == Find(tail, pred).value && pred(tail[k]) &&
          (forall j :: 0 <= j < k ==> !pred(tail[j]));
        assert keys[k + 1] == tail[k];
        forall j | 0 <= j < k + 1
          ensures !pred(keys[j])
        {
          if j > 0 {
            assert keys[j] == tail[j - 1];
          }
        }
      } else {
        forall j | 0 <= j < |keys|
          ensures !pred(keys[j])
        {
          if j > 0 {
            assert keys[j] == tail[j - 1];
          }
        }
      }
    }
  }

  /** `Object.keys(compilation.assets).find(f => path.extname(f) === '.appcache')`. */
  function FirstAppcache(assetKeys: seq<string>): Option<string> {
    Find(assetKeys, IsAppcache)
  }

  /** The manifest is the first asset key whose extension is `.appcache`, and there is none exactly when no key has it. */
  lemma FirstAppcacheFinds(assetKeys: seq<string>)
    ensures FirstAppcache(assetKeys).None? <==> forall k :: 0 <= k < |assetKeys| ==> !IsAppcache(assetKeys[k])
    ensures FirstAppcache(assetKeys).Some? ==>
      exists k :: 0 <= k < |assetKeys| && assetKeys[k] == FirstAppcache(assetKeys).value && IsAppcache(assetKeys[k]) &&
        (forall j :: 0 <= j < k ==> !IsAppcache(assetKeys[j]))
  {
    FindFirst(assetKeys, IsAppcache);
  }

  /** The public URLs of one entry's files: the prefix followed by the encoded path. */
  function EntryUrls(publicPath: string, files: seq<string>): (r: seq<string>)
    ensures |r| == |files|
  {
    seq(|files|, k requires 0 <= k < |files| => publicPath + UrlencodePath(files[k]))
  }

  /** Every URL in encounter order: entries in order, then each entry's files in order. */
  function AllUrls(publicPath: string, entries: seq<Entrypoint>): seq<string> {
    if entries == [] then []
    else AllUrls(publicPath, entries[..|entries| - 1]) + EntryUrls(publicPath, entries[|entries| - 1].files)
  }

  /** The two buckets built so far and the seen-table (`entryPointPublicPathMap`). */
  datatype Collected = Collected(js: seq<string>, css: seq<string>, seen: set<string>)

  /**
   * One URL of the loop: skipped when the pattern does not match or when it
   * was seen before; otherwise marked as seen and appended to its bucket,
   * `.mjs` going with `.js`.
   */
  function Step(c: Collected, url: string): Collected {
    match Exec(url)
    case None => c
    case Some(ext) =>
      if url in c.seen then c
      else if ext == Css then Collected(c.js, c.css + [url], c.seen + {url})
      else Collected(c.js + [url], c.css, c.seen + {url})
  }

  function Collect(urls: seq<string>): Collected {
    if urls == [] then Collected([], [], {})
    else Step(Collect(urls[..|urls| - 1]), urls[|urls| - 1])
  }

  lemma CollectSnoc(urls: seq<string>, url: string)
    ensures Collect(urls + [url]) == Step(Collect(urls), url)
  {
    assert (urls + [url])[..|urls|] == urls;
  }

  lemma SnocPrefix(before: seq<string>, urls: seq<string>, j: nat)
    requires j < |urls|
    ensures before + urls[..j + 1] == (before + urls[..j]) + [urls[j]]
  {
    assert urls[..j + 1] == urls[..j] + [urls[j]];
  }

  lemma AllUrlsSnoc(publicPath: string, entries: seq<Entrypoint>, i: nat)
    requires i < |entries|
    ensures AllUrls(publicPath, entries[..i + 1]) ==
      AllUrls(publicPath, entries[..i]) + EntryUrls(publicPath, entries[i].files)
  {
    assert entries[..i + 1][..i] == entries[..i];
  }

  /** The specification of `getAssets`. */
  function AssetsOf(webpackPublicPath: string, entries: seq<Entrypoint>, assetKeys: seq<string>)
    : Result<Assets, GetAssetsError>
  {
    match NormalizePublicPath(webpackPublicPath)
    case Err(e) => Err(e)
    case Ok(publicPath) =>
      var c := Collect(AllUrls(publicPath, entries));
      Ok(Assets(publicPath, c.js, c.css, FirstAppcache(assetKeys), None))
  }

  /**
   * `getAssets`, as the source computes it: the public path first, then one
   * pass over the entries and their files that appends to the two buckets and
   * records each URL taken in the seen-table.
   */
  method GetAssets(webpackPublicPath: string, entrypoints: seq<Entrypoint>, assetKeys: seq<string>)
    returns (r: Result<Assets, GetAssetsError>)
    ensures r == AssetsOf(webpackPublicPath, entrypoints, assetKeys)
  {
    var isPublicPathDefined := Trim(webpackPublicPath) != "";
    if !isPublicPathDefined {
      return Err(ReferenceError("childCompilationOutputName"));
    }
    var publicPath := webpackPublicPath;
    if |publicPath| > 0 && publicPath[|publicPath| - 1] != '/' {
      publicPath := publicPath + "/";
    }
    assert NormalizePublicPath(webpackPublicPath) == Ok(publicPath);
    var manifest := FirstAppcache(assetKeys);
    var js: seq<string>, css: seq<string> := [], [];
    var entryPointPublicPathMap: set<string> := {};
    ghost var consumed: seq<string> := [];
    var i := 0;
    while i < |entrypoints|
      invariant 0 <= i <= |entrypoints|
      invariant consumed == AllUrls(publicPath, entrypoints[..i])
      invariant Collect(consumed) == Collected(js, css, entryPointPublicPathMap)
    {
      var files := entrypoints[i].files;
      var entryPointPublicPaths := EntryUrls(publicPath, files);
      ghost var before := consumed;
      var j := 0;
      while j < |entryPointPublicPaths|
        invariant 0 <= j <= |entryPointPublicPaths|
        invariant consumed == before + entryPointPublicPaths[..j]
        invariant Collect(consumed) == Collected(js, css, entryPointPublicPathMap)
      {
        var url := entryPointPublicPaths[j];
        CollectSnoc(consumed, url);
        consumed := consumed + [url];
        var extMatch := Exec(url);
        if extMatch.Some? && url !in entryPointPublicPathMap {
          entryPointPublicPathMap := entryPointPublicPathMap + {url};
          var ext := if extMatch.value == Mjs then Js else extMatch.value;
          if ext == Css {
            css := css + [url];
          } else {
            js := js + [url];
          }
        }
        SnocPrefix(before, entryPointPublicPaths, j);
        j := j + 1;
      }
      AllUrlsSnoc(publicPath, entrypoints, i);
      assert entryPointPublicPaths[..j] == entryPointPublicPaths;
      i := i + 1;
    }
    assert entrypoints[..i] == entrypoints;
    return Ok(Assets(publicPath, js, css, manifest, None));
  }

  /** The position of the first occurrence of `x` in `s`. */
  function FirstIndex(s: seq<string>, x: string): (r: nat)
    requires x in s
    ensures r < |s| && s[r] == x
    ensures forall j :: 0 <= j < r ==> s[j] != x
  {
    if s[0] == x then 0 else 1 + FirstIndex(s[1..], x)
  }

  lemma FirstIndexSnoc(s: seq<string>, y: string, x: string)
    requires x in s + [y]
    ensures x in s ==> FirstIndex(s + [y], x) == FirstIndex(s, x)
    ensures x !in s ==> FirstIndex(s + [y], x) == |s|
  {
    var r := FirstIndex(s + [y], x);
    if x in s {
      var r0 := FirstIndex(s, x);
      assert (s + [y])[r0] == x;
      assert r <= r0;
      assert s[r] == x;
    }
  }

  /** The facts about a partial run of the loop that the lemmas below draw on. */
  ghost predicate WellCollected(urls: seq<string>, c: Collected) {
    && (forall u :: u in c.seen <==> u in c.js || u in c.css)
    && (forall p, q :: 0 <= p < q < |c.js| ==> c.js[p] != c.js[q])
    && (forall p, q :: 0 <= p < q < |c.css| ==> c.css[p] != c.css[q])
    && (forall u :: u in c.js ==> u !in c.css)
    && (forall p :: 0 <= p < |c.js| ==> c.js[p] in urls && Exec(c.js[p]) in {Some(Js), Some(Mjs)})
    && (forall p :: 0 <= p < |c.css| ==> c.css[p] in urls && Exec(c.css[p]) == Some(Css))
    && (forall u :: u in urls && Exec(u).Some? ==> u in c.seen)
    && (forall p, q :: 0 <= p < q < |c.js| ==> FirstIndex(urls, c.js[p]) < FirstIndex(urls, c.js[q]))
    && (forall p, q :: 0 <= p < q < |c.css| ==> FirstIndex(urls, c.css[p]) < FirstIndex(urls, c.css[q]))
  }

  /** Appending a URL to the list keeps the first positions of the URLs already there. */
  lemma FirstIndexesKept(urls: seq<string>, url: string)
    ensures forall x :: x in urls ==> x in urls + [url] && FirstIndex(urls + [url], x) == FirstIndex(urls, x)
  {
    forall x | x in urls
      ensures x in urls + [url] && FirstIndex(urls + [url], x) == FirstIndex(urls, x)
    {
      FirstIndexSnoc(urls, url, x);
    }
  }

  lemma StepSkipKeepsWellCollected(urls: seq<string>, c: Collected, url: string)
    requires WellCollected(urls, c)
    requires Exec(url).None? || url in c.seen
    ensures WellCollected(urls + [url], c)
  {
    FirstIndexesKept(urls, url);
  }

  /** A bucket that gains a URL not in the list keeps its elements in order of first position. */
  lemma AppendKeepsOrder(urls: seq<string>, bucket: seq<string>, url: string)
    requires url !in urls
    requires forall p :: 0 <= p < |bucket| ==> bucket[p] in urls
    requires forall p, q :: 0 <= p < q < |bucket| ==> FirstIndex(urls, bucket[p]) < FirstIndex(urls, bucket[q])
    ensures forall p :: 0 <= p < |bucket + [url]| ==> (bucket + [url])[p] in urls + [url]
    ensures forall p, q :: 0 <= p < q < |bucket + [url]| ==>
      FirstIndex(urls + [url], (bucket + [url])[p]) < FirstIndex(urls + [url], (bucket + [url])[q])
  {
    var b := bucket + [url];
    var all := urls + [url];
    forall p | 0 <= p < |b|
      ensures b[p] in all
    {
      if p < |bucket| {
        assert b[p] == bucket[p];
      }
    }
    FirstIndexSnoc(urls, url, url);
    forall p, q | 0 <= p < q < |b|
      ensures FirstIndex(all, b[p]) < FirstIndex(all, b[q])
    {
      assert b[p] == bucket[p];
      FirstIndexSnoc(urls, url, bucket[p]);
      if q < |bucket| {
        assert b[q] == bucket[q];
        FirstIndexSnoc(urls, url, bucket[q]);
      }
    }
  }

  lemma StepTakeKeepsWellCollected(urls: seq<string>, c: Collected, url: string)
    requires WellCollected(urls, c)
    requires Exec(url).Some? && url !in c.seen
    ensures WellCollected(urls + [url], Step(c, url))
  {
    assert url !in urls;
    assert url !in c.js && url !in c.css;
    FirstIndexesKept(urls, url);
    if Exec(url) == Some(Css) {
      AppendKeepsOrder(urls, c.css, url);
      assert Step(c, url) == Collected(c.js, c.css + [url], c.seen + {url});
    } else {
      AppendKeepsOrder(urls, c.js, url);
      assert Step(c, url) == Collected(c.js + [url], c.css, c.seen + {url});
    }
  }

  lemma {:induction false} CollectWellCollected(urls: seq<string>)
    ensures WellCollected(urls, Collect(urls))
  {
    if urls != [] {
      var init := urls[..|urls| - 1];
      CollectWellCollected(init);
      var url := urls[|urls| - 1];
      var c := Collect(init);
      assert init + [url] == urls;
      assert Collect(urls) == Step(c, url);
      if Exec(url).None? || url in c.seen {
        StepSkipKeepsWellCollected(init, c, url);
      } else {
        StepTakeKeepsWellCollected(init, c, url);
      }
    }
  }

  lemma AllUrlsHasFile(publicPath: string, entries: seq<Entrypoint>, i: nat, k: nat)
    requires i < |entries| && k < |entries[i].files|
    ensures publicPath + UrlencodePath(entries[i].files[k]) in AllUrls(publicPath, entries)
    decreases |entries|
  {
    var n := |entries| - 1;
    if i < n {
      AllUrlsHasFile(publicPath, entries[..n], i, k);
    } else {
      assert EntryUrls(publicPath, entries[n].files)[k] == publicPath + UrlencodePath(entries[i].files[k]);
    }
  }

  lemma AllUrlsFromFile(publicPath: string, entries: seq<Entrypoint>, url: string) returns (i: nat, k: nat)
    requires url in AllUrls(publicPath, entries)
    ensures i < |entries| && k < |entries[i].files| && url == publicPath + UrlencodePath(entries[i].files[k])
    decreases |entries|
  {
    var n := |entries| - 1;
    var last := EntryUrls(publicPath, entries[n].files);
    if url in last {
      i := n;
      k :| 0 <= k < |last| && last[k] == url;
    } else {
      i, k := AllUrlsFromFile(publicPath, entries[..n], url);
    }
  }

  /** The URLs in encounter order are exactly the prefixed, encoded paths of the entries' files. */
  lemma AllUrlsMembership(publicPath: string, entries: seq<Entrypoint>, url: string)
    ensures url in AllUrls(publicPath, entries) <==>
      exists i, k :: 0 <= i < |entries| && 0 <= k < |entries[i].files| &&
        url == publicPath + UrlencodePath(entries[i].files[k])
  {
    if url in AllUrls(publicPath, entries) {
      var i, k := AllUrlsFromFile(publicPath, entries, url);
    }
    if exists i, k :: 0 <= i < |entries| && 0 <= k < |entries[i].files| &&
        url == publicPath + UrlencodePath(entries[i].files[k]) {
      var i, k :| 0 <= i < |entries| && 0 <= k < |entries[i].files| &&
        url == publicPath + UrlencodePath(entries[i].files[k]);
      AllUrlsHasFile(publicPath, entries, i, k);
    }
  }

  /**
   * Every URL in a bucket is the public path followed by the encoded path of
   * some file of some entry, and the leftmost match of the extension pattern
   * put it there: `.css` in `css`, `.js` and `.mjs` in `js`.
   */
  lemma GetAssetsUrlsFromFiles(webpackPublicPath: string, entries: seq<Entrypoint>, assetKeys: seq<string>)
    requires AssetsOf(webpackPublicPath, entries, assetKeys).Ok?
    ensures var a := AssetsOf(webpackPublicPath, entries, assetKeys).value;
      && (forall p :: 0 <= p < |a.js| ==> Exec(a.js[p]) in {Some(Js), Some(Mjs)})
      && (forall p :: 0 <= p < |a.css| ==> Exec(a.css[p]) == Some(Css))
      && (forall url :: url in a.js || url in a.css ==>
            exists i, k :: 0 <= i < |entries| && 0 <= k < |entries[i].files| &&
              url == a.publicPath + UrlencodePath(entries[i].files[k]))
  {
    var a := AssetsOf(webpackPublicPath, entries, assetKeys).value;
    var urls := AllUrls(a.publicPath, entries);
    CollectWellCollected(urls);
    forall url | url in a.js || url in a.css
      ensures exists i, k ::
          0 <= i < |entries| && 0 <= k < |entries[i].files| && url == a.publicPath + UrlencodePath(entries[i].files[k])
    {
      assert url in urls;
      AllUrlsMembership(a.publicPath, entries, url);
    }
  }

  /**
   * Every file of every entry whose URL matches the extension pattern is in
   * exactly one bucket, the one its extension selects; a file whose URL does
   * not match (an image, a source map) is in neither.
   */
  lemma GetAssetsComplete(webpackPublicPath: string, entries: seq<Entrypoint>, assetKeys: seq<string>, i: nat, k: nat)
    requires AssetsOf(webpackPublicPath, entries, assetKeys).Ok?
    requires i < |entries| && k < |entries[i].files|
    ensures var a := AssetsOf(webpackPublicPath, entries, assetKeys).value;
      var url := a.publicPath + UrlencodePath(entries[i].files[k]);
      && (Exec(url).None? ==> url !in a.js && url !in a.css)
      && (Exec(url) == Some(Css) ==> url in a.css && url !in a.js)
      && (Exec(url) in {Some(Js), Some(Mjs)} ==> url in a.js && url !in a.css)
  {
    var a := AssetsOf(webpackPublicPath, entries, assetKeys).value;
    var urls := AllUrls(a.publicPath, entries);
    var url := a.publicPath + UrlencodePath(entries[i].files[k]);
    CollectWellCollected(urls);
    AllUrlsHasFile(a.publicPath, entries, i, k);
    WellCollectedPlaces(urls, Collect(urls), url);
  }

  /** A URL of the list sits in the bucket its extension selects, and only there. */
  lemma WellCollectedPlaces(urls: seq<string>, c: Collected, url: string)
    requires WellCollected(urls, c) && url in urls
    ensures Exec(url).None? ==> url !in c.js && url !in c.css
    ensures Exec(url) == Some(Css) ==> url in c.css && url !in c.js
    ensures Exec(url) in {Some(Js), Some(Mjs)} ==> url in c.js && url !in c.css
  {
    if url in c.js {
      var p :| 0 <= p < |c.js| && c.js[p] == url;
    }
    if url in c.css {
      var p :| 0 <= p < |c.css| && c.css[p] == url;
    }
  }

  lemma ConcatDistinct(xs: seq<string>, ys: seq<string>)
    requires forall p, q :: 0 <= p < q < |xs| ==> xs[p] != xs[q]
    requires forall p, q :: 0 <= p < q < |ys| ==> ys[p] != ys[q]
    requires forall u :: u in xs ==> u !in ys
    ensures forall p, q :: 0 <= p < q < |xs + ys| ==> (xs + ys)[p] != (xs + ys)[q]
  {
    var all := xs + ys;
    forall p, q | 0 <= p < q < |all|
      ensures all[p] != all[q]
    {
      if q >= |xs| {
        assert all[q] == ys[q - |xs|];
        if p < |xs| {
          assert all[p] == xs[p];
          assert xs[p] in xs;
        } else {
          assert all[p] == ys[p - |xs|];
        }
      }
    }
  }

  /** No URL occurs twice in `js` and `css` taken together. */
  lemma GetAssetsNoDuplicates(webpackPublicPath: string, entries: seq<Entrypoint>, assetKeys: seq<string>)
    requires AssetsOf(webpackPublicPath, entries, assetKeys).Ok?
    ensures var a := AssetsOf(webpackPublicPath, entries, assetKeys).value;
      forall p, q :: 0 <= p < q < |a.js + a.css| ==> (a.js + a.css)[p] != (a.js + a.css)[q]
  {
    var a := AssetsOf(webpackPublicPath, entries, assetKeys).value;
    CollectWellCollected(AllUrls(a.publicPath, entries));
    ConcatDistinct(a.js, a.css);
  }

  /**
   * Within each bucket the URLs keep the order in which the loop first met
   * them: entries in the given order, then each entry's files in order.
   */
  lemma GetAssetsFirstEncounterOrder(webpackPublicPath: string, entries: seq<Entrypoint>, assetKeys: seq<string>)
    requires AssetsOf(webpackPublicPath, entries, assetKeys).Ok?
    ensures var a := AssetsOf(webpackPublicPath, entries, assetKeys).value;
      var urls := AllUrls(a.publicPath, entries);
      && (forall p, q :: 0 <= p < q < |a.js| ==>
            a.js[p] in urls && a.js[q] in urls && FirstIndex(urls, a.js[p]) < FirstIndex(urls, a.js[q]))
      && (forall p, q :: 0 <= p < q < |a.css| ==>
            a.css[p] in urls && a.css[q] in urls && FirstIndex(urls, a.css[p]) < FirstIndex(urls, a.css[q]))
  {
    var a := AssetsOf(webpackPublicPath, entries, assetKeys).value;
    CollectWellCollected(AllUrls(a.publicPath, entries));
  }
}

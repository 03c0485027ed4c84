/**
 * Splitting a path on `/`, joining it back, and encoding it segment by segment,
 * as `urlencodePath` does with `split('/')`, `map(encodeURIComponent)` and `join('/')`.
 */
module UrlPath {
  import opened Wrappers
  import opened UriComponent

  function SlashCount(s: string): nat {
    if s == [] then 0 else (if s[0] == '/' then 1 else 0) + SlashCount(s[1..])
  }

  /**
   * `s.split('/')`: the pieces between separators, empty pieces included, so a
   * path with k separators has k + 1 pieces and `""` splits into `[""]`.
   */
  function Split(s: string): (parts: seq<string>)
    ensures |parts| == 1 + SlashCount(s)
    ensures forall k :: 0 <= k < |parts| ==> '/' !in parts[k]
  {
    if s == [] then [""]
    else
      var rest := Split(s[1..]);
      if s[0] == '/' then [""] + rest else [[s[0]] + rest[0]] + rest[1..]
  }

  /** `parts.join('/')`. */
  function Join(parts: seq<string>): string
    requires |parts| >= 1
  {
    if |parts| == 1 then parts[0] else parts[0] + "/" + Join(parts[1..])
  }

  /** Joining the pieces of a split gives back the string. */
  lemma {:induction false} JoinSplit(s: string)
    ensures Join(Split(s)) == s
  {
    if s != [] {
      var rest := Split(s[1..]);
      JoinSplit(s[1..]);
      if s[0] != '/' && |rest| > 1 {
        assert Join(rest) == rest[0] + "/" + Join(rest[1..]);
        assert [[s[0]] + rest[0]] + rest[1..] == [[s[0]] + rest[0]] + rest[1..];
        assert ([[s[0]] + rest[0]] + rest[1..])[1..] == rest[1..];
      } else if s[0] == '/' {
        assert ([""] + rest)[1..] == rest;
      }
    }
  }

  lemma {:induction false} SplitPrefix(a: string, rest: string)
    requires '/' !in a
    ensures Split(a + rest) == [a + Split(rest)[0]] + Split(rest)[1..]
  {
    if a != [] {
      SplitPrefix(a[1..], rest);
      assert (a + rest)[1..] == a[1..] + rest;
      assert [a[0]] + (a[1..] + Split(rest)[0]) == a + Split(rest)[0];
    } else {
      assert a + rest == rest;
      assert a + Split(rest)[0] == Split(rest)[0];
      assert Split(rest) == [Split(rest)[0]] + Split(rest)[1..];
    }
  }

  /** Splitting a join of pieces that hold no separator gives back the pieces. */
  lemma {:induction false} SplitJoin(parts: seq<string>)
    requires |parts| >= 1
    requires forall k :: 0 <= k < |parts| ==> '/' !in parts[k]
    ensures Split(Join(parts)) == parts
  {
    if |parts| == 1 {
      SplitPrefix(parts[0], "");
      assert parts[0] + "" == parts[0];
    } else {
      var tail := Join(parts[1..]);
      SplitJoin(parts[1..]);
      assert ("/" + tail)[1..] == tail;
      assert Split("/" + tail) == [""] + parts[1..];
      SplitPrefix(parts[0], "/" + tail);
      assert parts[0] + "/" + tail == parts[0] + ("/" + tail);
      assert parts[0] + "" == parts[0];
    }
  }

  lemma {:induction false} JoinAlphabet(parts: seq<string>)
    requires |parts| >= 1
    requires forall k, i :: 0 <= k < |parts| && 0 <= i < |parts[k]| ==> IsEncodedChar(parts[k][i])
    ensures forall i :: 0 <= i < |Join(parts)| ==> Join(parts)[i] == '/' || IsEncodedChar(Join(parts)[i])
  {
    if |parts| > 1 {
      JoinAlphabet(parts[1..]);
      var j := Join(parts);
      var tail := Join(parts[1..]);
      assert j == parts[0] + "/" + tail;
      forall i | 0 <= i < |j|
        ensures j[i] == '/' || IsEncodedChar(j[i])
      {
        if i < |parts[0]| {
          assert j[i] == parts[0][i];
        } else if i > |parts[0]| {
          assert j[i] == tail[i - |parts[0]| - 1];
        }
      }
    }
  }

  /** `parts.map(encodeURIComponent)`. */
  function EncodeSegments(parts: seq<string>): (r: seq<string>)
    ensures |r| == |parts|
    ensures forall k, i :: 0 <= k < |r| && 0 <= i < |r[k]| ==> IsEncodedChar(r[k][i])
  {
    seq(|parts|, k requires 0 <= k < |parts| => EncodeURIComponent(parts[k]))
  }

  /** `urlencodePath`: every `/`-separated segment percent-encoded on its own. */
  function UrlencodePath(filePath: string): string {
    Join(EncodeSegments(Split(filePath)))
  }

  /**
   * The `/` separators are the only characters of an encoded path outside the
   * encoder's alphabet; in particular it holds no `?`.
   */
  lemma UrlencodePathAlphabet(filePath: string)
    ensures forall i :: 0 <= i < |UrlencodePath(filePath)| ==>
      UrlencodePath(filePath)[i] == '/' || IsEncodedChar(UrlencodePath(filePath)[i])
    ensures '?' !in UrlencodePath(filePath)
  {
    JoinAlphabet(EncodeSegments(Split(filePath)));
  }

  /** Decodes every segment; `None` if one of them is malformed. */
  function DecodeSegments(parts: seq<string>): (r: Option<seq<string>>)
    ensures r.Some? ==> |r.value| == |parts|
  {
    if parts == [] then Some([])
    else
      match (DecodeURIComponent(parts[0]), DecodeSegments(parts[1..]))
      case (Some(d), Some(ds)) => Some([d] + ds)
      case _ => None
  }

  /** Undoes `urlencodePath` by decoding segment by segment. */
  function DecodePath(url: string): Option<string> {
    match DecodeSegments(Split(url))
    case None => None
    case Some(ds) => Some(Join(ds))
  }

  /**
   * `urlencodePath` keeps the `/` separators: the encoded path has the same
   * segments, in order, each the encoding of the input's segment, and
   * decoding a segment gives back the input segment.
   */
  lemma UrlencodePathSegments(filePath: string)
    ensures Split(UrlencodePath(filePath)) == EncodeSegments(Split(filePath))
    ensures |Split(UrlencodePath(filePath))| == |Split(filePath)|
    ensures forall k :: 0 <= k < |Split(filePath)| ==>
      DecodeURIComponent(Split(UrlencodePath(filePath))[k]) == Some(Split(filePath)[k])
  {
    var parts := Split(filePath);
    var encoded := EncodeSegments(parts);
    SplitJoin(encoded);
    forall k | 0 <= k < |parts|
      ensures DecodeURIComponent(encoded[k]) == Some(parts[k])
    {
      DecodeEncode(parts[k]);
    }
  }

  lemma {:induction false} DecodeEncodedSegments(parts: seq<string>)
    ensures DecodeSegments(EncodeSegments(parts)) == Some(parts)
  {
    if parts != [] {
      DecodeEncode(parts[0]);
      DecodeEncodedSegments(parts[1..]);
      assert EncodeSegments(parts)[1..] == EncodeSegments(parts[1..]);
      assert [parts[0]] + parts[1..] == parts;
    }
  }

  /** Decoding the encoded path segment by segment gives back the path. */
  lemma UrlencodePathRoundTrip(filePath: string)
    ensures DecodePath(UrlencodePath(filePath)) == Some(filePath)
  {
    UrlencodePathSegments(filePath);
    DecodeEncodedSegments(Split(filePath));
    JoinSplit(filePath);
  }
}

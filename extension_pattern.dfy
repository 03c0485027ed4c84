/**
 * `/\.(css|js|mjs)(\?|$)/.exec(url)`: the leftmost position where `.css`,
 * `.js` or `.mjs` is followed by `?` or by the end of the string, and which of
 * the three it is. The pattern is not anchored and has no flags, so `$` is the
 * end of the whole string.
 */
module ExtensionPattern {
  import opened Wrappers

  datatype Extension = Css | Js | Mjs

  /** `lit` occurs at position `i` of `s` and is followed by `?` or by the end of `s`. */
  predicate LiteralThenQueryOrEnd(s: string, i: nat, lit: string) {
    i + |lit| <= |s| && s[i..i + |lit|] == lit && (i + |lit| == |s| || s[i + |lit|] == '?')
  }

  /** The alternative that matches at position `i`; the three exclude each other. */
  function MatchAt(s: string, i: nat): Option<Extension> {
    if LiteralThenQueryOrEnd(s, i, ".css") then Some(Css)
    else if LiteralThenQueryOrEnd(s, i, ".js") then Some(Js)
    else if LiteralThenQueryOrEnd(s, i, ".mjs") then Some(Mjs)
    else None
  }

  /** Tries the positions from `i` onwards, left to right: the first match and its position. */
  function ExecFrom(s: string, i: nat): (r: Option<(nat, Extension)>)
    requires i <= |s|
    ensures r.Some? ==> i <= r.value.0 <= |s| && MatchAt(s, r.value.0) == Some(r.value.1)
    ensures r.Some? ==> forall j :: i <= j < r.value.0 ==> MatchAt(s, j) == None
    ensures r.None? ==> forall j :: i <= j <= |s| ==> MatchAt(s, j) == None
    decreases |s| - i
  {
    if MatchAt(s, i).Some? then Some((i, MatchAt(s, i).value))
    else if i == |s| then None
    else ExecFrom(s, i + 1)
  }

  /** The captured extension (`extMatch[1]`), or `None` where `exec` returns `null`. */
  function Exec(s: string): Option<Extension> {
    match ExecFrom(s, 0)
    case None => None
    case Some(m) => Some(m.1)
  }

  /**
   * `exec` yields an extension exactly when the pattern matches somewhere, and
   * then the alternative matched at the leftmost position where one matches.
   */
  lemma ExecLeftmost(s: string)
    ensures Exec(s).None? <==> forall j :: 0 <= j <= |s| ==> MatchAt(s, j) == None
    ensures Exec(s).Some? ==>
      exists k :: 0 <= k <= |s| && MatchAt(s, k) == Exec(s) && (forall j :: 0 <= j < k ==> MatchAt(s, j) == None)
  {
    var r := ExecFrom(s, 0);
    if r.Some? {
      assert MatchAt(s, r.value.0) == Exec(s);
    }
  }
}

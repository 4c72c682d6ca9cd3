/**
 * The cookie helpers: `setCookie` builds `name=value[; expires=...]; path=/`
 * and writes it to `document.cookie`; `getCookie` finds the first
 * `;`-separated piece of the decoded cookie text that contains the name,
 * trims it and strips the first `name=`; `isCookieTrue` compares that with
 * "true".
 */
module Cookies {
  import opened Options
  import opened JsStrings

  /** The `value` argument of `setCookie`: a string or a boolean. */
  datatype CookieValue = Text(text: string) | Flag(flag: bool)

  /** The value as written: a boolean becomes "true" or "false", a string is kept. */
  function FormatValue(value: CookieValue): (r: string)
    ensures value.Flag? ==> (r == "true" || r == "false") && (r == "true" <==> value.flag)
    ensures value.Text? ==> r == value.text
  {
    match value
    case Text(t) => t
    case Flag(b) => if b then "true" else "false"
  }

  /** `!!expDays`: an absent or zero day count sets no expiry. */
  predicate HasExpiry(expDays: Option<int>)
    ensures HasExpiry(expDays) <==> expDays != None && expDays != Some(0)
  {
    expDays.Some? && expDays.value != 0
  }

  /**
   * The text `setCookie` assigns to `document.cookie`. `expires` is the
   * `toUTCString()` of now plus `expDays` days, computed by the caller.
   */
  function CookieText(name: string, value: CookieValue, expDays: Option<int>, expires: string): (r: string)
    ensures |r| > |name| && r[..|name| + 1] == name + "="
    ensures |r| >= 8 && r[|r| - 8..] == "; path=/"
  {
    name + "=" + FormatValue(value)
    + (if HasExpiry(expDays) then "; expires=" + expires else "")
    + "; path=/"
  }

  /**
   * The text is the bare `name=value; path=/` exactly when no expiry is set;
   * otherwise the `; expires=E` part sits between the value and the path.
   */
  lemma CookieTextExpiry(name: string, value: CookieValue, expDays: Option<int>, expires: string)
    ensures CookieText(name, value, expDays, expires) == name + "=" + FormatValue(value) + "; path=/"
            <==> !HasExpiry(expDays)
    ensures HasExpiry(expDays) ==>
      CookieText(name, value, expDays, expires) == name + "=" + FormatValue(value) + "; expires=" + expires + "; path=/"
  {
  }

  /** The attributes after the pair, without their leading `;`. */
  function Attributes(expDays: Option<int>, expires: string): string
  {
    if HasExpiry(expDays) then " expires=" + expires + "; path=/" else " path=/"
  }

  /** The `; path=/` suffix is a `;` and the path attribute. */
  lemma PathSuffix(pair: string)
    ensures pair + "" + "; path=/" == pair + [';'] + " path=/"
  {
    assert "; path=/" == [';'] + " path=/";
  }

  /** The `; expires=E; path=/` suffix is a `;` and the attributes. */
  lemma ExpiresSuffix(pair: string, expires: string)
    ensures pair + ("; expires=" + expires) + "; path=/" == pair + [';'] + (" expires=" + expires + "; path=/")
  {
    assert "; expires=" == [';'] + " expires=";
  }

  /** The written text is the pair, a `;`, and the attributes. */
  lemma CookieTextParts(name: string, value: CookieValue, expDays: Option<int>, expires: string)
    ensures CookieText(name, value, expDays, expires)
         == name + "=" + FormatValue(value) + [';'] + Attributes(expDays, expires)
  {
    var pair := name + "=" + FormatValue(value);
    if HasExpiry(expDays) {
      ExpiresSuffix(pair, expires);
    } else {
      PathSuffix(pair);
    }
  }

  /** The attributes split into ` expires=E` when an expiry is set, then ` path=/`. */
  lemma AttributesSegments(expDays: Option<int>, expires: string)
    requires ';' !in expires
    ensures Split(Attributes(expDays, expires), ';')
         == (if HasExpiry(expDays) then [" expires=" + expires] else []) + [" path=/"]
  {
    var path := " path=/";
    assert ';' !in path;
    SplitWithoutSep(path, ';');
    if HasExpiry(expDays) {
      var e := " expires=" + expires;
      assert "; path=/" == [';'] + path;
      assert Attributes(expDays, expires) == e + [';'] + path;
      SplitFirst(e, ';', path);
    }
  }

  /** A `;`-free pair followed by `;` and the attributes splits into the pair and their pieces. */
  lemma PairThenAttributesSegments(pair: string, expDays: Option<int>, expires: string)
    requires ';' !in pair && ';' !in expires
    ensures Split(pair + [';'] + Attributes(expDays, expires), ';')
         == [pair] + (if HasExpiry(expDays) then [" expires=" + expires] else []) + [" path=/"]
  {
    AttributesSegments(expDays, expires);
    SplitFirst(pair, ';', Attributes(expDays, expires));
  }

  /**
   * The written text consists of `name=value`, then ` expires=E` exactly
   * when an expiry is set, then ` path=/`, as `;`-separated pieces.
   */
  lemma CookieTextSegments(name: string, value: CookieValue, expDays: Option<int>, expires: string)
    requires ';' !in name && ';' !in FormatValue(value) && ';' !in expires
    ensures Split(CookieText(name, value, expDays, expires), ';')
         == [name + "=" + FormatValue(value)]
            + (if HasExpiry(expDays) then [" expires=" + expires] else [])
            + [" path=/"]
  {
    CookieTextParts(name, value, expDays, expires);
    PairThenAttributesSegments(name + "=" + FormatValue(value), expDays, expires);
  }

  /** The first piece of the written text is the `name=value` pair, whatever the expiry text. */
  lemma CookieTextFirstPiece(name: string, value: CookieValue, expDays: Option<int>, expires: string)
    requires ';' !in name && ';' !in FormatValue(value)
    ensures Split(CookieText(name, value, expDays, expires), ';')[0] == name + "=" + FormatValue(value)
  {
    CookieTextParts(name, value, expDays, expires);
    SplitFirst(name + "=" + FormatValue(value), ';', Attributes(expDays, expires));
  }

  /** Index of the first piece that contains `name` (`find` with `includes`). */
  function FindContaining(parts: seq<string>, name: string): (r: Option<nat>)
    ensures r.None? <==> forall k :: 0 <= k < |parts| ==> !Includes(parts[k], name)
    ensures r.Some? ==> r.value < |parts| && Includes(parts[r.value], name)
    ensures r.Some? ==> forall k :: 0 <= k < r.value ==> !Includes(parts[k], name)
  {
    if |parts| == 0 then None
    else if Includes(parts[0], name) then Some(0)
    else
      var rest := parts[1..];
      assert forall k :: 0 < k < |parts| ==> parts[k] == rest[k - 1];
      match FindContaining(rest, name)
      case None => None
      case Some(i) => Some(i + 1)
  }

  /**
   * `getCookie`'s parse of the already-decoded cookie text: undefined when no
   * piece contains `name`; otherwise the first such piece, trimmed, with its
   * first `name=` removed.
   */
  function ParseCookie(decoded: string, name: string): (r: Option<string>)
    ensures r.None? <==>
      forall k :: 0 <= k < |Split(decoded, ';')| ==> !Includes(Split(decoded, ';')[k], name)
  {
    var parts := Split(decoded, ';');
    var found := FindContaining(parts, name);
    if found.None? then None
    else
      assert Includes(Split(decoded, ';')[found.value], name);
      Some(RemoveFirst(Trim(parts[found.value]), name + "="))
  }

  /** The piece `getCookie` reads is the first one that contains `name`. */
  lemma ParseCookieAt(decoded: string, name: string, k: nat)
    requires k < |Split(decoded, ';')| && Includes(Split(decoded, ';')[k], name)
    requires forall j :: 0 <= j < k ==> !Includes(Split(decoded, ';')[j], name)
    ensures ParseCookie(decoded, name) == Some(RemoveFirst(Trim(Split(decoded, ';')[k]), name + "="))
  {
    var found := FindContaining(Split(decoded, ';'), name);
    assert found == Some(k);
  }

  /** A piece whose trimmed text lacks `name=` is returned trimmed but otherwise as it is. */
  lemma ParseCookieWithoutPair(decoded: string, name: string, k: nat)
    requires k < |Split(decoded, ';')| && Includes(Split(decoded, ';')[k], name)
    requires forall j :: 0 <= j < k ==> !Includes(Split(decoded, ';')[j], name)
    requires !Includes(Trim(Split(decoded, ';')[k]), name + "=")
    ensures ParseCookie(decoded, name) == Some(Trim(Split(decoded, ';')[k]))
  {
    ParseCookieAt(decoded, name, k);
  }

  /** A `name=v` pair is non-empty and, under these conditions, has no white space at either end. */
  lemma PairEnds(name: string, v: string)
    requires name == [] || !IsWhiteSpace(name[0])
    requires v == [] || !IsWhiteSpace(v[|v| - 1])
    ensures var pair := name + "=" + v;
      |pair| > 0 && !IsWhiteSpace(pair[0]) && !IsWhiteSpace(pair[|pair| - 1])
  {
    var pair := name + "=" + v;
    assert !IsWhiteSpace('=');
    if name == [] { assert pair[0] == '='; } else { assert pair[0] == name[0]; }
    if v == [] { assert pair[|pair| - 1] == '='; } else { assert pair[|pair| - 1] == v[|v| - 1]; }
  }

  /** A `name=v` pair that neither starts nor ends in white space is left alone by `trim`. */
  lemma TrimPair(name: string, v: string)
    requires name == [] || !IsWhiteSpace(name[0])
    requires v == [] || !IsWhiteSpace(v[|v| - 1])
    ensures Trim(name + "=" + v) == name + "=" + v
  {
    PairEnds(name, v);
  }

  /** White space before a `name=v` pair is dropped by `trim`. */
  lemma TrimPaddedPair(pad: string, name: string, v: string)
    requires forall j :: 0 <= j < |pad| ==> IsWhiteSpace(pad[j])
    requires name == [] || !IsWhiteSpace(name[0])
    requires v == [] || !IsWhiteSpace(v[|v| - 1])
    ensures Trim(pad + (name + "=" + v)) == name + "=" + v
  {
    PairEnds(name, v);
    TrimStartPadded(pad, name + "=" + v);
  }

  /** A `name=v` pair contains `name`. */
  lemma PairIncludesName(name: string, v: string)
    ensures Includes(name + "=" + v, name)
  {
  }

  /** A pair after white space contains `name`. */
  lemma PaddedPairIncludesName(pad: string, name: string, v: string)
    ensures Includes(pad + (name + "=" + v), name)
  {
    assert OccursAt(pad + (name + "=" + v), name, |pad|);
  }

  /** A pair after a prefix contains `name` too. */
  lemma PrefixedPairIncludesName(prefix: string, name: string, v: string)
    ensures Includes(prefix + name + "=" + v, name)
  {
    assert OccursAt(prefix + name + "=" + v, name, |prefix|);
  }

  /** If the first piece containing `name` trims to `name=v`, the value is `v`. */
  lemma ParsePairAt(decoded: string, parts: seq<string>, name: string, k: nat, v: string)
    requires Split(decoded, ';') == parts
    requires k < |parts| && Includes(parts[k], name) && Trim(parts[k]) == name + "=" + v
    requires forall j :: 0 <= j < k ==> !Includes(parts[j], name)
    ensures ParseCookie(decoded, name) == Some(v)
  {
    ParseCookieAt(decoded, name, k);
    RemoveFirstAtStart(name + "=", v);
  }

  /** If the text's first piece trims to `name=v`, `getCookie` returns `v`. */
  lemma ParseTrimmedFirstPiece(decoded: string, name: string, v: string)
    requires Includes(Split(decoded, ';')[0], name)
    requires Trim(Split(decoded, ';')[0]) == name + "=" + v
    ensures ParseCookie(decoded, name) == Some(v)
  {
    ParseCookieAt(decoded, name, 0);
    RemoveFirstAtStart(name + "=", v);
  }

  /** If the text's first piece is a `name=v` pair, `getCookie` returns `v`. */
  lemma ParseFirstPair(decoded: string, name: string, v: string)
    requires Split(decoded, ';')[0] == name + "=" + v
    requires name == [] || !IsWhiteSpace(name[0])
    requires v == [] || !IsWhiteSpace(v[|v| - 1])
    ensures ParseCookie(decoded, name) == Some(v)
  {
    assert Includes(Split(decoded, ';')[0], name) by {
      PairIncludesName(name, v);
    }
    assert Trim(Split(decoded, ';')[0]) == name + "=" + v by {
      TrimPair(name, v);
    }
    ParseTrimmedFirstPiece(decoded, name, v);
  }

  /**
   * In a `;`-joined list of pieces, if the first piece that contains `name`
   * is `name=v` (after optional leading white space, such as the blank after
   * each `;` in `document.cookie`), `getCookie` returns `v`.
   */
  lemma ParseCookieOfPairs(parts: seq<string>, name: string, k: nat, pad: string, v: string)
    requires forall j :: 0 <= j < |parts| ==> ';' !in parts[j]
    requires k < |parts| && parts[k] == pad + (name + "=" + v)
    requires forall j :: 0 <= j < |pad| ==> IsWhiteSpace(pad[j])
    requires name == [] || !IsWhiteSpace(name[0])
    requires v == [] || !IsWhiteSpace(v[|v| - 1])
    requires forall j :: 0 <= j < k ==> !Includes(parts[j], name)
    ensures ParseCookie(Join(parts, ';'), name) == Some(v)
  {
    SplitJoin(parts, ';');
    assert Includes(parts[k], name) by {
      PaddedPairIncludesName(pad, name, v);
    }
    assert Trim(parts[k]) == name + "=" + v by {
      TrimPaddedPair(pad, name, v);
    }
    ParsePairAt(Join(parts, ';'), parts, name, k, v);
  }

  /**
   * `decodeURIComponent` only rewrites `%` escapes (and throws on a malformed
   * one), so it returns text without `%` unchanged.
   */
  predicate Unescaped(s: string)
  {
    '%' !in s
  }

  /**
   * Round trip: when the cookie store holds only the text `setCookie` wrote,
   * parsing it gives back the formatted value. The text must survive
   * decoding unchanged, and neither name nor value may hold a `;`.
   */
  lemma ParseCookieText(name: string, value: CookieValue, expDays: Option<int>, expires: string)
    requires ';' !in name && ';' !in FormatValue(value)
    requires Unescaped(name) && Unescaped(FormatValue(value)) && Unescaped(expires)
    requires name == [] || !IsWhiteSpace(name[0])
    requires FormatValue(value) == [] || !IsWhiteSpace(FormatValue(value)[|FormatValue(value)| - 1])
    ensures ParseCookie(CookieText(name, value, expDays, expires), name) == Some(FormatValue(value))
  {
    CookieTextFirstPiece(name, value, expDays, expires);
    ParseFirstPair(CookieText(name, value, expDays, expires), name, FormatValue(value));
  }

  /** The text of a flag parses as "true" exactly when the flag is set. */
  lemma ParseFlagIsTrue(name: string, flag: bool, expDays: Option<int>, expires: string)
    requires ';' !in name
    requires Unescaped(name) && Unescaped(expires)
    requires name == [] || !IsWhiteSpace(name[0])
    ensures ParseCookie(CookieText(name, Flag(flag), expDays, expires), name) == Some("true") <==> flag
  {
    ParseCookieText(name, Flag(flag), expDays, expires);
  }

  /** With no `=` before it, `name=` is first found right after `prefix`. */
  lemma RemoveFirstPair(prefix: string, name: string, v: string)
    requires '=' !in prefix && '=' !in name
    ensures RemoveFirst(prefix + name + "=" + v, name + "=") == prefix + v
  {
    var s := prefix + name + "=" + v;
    var pat := name + "=";
    var at := |prefix|;
    assert OccursAt(s, pat, at) by {
      assert s == prefix + pat + v;
    }
    forall j: nat | j < at ensures !OccursAt(s, pat, j) {
      // the character where `name=` would need its `=` still lies in `prefix + name`
      assert s[j + |name|] == (prefix + name)[j + |name|];
      assert s[j + |name|] != pat[|name|];
      if j + |pat| <= |s| {
        assert s[j..j + |pat|][|name|] == s[j + |name|];
      }
    }
    assert IndexOf(s, pat) == Some(at);
    assert s[..at] == prefix;
    assert s[at + |pat|..] == v;
  }

  /**
   * Substring matching: when a longer cookie name ends in `name` (such as
   * `username` for `name`) and comes first, `getCookie(name)` reads that
   * cookie and strips only `name=` from it, so `username=bob` yields
   * "userbob" whatever the other pieces are.
   */
  lemma ParseCookieSubstringQuirk(parts: seq<string>, prefix: string, name: string, v: string)
    requires forall j :: 0 <= j < |parts| ==> ';' !in parts[j]
    requires |parts| > 0 && parts[0] == prefix + name + "=" + v
    requires '=' !in prefix && '=' !in name
    requires |prefix| > 0 && !IsWhiteSpace(prefix[0])
    requires v == [] || !IsWhiteSpace(v[|v| - 1])
    ensures ParseCookie(Join(parts, ';'), name) == Some(prefix + v)
  {
    SplitJoin(parts, ';');
    PrefixedPairIncludesName(prefix, name, v);
    ParseCookieAt(Join(parts, ';'), name, 0);
    assert Trim(parts[0]) == parts[0] by {
      assert (prefix + name)[0] == prefix[0];
      TrimPair(prefix + name, v);
    }
    RemoveFirstPair(prefix, name, v);
  }

  /** The browser's `document.cookie`, as the text last written to it. */
  class CookieJar {
    /** `typeof window === "object"`: false when the code runs outside a browser. */
    const windowIsObject: bool
    var jar: string

    constructor (windowIsObject: bool, jar: string)
      ensures this.windowIsObject == windowIsObject && this.jar == jar
    {
      this.windowIsObject := windowIsObject;
      this.jar := jar;
    }

    /** `setCookie`: writes the cookie text; outside a browser it writes nothing. */
    method SetCookie(name: string, value: CookieValue, expDays: Option<int>, expires: string)
      modifies this
      ensures jar == if windowIsObject then CookieText(name, value, expDays, expires) else old(jar)
    {
      if windowIsObject {
        jar := CookieText(name, value, expDays, expires);
      }
    }

    /** `getCookie`: undefined outside a browser, otherwise the parse of the jar. */
    function GetCookie(name: string): (r: Option<string>)
      reads this
      ensures !windowIsObject ==> r.None?
      ensures windowIsObject ==> r == ParseCookie(jar, name)
    {
      if windowIsObject then ParseCookie(jar, name) else None
    }

    /** `isCookieTrue`: the cookie is present and its value is exactly "true". */
    predicate IsCookieTrue(name: string)
      reads this
      ensures IsCookieTrue(name) ==> windowIsObject
      ensures IsCookieTrue(name) <==> GetCookie(name) == Some("true")
    {
      GetCookie(name) == Some("true")
    }
  }

  /**
   * Setting a boolean cookie and asking `isCookieTrue` gives back the boolean,
   * when the store holds only that cookie.
   */
  method SetFlagThenCheck(cookies: CookieJar, name: string, flag: bool, expDays: Option<int>, expires: string)
    returns (isTrue: bool)
    requires cookies.windowIsObject
    requires ';' !in name
    requires Unescaped(name) && Unescaped(expires)
    requires name == [] || !IsWhiteSpace(name[0])
    modifies cookies
    ensures isTrue == flag
  {
    cookies.SetCookie(name, Flag(flag), expDays, expires);
    ParseFlagIsTrue(name, flag, expDays, expires);
    isTrue := cookies.IsCookieTrue(name);
  }
}

/**
 * A simplified stand-in for the WHATWG URL parser that `new URL(...)` runs. A URL is
 * its lower-cased scheme and everything after the first `:`. Parsing fails exactly
 * when there is no valid scheme. Resolution of a relative reference follows the
 * shape of reference resolution in section 5.2.2 of RFC 3986. It does not remove
 * dot segments and does no other normalisation.
 */
module Url {
  import opened Wrappers
  import opened Strings

  datatype Url = Url(scheme: string, rest: string)

  /** The message of the TypeError the URL constructor throws. */
  const InvalidUrlMessage := "Invalid URL"

  /** `url.protocol`: the scheme with its colon. */
  function Protocol(u: Url): string
  {
    u.scheme + ":"
  }

  /** `url.href`. */
  function Href(u: Url): string
  {
    u.scheme + ":" + u.rest
  }

  predicate IsAlpha(c: char)
  {
    ('A' <= c <= 'Z') || ('a' <= c <= 'z')
  }

  /** scheme = ALPHA *( ALPHA / DIGIT / "+" / "-" / "." ), section 3.1 of RFC 3986. */
  predicate ValidScheme(s: string)
  {
    |s| > 0 && IsAlpha(s[0]) &&
    forall i :: 1 <= i < |s| ==> IsAlpha(s[i]) || ('0' <= s[i] <= '9') || s[i] in {'+', '-', '.'}
  }

  /** The position of the first `:`, when what precedes it is a valid scheme. */
  function SchemeEnd(s: string): (r: Option<nat>)
    ensures r.Some? ==> r.value < |s| && s[r.value] == ':' && ValidScheme(s[..r.value])
  {
    var i := IndexOfAny(s, {':'});
    if i < |s| && ValidScheme(s[..i]) then Some(i) else None
  }

  predicate HasScheme(s: string)
  {
    SchemeEnd(s).Some?
  }

  /** `new URL(s)`: Failure carries the message of the thrown TypeError. */
  function Parse(s: string): (r: Result<Url, string>)
    ensures r.Failure? <==> !HasScheme(s)
    ensures r.Failure? ==> r.error == InvalidUrlMessage
    ensures r.Success? ==> ValidScheme(r.value.scheme) && IsLower(r.value.scheme)
  {
    match SchemeEnd(s)
    case None => Failure(InvalidUrlMessage)
    case Some(i) =>
      ToLowerIsLower(s[..i]);
      Success(Url(ToLower(s[..i]), s[i + 1..]))
  }

  /** The `//host` part of what follows the scheme, or "" when there is none. */
  function AuthorityPart(rest: string): (a: string)
    ensures StartsWith(rest, a)
  {
    if StartsWith(rest, "//") then
      var hostEnd := 2 + IndexOfAny(rest[2..], {'/', '?', '#'});
      rest[..hostEnd]
    else ""
  }

  /** Everything before the first character of `cs`. */
  function Before(rest: string, cs: set<char>): (r: string)
    ensures StartsWith(rest, r)
  {
    rest[..IndexOfAny(rest, cs)]
  }

  /** The authority and the path up to and including its last `/`: the base a relative path is merged onto. */
  function Directory(rest: string): string
  {
    var hier := Before(rest, {'?', '#'});
    var auth := AuthorityPart(rest);
    assert StartsWith(hier, auth) by {
      assert |auth| <= |hier| by {
        if auth != "" {
          assert IndexOfAny(rest, {'?', '#'}) >= |auth| by {
            assert forall k :: 0 <= k < |auth| ==> rest[k] !in {'?', '#'};
          }
        }
      }
    }
    var path := hier[|auth|..];
    var slash := LastIndexOf(path, '/');
    if slash >= 0 then auth + path[..slash + 1]
    else if auth != "" then auth + "/"
    else ""
  }

  /** `new URL(ref, base)`. */
  function Resolve(ref: string, base: Url): (u: Url)
    ensures HasScheme(ref) ==> Parse(ref) == Success(u)
    ensures !HasScheme(ref) ==> u.scheme == base.scheme
  {
    match Parse(ref)
    case Success(absolute) => absolute
    case Failure(_) =>
      if StartsWith(ref, "//") then Url(base.scheme, ref)
      else if StartsWith(ref, "/") then Url(base.scheme, AuthorityPart(base.rest) + ref)
      else if ref == "" then Url(base.scheme, Before(base.rest, {'#'}))
      else if StartsWith(ref, "?") then Url(base.scheme, Before(base.rest, {'?', '#'}) + ref)
      else if StartsWith(ref, "#") then Url(base.scheme, Before(base.rest, {'#'}) + ref)
      else Url(base.scheme, Directory(base.rest) + ref)
  }

  // ---------- properties ----------

  /** Parsing the href of a URL with a valid lower-case scheme gives that URL back. */
  lemma ParseHref(u: Url)
    requires ValidScheme(u.scheme) && IsLower(u.scheme)
    ensures Parse(Href(u)) == Success(u)
  {
    var i := |u.scheme|;
    var h := Href(u);
    assert h[..i] == u.scheme && h[i] == ':' && h[i + 1..] == u.rest;
    assert forall k :: 0 <= k < i ==> h[k] != ':' by {
      forall k | 0 <= k < i ensures h[k] != ':' {
        assert h[k] == u.scheme[k];
      }
    }
    IndexOfAnyIsFirst(h, {':'}, i);
    LowerOfLower(u.scheme);
  }

  /** Serialising a parsed URL and parsing it again gives the same URL. */
  lemma ParseHrefOfParse(s: string)
    requires Parse(s).Success?
    ensures Parse(Href(Parse(s).value)) == Parse(s)
  {
    ParseHref(Parse(s).value);
  }

  lemma IndexOfAnyIsFirst(s: string, cs: set<char>, i: nat)
    requires i < |s| && s[i] in cs
    requires forall k :: 0 <= k < i ==> s[k] !in cs
    ensures IndexOfAny(s, cs) == i
  {
  }

  /** A parsed URL's href is the input with its scheme lower-cased. */
  lemma HrefOfParse(s: string)
    requires Parse(s).Success?
    ensures |Href(Parse(s).value)| == |s|
    ensures Href(Parse(s).value) == ToLower(s[..SchemeEnd(s).value]) + s[SchemeEnd(s).value..]
  {
    var i := SchemeEnd(s).value;
    assert s[i..] == [':'] + s[i + 1..];
  }

  /** The protocol is `https:` exactly when the input begins with `https:` in any letter case. */
  lemma ProtocolHttps(s: string)
    requires Parse(s).Success?
    ensures Protocol(Parse(s).value) == "https:" <==> StartsWith(ToLower(s), "https:")
  {
    if Protocol(Parse(s).value) == "https:" {
      HttpsProtocolPrefix(s);
    }
    if StartsWith(ToLower(s), "https:") {
      HttpsPrefixProtocol(s);
    }
  }

  lemma HttpsProtocolPrefix(s: string)
    requires Parse(s).Success? && Protocol(Parse(s).value) == "https:"
    ensures StartsWith(ToLower(s), "https:")
  {
    var i := SchemeEnd(s).value;
    var scheme := Parse(s).value.scheme;
    assert scheme == ToLower(s[..i]);
    assert scheme + ":" == "https:";
    assert |scheme| == 5 && i == 5;
    var low := ToLower(s);
    forall k | 0 <= k < 6
      ensures low[k] == "https:"[k]
    {
      if k < 5 {
        assert low[k] == LowerChar(s[k]) && scheme[k] == LowerChar(s[..5][k]);
        assert scheme[k] == (scheme + ":")[k];
      }
    }
    assert low[..6] == "https:";
  }

  lemma HttpsPrefixProtocol(s: string)
    requires StartsWith(ToLower(s), "https:")
    ensures Parse(s).Success? && Protocol(Parse(s).value) == "https:"
  {
    var low := ToLower(s);
    assert low[5] == ':';
    assert s[5] == ':';
    forall k | 0 <= k < 5
      ensures s[k] != ':' && IsAlpha(s[k])
    {
      assert low[k] == "https:"[k];
    }
    IndexOfAnyIsFirst(s, {':'}, 5);
    assert ValidScheme(s[..5]);
    assert ToLower(s[..5]) == low[..5];
  }

  /** A path-absolute reference keeps the base's scheme and authority and replaces the rest. */
  lemma ResolveAbsolutePath(ref: string, base: Url)
    requires StartsWith(ref, "/") && !StartsWith(ref, "//")
    ensures Href(Resolve(ref, base)) == base.scheme + ":" + AuthorityPart(base.rest) + ref
  {
    assert !HasScheme(ref) by {
      var i := IndexOfAny(ref, {':'});
      if i < |ref| {
        assert !IsAlpha(ref[..i][0]);
      }
    }
  }
}

/**
 * `UrlNormalizer`: the canonical form under which the crawler stores and compares URLs,
 * and the host it compares for scope. Both trim the input, assume `http://` when the
 * text has no `://`, and hand the rest to the URL parser.
 */
module UrlNormalizer {
  import opened Wrappers
  import opened Strings
  import Url

  /** The text handed to the parser: `http://` is prepended when `://` is absent. */
  function WithScheme(t: string): (r: string)
    ensures Contains(r, "://")
    ensures Contains(t, "://") ==> r == t
  {
    if Contains(t, "://") then t
    else
      assert "http://" + t == "http" + ("://" + t);
      Url.SchemeSeparator("http", t);
      "http://" + t
  }

  /** The input is not blank and its trimmed form, with the assumed scheme, parses. */
  predicate Parses(u: string) {
    Trim(u) != [] && Url.Parse(WithScheme(Trim(u))).Some?
  }

  /** What the parser makes of a non-blank input. */
  function Parsed(u: string): Url.Url
    requires Parses(u)
  {
    Url.Parse(WithScheme(Trim(u))).value
  }

  /** `UrlNormalizer.normalize`. */
  function Normalize(url: Option<string>): (r: Option<string>)
    ensures r.None? <==> url.None?
  {
    match url
    case None => None
    case Some(u) =>
      if Trim(u) == [] then Some(u)
      else
        match Url.Parse(WithScheme(Trim(u)))
        case None => Some(u)
        case Some(parsed) => Some(Url.Serialize(parsed.(fragment := None)))
  }

  /** `UrlNormalizer.extractSubdomain`: the lower-cased host, if the input parses. */
  function ExtractSubdomain(url: Option<string>): (r: Option<string>)
    ensures r.Some? ==> Url.IsHostText(r.value) && ToLower(r.value) == r.value
  {
    match url
    case None => None
    case Some(u) =>
      if Trim(u) == [] then None
      else
        match Url.Parse(WithScheme(Trim(u)))
        case None => None
        case Some(parsed) =>
          Url.ParseIsWellFormed(WithScheme(Trim(u)));
          ToLowerIdempotent(parsed.host);
          Some(ToLower(parsed.host))
  }

  /** The URL a successful normalization serializes. */
  function Canonical(u: string): (v: Url.Url)
    requires Parses(u)
    ensures Url.WellFormed(v) && v.fragment.None?
  {
    Url.ParseIsWellFormed(WithScheme(Trim(u)));
    Parsed(u).(fragment := None)
  }

  /** A failed or blank normalization returns the original text, untrimmed. */
  lemma NormalizeFallsBack(u: string)
    requires !Parses(u)
    ensures Normalize(Some(u)) == Some(u)
  {
  }

  /** A successful normalization is the parsed URL without its fragment, re-serialized. */
  lemma NormalizeSucceeds(u: string)
    requires Parses(u)
    ensures Normalize(Some(u)) == Some(Url.Serialize(Canonical(u)))
  {
  }

  /** The text a successful normalization gives parses back to the same URL, which has no fragment. */
  lemma NormalizedParsesBack(u: string)
    requires Parses(u)
    ensures Url.Parse(Normalize(Some(u)).value) == Some(Canonical(u))
    ensures '#' !in Normalize(Some(u)).value
  {
    var v := Canonical(u);
    Url.RoundTrip(v);
    SerializeHasNoHash(v);
  }

  lemma SerializeHasNoHash(v: Url.Url)
    requires Url.WellFormed(v) && v.fragment.None?
    ensures '#' !in Url.Serialize(v)
  {
    var pt := Url.PortText(Url.PortDigits(v.port));
    var qt := Url.QueryText(v.query);
    assert '#' !in v.scheme by { Url.SpecialSchemeText(v.scheme); assert v.scheme in {"http", "https", "ws", "wss", "ftp"}; }
    assert forall i :: 0 <= i < |v.host| ==> v.host[i] != '#';
    assert forall i :: 0 <= i < |pt| ==> pt[i] != '#';
    assert forall i :: 0 <= i < |v.path| ==> v.path[i] != '#';
    assert forall i :: 0 <= i < |qt| ==> qt[i] != '#';
    assert Url.Serialize(v) == v.scheme + ("://" + (v.host + (pt + (v.path + (qt + "")))));
  }

  /** Normalizing twice gives what normalizing once gives, for every input. */
  lemma NormalizeIdempotent(url: Option<string>)
    ensures Normalize(Normalize(url)) == Normalize(url)
  {
    if url.Some? && Parses(url.value) {
      var v := Canonical(url.value);
      var r := Url.Serialize(v);
      Url.SerializeIsTrimmed(v);
      Url.SerializeHasSeparator(v);
      Url.RoundTrip(v);
      assert WithScheme(Trim(r)) == r;
      assert v.(fragment := None) == v;
    }
  }

  /** The host seen in a normalized url is the host seen in the original input. */
  lemma ExtractSubdomainOfNormalized(url: Option<string>)
    ensures ExtractSubdomain(Normalize(url)) == ExtractSubdomain(url)
  {
    if url.Some? && Parses(url.value) {
      var v := Canonical(url.value);
      var r := Url.Serialize(v);
      Url.SerializeIsTrimmed(v);
      Url.SerializeHasSeparator(v);
      Url.RoundTrip(v);
      assert WithScheme(Trim(r)) == r;
      Url.ParseIsWellFormed(WithScheme(Trim(url.value)));
      ToLowerIdempotent(v.host);
    }
  }

  /** Whitespace around a parseable input does not change its normal form. */
  lemma NormalizeIgnoresPadding(w1: string, u: string, w2: string)
    requires AllTrimmable(w1) && AllTrimmable(w2)
    requires Parses(u)
    ensures Normalize(Some(w1 + u + w2)) == Normalize(Some(u))
  {
    TrimPadding(w1, u, w2);
  }

  /** `http://` in front of a trimmed, non-blank input leaves nothing to trim. */
  lemma HttpPrefixIsTrimmed(u: string)
    requires Trim(u) != []
    ensures Trim("http://" + Trim(u)) == "http://" + Trim(u)
  {
    var t := Trim(u);
    TrimIdempotent(u);
    var s := "http://" + t;
    assert s[0] == 'h' && s[|s| - 1] == t[|t| - 1];
    TrimNoop(s);
  }

  /** Without `://` the input is handed over behind `http://`. */
  lemma WithSchemeAddsHttp(t: string)
    requires !Contains(t, "://")
    ensures WithScheme(t) == "http://" + t
  {
  }

  /** Text that already went through `WithScheme` is left alone by it. */
  lemma WithSchemeKeeps(t: string)
    ensures WithScheme(WithScheme(t)) == WithScheme(t)
  {
  }

  /** Without `://`, the parser sees the trimmed input behind `http://`, which is its own trimmed, schemed form. */
  lemma HttpWrapped(u: string)
    requires Trim(u) != [] && !Contains(Trim(u), "://")
    ensures var h := "http://" + Trim(u);
            WithScheme(Trim(u)) == h && Trim(h) == h && h != [] && WithScheme(h) == h
  {
    WithSchemeAddsHttp(Trim(u));
    HttpPrefixIsTrimmed(u);
    WithSchemeKeeps(Trim(u));
  }

  lemma HttpSplit(t: string)
    ensures "http://" + t == "http" + ("://" + t)
  {
  }

  /** Text behind `http://` that parses is an `http` URL. */
  lemma HttpScheme(t: string)
    requires Url.Parse("http://" + t).Some?
    ensures Url.Parse("http://" + t).value.scheme == "http"
  {
    HttpSplit(t);
    Url.ParseWithScheme("http", t);
  }

  /** Inputs the parser sees as the same text normalize alike. */
  lemma SameParserInput(u: string, v: string)
    requires Trim(u) != [] && Trim(v) != [] && WithScheme(Trim(u)) == WithScheme(Trim(v))
    ensures Parses(u) == Parses(v)
    ensures Parses(u) ==> Normalize(Some(u)) == Normalize(Some(v)) && Canonical(u) == Canonical(v)
  {
  }

  /** An input without `://` is read as an `http` URL. */
  lemma NormalizeAssumesHttp(u: string)
    requires Trim(u) != [] && !Contains(Trim(u), "://")
    ensures Parses(u) == Parses("http://" + Trim(u))
    ensures Parses(u) ==> Canonical(u).scheme == "http"
    ensures Parses(u) ==> Normalize(Some(u)) == Normalize(Some("http://" + Trim(u)))
  {
    var t := Trim(u);
    var h := "http://" + t;
    HttpWrapped(u);
    SameParserInput(u, h);
    if Parses(u) {
      HttpScheme(t);
    }
  }

  /**
   * Normalizing the text of a URL lower-cases its scheme and host, drops a default port
   * and keeps any other, keeps the path (empty as "/") and query up to percent-encoding,
   * and drops the fragment.
   */
  lemma NormalizeComposed(scheme: string, host: string, port: Option<string>, path: string,
                          query: Option<string>, fragment: Option<string>)
    requires ':' !in scheme && Url.DefaultPort(ToLower(scheme)).Some?
    requires Url.IsHostText(host)
    requires port.Some? ==> Url.ParsePort(port.value, ToLower(scheme)).Some?
    requires path == [] || path[0] == '/' || path[0] == '\\'
    requires '?' !in path && '#' !in path
    requires query.Some? ==> '#' !in query.value
    requires Url.NoTabOrNewline(Url.Compose(scheme, host, port, path, query, fragment))
    requires Trim(Url.Compose(scheme, host, port, path, query, fragment)) == Url.Compose(scheme, host, port, path, query, fragment)
    ensures Normalize(Some(Url.Compose(scheme, host, port, path, query, fragment))) ==
            Some(Url.Serialize(Url.Url(ToLower(scheme), ToLower(host), Url.PortValue(port, ToLower(scheme)),
                                       Url.PathOf(path), Url.EncodedQuery(query), None)))
  {
    var s := Url.Compose(scheme, host, port, path, query, fragment);
    Url.SchemeSeparator(scheme, Url.ComposeAfterScheme(host, port, path, query, fragment));
    Url.ParseComposed(scheme, host, port, path, query, fragment);
  }
}

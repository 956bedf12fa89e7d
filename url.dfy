/**
 * A simplified model of the URL parsing and serializing algorithms of the WHATWG URL
 * Standard (sections 4.4 and 4.5), for the `scheme://host[:port][path][?query][#fragment]`
 * shape of the special schemes, as the crawler's URL library applies them.
 *
 * Modelled: removal of ASCII tab and newline, ASCII lower-casing of scheme and host,
 * rejection of an empty host or of a host with a forbidden domain code point, port
 * parsing (at most 65535, empty means absent, the scheme's default port dropped), a
 * backslash in the path read as a slash, an empty path serialized as "/", and
 * percent-encoding of the path, query and fragment with the path, special-query and
 * fragment percent-encode sets, as the current standard defines them (section 1.3 of
 * the standard; its path set includes `^`).
 */
module Url {
  import opened Wrappers
  import opened Strings

  /** A parsed URL. `port` is absent when the text had none or had the default one. */
  datatype Url = Url(
    scheme: string,
    host: string,
    port: Option<nat>,
    path: string,
    query: Option<string>,
    fragment: Option<string>)

  /** The special schemes with a host, and their default ports. */
  function DefaultPort(scheme: string): Option<nat> {
    if scheme == "http" || scheme == "ws" then Some(80)
    else if scheme == "https" || scheme == "wss" then Some(443)
    else if scheme == "ftp" then Some(21)
    else None
  }

  lemma SpecialSchemeText(scheme: string)
    requires DefaultPort(scheme).Some?
    ensures ':' !in scheme && ToLower(scheme) == scheme
    ensures scheme != [] && !IsTrimmable(scheme[0]) && NoTabOrNewline(scheme)
  {
  }

  predicate IsTabOrNewline(c: char) {
    c == '\t' || c == '\n' || c == '\r'
  }

  predicate NoTabOrNewline(s: string) {
    forall i :: 0 <= i < |s| ==> !IsTabOrNewline(s[i])
  }

  /** The input without ASCII tab and newline characters, as the parser first does. */
  function RemoveTabOrNewline(s: string): (r: string)
    ensures NoTabOrNewline(r)
    ensures NoTabOrNewline(s) ==> r == s
  {
    if s == [] then []
    else (if IsTabOrNewline(s[0]) then [] else [s[0]]) + RemoveTabOrNewline(s[1..])
  }

  lemma {:induction false} RemoveTabOrNewlineAppend(a: string, b: string)
    ensures RemoveTabOrNewline(a + b) == RemoveTabOrNewline(a) + RemoveTabOrNewline(b)
  {
    if a != [] {
      assert (a + b)[0] == a[0] && (a + b)[1..] == a[1..] + b;
      RemoveTabOrNewlineAppend(a[1..], b);
      var h := if IsTabOrNewline(a[0]) then [] else [a[0]];
      var ra, rb := RemoveTabOrNewline(a[1..]), RemoveTabOrNewline(b);
      assert RemoveTabOrNewline(a + b) == h + (ra + rb);
      assert RemoveTabOrNewline(a) == h + ra;
      assert h + (ra + rb) == (h + ra) + rb;
    } else {
      assert a + b == b;
    }
  }

  /** Forbidden domain code points: C0 controls, space, DEL and `#%/:<>?@[\]^|`. */
  predicate IsForbiddenDomainChar(c: char) {
    c as int <= 0x20 || c as int == 0x7F || c in "#%/:<>?@[\\]^|"
  }

  /** A host character of the model: ASCII and not forbidden. */
  predicate IsHostChar(c: char) {
    c as int < 0x80 && !IsForbiddenDomainChar(c)
  }

  predicate IsHostText(s: string) {
    s != [] && forall i :: 0 <= i < |s| ==> IsHostChar(s[i])
  }

  /** The C0 control percent-encode set: C0 controls and everything above `~`. */
  predicate InC0ControlSet(c: char) {
    c as int <= 0x1F || c as int > 0x7E
  }

  /** The query percent-encode set. */
  predicate InQuerySet(c: char) {
    InC0ControlSet(c) || c == ' ' || c == '"' || c == '#' || c == '<' || c == '>'
  }

  /** The special-query percent-encode set, used for the special schemes. */
  predicate InSpecialQuerySet(c: char) {
    InQuerySet(c) || c == '\''
  }

  /** The path percent-encode set. */
  predicate InPathSet(c: char) {
    InQuerySet(c) || c == '?' || c == '^' || c == '`' || c == '{' || c == '}'
  }

  /** The fragment percent-encode set. */
  predicate InFragmentSet(c: char) {
    InC0ControlSet(c) || c == ' ' || c == '"' || c == '<' || c == '>' || c == '`'
  }

  /** The UTF-8 encoding of a Unicode scalar value. */
  function Utf8(c: char): (bs: seq<nat>)
    ensures 1 <= |bs| <= 4
    ensures forall i :: 0 <= i < |bs| ==> bs[i] < 256
  {
    var n := c as int;
    if n < 0x80 then [n]
    else if n < 0x800 then [0xC0 + n / 64, 0x80 + n % 64]
    else if n < 0x10000 then [0xE0 + n / 4096, 0x80 + (n / 64) % 64, 0x80 + n % 64]
    else [0xF0 + n / 262144, 0x80 + (n / 4096) % 64, 0x80 + (n / 64) % 64, 0x80 + n % 64]
  }

  function HexDigit(d: nat): char
    requires d < 16
  {
    if d < 10 then DigitChar(d) else ('A' as int + d - 10) as char
  }

  /** The characters percent-encoding produces: `%` and upper-case hexadecimal digits. */
  predicate IsEncodingChar(c: char) {
    c == '%' || IsDigit(c) || 'A' <= c <= 'F'
  }

  function PercentEncodeBytes(bs: seq<nat>): (r: string)
    requires forall i :: 0 <= i < |bs| ==> bs[i] < 256
    ensures forall i :: 0 <= i < |r| ==> IsEncodingChar(r[i])
  {
    if bs == [] then []
    else ['%', HexDigit(bs[0] / 16), HexDigit(bs[0] % 16)] + PercentEncodeBytes(bs[1..])
  }

  /** `%XX` for every byte of the UTF-8 encoding of `c`. */
  function PercentEncode(c: char): (r: string)
    ensures forall i :: 0 <= i < |r| ==> IsEncodingChar(r[i])
  {
    PercentEncodeBytes(Utf8(c))
  }

  /** A path character that serializes as itself. */
  predicate IsPathClean(c: char) {
    !InPathSet(c) && c != '\\'
  }

  predicate AllPathClean(s: string) {
    forall i :: 0 <= i < |s| ==> IsPathClean(s[i])
  }

  function PathChar(c: char): (r: string)
    ensures AllPathClean(r)
    ensures IsPathClean(c) ==> r == [c]
    ensures c == '/' || c == '\\' ==> r == "/"
  {
    if c == '\\' then "/" else if InPathSet(c) then PercentEncode(c) else [c]
  }

  /** The path as the parser stores it: backslashes read as slashes, the path set encoded. */
  function EncodePath(s: string): (r: string)
    ensures AllPathClean(r)
    ensures AllPathClean(s) ==> r == s
    ensures s != [] && (s[0] == '/' || s[0] == '\\') ==> r != [] && r[0] == '/'
  {
    if s == [] then [] else PathChar(s[0]) + EncodePath(s[1..])
  }

  /** A query character that serializes as itself. */
  predicate IsQueryClean(c: char) {
    !InSpecialQuerySet(c)
  }

  predicate AllQueryClean(s: string) {
    forall i :: 0 <= i < |s| ==> IsQueryClean(s[i])
  }

  function QueryChar(c: char): (r: string)
    ensures AllQueryClean(r)
    ensures IsQueryClean(c) ==> r == [c]
  {
    if InSpecialQuerySet(c) then PercentEncode(c) else [c]
  }

  /** The query as the parser stores it, the special-query set encoded. */
  function EncodeQuery(s: string): (r: string)
    ensures AllQueryClean(r)
    ensures AllQueryClean(s) ==> r == s
  {
    if s == [] then [] else QueryChar(s[0]) + EncodeQuery(s[1..])
  }

  /** A fragment character that serializes as itself. */
  predicate IsFragmentClean(c: char) {
    !InFragmentSet(c)
  }

  predicate AllFragmentClean(s: string) {
    forall i :: 0 <= i < |s| ==> IsFragmentClean(s[i])
  }

  function FragmentChar(c: char): (r: string)
    ensures AllFragmentClean(r)
    ensures IsFragmentClean(c) ==> r == [c]
  {
    if InFragmentSet(c) then PercentEncode(c) else [c]
  }

  /** The fragment as the parser stores it, the fragment set encoded. */
  function EncodeFragment(s: string): (r: string)
    ensures AllFragmentClean(r)
    ensures AllFragmentClean(s) ==> r == s
  {
    if s == [] then [] else FragmentChar(s[0]) + EncodeFragment(s[1..])
  }

  /** `^` is in the path set: the parser stores it as `%5E`. */
  lemma CaretEncoded()
    ensures InPathSet('^') && PathChar('^') == "%5E"
  {
    assert Utf8('^') == [0x5E];
    assert HexDigit(5) == '5' && HexDigit(14) == 'E';
    assert PercentEncodeBytes([0x5E]) == ['%', '5', 'E'] + PercentEncodeBytes([]);
  }

  /** A space and a backquote are in the fragment set; `#` is not. */
  lemma FragmentEncoded()
    ensures InFragmentSet(' ') && InFragmentSet('`') && FragmentChar('#') == "#"
  {
  }

  /** The stored path for the text between the authority and the query: "/" when empty. */
  function PathOf(raw: string): (r: string)
    requires raw == [] || raw[0] == '/' || raw[0] == '\\'
    ensures r != [] && r[0] == '/' && AllPathClean(r)
  {
    if raw == [] then "/" else EncodePath(raw)
  }

  /** The port for the digits after the host's colon; the outer `None` is a parse failure. */
  function ParsePort(digits: string, scheme: string): (r: Option<Option<nat>>)
    ensures r.Some? && r.value.Some? ==> r.value.value <= 65535 && r.value != DefaultPort(scheme)
  {
    if digits == [] then Some(None)
    else if !AllDigits(digits) then None
    else
      var v := DigitsValue(digits);
      if v > 65535 then None
      else if Some(v) == DefaultPort(scheme) then Some(None)
      else Some(Some(v))
  }

  datatype Authority = Authority(host: string, port: Option<nat>)

  /** The host and port of `host[:port]`, or `None` on a parse failure. */
  function ParseAuthority(authority: string, scheme: string): (r: Option<Authority>)
    ensures r.Some? ==> IsHostText(r.value.host) && ToLower(r.value.host) == r.value.host
    ensures r.Some? && r.value.port.Some? ==>
              r.value.port.value <= 65535 && r.value.port != DefaultPort(scheme)
  {
    var c := FindFirst(authority, {':'});
    var host := authority[..c];
    var port := if c == |authority| then Some(None) else ParsePort(authority[c + 1..], scheme);
    if !IsHostText(host) || port.None? then None
    else
      ToLowerHostText(host);
      ToLowerIdempotent(host);
      Some(Authority(ToLower(host), port.value))
  }

  datatype Tail = Tail(path: string, query: Option<string>, fragment: Option<string>)

  /** Path, query and fragment of the text that follows the authority. */
  function ParseTail(tail: string): (r: Tail)
    requires tail == [] || tail[0] in AuthorityEnd
    ensures r.path != [] && r.path[0] == '/' && AllPathClean(r.path)
    ensures r.query.Some? ==> AllQueryClean(r.query.value)
    ensures r.fragment.Some? ==> AllFragmentClean(r.fragment.value)
  {
    var q := FindFirst(tail, {'?', '#'});
    var afterPath := tail[q..];
    var h := FindFirst(afterPath, {'#'});
    var fragment := afterPath[h..];
    Tail(PathOf(tail[..q]),
         if h == 0 then None else Some(EncodeQuery(afterPath[1..h])),
         if fragment == [] then None else Some(EncodeFragment(fragment[1..])))
  }

  /** The characters that end the authority of a special URL. */
  const AuthorityEnd: set<char> := {'/', '\\', '?', '#'}

  /** What follows `scheme://`, for an already lower-cased scheme. */
  function ParseHierarchical(scheme: string, rest: string): (r: Option<Url>)
    ensures r.Some? ==> r.value.scheme == scheme && DefaultPort(scheme).Some?
  {
    if DefaultPort(scheme).None? then None
    else
      var a := FindFirst(rest, AuthorityEnd);
      match ParseAuthority(rest[..a], scheme)
      case None => None
      case Some(auth) =>
        var t := ParseTail(rest[a..]);
        Some(Url(scheme, auth.host, auth.port, t.path, t.query, t.fragment))
  }

  /** Parse text already free of tabs and newlines: the scheme, then what follows `://`. */
  function ParseCleaned(s: string): Option<Url> {
    match IndexOf(s, "://")
    case None => None
    case Some(i) => ParseHierarchical(ToLower(s[..i]), s[i + 3..])
  }

  /** Parse `input`, or `None` where the URL library reports a parse error. */
  function Parse(input: string): Option<Url> {
    ParseCleaned(RemoveTabOrNewline(input))
  }

  function PortText(port: Option<string>): string {
    match port
    case None => ""
    case Some(d) => ":" + d
  }

  function QueryText(query: Option<string>): string {
    match query
    case None => ""
    case Some(q) => "?" + q
  }

  function FragmentText(fragment: Option<string>): string {
    match fragment
    case None => ""
    case Some(f) => "#" + f
  }

  /** The text `host[:port]path[?query][#fragment]`. */
  function ComposeAfterScheme(host: string, port: Option<string>, path: string,
                              query: Option<string>, fragment: Option<string>): string
  {
    host + (PortText(port) + (path + (QueryText(query) + FragmentText(fragment))))
  }

  /** The text `scheme://host[:port]path[?query][#fragment]`. */
  function Compose(scheme: string, host: string, port: Option<string>, path: string,
                   query: Option<string>, fragment: Option<string>): string
  {
    scheme + ("://" + ComposeAfterScheme(host, port, path, query, fragment))
  }

  function PortDigits(port: Option<nat>): Option<string> {
    match port
    case None => None
    case Some(n) => Some(NatToString(n))
  }

  /** The URL serializer. */
  function Serialize(u: Url): string {
    Compose(u.scheme, u.host, PortDigits(u.port), u.path, u.query, u.fragment)
  }

  /** What every URL the parser produces satisfies. */
  predicate WellFormed(u: Url) {
    && DefaultPort(u.scheme).Some?
    && IsHostText(u.host) && ToLower(u.host) == u.host
    && (u.port.Some? ==> u.port.value <= 65535 && u.port != DefaultPort(u.scheme))
    && u.path != [] && u.path[0] == '/' && AllPathClean(u.path)
    && (u.query.Some? ==> AllQueryClean(u.query.value))
    && (u.fragment.Some? ==> AllFragmentClean(u.fragment.value))
  }

  lemma SuffixKeepsNoTabOrNewline(s: string, k: nat)
    requires k <= |s|
    ensures NoTabOrNewline(s) ==> NoTabOrNewline(s[k..])
  {
    assert forall i :: 0 <= i < |s| - k ==> s[k..][i] == s[k + i];
  }

  lemma NoTabOrNewlinePrefix(s: string, k: nat)
    requires NoTabOrNewline(s) && k <= |s|
    ensures NoTabOrNewline(s[..k])
  {
  }

  lemma ToLowerHostText(s: string)
    requires IsHostText(s)
    ensures IsHostText(ToLower(s))
  {
  }

  /** Every URL the parser produces is well formed. */
  lemma ParseIsWellFormed(input: string)
    requires Parse(input).Some?
    ensures WellFormed(Parse(input).value)
  {
    var s := RemoveTabOrNewline(input);
    var i := IndexOf(s, "://").value;
    var rest := s[i + 3..];
    var a := FindFirst(rest, AuthorityEnd);
    SuffixKeepsNoTabOrNewline(s, i + 3);
    SuffixKeepsNoTabOrNewline(rest, a);
  }

  /** The query the parser stores for a query text given without its `?`. */
  function EncodedQuery(query: Option<string>): Option<string> {
    match query
    case None => None
    case Some(q) => Some(EncodeQuery(q))
  }

  /** The fragment the parser stores for a fragment text given without its `#`. */
  function EncodedFragment(fragment: Option<string>): Option<string> {
    match fragment
    case None => None
    case Some(f) => Some(EncodeFragment(f))
  }

  /** The query and fragment texts: the fragment starts after the query's text. */
  lemma QueryThenFragment(query: Option<string>, fragment: Option<string>)
    requires query.Some? ==> '#' !in query.value
    ensures var qt, ft := QueryText(query), FragmentText(fragment);
            && (qt + ft == [] || (qt + ft)[0] in {'?', '#'})
            && FindFirst(qt + ft, {'#'}) == |qt|
            && (qt + ft)[|qt|..] == ft
            && (query.None? <==> |qt| == 0)
            && (query.Some? ==> (qt + ft)[1..|qt|] == query.value)
            && (fragment.None? <==> ft == [])
            && (fragment.Some? ==> ft[1..] == fragment.value)
  {
    var qt, ft := QueryText(query), FragmentText(fragment);
    assert qt != [] ==> (qt + ft)[0] == '?';
    assert qt == [] && ft != [] ==> (qt + ft)[0] == '#';
    FindFirstConcat(qt, ft, {'#'});
    assert (qt + ft)[|qt|..] == ft;
    assert qt != [] ==> (qt + ft)[1..|qt|] == query.value;
  }

  /** The path ends where the query or fragment text starts. */
  lemma PathThenRest(path: string, after: string)
    requires path == [] || path[0] == '/' || path[0] == '\\'
    requires '?' !in path && '#' !in path
    requires after == [] || after[0] in {'?', '#'}
    ensures var tail := path + after;
            && (tail == [] || tail[0] in AuthorityEnd)
            && FindFirst(tail, {'?', '#'}) == |path|
            && tail[..|path|] == path && tail[|path|..] == after
  {
    var tail := path + after;
    assert path != [] ==> tail[0] == path[0];
    assert path == [] && after != [] ==> tail[0] == after[0];
    FindFirstConcat(path, after, {'?', '#'});
    assert tail[..|path|] == path && tail[|path|..] == after;
  }

  lemma ParseTailComposed(path: string, query: Option<string>, fragment: Option<string>)
    requires path == [] || path[0] == '/' || path[0] == '\\'
    requires '?' !in path && '#' !in path
    requires query.Some? ==> '#' !in query.value
    ensures var tail := path + (QueryText(query) + FragmentText(fragment));
            (tail == [] || tail[0] in AuthorityEnd) &&
            ParseTail(tail) == Tail(PathOf(path), EncodedQuery(query), EncodedFragment(fragment))
  {
    QueryThenFragment(query, fragment);
    PathThenRest(path, QueryText(query) + FragmentText(fragment));
  }

  /** The port value the parser gives for the digits `port`, read for `scheme`. */
  function PortValue(port: Option<string>, scheme: string): Option<nat>
    requires port.Some? ==> ParsePort(port.value, scheme).Some?
  {
    match port
    case None => None
    case Some(d) => ParsePort(d, scheme).value
  }

  /** In `host[:port]` the host ends at the first colon, and the port digits follow it. */
  lemma HostThenPort(host: string, port: Option<string>)
    requires IsHostText(host)
    ensures var authority := host + PortText(port);
            && FindFirst(authority, {':'}) == |host|
            && authority[..|host|] == host
            && (port.None? <==> |host| == |authority|)
            && (port.Some? ==> authority[|host| + 1..] == port.value)
  {
    var authority := host + PortText(port);
    assert forall j :: 0 <= j < |host| ==> host[j] != ':';
    assert port.Some? ==> authority[|host|] == ':';
    FindFirstConcat(host, PortText(port), {':'});
    assert authority[..|host|] == host;
    assert port.Some? ==> authority[|host| + 1..] == port.value;
  }

  lemma ParseAuthorityComposed(host: string, port: Option<string>, scheme: string)
    requires IsHostText(host)
    requires port.Some? ==> ParsePort(port.value, scheme).Some?
    ensures ParseAuthority(host + PortText(port), scheme) ==
            Some(Authority(ToLower(host), PortValue(port, scheme)))
  {
    var authority := host + PortText(port);
    HostThenPort(host, port);
    assert authority[..FindFirst(authority, {':'})] == host;
    if port.Some? {
      assert authority[FindFirst(authority, {':'}) + 1..] == port.value;
    }
  }

  lemma SchemeSeparator(scheme: string, rest: string)
    requires ':' !in scheme
    ensures var s := scheme + ("://" + rest);
            IndexOf(s, "://") == Some(|scheme|) && s[..|scheme|] == scheme && s[|scheme| + 3..] == rest
  {
    var s := scheme + ("://" + rest);
    assert s[|scheme|..|scheme| + 3] == "://";
    forall j: nat | j < |scheme| ensures !OccursAt(s, "://", j) {
      assert s[j] == scheme[j];
    }
    IndexOfIsFirst(s, "://", |scheme|);
    assert s[..|scheme|] == scheme;
    assert s[|scheme| + 3..] == rest;
  }

  lemma CleanAfterScheme(scheme: string, rest: string)
    requires NoTabOrNewline(scheme)
    ensures RemoveTabOrNewline(scheme + ("://" + rest)) == scheme + ("://" + RemoveTabOrNewline(rest))
  {
    assert RemoveTabOrNewline("://") == "://";
    RemoveTabOrNewlineAppend("://", rest);
    RemoveTabOrNewlineAppend(scheme, "://" + rest);
  }

  lemma ParseCleanedAfterScheme(scheme: string, rest: string)
    requires ':' !in scheme
    ensures ParseCleaned(scheme + ("://" + rest)) == ParseHierarchical(ToLower(scheme), rest)
  {
    SchemeSeparator(scheme, rest);
  }

  /** Tabs and newlines after a separator-free scheme are removed from the rest only. */
  lemma ParseAfterScheme(scheme: string, rest: string)
    requires ':' !in scheme && NoTabOrNewline(scheme)
    ensures Parse(scheme + ("://" + rest)) == ParseHierarchical(ToLower(scheme), RemoveTabOrNewline(rest))
  {
    CleanAfterScheme(scheme, rest);
    ParseCleanedAfterScheme(scheme, RemoveTabOrNewline(rest));
  }

  /** Text that parses after a special scheme gets that scheme. */
  lemma ParseWithScheme(scheme: string, rest: string)
    requires DefaultPort(scheme).Some?
    requires Parse(scheme + ("://" + rest)).Some?
    ensures Parse(scheme + ("://" + rest)).value.scheme == scheme
  {
    SpecialSchemeText(scheme);
    ParseAfterScheme(scheme, rest);
  }

  lemma AuthorityHasNoEnd(host: string, port: Option<string>, scheme: string)
    requires IsHostText(host)
    requires port.Some? ==> ParsePort(port.value, scheme).Some?
    ensures forall j :: 0 <= j < |host + PortText(port)| ==> (host + PortText(port))[j] !in AuthorityEnd
  {
    var pt := PortText(port);
    forall j | 0 <= j < |host + pt| ensures (host + pt)[j] !in AuthorityEnd {
      if j < |host| {
        assert (host + pt)[j] == host[j];
      } else {
        assert (host + pt)[j] == pt[j - |host|];
      }
    }
  }

  lemma ParseHierarchicalSplit(scheme: string, authority: string, tail: string, auth: Authority)
    requires DefaultPort(scheme).Some?
    requires forall j :: 0 <= j < |authority| ==> authority[j] !in AuthorityEnd
    requires tail == [] || tail[0] in AuthorityEnd
    requires ParseAuthority(authority, scheme) == Some(auth)
    ensures var t := ParseTail(tail);
            ParseHierarchical(scheme, authority + tail) ==
            Some(Url(scheme, auth.host, auth.port, t.path, t.query, t.fragment))
  {
    FindFirstConcat(authority, tail, AuthorityEnd);
    assert (authority + tail)[..|authority|] == authority;
    assert (authority + tail)[|authority|..] == tail;
  }

  /** What follows the scheme, split after the authority `host[:port]`. */
  lemma ParseAfterAuthority(scheme: string, host: string, port: Option<string>, tail: string)
    requires DefaultPort(scheme).Some?
    requires IsHostText(host)
    requires port.Some? ==> ParsePort(port.value, scheme).Some?
    requires tail == [] || tail[0] in AuthorityEnd
    ensures var t := ParseTail(tail);
            ParseHierarchical(scheme, host + (PortText(port) + tail)) ==
            Some(Url(scheme, ToLower(host), PortValue(port, scheme), t.path, t.query, t.fragment))
  {
    var authority := host + PortText(port);
    assert host + (PortText(port) + tail) == authority + tail;
    AuthorityHasNoEnd(host, port, scheme);
    ParseAuthorityComposed(host, port, scheme);
    ParseHierarchicalSplit(scheme, authority, tail, Authority(ToLower(host), PortValue(port, scheme)));
  }

  lemma ParseHierarchicalComposed(scheme: string, host: string, port: Option<string>, path: string,
                                  query: Option<string>, fragment: Option<string>)
    requires DefaultPort(scheme).Some?
    requires IsHostText(host)
    requires port.Some? ==> ParsePort(port.value, scheme).Some?
    requires path == [] || path[0] == '/' || path[0] == '\\'
    requires '?' !in path && '#' !in path
    requires query.Some? ==> '#' !in query.value
    ensures ParseHierarchical(scheme, host + (PortText(port) + (path + (QueryText(query) + FragmentText(fragment))))) ==
            Some(Url(scheme, ToLower(host), PortValue(port, scheme), PathOf(path), EncodedQuery(query),
                     EncodedFragment(fragment)))
  {
    ParseTailComposed(path, query, fragment);
    ParseAfterAuthority(scheme, host, port, path + (QueryText(query) + FragmentText(fragment)));
  }

  /** Parsing the text of well-behaved components gives back those components, normalized. */
  lemma ParseComposed(scheme: string, host: string, port: Option<string>, path: string,
                      query: Option<string>, fragment: Option<string>)
    requires ':' !in scheme && DefaultPort(ToLower(scheme)).Some?
    requires IsHostText(host)
    requires port.Some? ==> ParsePort(port.value, ToLower(scheme)).Some?
    requires path == [] || path[0] == '/' || path[0] == '\\'
    requires '?' !in path && '#' !in path
    requires query.Some? ==> '#' !in query.value
    requires NoTabOrNewline(Compose(scheme, host, port, path, query, fragment))
    ensures Parse(Compose(scheme, host, port, path, query, fragment)) ==
            Some(Url(ToLower(scheme), ToLower(host), PortValue(port, ToLower(scheme)),
                     PathOf(path), EncodedQuery(query), EncodedFragment(fragment)))
  {
    var rest := host + (PortText(port) + (path + (QueryText(query) + FragmentText(fragment))));
    SchemeSeparator(scheme, rest);
    ParseHierarchicalComposed(ToLower(scheme), host, port, path, query, fragment);
  }

  lemma ConcatKeepsNoTabOrNewline(a: string, b: string)
    requires NoTabOrNewline(a) && NoTabOrNewline(b)
    ensures NoTabOrNewline(a + b)
  {
    assert forall i :: 0 <= i < |a + b| ==> (a + b)[i] == if i < |a| then a[i] else b[i - |a|];
  }

  /** No component of a well-formed URL, as the serializer writes it, holds a tab or newline. */
  lemma ComponentsHaveNoTabOrNewline(u: Url)
    requires WellFormed(u)
    ensures NoTabOrNewline(u.scheme) && NoTabOrNewline(u.host) && NoTabOrNewline(u.path)
    ensures NoTabOrNewline(PortText(PortDigits(u.port)))
    ensures NoTabOrNewline(QueryText(u.query)) && NoTabOrNewline(FragmentText(u.fragment))
  {
    SpecialSchemeText(u.scheme);
  }

  lemma SerializeHasNoTabOrNewline(u: Url)
    requires WellFormed(u)
    ensures NoTabOrNewline(Serialize(u))
  {
    ComponentsHaveNoTabOrNewline(u);
    var pt, qt, ft := PortText(PortDigits(u.port)), QueryText(u.query), FragmentText(u.fragment);
    ConcatKeepsNoTabOrNewline(qt, ft);
    ConcatKeepsNoTabOrNewline(u.path, qt + ft);
    ConcatKeepsNoTabOrNewline(pt, u.path + (qt + ft));
    ConcatKeepsNoTabOrNewline(u.host, pt + (u.path + (qt + ft)));
    ConcatKeepsNoTabOrNewline("://", u.host + (pt + (u.path + (qt + ft))));
    ConcatKeepsNoTabOrNewline(u.scheme, "://" + (u.host + (pt + (u.path + (qt + ft)))));
  }

  /** The components of a well-formed URL are already encoded, so encoding keeps them. */
  lemma ComponentsStayEncoded(u: Url)
    requires WellFormed(u)
    ensures PathOf(u.path) == u.path
    ensures EncodedQuery(u.query) == u.query
    ensures EncodedFragment(u.fragment) == u.fragment
  {
  }

  /** Parsing a serialized well-formed URL gives that URL back. */
  lemma RoundTrip(u: Url)
    requires WellFormed(u)
    ensures Parse(Serialize(u)) == Some(u)
  {
    SpecialSchemeText(u.scheme);
    if u.port.Some? {
      NatToStringRoundTrip(u.port.value);
    }
    SerializeHasNoTabOrNewline(u);
    ComponentsStayEncoded(u);
    ParseComposed(u.scheme, u.host, PortDigits(u.port), u.path, u.query, u.fragment);
  }

  /** A serialized URL without a fragment has no surrounding whitespace to trim. */
  lemma SerializeIsTrimmed(u: Url)
    requires WellFormed(u) && u.fragment.None?
    ensures Trim(Serialize(u)) == Serialize(u)
  {
    SpecialSchemeText(u.scheme);
    var s := Serialize(u);
    var last := u.path + QueryText(u.query);
    assert s == u.scheme + ("://" + (u.host + (PortText(PortDigits(u.port)) + last)));
    assert s[0] == u.scheme[0];
    assert s[|s| - 1] == last[|last| - 1];
    if u.query.Some? && u.query.value != [] {
      assert last[|last| - 1] == u.query.value[|u.query.value| - 1];
    }
    TrimNoop(s);
  }

  /** A serialized URL contains the scheme separator right after the scheme. */
  lemma SerializeHasSeparator(u: Url)
    requires WellFormed(u)
    ensures IndexOf(Serialize(u), "://") == Some(|u.scheme|)
  {
    SpecialSchemeText(u.scheme);
    SchemeSeparator(u.scheme, u.host + (PortText(PortDigits(u.port)) + (u.path + (QueryText(u.query) + FragmentText(u.fragment)))));
  }
}

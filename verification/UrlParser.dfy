/** http_interface.c: parse_url_info, which takes a URL apart with three calls of strtok. */
module UrlParser {
  const HTTP_URL_MAX_SIZE: nat := 2176
  const NUL := '\0'

  // ---- strtok --------------------------------------------------------------------------------------

  predicate AllIn(s: string, delims: string) {
    forall i :: 0 <= i < |s| ==> s[i] in delims
  }

  predicate NoneIn(s: string, delims: string) {
    forall i :: 0 <= i < |s| ==> s[i] !in delims
  }

  /** How many characters at the start are delimiters. */
  function Span(s: string, delims: string): (n: nat)
    ensures n <= |s| && (forall i :: 0 <= i < n ==> s[i] in delims) && (n < |s| ==> s[n] !in delims)
  {
    if s == [] || s[0] !in delims then 0
    else
      var n := 1 + Span(s[1..], delims);
      assert forall i :: 1 <= i < n ==> s[i] == s[1..][i - 1];
      n
  }

  /** How many characters at the start are not. */
  function Complement(s: string, delims: string): (n: nat)
    ensures n <= |s| && (forall i :: 0 <= i < n ==> s[i] !in delims) && (n < |s| ==> s[n] in delims)
  {
    if s == [] || s[0] in delims then 0
    else
      var n := 1 + Complement(s[1..], delims);
      assert forall i :: 1 <= i < n ==> s[i] == s[1..][i - 1];
      n
  }

  /** What strtok finds in the text it has left, and what it then has left. */
  datatype Tok = NoToken | Token(token: string, rest: string)

  function StrTok(text: string, delims: string): Tok {
    var s := text[Span(text, delims)..];
    if s == [] then NoToken
    else
      var n := Complement(s, delims);
      Token(s[..n], if n < |s| then s[n + 1..] else [])
  }

  lemma SpanOf(lead: string, tail: string, delims: string)
    requires AllIn(lead, delims) && (tail == [] || tail[0] !in delims)
    ensures Span(lead + tail, delims) == |lead|
  {
    var s := lead + tail;
    assert forall i :: 0 <= i < |lead| ==> s[i] == lead[i];
    assert tail != [] ==> s[|lead|] == tail[0];
  }

  lemma ComplementOf(token: string, tail: string, delims: string)
    requires NoneIn(token, delims) && (tail == [] || tail[0] in delims)
    ensures Complement(token + tail, delims) == |token|
  {
    var s := token + tail;
    assert forall i :: 0 <= i < |token| ==> s[i] == token[i];
    assert tail != [] ==> s[|token|] == tail[0];
  }

  /** A token lies behind any number of delimiters, and ends at the next one or at the end of the text. */
  lemma StrTokOf(lead: string, token: string, tail: string, delims: string)
    requires AllIn(lead, delims) && token != [] && NoneIn(token, delims) && (tail == [] || tail[0] in delims)
    ensures StrTok(lead + (token + tail), delims) == Token(token, if tail == [] then [] else tail[1..])
  {
    var text := lead + (token + tail);
    SpanOf(lead, token + tail, delims);
    assert text[|lead|..] == token + tail;
    ComplementOf(token, tail, delims);
  }

  /** Every token is found that way. */
  lemma StrTokParts(text: string, delims: string) returns (lead: string, tail: string)
    requires StrTok(text, delims).Token?
    ensures
      var t := StrTok(text, delims);
      && text == lead + (t.token + tail) && AllIn(lead, delims)
      && t.token != [] && NoneIn(t.token, delims)
      && (tail == [] || tail[0] in delims) && t.rest == if tail == [] then [] else tail[1..]
  {
    hide Span, Complement;
    var n := Span(text, delims);
    var s := text[n..];
    var k := Complement(s, delims);
    lead, tail := text[..n], s[k..];
    Parts(text, n);
    Parts(s, k);
  }

  lemma Parts(s: string, n: nat)
    requires n <= |s|
    ensures s == s[..n] + s[n..] && (n < |s| ==> s[n..][0] == s[n] && s[n..][1..] == s[n + 1..])
  {}

  // ---- The parser ----------------------------------------------------------------------------------

  /** How a parse ends: with the parts of the URL, with an error, with a null token handed to a string function, or
      with text that passes a length check but leaves no room for its terminator. */
  datatype Outcome = Parsed(port: nat, address: string, path: string) | Invalid | NullToken | NoRoom

  /** The lengths the caller passes, which are the sizes of its buffers. */
  datatype Limits = Limits(address: nat, path: nat)

  function PortOf(scheme: string): nat {
    if "https" <= scheme then 443 else if "http" <= scheme then 80 else 0
  }

  function ParsePath(port: nat, address: string, rest: string, max: Limits): Outcome {
    match StrTok(rest, "")
    case NoToken => NullToken
    case Token(path, _) =>
      if |path| > max.path then Invalid
      else if |path| + 2 > max.path then NoRoom
      else Parsed(port, address, "/" + path)
  }

  function ParseAddress(port: nat, rest: string, max: Limits): Outcome {
    match StrTok(rest, "/")
    case NoToken => NullToken
    case Token(address, rest) =>
      if |address| > max.address then Invalid
      else if |address| == max.address then NoRoom
      else ParsePath(port, address, rest, max)
  }

  function ParseUrl(url: string, max: Limits): Outcome {
    if |url| > HTTP_URL_MAX_SIZE then Invalid
    else if |url| == HTTP_URL_MAX_SIZE then NoRoom
    else
      match StrTok(url, "://")
      case NoToken => NullToken
      case Token(scheme, rest) => if PortOf(scheme) == 0 then Invalid else ParseAddress(PortOf(scheme), rest, max)
  }

  // ---- What it accepts -----------------------------------------------------------------------------

  /** url is scheme, ':' or '/', any number of slashes, address, slash, path; with colons and slashes in front. */
  predicate Shape(url: string, lead: string, scheme: string, separator: string, slashes: string, address: string,
                  path: string)
  {
    && url == lead + (scheme + (separator + (slashes + (address + ("/" + path)))))
    && AllIn(lead, "://") && scheme != [] && NoneIn(scheme, "://")
    && |separator| == 1 && AllIn(separator, "://") && AllIn(slashes, "/")
    && address != [] && NoneIn(address, "/") && path != []
  }

  lemma WholeRest(path: string)
    requires path != []
    ensures StrTok(path, "") == Token(path, [])
  {
    StrTokOf("", path, "", "");
    assert "" + (path + "") == path;
  }

  /** A URL of that shape is taken apart into exactly those parts. */
  lemma ShapeParsed(url: string, lead: string, scheme: string, separator: string, slashes: string, address: string,
                    path: string, max: Limits)
    requires Shape(url, lead, scheme, separator, slashes, address, path)
    requires |url| < HTTP_URL_MAX_SIZE && PortOf(scheme) != 0 && |address| < max.address && |path| + 2 <= max.path
    ensures ParseUrl(url, max) == Parsed(PortOf(scheme), address, "/" + path)
  {
    hide StrTok, PortOf;
    var r3 := "/" + path;
    var r2 := slashes + (address + r3);
    var r1 := separator + r2;
    StrTokOf(lead, scheme, r1, "://");
    assert r1[1..] == r2;
    StrTokOf(slashes, address, r3, "/");
    assert r3[1..] == path;
    WholeRest(path);
  }

  /** Nothing else is accepted: from a result the URL can be put together again. */
  lemma ParsedShape(url: string, max: Limits)
    returns (lead: string, scheme: string, separator: string, slashes: string, address: string, path: string)
    requires ParseUrl(url, max).Parsed?
    ensures Shape(url, lead, scheme, separator, slashes, address, path)
    ensures ParseUrl(url, max) == Parsed(PortOf(scheme), address, "/" + path) && PortOf(scheme) != 0
    ensures |url| < HTTP_URL_MAX_SIZE && |address| < max.address && |path| + 2 <= max.path
  {
    hide StrTok, PortOf;
    NoTokenInNothing("/");
    NoTokenInNothing("");
    var t1, t2;
    lead, t1 := StrTokParts(url, "://");
    var first := StrTok(url, "://");
    scheme, separator := first.token, t1[..1];
    slashes, t2 := StrTokParts(first.rest, "/");
    var second := StrTok(first.rest, "/");
    address := second.token;
    path := second.rest;
    WholeRest(path);
    assert t1 == separator + first.rest;
    assert t2 == "/" + path;
  }

  /** The round trip: a proper http or https URL comes apart into the port of its scheme, its host and its path. */
  lemma UrlRoundTrip(https: bool, host: string, path: string, max: Limits)
    requires host != [] && '/' !in host && path != []
    requires |host| < max.address && |path| + 2 <= max.path
    requires
      var url := (if https then "https" else "http") + "://" + host + "/" + path;
      |url| < HTTP_URL_MAX_SIZE
    ensures
      var url := (if https then "https" else "http") + "://" + host + "/" + path;
      ParseUrl(url, max) == Parsed(if https then 443 else 80, host, "/" + path)
  {
    var scheme := if https then "https" else "http";
    var url := scheme + "://" + host + "/" + path;
    assert url == "" + (scheme + (":" + ("//" + (host + ("/" + path)))));
    assert NoneIn(host, "/");
    PortsApart();
    ShapeParsed(url, "", scheme, ":", "//", host, path, max);
  }

  lemma PortsApart()
    ensures PortOf("https") == 443 && PortOf("http") == 80
  {
    assert |"https"| == 5 && |"http"| == 4;
    assert "http" <= "http";
  }

  lemma NoTokenInNothing(delims: string)
    ensures StrTok("", delims) == NoToken
  {}

  // ---- What it does with the rest ------------------------------------------------------------------

  lemma SpanAll(s: string, delims: string)
    requires AllIn(s, delims)
    ensures Span(s, delims) == |s|
  {
    SpanOf(s, "", delims);
    assert s + "" == s;
  }

  /** There is no token exactly in a text of delimiters. */
  lemma NoTokenExactly(text: string, delims: string)
    ensures StrTok(text, delims) == NoToken <==> AllIn(text, delims)
  {
    if AllIn(text, delims) {
      SpanAll(text, delims);
    }
  }

  /** url is a scheme with colons and slashes in front of it, and tail behind it. */
  predicate SchemeShape(url: string, lead: string, scheme: string, tail: string) {
    && url == lead + (scheme + tail) && AllIn(lead, "://") && scheme != [] && NoneIn(scheme, "://")
    && (tail == [] || tail[0] in "://")
  }

  /** What lies behind the delimiter that ends a token. */
  function Behind(tail: string): string {
    if tail == [] then [] else tail[1..]
  }

  /** text is an address with slashes in front of it, and tail behind it. */
  predicate AddressShape(text: string, slashes: string, address: string, tail: string) {
    && text == slashes + (address + tail) && AllIn(slashes, "/") && address != [] && NoneIn(address, "/")
    && (tail == [] || tail[0] == '/')
  }

  lemma SchemeFound(url: string, lead: string, scheme: string, tail: string)
    requires SchemeShape(url, lead, scheme, tail)
    ensures StrTok(url, "://") == Token(scheme, Behind(tail))
  {
    StrTokOf(lead, scheme, tail, "://");
  }

  lemma SchemeParts(url: string) returns (lead: string, tail: string)
    requires StrTok(url, "://").Token?
    ensures SchemeShape(url, lead, StrTok(url, "://").token, tail) && StrTok(url, "://").rest == Behind(tail)
  {
    lead, tail := StrTokParts(url, "://");
  }

  lemma AddressFound(text: string, slashes: string, address: string, tail: string)
    requires AddressShape(text, slashes, address, tail)
    ensures StrTok(text, "/") == Token(address, Behind(tail))
  {
    StrTokOf(slashes, address, tail, "/");
  }

  lemma AddressParts(text: string) returns (slashes: string, tail: string)
    requires StrTok(text, "/").Token?
    ensures AddressShape(text, slashes, StrTok(text, "/").token, tail) && StrTok(text, "/").rest == Behind(tail)
  {
    slashes, tail := StrTokParts(text, "/");
  }

  /** Behind the address, a null token comes exactly from an empty rest, and a path that passes its check without room
      is one of the last two lengths. */
  lemma PathExactly(port: nat, address: string, rest: string, max: Limits)
    ensures ParsePath(port, address, rest, max) == NullToken <==> rest == []
    ensures ParsePath(port, address, rest, max) == NoRoom <==> rest != [] && |rest| <= max.path < |rest| + 2
  {
    if rest != [] {
      WholeRest(rest);
    } else {
      NoTokenInNothing("");
    }
  }

  /** No address: nothing but slashes. No path: an address that fits, and at most one slash behind it. */
  ghost predicate AddressMissing(text: string, max: Limits) {
    || AllIn(text, "/")
    || exists slashes, address, tail ::
         AddressShape(text, slashes, address, tail) && |address| < max.address && Behind(tail) == []
  }

  /** An address as long as its buffer; or one that fits, before a path that passes its check without room. */
  ghost predicate AddressTooTight(text: string, max: Limits) {
    exists slashes, address, tail ::
      && AddressShape(text, slashes, address, tail)
      && (|address| == max.address
          || (|address| < max.address && Behind(tail) != [] && |Behind(tail)| <= max.path < |Behind(tail)| + 2))
  }

  lemma AddressExactly(port: nat, text: string, max: Limits)
    ensures ParseAddress(port, text, max) == NullToken <==> AddressMissing(text, max)
    ensures ParseAddress(port, text, max) == NoRoom <==> AddressTooTight(text, max)
  {
    hide StrTok, ParsePath;
    NoTokenExactly(text, "/");
    if StrTok(text, "/").Token? {
      var address, rest := StrTok(text, "/").token, StrTok(text, "/").rest;
      var slashes, tail := AddressParts(text);
      PathExactly(port, address, rest, max);
      forall s, a, t | AddressShape(text, s, a, t)
        ensures a == address && Behind(t) == rest
      {
        AddressFound(text, s, a, t);
      }
    } else {
      forall s, a, t
        ensures !AddressShape(text, s, a, t)
      {
        if AddressShape(text, s, a, t) {
          AddressFound(text, s, a, t);
        }
      }
    }
  }

  /** When a null token is handed to a string function: the URL is short enough and has nothing but colons and slashes
      in it; or behind an accepted scheme there are only slashes; or there is an address that fits with no path. */
  lemma NullTokenExactly(url: string, max: Limits)
    ensures ParseUrl(url, max) == NullToken
            <==> && |url| < HTTP_URL_MAX_SIZE
                 && (|| AllIn(url, "://")
                     || exists lead, scheme, tail ::
                          SchemeShape(url, lead, scheme, tail) && PortOf(scheme) != 0
                          && AddressMissing(Behind(tail), max))
  {
    hide StrTok, ParseAddress, PortOf, AddressMissing;
    NoTokenExactly(url, "://");
    if StrTok(url, "://").Token? {
      var scheme, rest := StrTok(url, "://").token, StrTok(url, "://").rest;
      var lead, tail := SchemeParts(url);
      AddressExactly(PortOf(scheme), rest, max);
      forall l, s, t | SchemeShape(url, l, s, t)
        ensures s == scheme && Behind(t) == rest
      {
        SchemeFound(url, l, s, t);
      }
    }
  }

  /** When a part passes its length check but leaves no room for its NUL: the URL fills the copy made of it, or behind
      an accepted scheme the address or the path fills its buffer. In every other case that does not parse the URL
      is refused. */
  lemma NoRoomExactly(url: string, max: Limits)
    ensures ParseUrl(url, max) == NoRoom
            <==> || |url| == HTTP_URL_MAX_SIZE
                 || (&& |url| < HTTP_URL_MAX_SIZE
                     && exists lead, scheme, tail ::
                          SchemeShape(url, lead, scheme, tail) && PortOf(scheme) != 0
                          && AddressTooTight(Behind(tail), max))
  {
    hide StrTok, ParseAddress, PortOf, AddressTooTight;
    if StrTok(url, "://").Token? {
      var scheme, rest := StrTok(url, "://").token, StrTok(url, "://").rest;
      var lead, tail := SchemeParts(url);
      AddressExactly(PortOf(scheme), rest, max);
      forall l, s, t | SchemeShape(url, l, s, t)
        ensures s == scheme && Behind(t) == rest
      {
        SchemeFound(url, l, s, t);
      }
    } else {
      forall l, s, t
        ensures !SchemeShape(url, l, s, t)
      {
        if SchemeShape(url, l, s, t) {
          SchemeFound(url, l, s, t);
        }
      }
    }
  }

  /** A host as long as the buffer for it has no room for its NUL. */
  lemma LongestHostHasNoRoom(host: string, path: string, max: Limits)
    requires host != [] && NoneIn(host, "/") && |host| == max.address
    requires |"http" + (":" + ("//" + (host + ("/" + path))))| < HTTP_URL_MAX_SIZE
    ensures ParseUrl("http" + (":" + ("//" + (host + ("/" + path)))), max) == NoRoom
  {
    hide StrTok, AddressTooTight, ParseAddress;
    var rest := "//" + (host + ("/" + path));
    var url := "http" + (":" + rest);
    PortsApart();
    assert url == "" + ("http" + (":" + rest)) && (":" + rest)[1..] == rest;
    SchemeFound(url, "", "http", ":" + rest);
    LongestAddress(rest, host, "/" + path, max);
    AddressExactly(PortOf("http"), rest, max);
  }

  lemma LongestAddress(text: string, address: string, tail: string, max: Limits)
    requires text == "//" + (address + tail) && address != [] && NoneIn(address, "/") && |address| == max.address
    requires tail == [] || tail[0] == '/'
    ensures AddressTooTight(text, max)
  {
    assert AddressShape(text, "//", address, tail);
  }

  /** The empty URL and one that ends behind its scheme hand over a null token. */
  lemma UnfinishedUrls(max: Limits)
    ensures ParseUrl("", max) == ParseUrl("http:///", max) == NullToken
  {
    hide StrTok, ParseAddress, AddressMissing;
    PortsApart();
    NoTokenInNothing("://");
    assert "http:///" == "" + ("http" + ":///") && ":///"[1..] == "///";
    SchemeFound("http:///", "", "http", ":///");
    SlashesAlone(max);
    AddressExactly(80, "///", max);
  }

  lemma SlashesAlone(max: Limits)
    ensures AddressMissing("///", max)
  {}

  /** So does a URL without a path after its host. */
  lemma NoPathNoResult(scheme: string, host: string, slash: bool, max: Limits)
    requires scheme != [] && NoneIn(scheme, "://") && PortOf(scheme) != 0
    requires host != [] && NoneIn(host, "/") && |host| < max.address
    requires |scheme + (":" + ("//" + (host + if slash then "/" else "")))| < HTTP_URL_MAX_SIZE
    ensures ParseUrl(scheme + (":" + ("//" + (host + if slash then "/" else ""))), max) == NullToken
  {
    hide StrTok, PortOf, ParseAddress, AddressMissing;
    var tail := if slash then "/" else "";
    var rest := "//" + (host + tail);
    var url := scheme + (":" + rest);
    assert url == "" + (scheme + (":" + rest)) && (":" + rest)[1..] == rest;
    SchemeFound(url, "", scheme, ":" + rest);
    HostAlone(rest, host, tail, max);
    AddressExactly(PortOf(scheme), rest, max);
  }

  lemma HostAlone(text: string, host: string, tail: string, max: Limits)
    requires text == "//" + (host + tail) && host != [] && NoneIn(host, "/") && |host| < max.address
    requires tail == "" || tail == "/"
    ensures AddressMissing(text, max)
  {
    assert AddressShape(text, "//", host, tail);
  }

  /** The port for each scheme. Only as many characters are compared as the names of the two schemes have. */
  lemma PortExactly(scheme: string)
    ensures PortOf(scheme) ==
            if |scheme| >= 5 && scheme[..5] == "https" then 443
            else if |scheme| >= 4 && scheme[..4] == "http" then 80 else 0
  {}

  // ---- strtok and the parser on buffers ------------------------------------------------------------

  /** A C string: text at position at, with a NUL behind it. */
  ghost predicate HoldsText(buffer: array<char>, at: nat, text: string)
    reads buffer
  {
    && at + |text| < buffer.Length && buffer[at + |text|] == NUL
    && forall i :: 0 <= i < |text| ==> buffer[at + i] == text[i] != NUL
  }

  lemma TextFrom(buffer: array<char>, at: nat, text: string, k: nat)
    requires HoldsText(buffer, at, text) && k <= |text|
    ensures HoldsText(buffer, at + k, text[k..])
  {
    var left := text[k..];
    forall i | 0 <= i < |left|
      ensures buffer[at + k + i] == left[i] != NUL
    {
      assert left[i] == text[k + i];
    }
  }

  /** The NUL ends the text. */
  lemma TextHead(buffer: array<char>, at: nat, text: string)
    requires HoldsText(buffer, at, text)
    ensures at + |text| < buffer.Length && (buffer[at] == NUL <==> text == [])
    ensures text != [] ==> buffer[at] == text[0]
  {
    assert text != [] ==> buffer[at + 0] == text[0];
  }

  lemma TokenNotEmpty(s: string, delims: string)
    requires s != [] && s[0] !in delims
    ensures 0 < Complement(s, delims) <= |s|
  {}

  lemma TextEnd(buffer: array<char>, at: nat, text: string)
    requires HoldsText(buffer, at, text)
    ensures HoldsText(buffer, at + |text|, [])
  {}

  lemma SpanMore(left: string, delims: string)
    requires left != [] && left[0] in delims
    ensures Span(left, delims) == 1 + Span(left[1..], delims)
  {}

  lemma SpanEnds(left: string, delims: string)
    requires left == [] || left[0] !in delims
    ensures Span(left, delims) == 0
  {}

  lemma ComplementMore(left: string, delims: string)
    requires left != [] && left[0] !in delims
    ensures Complement(left, delims) == 1 + Complement(left[1..], delims)
  {}

  lemma ComplementEnds(left: string, delims: string)
    requires left == [] || left[0] in delims
    ensures Complement(left, delims) == 0
  {}

  /** strtok with its saved position. */
  class Tokenizer {
    const buffer: array<char>
    var cursor: nat
    /** The text from the cursor on. */
    ghost var rest: string

    ghost predicate Valid()
      reads this, buffer
    {
      HoldsText(buffer, cursor, rest)
    }

    constructor (buffer: array<char>, ghost text: string)
      requires HoldsText(buffer, 0, text)
      ensures Valid() && this.buffer == buffer && rest == text && cursor == 0
    {
      this.buffer := buffer;
      cursor := 0;
      rest := text;
    }

    /** Where the text at a position stops being delimiters. */
    method SkipDelimiters(at: nat, delims: string, ghost text: string) returns (next: nat)
      requires HoldsText(buffer, at, text)
      ensures next == at + Span(text, delims) && HoldsText(buffer, next, text[Span(text, delims)..])
    {
      hide HoldsText, Span;
      next := at;
      ghost var left := text;
      TextHead(buffer, next, left);
      while buffer[next] != NUL && buffer[next] in delims
        invariant HoldsText(buffer, next, left) && next < buffer.Length
        invariant at <= next <= at + |text| && left == text[next - at..]
        invariant Span(text, delims) == next - at + Span(left, delims)
        decreases |left|
      {
        TextHead(buffer, next, left);
        SpanMore(left, delims);
        TextFrom(buffer, next, left, 1);
        left := left[1..];
        next := next + 1;
        TextHead(buffer, next, left);
      }
      TextHead(buffer, next, left);
      SpanEnds(left, delims);
    }

    /** Where the text at a position reaches a delimiter or its end. */
    method ScanToken(at: nat, delims: string, ghost text: string) returns (next: nat)
      requires HoldsText(buffer, at, text)
      ensures next == at + Complement(text, delims)
    {
      hide HoldsText, Complement;
      next := at;
      ghost var left := text;
      TextHead(buffer, next, left);
      while buffer[next] != NUL && buffer[next] !in delims
        invariant HoldsText(buffer, next, left) && next < buffer.Length
        invariant Complement(text, delims) == next - at + Complement(left, delims)
        decreases |left|
      {
        TextHead(buffer, next, left);
        ComplementMore(left, delims);
        TextFrom(buffer, next, left, 1);
        left := left[1..];
        next := next + 1;
        TextHead(buffer, next, left);
      }
      TextHead(buffer, next, left);
      ComplementEnds(left, delims);
    }

    /** A NUL in place of the character at position end cuts a text in two. */
    method Cut(end: nat, ghost start: nat, ghost text: string)
      requires HoldsText(buffer, start, text) && start <= end < start + |text|
      modifies buffer
      ensures HoldsText(buffer, start, text[..end - start])
      ensures HoldsText(buffer, end + 1, text[end + 1 - start..])
      ensures forall i :: 0 <= i < start && i < buffer.Length ==> buffer[i] == old(buffer[i])
    {
      TextFrom(buffer, start, text, end + 1 - start);
      buffer[end] := NUL;
    }

    /** The next token is left in the buffer, ended by a NUL that replaces the delimiter behind it; what lies before
        the cursor is not touched. */
    method Next(delims: string) returns (found: bool, start: nat)
      requires Valid() && NUL !in delims
      modifies this, buffer
      ensures Valid()
      ensures
        match StrTok(old(rest), delims)
        case NoToken => !found
        case Token(token, left) => found && rest == left && HoldsText(buffer, start, token)
      ensures forall i :: 0 <= i < old(cursor) && i < buffer.Length ==> buffer[i] == old(buffer[i])
    {
      hide Span, Complement, HoldsText;
      start := SkipDelimiters(cursor, delims, rest);
      ghost var s := rest[Span(rest, delims)..];
      TextHead(buffer, start, s);
      cursor, rest := start, s;
      if buffer[start] == NUL {
        return false, start;
      }
      var end := ScanToken(start, delims, s);
      TokenNotEmpty(s, delims);
      EndToken(end, start, s, Complement(s, delims));
      return true, start;
    }

    /** The text from start is cut where its token ends, unless it ends there itself. */
    method EndToken(end: nat, ghost start: nat, ghost text: string, ghost n: nat)
      requires HoldsText(buffer, start, text) && 0 < n <= |text| && end == start + n
      modifies this, buffer
      ensures Valid() && HoldsText(buffer, start, text[..n])
      ensures rest == if n < |text| then text[n + 1..] else []
      ensures forall i :: 0 <= i < start && i < buffer.Length ==> buffer[i] == old(buffer[i])
    {
      hide HoldsText;
      TextFrom(buffer, start, text, n);
      TextHead(buffer, end, text[n..]);
      if buffer[end] == NUL {
        TextEnd(buffer, start, text);
        assert text[..n] == text;
        cursor, rest := end, [];
      } else {
        Cut(end, start, text);
        cursor, rest := end + 1, text[n + 1..];
      }
    }
  }

  /** strncpy of a text to the start of a buffer, and the NUL behind it. */
  method StrCopy(target: array<char>, at: nat, text: string)
    requires NUL !in text && at + |text| < target.Length
    modifies target
    ensures HoldsText(target, at, text)
    ensures forall i :: 0 <= i < at ==> target[i] == old(target[i])
  {
    forall i | 0 <= i < |text| {
      target[at + i] := text[i];
    }
    target[at + |text|] := NUL;
  }

  /** The C string at a position: strlen and the characters it counts. */
  method ReadText(buffer: array<char>, at: nat, ghost held: string) returns (text: string)
    requires HoldsText(buffer, at, held)
    ensures text == held
  {
    var length := 0;
    while buffer[at + length] != NUL
      invariant length <= |held| && (length < |held| ==> buffer[at + length] == held[length])
      decreases |held| - length
    {
      length := length + 1;
    }
    text := buffer[at..at + length];
    assert forall i :: 0 <= i < length ==> text[i] == held[i];
  }

  /** parse_url_info. The URL itself is not changed: the NULs go to a copy of it. The two buffers are as long as the
      lengths passed for them. */
  method ParseUrlInfo(pUrl: array<char>, pAddress: array<char>, pPath: array<char>)
    returns (outcome: Outcome, port: nat)
    requires NUL !in pUrl[..] && pUrl != pAddress && pUrl != pPath && pAddress != pPath
    modifies pAddress, pPath
    ensures outcome == ParseUrl(pUrl[..], Limits(pAddress.Length, pPath.Length))
    ensures outcome.Parsed? ==>
              port == outcome.port && HoldsText(pAddress, 0, outcome.address) && HoldsText(pPath, 0, outcome.path)
    ensures pUrl[..] == old(pUrl[..])
    ensures (pUrl.Length > 2176 ==> outcome == Invalid) && (pUrl.Length == 2176 ==> outcome == NoRoom)
  {
    hide StrTok, PortOf;
    port := 0;
    var urlLen := pUrl.Length;
    if urlLen > HTTP_URL_MAX_SIZE {
      return Invalid, port;
    } else if urlLen == HTTP_URL_MAX_SIZE {
      return NoRoom, port;
    }
    var tempUrl := new char[HTTP_URL_MAX_SIZE](i => NUL);
    ghost var url := pUrl[..];
    StrCopy(tempUrl, 0, pUrl[..]);
    var strtok := new Tokenizer(tempUrl, pUrl[..]);

    var found, start := strtok.Next("://");
    if !found {
      return NullToken, port;
    }
    var scheme := ReadText(tempUrl, start, StrTok(url, "://").token);
    port := PortOf(scheme);
    if port == 0 {
      return Invalid, port;
    }
    ghost var r1 := strtok.rest;

    found, start := strtok.Next("/");
    if !found {
      return NullToken, port;
    }
    var address := ReadText(tempUrl, start, StrTok(r1, "/").token);
    if |address| > pAddress.Length {
      return Invalid, port;
    } else if |address| == pAddress.Length {
      return NoRoom, port;
    }
    StrCopy(pAddress, 0, address);
    ghost var r2 := strtok.rest;

    found, start := strtok.Next("");
    if !found {
      return NullToken, port;
    }
    var path := ReadText(tempUrl, start, StrTok(r2, "").token);
    if |path| > pPath.Length {
      return Invalid, port;
    } else if |path| + 2 > pPath.Length {
      return NoRoom, port;
    }
    StrCopy(pPath, 0, "/" + path);
    return Parsed(port, address, "/" + path), port;
  }
}

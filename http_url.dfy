/**
 * Canonical http and https URLs, compared as section 3.2.3 of RFC 2616
 * asks: scheme and host ignoring case, an absent port equal to the scheme's
 * default, an empty path equal to "/", and an escape of an RFC 2396
 * "unreserved" character (section 2.3) equal to the character itself.
 *
 * Parsing a URL string into its components belongs to java.net.URL and is
 * not part of this model: the input is the parse, or None when the string is
 * not a URL.
 */
module HttpUrls {
  import opened Wrappers
  import opened JavaText

  /**
   * The characters RFC 2396 calls unreserved, which HttpURL.java lists in its
   * UNRESERVED table: the ASCII letters, the digits and -_.!~*'().
   */
  predicate Unreserved(c: char) {
    || 'A' <= c <= 'Z' || 'a' <= c <= 'z' || '0' <= c <= '9'
    || c == '-' || c == '_' || c == '.' || c == '!' || c == '~' || c == '*' || c == '\'' || c == '(' || c == ')'
  }

  /** What java.net.URL yields: the port is -1 when none was given; the file is the path and query. */
  datatype UrlParts = UrlParts(protocol: string, host: string, port: int, file: string)

  /** An http or https URL, kept in canonical form. */
  datatype HttpURL = HttpURL(url: UrlParts)

  /** The exceptions the constructor can raise. */
  datatype UrlError =
    | MalformedUrl           // IllegalArgumentException: not valid URL syntax
    | UnsupportedScheme      // IllegalArgumentException: neither http nor https
    | TruncatedEscape        // StringIndexOutOfBoundsException: '%' with fewer than two characters after it
    | IllegalEscape          // IllegalArgumentException from URLDecoder: the two characters are not a hex number
    | CanonicalizationError  // IllegalStateException: the canonical parts do not make a URL

  // ---------------------------------------------------------------------
  // Escapes

  predicate IsHexDigit(c: char) {
    '0' <= c <= '9' || 'a' <= c <= 'f' || 'A' <= c <= 'F'
  }

  function HexValue(c: char): (v: nat)
    requires IsHexDigit(c)
    ensures v < 16
  {
    if '0' <= c <= '9' then c as int - '0' as int
    else if 'a' <= c <= 'f' then c as int - 'a' as int + 10
    else c as int - 'A' as int + 10
  }

  /**
   * The byte URLDecoder reads from the escape "%xy": Integer.parseInt of
   * "xy" in radix 16, which also takes a leading sign; a negative value or
   * text that is not a number makes URLDecoder throw (None).
   */
  function EscapeByte(x: char, y: char): (v: Option<nat>)
    ensures v.Some? ==> v.value < 256
    ensures IsHexDigit(x) && IsHexDigit(y) ==> v == Some(16 * HexValue(x) + HexValue(y))
    ensures !IsHexDigit(x) && v.Some? ==> v.value < 16
  {
    if IsHexDigit(x) && IsHexDigit(y) then Some(16 * HexValue(x) + HexValue(y))
    else if x == '+' && IsHexDigit(y) then Some(HexValue(y))
    else if x == '-' && y == '0' then Some(0)
    else None
  }

  /**
   * One escape "%xy" of normalizeFile: the decoded character when it is
   * unreserved, otherwise the three characters as written. A byte of 128 or
   * more decodes to the replacement character, which is never unreserved.
   */
  function NormalizeEscape(x: char, y: char): Result<string, UrlError> {
    match EscapeByte(x, y)
    case None => Failure(IllegalEscape)
    case Some(v) => if v < 128 && Unreserved(v as char) then Success([v as char]) else Success(['%', x, y])
  }

  /** Text in front of a result that may be an exception. */
  function Prepend(prefix: string, r: Result<string, UrlError>): Result<string, UrlError> {
    match r
    case Success(s) => Success(prefix + s)
    case Failure(e) => Failure(e)
  }

  lemma PrependNothing(r: Result<string, UrlError>)
    ensures Prepend([], r) == r
  {
    if r.Success? {
      assert [] + r.value == r.value;
    }
  }

  lemma PrependPrepend(a: string, b: string, r: Result<string, UrlError>)
    ensures Prepend(a, Prepend(b, r)) == Prepend(a + b, r)
  {
    if r.Success? {
      assert a + (b + r.value) == (a + b) + r.value;
    }
  }

  /** normalizeFile, left to right: plain characters are copied, escapes go through NormalizeEscape. */
  function Normalize(file: string): Result<string, UrlError>
    decreases |file|
  {
    if file == [] then Success([])
    else if file[0] != '%' then Prepend([file[0]], Normalize(file[1..]))
    else if |file| < 3 then Failure(TruncatedEscape)
    else
      match NormalizeEscape(file[1], file[2])
      case Failure(e) => Failure(e)
      case Success(piece) => Prepend(piece, Normalize(file[3..]))
  }

  /**
   * A '%' followed by fewer than two characters makes normalizeFile throw
   * (substring runs past the end) rather than copy it: whatever comes
   * before, the result is an exception, and it is the truncated-escape one
   * when the text before normalizes.
   */
  lemma {:induction false} TrailingPercentFails(s: string, t: string)
    requires |t| <= 1
    ensures Normalize(s + ['%'] + t).Failure?
    ensures Normalize(s).Success? ==> Normalize(s + ['%'] + t) == Failure(TruncatedEscape)
    decreases |s|
  {
    var f := s + ['%'] + t;
    if s == [] {
      assert f == ['%'] + t;
    } else if s[0] != '%' {
      assert f[0] == s[0] && f[1..] == s[1..] + ['%'] + t;
      TrailingPercentFails(s[1..], t);
    } else if |s| < 3 {
      assert f[0] == '%' && |f| >= 2 && f[1] == (if |s| == 2 then s[1] else '%');
      if |s| == 2 {
        assert f[2] == '%' && EscapeByte(f[1], f[2]).None?;
      } else if |f| == 3 {
        assert EscapeByte('%', f[2]).None?;
      }
    } else {
      assert f[0] == '%' && f[1] == s[1] && f[2] == s[2];
      assert f[3..] == s[3..] + ['%'] + t;
      TrailingPercentFails(s[3..], t);
    }
  }

  /** normalizeFile: the StringBuilder loop; `i += 2` plus the loop's own step passes over an escape. */
  method NormalizeFile(file: string) returns (r: Result<string, UrlError>)
    ensures r == Normalize(file)
  {
    var out := "";
    var i := 0;
    PrependNothing(Normalize(file));
    while i < |file|
      invariant 0 <= i <= |file|
      invariant Normalize(file) == Prepend(out, Normalize(file[i..]))
    {
      var c := file[i];
      if c != '%' {
        assert file[i..][1..] == file[i + 1..];
        PrependPrepend(out, [c], Normalize(file[i + 1..]));
        out := out + [c];
      } else {
        if i + 3 > |file| {
          return Failure(TruncatedEscape);
        }
        var hexcode := file[i..i + 3];
        assert file[i..][3..] == file[i + 3..];
        assert file[i..][1] == hexcode[1] && file[i..][2] == hexcode[2];
        assert hexcode == ['%', hexcode[1], hexcode[2]];
        var unescaped := EscapeByte(hexcode[1], hexcode[2]);
        if unescaped.None? {
          return Failure(IllegalEscape);
        }
        var v := unescaped.value;
        var piece := if v < 128 && Unreserved(v as char) then [v as char] else hexcode;
        assert NormalizeEscape(hexcode[1], hexcode[2]) == Success(piece);
        assert Normalize(file[i..]) == Prepend(piece, Normalize(file[i + 3..]));
        PrependPrepend(out, piece, Normalize(file[i + 3..]));
        if v < 128 && Unreserved(v as char) {
          out := out + [v as char];
        } else {
          out := out + hexcode;
        }
        i := i + 2;
      }
      i := i + 1;
    }
    assert file[i..] == [];
    assert out + [] == out;
    return Success(out);
  }

  /** Every escape becomes one or three characters, so normalizing never lengthens, nor empties, the file. */
  lemma {:induction false} NormalizeNeverLonger(file: string)
    requires Normalize(file).Success?
    ensures |Normalize(file).value| <= |file|
    ensures file != [] ==> Normalize(file).value != []
    decreases |file|
  {
    if file != [] {
      if file[0] != '%' {
        NormalizeNeverLonger(file[1..]);
      } else {
        NormalizeNeverLonger(file[3..]);
      }
    }
  }

  /** Normalizing a normalized file changes nothing: kept escapes stay kept, decoded characters are not '%'. */
  lemma {:induction false} NormalizeIdempotent(file: string)
    requires Normalize(file).Success?
    ensures Normalize(Normalize(file).value) == Normalize(file)
    decreases |file|
  {
    if file != [] {
      var out := Normalize(file).value;
      if file[0] != '%' {
        var rest := Normalize(file[1..]).value;
        NormalizeIdempotent(file[1..]);
        assert out == [file[0]] + rest;
        assert out[1..] == rest;
      } else {
        var piece := NormalizeEscape(file[1], file[2]).value;
        var rest := Normalize(file[3..]).value;
        NormalizeIdempotent(file[3..]);
        assert out == piece + rest;
        if |piece| == 1 {
          assert Unreserved(piece[0]);
          assert out[1..] == rest;
        } else {
          assert out[1] == file[1] && out[2] == file[2];
          assert out[3..] == rest;
        }
      }
    }
  }

  // ---------------------------------------------------------------------
  // Percent-encoding one character

  /** The hex digit of a value below 16, with an upper- or lower-case letter. */
  function HexDigit(n: nat, upper: bool): (c: char)
    requires n < 16
    ensures IsHexDigit(c) && HexValue(c) == n
  {
    if n < 10 then ('0' as int + n) as char
    else if upper then ('A' as int + n - 10) as char
    else ('a' as int + n - 10) as char
  }

  /** "%XY", the escape of an ASCII character, with upper- or lower-case hex digits. */
  function PercentEncode(c: char, upper: bool): string
    requires c as int < 128
  {
    var n := c as int;
    ['%', HexDigit(n / 16, upper), HexDigit(n % 16, upper)]
  }

  /**
   * An ASCII character and its escape normalize alike exactly when the
   * character is unreserved; the hex digits may be in either case.
   */
  lemma EscapeEquivalentIffUnreserved(c: char, upper: bool)
    requires c as int < 128
    ensures Normalize(PercentEncode(c, upper)) == Normalize([c]) <==> Unreserved(c)
  {
    var e := PercentEncode(c, upper);
    assert EscapeByte(e[1], e[2]) == Some(c as int);
    assert (c as int) as char == c;
    assert e[3..] == [];
    var piece := if Unreserved(c) then [c] else e;
    assert Normalize(e) == Prepend(piece, Normalize([]));
    assert Normalize(e) == Success(piece) by {
      assert piece + [] == piece;
    }
    if c != '%' {
      assert [c][1..] == [];
      assert Normalize([c]) == Prepend([c], Normalize([]));
      assert [c] + [] == [c];
    }
  }

  // ---------------------------------------------------------------------
  // Construction and equality

  /** canonicalURL: lower-case scheme and host, the scheme's default port, "/" for an empty file, then normalizeFile. */
  function CanonicalUrl(u: UrlParts): Result<UrlParts, UrlError> {
    var protocol := Lower(u.protocol);
    var host := Lower(u.host);
    var port := if u.port == -1 && protocol == "http" then 80
                else if u.port == -1 && protocol == "https" then 443
                else u.port;
    var file := if u.file == "" then "/" else u.file;
    match Normalize(file)
    case Failure(e) => Failure(e)
    case Success(normalized) =>
      if port < -1 then Failure(CanonicalizationError)  // java.net.URL rejects such a port
      else Success(UrlParts(protocol, host, port, normalized))
  }

  /** The HttpURL constructor: a URL parse, a scheme check, then canonicalization. */
  function Create(parsed: Option<UrlParts>): Result<HttpURL, UrlError> {
    match parsed
    case None => Failure(MalformedUrl)
    case Some(u) =>
      if !EqualsIgnoreCase(u.protocol, "http") && !EqualsIgnoreCase(u.protocol, "https") then Failure(UnsupportedScheme)
      else
        match CanonicalUrl(u)
        case Failure(e) => Failure(e)
        case Success(c) => Success(HttpURL(c))
  }

  /** equals: the canonical protocol, host, port and file all agree. */
  predicate Equals(a: HttpURL, b: HttpURL) {
    && a.url.protocol == b.url.protocol
    && a.url.host == b.url.host
    && a.url.port == b.url.port
    && a.url.file == b.url.file
  }

  /** Two HttpURLs are equal exactly when they are the same value, so equality is an equivalence. */
  lemma EqualsIsIdentity(a: HttpURL, b: HttpURL)
    ensures Equals(a, b) <==> a == b
  {
  }

  /**
   * A URL that constructs has a canonical form with the lower-cased scheme,
   * which is exactly "http" or "https", the lower-cased host, a port that is the default when none
   * was given and unchanged otherwise, and a non-empty file no longer than
   * the original (or "/").
   */
  lemma CreateCanonicalForm(u: UrlParts)
    requires Create(Some(u)).Success?
    ensures var c := Create(Some(u)).value.url;
      && c.protocol == Lower(u.protocol)
      && (c.protocol == "http" || c.protocol == "https")
      && c.host == Lower(u.host)
      && (u.port == -1 && c.protocol == "http" ==> c.port == 80)
      && (u.port == -1 && c.protocol == "https" ==> c.port == 443)
      && (u.port != -1 ==> c.port == u.port)
      && c.port >= 0
      && c.file != []
      && (u.file == [] ==> c.file == "/")
      && (u.file != [] ==> |c.file| <= |u.file|)
  {
    EqualsIgnoreCaseIffSameLower(u.protocol, "http");
    EqualsIgnoreCaseIffSameLower(u.protocol, "https");
    assert Lower("http") == "http";
    assert Lower("https") == "https";
    var file := if u.file == "" then "/" else u.file;
    NormalizeNeverLonger(file);
  }

  /** Canonicalizing a canonical URL gives it back unchanged. */
  lemma CanonicalUrlIdempotent(u: UrlParts)
    requires CanonicalUrl(u).Success?
    ensures CanonicalUrl(CanonicalUrl(u).value) == CanonicalUrl(u)
  {
    var c := CanonicalUrl(u).value;
    LowerIdempotent(u.protocol);
    LowerIdempotent(u.host);
    var file := if u.file == "" then "/" else u.file;
    NormalizeNeverLonger(file);
    NormalizeIdempotent(file);
  }

  /** Constructing an HttpURL from a canonical URL yields the same HttpURL. */
  lemma CreateIdempotent(u: UrlParts)
    requires Create(Some(u)).Success?
    ensures Create(Some(Create(Some(u)).value.url)) == Create(Some(u))
  {
    CreateCanonicalForm(u);
    CanonicalUrlIdempotent(u);
    var c := Create(Some(u)).value.url;
    assert EqualsIgnoreCase(c.protocol, "http") || EqualsIgnoreCase(c.protocol, "https") by {
      EqualsIgnoreCaseIffSameLower(c.protocol, "http");
      EqualsIgnoreCaseIffSameLower(c.protocol, "https");
      assert Lower("http") == "http";
      assert Lower("https") == "https";
    }
  }

  /**
   * The three spellings of one URL in section 3.2.3 of RFC 2616 construct
   * equal HttpURLs: "http://abc.com:80/~smith/home.html",
   * "http://ABC.com/%7Esmith/home.html" and "http://ABC.com:/%7esmith/home.html",
   * stated for every host spelt in any case and every escape-free rest of the path.
   */
  lemma Rfc2616ExamplesAreEqual(host1: string, host2: string, tail: string)
    requires EqualsIgnoreCase(host1, host2)
    requires forall i :: 0 <= i < |tail| ==> tail[i] != '%'
    ensures var a := Create(Some(UrlParts("http", host1, 80, "/~" + tail)));
            var b := Create(Some(UrlParts("http", host2, -1, "/%7E" + tail)));
            var c := Create(Some(UrlParts("http", host2, -1, "/%7e" + tail)));
            && a.Success? && b.Success? && c.Success?
            && Equals(a.value, b.value) && Equals(b.value, c.value)
  {
    EqualsIgnoreCaseIffSameLower(host1, host2);
    TildeEscapesNormalize(tail);
    CreateHttp(host1, 80, "/~" + tail);
    CreateHttp(host2, -1, "/%7E" + tail);
    CreateHttp(host2, -1, "/%7e" + tail);
  }

  /** An escaped tilde decodes, in either case of hex digit. */
  lemma TildeEscapesNormalize(tail: string)
    requires forall i :: 0 <= i < |tail| ==> tail[i] != '%'
    ensures Normalize("/~" + tail) == Success("/~" + tail)
    ensures Normalize("/%7E" + tail) == Success("/~" + tail)
    ensures Normalize("/%7e" + tail) == Success("/~" + tail)
  {
    NormalizePlain(tail);
    NormalizePlainFront('~', tail);
    var plain := ['~'] + tail;
    assert Normalize(plain) == Success(plain);
    NormalizePlainFront('/', plain);
    assert "/~" + tail == ['/'] + plain;
    EscapedTilde('E', tail);
    EscapedTilde('e', tail);
  }

  lemma EscapedTilde(x: char, tail: string)
    requires x == 'E' || x == 'e'
    requires Normalize(tail).Success? && Normalize(tail).value == tail
    ensures Normalize(['/', '%', '7', x] + tail) == Success(['/', '~'] + tail)
  {
    assert HexValue(x) == 14;
    assert EscapeByte('7', x) == Some(126);
    assert Unreserved('~');
    assert NormalizeEscape('7', x) == Success(['~']);
    var t := ['%', '7', x] + tail;
    NormalizeEscapeFront('7', x, tail);
    assert Normalize(t) == Success(['~'] + tail);
    NormalizePlainFront('/', t);
    assert ['/', '%', '7', x] + tail == ['/'] + t;
    assert ['/'] + (['~'] + tail) == ['/', '~'] + tail;
  }

  lemma NormalizePlainFront(c: char, tail: string)
    requires c != '%'
    ensures Normalize([c] + tail) == Prepend([c], Normalize(tail))
  {
    assert ([c] + tail)[1..] == tail;
  }

  lemma NormalizeEscapeFront(x: char, y: char, tail: string)
    requires NormalizeEscape(x, y).Success?
    ensures Normalize(['%', x, y] + tail) == Prepend(NormalizeEscape(x, y).value, Normalize(tail))
  {
    assert (['%', x, y] + tail)[3..] == tail;
  }

  /** An http URL with a non-empty file that normalizes constructs to its lower-cased host, default port and normal file. */
  lemma CreateHttp(host: string, port: int, file: string)
    requires file != [] && Normalize(file).Success? && port >= -1
    ensures Create(Some(UrlParts("http", host, port, file)))
         == Success(HttpURL(UrlParts("http", Lower(host), if port == -1 then 80 else port, Normalize(file).value)))
  {
    assert Lower("http") == "http";
    EqualsIgnoreCaseIffSameLower("http", "http");
  }

  /** A file without escapes is already normal. */
  lemma {:induction false} NormalizePlain(file: string)
    requires forall i :: 0 <= i < |file| ==> file[i] != '%'
    ensures Normalize(file) == Success(file)
  {
    if file != [] {
      NormalizePlain(file[1..]);
      assert [file[0]] + file[1..] == file;
    }
  }
}

# chaplib core, modelled in Dafny

chaplib is a caching HTTP client library. This project models its core:

- **Response freshness engine** (`Response`). It holds one cached response: the request and response timestamps plus the response headers. From these it computes the following:
  - the current age of the response (RFC 2616 section 13.2.3);
  - its freshness lifetime, from `max-age`/`s-maxage`, else `Expires` minus `Date`;
  - the heuristic lifetime, from `Last-Modified`;
  - its staleness;
  - whether it may be revalidated;
  - whether a `Cache-Control` directive is present;
  - whether the `stale-while-revalidate` and `stale-if-error` extensions of RFC 5861 allow serving it stale.
- **URL canonicalization and equality** (`HttpURL`). The following are rewritten to one canonical form, so that `equals` compares that form:
  - the scheme and host, which are lower-cased;
  - the port, where a default 80/443 stands in for none;
  - the path, where `/` stands in for empty and escapes of unreserved characters are decoded.
- **Resource factory** (`HttpResourceFactory`). A memo table that hands out one resource object per canonical URL.
- **Character-set policies** (`AllowOnlyIANACharacterSetsPolicy`, `AllowIANACharacterSetsPolicy`). Two identical validators. Each accepts a charset that is null, empty, or registered with IANA ignoring case, and rejects anything else with an `InvalidCharacterSetException`.

## Layout

| file | module | contents |
|---|---|---|
| `wrappers.dfy` | `Wrappers` | `Option` (Java's `null`) and `Result` (a value or the exception thrown) |
| `java_text.dfy` | `JavaText` | The JDK behaviour the core relies on: `toLowerCase`, `equalsIgnoreCase`, `Long.parseLong`/`Integer.parseInt`, truncating `long` division and the `(long)` cast |
| `response.dfy` | `Responses` | The immutable `Response` datatype and every query of `Response.java` |
| `http_url.dfy` | `HttpUrls` | The URL parts, `normalizeFile`, `canonicalURL`, the constructor and `equals` |
| `resource_factory.dfy` | `ResourceFactory` | The classes `HttpResource` and `HttpResourceFactory`; `directory` is a `map` field that `Get` updates |
| `iana_charsets.dfy` | `IanaCharsets` | The logic both policies share: building the lower-cased set and the validation verdict |
| `allow_only_iana_policy.dfy`, `allow_iana_policy.dfy` | `AllowOnlyIanaPolicy`, `AllowIanaPolicy` | One class each; its `const` set is built by the static initialiser's loop |

Modelling choices:

- Times are milliseconds as `int`; ages and lifetimes are seconds.
- `HttpCacheEntry` is immutable once constructed, so `Response` is a datatype.
- `DateUtils.parseDate` and `Header.getElements` belong to HttpClient, not to this code. They are the two arrow-typed fields of `HeaderSyntax`, carried by every `Response`. A date that does not parse is `None`.
- Header lookup is case-insensitive, as `HeaderGroup` does it.
- The loops of `getAgeValue`, `getMaxAge`, `hasCacheControlDirective` and the two stale checks are methods. `GetAgeValue` and `GetMaxAge` are proved equal to recursive specification functions (`AgeValueOf`, `MaxAgeScan`). The other three are proved equal to existential predicates over the flattened directive list (`SomeDirectiveNamed`, `StaleWhileRevalidateGrants`, `StaleIfErrorAllows`). The properties of `Response.java` are proved as lemmas about those functions and predicates.

Quirks of the Java code that the model keeps as written:

- `getMaxAge` uses `-1` both as "no directive yet" and as a parsed value. A directive `max-age=-1` therefore lets the next directive replace it, and a final `-1` makes the lifetime fall back to `Expires`.
- A `max-age` or `s-maxage` value that does not parse sets the running value to 0. Only a smaller (negative) value can replace it afterwards.
- `max-age` and `s-maxage` match by exact name. `stale-if-error` also matches exactly. `stale-while-revalidate` and `hasCacheControlDirective` match ignoring case.
- The `Age` value is the maximum over all `Age` headers. A negative or malformed header counts as `MAX_AGE` (2147483648).
- In `normalizeFile`, a `%` with fewer than two characters after it throws (`substring` goes out of range); it is not copied.
- An escape is decoded with `Integer.parseInt(…, 16)`, which also accepts the forms `%+H` and `%-0`. These decode to control characters, so they are kept as written. Any other non-hex escape throws.

## Model

| member | source | states |
|---|---|---|
| JavaText.Lower | src/main/java/org/chaplib/HttpURL.java:55-56 | lower-casing keeps the length, leaves no capital letter, keeps every non-capital as it was, and each result character matches the original ignoring case |
| JavaText.CharsMatchIffSameLower | src/main/java/org/chaplib/HttpURL.java:37 | two characters match ignoring case exactly when their lower-case forms are equal |
| JavaText.EqualsIgnoreCaseIffSameLower | src/main/java/org/chaplib/HttpURL.java:37 | `equalsIgnoreCase` holds exactly when the lower-cased strings are equal (both directions) |
| JavaText.LowerIdempotent | src/main/java/org/chaplib/HttpURL.java:55-56 | lower-casing an already lower-cased string changes nothing |
| JavaText.ParseDecimal | src/main/java/org/chaplib/Response.java:182 | a value that `parseLong`/`parseInt` accepts lies in the type's range |
| JavaText.ParseDecimalString | src/main/java/org/chaplib/Response.java:221 | the decimal text of every in-range number parses back to that number |
| JavaText.MillisToSecs | src/main/java/org/chaplib/Response.java:200-203 | `diff / 1000` truncates toward zero: 1000 times the result is within one second of `diff`, on the side of zero |
| JavaText.MillisToSecsMonotone | src/main/java/org/chaplib/Response.java:209-212 | whole seconds never decrease as the milliseconds grow |
| JavaText.TruncateToLong | src/main/java/org/chaplib/Response.java:77 | the `(long)` cast truncates toward zero, to within 1 |
| Responses.HeadersNamed | src/main/java/org/chaplib/Response.java:97 | `getHeaders(name)` keeps exactly the headers whose name equals `name` ignoring case, and no more of them |
| Responses.HeadersNamedConcat | src/main/java/org/chaplib/Response.java:178 | looking up headers in a concatenated list gives the matches of the first part followed by those of the second, so the lookup keeps order and every occurrence |
| Responses.FirstHeader | src/main/java/org/chaplib/Response.java:143-146 | `getFirstHeader` is absent exactly when no header has the name, otherwise the first such header |
| Responses.FirstHeaderIsFirst | src/main/java/org/chaplib/Response.java:143-146 | `getFirstHeader` returns the header at the first position whose name matches; no earlier header matches |
| Responses.DirectivesStep | src/main/java/org/chaplib/Response.java:97-98 | the directives of one more `Cache-Control` header are appended after those already scanned |
| Responses.DirectivesSplit | src/main/java/org/chaplib/Response.java:247-249 | scanning headers in two parts yields the directives of the first part followed by those of the second |
| Responses.DirectiveIndex | src/main/java/org/chaplib/Response.java:247-252 | each element of each `Cache-Control` header sits at some position of the flattened directive list |
| Responses.ApparentAgeSecs | src/main/java/org/chaplib/Response.java:167-175 | the apparent age is `MAX_AGE` without a usable Date and 0 when Date is after the response time; otherwise it is the whole seconds from Date to the response |
| Responses.AgeContribution | src/main/java/org/chaplib/Response.java:180-188 | what one Age header contributes is never negative |
| Responses.AgeValueIsMaximum | src/main/java/org/chaplib/Response.java:177-192 | the Age value is 0 without Age headers; otherwise it is the largest contribution (reached by one header, at least every other). It is at least `MAX_AGE` when some header does not parse or is negative |
| Responses.GetAgeValue | src/main/java/org/chaplib/Response.java:177-192 | the loop yields the maximum Age value the specification function defines |
| Responses.CurrentAgeBounds | src/main/java/org/chaplib/Response.java:194-207 | the current age is the larger of apparent age and Age value, plus response delay and resident time. It is never below either, and at least `MAX_AGE` plus the delays without a usable Date |
| Responses.CurrentAgeOfFreshArrival | src/main/java/org/chaplib/Response.java:27-29 | with no Age header, Date equal to the arrival time and no transit delay, the current age is the whole seconds spent in the cache |
| Responses.CurrentAgeMonotone | src/main/java/org/chaplib/Response.java:209-212 | the current age never decreases as time passes |
| Responses.MaxAgeScanIsMinimum | src/main/java/org/chaplib/Response.java:214-233 | this holds when no value parses negative. The scan is -1 without `max-age`/`s-maxage`, 0 when one does not parse, and otherwise the minimum of their values (at most each, equal to one) |
| Responses.MaxAgeMinusOneIsReplaced | src/main/java/org/chaplib/Response.java:218-224 | after a scan ending at -1 (none seen, or a parsed -1), the next parsed `max-age`/`s-maxage` value becomes the result, larger or not |
| Responses.MaxAgeMinusOneThenFive | src/main/java/org/chaplib/Response.java:215-231 | `max-age=-1` followed by `max-age=5` scans to 5 |
| Responses.MaxAgeScanSnoc | src/main/java/org/chaplib/Response.java:216-230 | scanning one more directive applies one step of the loop to the running value |
| Responses.GetMaxAge | src/main/java/org/chaplib/Response.java:214-233 | the nested loops over headers and elements compute the scan the specification function defines |
| Responses.FreshnessFromMaxAge | src/main/java/org/chaplib/Response.java:31-34 | with `max-age`/`s-maxage` present and none negative, the lifetime is their minimum, or 0 when one is malformed |
| Responses.FreshnessFromExpires | src/main/java/org/chaplib/Response.java:31-44 | whenever the max-age scan ends below 0 (no `max-age`/`s-maxage`, or a negative value such as `max-age=-5`), the lifetime is 0 unless both Date and Expires parse. Then it is the whole seconds between them, truncated toward zero, which is negative when Expires is earlier |
| Responses.StalenessSecs | src/main/java/org/chaplib/Response.java:258-263 | staleness is never negative. It is 0 exactly when the age is within the lifetime, otherwise age minus lifetime |
| Responses.FreshIsNotStale | src/main/java/org/chaplib/Response.java:47-49 | a fresh response has staleness 0 and was fresh at every earlier moment |
| Responses.StalenessMonotone | src/main/java/org/chaplib/Response.java:258-263 | staleness never decreases as time passes |
| Responses.HeuristicLifetimeCases | src/main/java/org/chaplib/Response.java:69-81 | the heuristic lifetime is the default when a date is unusable and 0 when Last-Modified follows Date. Otherwise it is coefficient times the whole seconds between them, truncated. It is never negative for a non-negative coefficient |
| Responses.HeuristicLifetimeFromDates | src/main/java/org/chaplib/Response.java:73-78 | from two parsed dates the heuristic lifetime is 0 when Last-Modified is later; otherwise it is the truncated product of coefficient and whole seconds, never negative for a non-negative coefficient |
| Responses.HeuristicFreshnessAntitone | src/main/java/org/chaplib/Response.java:64-67 | heuristic freshness holds at every earlier moment too, and without usable dates it means being younger than the default lifetime |
| Responses.IsRevalidatable | src/main/java/org/chaplib/Response.java:83-86 | revalidatable exactly when some header is named ETag or Last-Modified (ignoring case) |
| Responses.SomeDirectiveNamedConcat | src/main/java/org/chaplib/Response.java:247-256 | a directive of the name occurs in a concatenation exactly when it occurs in one part |
| Responses.HasCacheControlDirective | src/main/java/org/chaplib/Response.java:247-256 | the early-returning nested loop answers true exactly when some `Cache-Control` directive has the name ignoring case |
| Responses.MustRevalidate | src/main/java/org/chaplib/Response.java:88-90 | true exactly when a `must-revalidate` directive is present |
| Responses.ProxyRevalidate | src/main/java/org/chaplib/Response.java:92-94 | true exactly when a `proxy-revalidate` directive is present |
| Responses.StaleWhileRevalidateGrantsConcat | src/main/java/org/chaplib/Response.java:97-109 | a granting `stale-while-revalidate` occurs in a concatenation exactly when it occurs in one part |
| Responses.StaleWhileRevalidateScan | src/main/java/org/chaplib/Response.java:97-110 | the nested, early-returning loops over the `Cache-Control` headers and their elements answer true exactly when some `stale-while-revalidate` directive (ignoring case) parses to a value no smaller than the given staleness |
| Responses.MayReturnStaleWhileRevalidating | src/main/java/org/chaplib/Response.java:96-113 | true exactly when some `stale-while-revalidate` directive parses to a number no smaller than the staleness; malformed ones are skipped |
| Responses.StaleIfErrorScan | src/main/java/org/chaplib/Response.java:123-141 | the loop with its inner `break` is true exactly when some `stale-if-error` directive (exact name) grants the staleness |
| Responses.StaleIfErrorAllowsConcat | src/main/java/org/chaplib/Response.java:123-141 | a granting `stale-if-error` occurs in a concatenation exactly when it occurs in one part |
| Responses.MayReturnStaleIfError | src/main/java/org/chaplib/Response.java:115-121 | true exactly when the request's or the response's `Cache-Control` grants the staleness by `stale-if-error` |
| Responses.StaleWhileRevalidateAntitone | src/main/java/org/chaplib/Response.java:96-113 | if serving stale while revalidating is allowed now, it was allowed at every earlier moment |
| Responses.FreshResponseMayBeServedStale | src/main/java/org/chaplib/Response.java:96-113 | a fresh response with a well-formed non-negative `stale-while-revalidate` may be served while revalidating |
| HttpUrls.HexValue | src/main/java/org/chaplib/HttpURL.java:81 | a hex digit's value is below 16 |
| HttpUrls.EscapeByte | src/main/java/org/chaplib/HttpURL.java:81 | a decoded escape is a byte. Two hex digits give 16·high + low; the signed forms give a value below 16 |
| HttpUrls.NormalizeFile | src/main/java/org/chaplib/HttpURL.java:70-93 | the `StringBuilder` loop, which skips two characters after an escape, computes the left-to-right normalization, including both exceptions |
| HttpUrls.TrailingPercentFails | src/main/java/org/chaplib/HttpURL.java:77-78 | a `%` followed by fewer than two characters makes normalization throw, whatever precedes it; it is the truncated-escape exception when the text before it normalizes |
| HttpUrls.NormalizeNeverLonger | src/main/java/org/chaplib/HttpURL.java:72-91 | normalizing never lengthens the file and never empties a non-empty one |
| HttpUrls.NormalizeIdempotent | src/main/java/org/chaplib/HttpURL.java:70-93 | normalizing a normalized file succeeds and changes nothing |
| HttpUrls.NormalizePlain | src/main/java/org/chaplib/HttpURL.java:74-76 | a file without `%` is already normal |
| HttpUrls.EscapeEquivalentIffUnreserved | src/main/java/org/chaplib/HttpURL.java:85-89 | an ASCII character and its `%xx` encoding (either case of hex digit) normalize alike exactly when the character is unreserved |
| HttpUrls.CreateHttp | src/main/java/org/chaplib/HttpURL.java:54-62 | an http URL constructs to its lower-cased host, port 80 when none is given, and the normalized file |
| HttpUrls.CreateCanonicalForm | src/main/java/org/chaplib/HttpURL.java:54-68 | a constructed URL has the lower-cased input scheme, which is exactly `http`/`https`, the lower-cased host and a non-negative port (80/443 when none was given, else unchanged). Its file is non-empty (`/` for empty) and no longer than the given one |
| HttpUrls.CanonicalUrlIdempotent | src/main/java/org/chaplib/HttpURL.java:54-68 | canonicalizing a canonical URL changes nothing |
| HttpUrls.CreateIdempotent | src/main/java/org/chaplib/HttpURL.java:33-44 | constructing an HttpURL from a canonical URL gives the same HttpURL |
| HttpUrls.EqualsIsIdentity | src/main/java/org/chaplib/HttpURL.java:110-126 | `equals` holds exactly when the canonical URLs are identical, so it is an equivalence and consistent with the memo table's keys |
| HttpUrls.Rfc2616ExamplesAreEqual | src/test/java/org/chaplib/TestHttpURL.java:175-181 | the three spellings in section 3.2.3 of RFC 2616 construct equal HttpURLs, for every host case and escape-free path tail |
| HttpUrls.TildeEscapesNormalize | src/main/java/org/chaplib/HttpURL.java:78-90 | `%7E` and `%7e` both decode to `~` |
| ResourceFactory.HttpResourceFactory.constructor | src/main/java/org/chaplib/HttpResourceFactory.java:12-17 | the factory starts with an empty, valid directory |
| ResourceFactory.HttpResourceFactory.Get | src/main/java/org/chaplib/HttpResourceFactory.java:19-32 | a construction error leaves the directory as it was. A hit returns the filed resource. A miss files a fresh resource for the canonical URL. Every resource stays filed under its own URL |
| ResourceFactory.ResourcesAreDistinct | src/main/java/org/chaplib/HttpResourceFactory.java:21-30 | two entries of the directory share a resource exactly when they are the same URL |
| ResourceFactory.EquivalentUrisShareResource | src/test/java/org/chaplib/TestHttpResourceFactory.java:48-57 | two spellings that construct the same HttpURL get the very same resource |
| ResourceFactory.DifferentUrisGetDifferentResources | src/test/java/org/chaplib/TestHttpResourceFactory.java:59-63 | URLs with different canonical forms get different resources |
| IanaCharsets.LowercaseSet | src/main/java/org/chaplib/AllowOnlyIANACharacterSetsPolicy.java:26-29 | the initialiser's loop builds exactly the set of lower-cased registry names |
| IanaCharsets.Validate | src/main/java/org/chaplib/AllowOnlyIANACharacterSetsPolicy.java:35 | a rejection carries the message "not an IANA character set: " followed by the charset |
| IanaCharsets.ValidateAcceptsRegistered | src/main/java/org/chaplib/AllowOnlyIANACharacterSetsPolicy.java:32-36 | a charset is accepted exactly when it is null, empty or equal ignoring case to a registry name |
| IanaCharsets.RegisteredNamesAreAccepted | src/test/java/org/chaplib/TestAllowOnlyIANACharacterSetsPolicy.java:49-53 | every registry name, spelt as registered, is accepted |
| IanaCharsets.ValidateIgnoresCase | src/main/java/org/chaplib/AllowOnlyIANACharacterSetsPolicy.java:34 | re-casing a charset never changes whether it is accepted |
| AllowOnlyIanaPolicy.AllowOnlyIANACharacterSetsPolicy.constructor | src/main/java/org/chaplib/AllowOnlyIANACharacterSetsPolicy.java:25-30 | the set holds exactly the lower-cased registry names |
| AllowOnlyIanaPolicy.AllowOnlyIANACharacterSetsPolicy.ValidateCharacterSet | src/main/java/org/chaplib/AllowOnlyIANACharacterSetsPolicy.java:32-36 | accepts exactly null, empty, or registered ignoring case; otherwise rejects with the charset named in the message |
| AllowIanaPolicy.AllowIANACharacterSetsPolicy.constructor | src/main/java/org/chaplib/AllowIANACharacterSetsPolicy.java:8-13 | the set holds exactly the lower-cased registry names |
| AllowIanaPolicy.AllowIANACharacterSetsPolicy.ValidateCharacterSet | src/main/java/org/chaplib/AllowIANACharacterSetsPolicy.java:15-19 | accepts exactly null, empty, or registered ignoring case; otherwise rejects with the charset named in the message |

## Left out

- HTTP message parsing, `DateUtils.parseDate` and `Header.getElements` are HttpClient code. They are parameters (`HeaderSyntax`), and their results are taken as given.
- The `Response` constructor's wrapping of an `HttpResponse` into an `HttpCacheEntry`: a `Response` value is built directly from its timestamps and headers.
- URL parsing: `new URL(s)`, `URI.toString` and the `HttpURL(URI)`/`HttpURL(URL)` overloads. The constructor receives the parsed parts, or `None` for `MalformedURLException`.
- `java.net.URL` rejects a canonical URL only for a port below -1. `CanonicalUrl` models just that check, not the rest of `URL`'s validation.
- JavaText.Lower: ASCII case mapping only. Java's `toLowerCase`/`equalsIgnoreCase` also fold non-ASCII letters, and `parseLong`/`parseInt` accept non-ASCII digits.
- JavaText.MillisToSecs and the age/lifetime functions: 64-bit `long` overflow is not modelled; the arithmetic is unbounded.
- Responses.HeuristicLifetimeCases: the `float` coefficient is a real. `float` rounding is not modelled, nor the saturation of the `(long)` cast.
- `UnsupportedEncodingException` for "utf-8" in `normalizeFile` cannot happen and is left out.
- UTF-8 decoding of the escaped byte: a byte of 128 or more becomes the replacement character, which is never unreserved. Only that outcome (the escape is kept) is modelled.
- Responses.MayReturnStaleWhileRevalidating computes the staleness once. The Java code recomputes it for each directive from the same inputs, which gives the same value.
- HttpResourceFactory.Get: the model assumes stable name resolution. `HttpURL.hashCode` is `java.net.URL.hashCode`, which resolves the host through DNS, so two equal HttpURLs can hash differently when resolution changes between calls; `get` then misses and files a second resource, which the hit clause of `Get` does not allow for. The map of the model is keyed by value equality only.
- ResourceFactory.HttpResourceFactory.Get: the weak references of `WeakHashMap` (entries dropped by the garbage collector) and `synchronized` are not modelled. The `URISyntaxException` from `toURI` is not modelled either, since the canonical URL is always taken to convert.
- `HttpResource` holds only its URI; its HTTP operations and the `HttpClient` it is given are not part of this model.
- `IANACharacterSets.CHARACTER_SETS` is not part of this model. The registry is the constructor's parameter; the Java classes build their set once in a static initialiser.

/**
 * The freshness and age engine of a cached HTTP response: the age
 * calculation of section 13.2.3 of RFC 2616, the expiration calculation of
 * section 13.2.4, the max-age and s-maxage directives of section 14.9.3, and
 * the stale-while-revalidate and stale-if-error extensions of sections 3 and
 * 4 of RFC 5861.
 *
 * A Response is the immutable cache entry it wraps; every query reads it
 * together with a clock reading `now`. Times are milliseconds, ages and
 * lifetimes whole seconds.
 */
module Responses {
  import opened Wrappers
  import opened JavaText

  /** The age reported when a Date header is missing or an Age header is bad: 2^31 seconds. */
  const MAX_AGE: int := 2147483648

  const CACHE_CONTROL := "Cache-Control"
  const AGE := "Age"
  const DATE := "Date"
  const EXPIRES := "Expires"
  const LAST_MODIFIED := "Last-Modified"
  const ETAG := "ETag"
  const MAX_AGE_DIRECTIVE := "max-age"
  const S_MAXAGE := "s-maxage"
  const MUST_REVALIDATE := "must-revalidate"
  const PROXY_REVALIDATE := "proxy-revalidate"
  const STALE_WHILE_REVALIDATE := "stale-while-revalidate"
  const STALE_IF_ERROR := "stale-if-error"

  datatype Header = Header(name: string, value: string)

  /** One comma-separated directive of a Cache-Control header; its value may be absent. */
  datatype Element = Element(name: string, value: Option<string>)

  /**
   * The two foreign parsers the engine calls: HTTP date parsing (None when
   * the text is not a date; otherwise milliseconds since the epoch) and the
   * splitting of a header value into directives.
   */
  datatype HeaderSyntax = HeaderSyntax(parseDate: string -> Option<int>, elements: string -> seq<Element>)

  /** The stored exchange: when the request went out, when the response came back, and its headers in order. */
  datatype Response = Response(requestDate: int, responseDate: int, headers: seq<Header>, syntax: HeaderSyntax)

  // ---------------------------------------------------------------------
  // Header lookup

  /** All headers with the given name, compared ignoring case, in their original order. */
  function HeadersNamed(hs: seq<Header>, name: string): (r: seq<Header>)
    ensures |r| <= |hs|
    ensures forall h :: h in r <==> h in hs && EqualsIgnoreCase(h.name, name)
  {
    if hs == [] then []
    else if EqualsIgnoreCase(hs[0].name, name) then [hs[0]] + HeadersNamed(hs[1..], name)
    else HeadersNamed(hs[1..], name)
  }

  /**
   * Looking up headers in a list made of two parts finds those of the first
   * part, in order, followed by those of the second: the lookup keeps the
   * order and every occurrence of the matching headers.
   */
  lemma {:induction false} HeadersNamedConcat(a: seq<Header>, b: seq<Header>, name: string)
    ensures HeadersNamed(a + b, name) == HeadersNamed(a, name) + HeadersNamed(b, name)
  {
    if a == [] {
      assert a + b == b;
    } else {
      assert (a + b)[1..] == a[1..] + b;
      assert (a + b)[0] == a[0];
      HeadersNamedConcat(a[1..], b, name);
    }
  }

  /** getFirstHeader: the first of the headers with the given name, if any. */
  function FirstHeader(hs: seq<Header>, name: string): (r: Option<Header>)
    ensures r.Some? <==> exists i :: 0 <= i < |hs| && EqualsIgnoreCase(hs[i].name, name)
    ensures r == if HeadersNamed(hs, name) == [] then None else Some(HeadersNamed(hs, name)[0])
  {
    if hs == [] then None
    else if EqualsIgnoreCase(hs[0].name, name) then Some(hs[0])
    else
      assert forall i :: 1 <= i < |hs| ==> hs[i] == hs[1..][i - 1];
      FirstHeader(hs[1..], name)
  }

  /** Position i holds a header with the name, and no earlier position does. */
  predicate IsFirstMatch(hs: seq<Header>, name: string, i: int) {
    0 <= i < |hs| && EqualsIgnoreCase(hs[i].name, name) && forall j :: 0 <= j < i ==> !EqualsIgnoreCase(hs[j].name, name)
  }

  /** getFirstHeader returns the header at the first position whose name matches, ignoring case. */
  lemma {:induction false} FirstHeaderIsFirst(hs: seq<Header>, name: string)
    ensures FirstHeader(hs, name).Some? ==> exists i :: IsFirstMatch(hs, name, i) && FirstHeader(hs, name).value == hs[i]
  {
    if hs != [] && EqualsIgnoreCase(hs[0].name, name) {
      assert IsFirstMatch(hs, name, 0);
    } else if hs != [] {
      var tl := hs[1..];
      FirstHeaderIsFirst(tl, name);
      assert FirstHeader(hs, name) == FirstHeader(tl, name);
      if FirstHeader(tl, name).Some? {
        var i :| IsFirstMatch(tl, name, i) && FirstHeader(tl, name).value == tl[i];
        assert hs[i + 1] == tl[i];
        forall j | 0 <= j < i + 1
          ensures !EqualsIgnoreCase(hs[j].name, name)
        {
          if j > 0 {
            assert hs[j] == tl[j - 1];
          }
        }
        assert IsFirstMatch(hs, name, i + 1);
      }
    }
  }

  /** The date the first header of that name carries; None when there is none or it does not parse. */
  function DateHeaderValue(r: Response, name: string): Option<int> {
    match FirstHeader(r.headers, name)
    case None => None
    case Some(h) => r.syntax.parseDate(h.value)
  }

  function DateValue(r: Response): Option<int> {
    DateHeaderValue(r, DATE)
  }

  function LastModifiedValue(r: Response): Option<int> {
    DateHeaderValue(r, LAST_MODIFIED)
  }

  function ExpirationDate(r: Response): Option<int> {
    DateHeaderValue(r, EXPIRES)
  }

  /** Every directive of the given headers, header by header. */
  function Directives(syntax: HeaderSyntax, hs: seq<Header>): seq<Element> {
    if hs == [] then [] else Directives(syntax, hs[..|hs| - 1]) + syntax.elements(hs[|hs| - 1].value)
  }

  lemma DirectivesStep(syntax: HeaderSyntax, hs: seq<Header>, i: nat)
    requires i < |hs|
    ensures Directives(syntax, hs[..i + 1]) == Directives(syntax, hs[..i]) + syntax.elements(hs[i].value)
  {
    assert hs[..i + 1][..i] == hs[..i];
  }

  /** Every directive of every Cache-Control header of the response. */
  function CacheControlDirectives(r: Response): seq<Element> {
    Directives(r.syntax, HeadersNamed(r.headers, CACHE_CONTROL))
  }

  // ---------------------------------------------------------------------
  // Age (RFC 2616 section 13.2.3)

  /** Whole seconds from the Date header to the moment the response arrived. */
  function ApparentAgeSecs(r: Response): (age: int)
    ensures DateValue(r).None? ==> age == MAX_AGE
    ensures DateValue(r).Some? && r.responseDate < DateValue(r).value ==> age == 0
    ensures DateValue(r).Some? && DateValue(r).value <= r.responseDate ==>
              0 <= 1000 * age <= r.responseDate - DateValue(r).value < 1000 * age + 1000
  {
    match DateValue(r)
    case None => MAX_AGE
    case Some(date) =>
      var diff := r.responseDate - date;
      if diff < 0 then 0 else MillisToSecs(diff)
  }

  /** What one Age header contributes: its value, or MAX_AGE when it is negative or does not parse. */
  function AgeContribution(h: Header): (age: int)
    ensures age >= 0
  {
    match ParseDecimal(h.value, LONG_MIN, LONG_MAX)
    case None => MAX_AGE
    case Some(v) => if v < 0 then MAX_AGE else v
  }

  /** The running maximum over the Age headers, starting from 0. */
  function AgeValueOf(ages: seq<Header>): int {
    if ages == [] then 0
    else
      var prev := AgeValueOf(ages[..|ages| - 1]);
      var hdrAge := AgeContribution(ages[|ages| - 1]);
      if hdrAge > prev then hdrAge else prev
  }

  /**
   * The Age value is 0 without Age headers, otherwise one of the headers'
   * contributions and at least every one of them; so it is never negative,
   * at least every valid Age, and at least MAX_AGE once any Age is malformed
   * or negative.
   */
  lemma {:induction false} AgeValueIsMaximum(ages: seq<Header>)
    ensures ages == [] ==> AgeValueOf(ages) == 0
    ensures ages != [] ==> exists i :: 0 <= i < |ages| && AgeValueOf(ages) == AgeContribution(ages[i])
    ensures forall i :: 0 <= i < |ages| ==> AgeContribution(ages[i]) <= AgeValueOf(ages)
    ensures AgeValueOf(ages) >= 0
    ensures (exists i :: 0 <= i < |ages| && (ParseDecimal(ages[i].value, LONG_MIN, LONG_MAX).None? || ParseDecimal(ages[i].value, LONG_MIN, LONG_MAX).value < 0)) ==>
              AgeValueOf(ages) >= MAX_AGE
  {
    if ages != [] {
      var init := ages[..|ages| - 1];
      AgeValueIsMaximum(init);
      assert forall i :: 0 <= i < |init| ==> ages[i] == init[i];
      if exists i :: 0 <= i < |ages| && (ParseDecimal(ages[i].value, LONG_MIN, LONG_MAX).None? || ParseDecimal(ages[i].value, LONG_MIN, LONG_MAX).value < 0) {
        var i :| 0 <= i < |ages| && (ParseDecimal(ages[i].value, LONG_MIN, LONG_MAX).None? || ParseDecimal(ages[i].value, LONG_MIN, LONG_MAX).value < 0);
        assert AgeContribution(ages[i]) == MAX_AGE;
      }
    }
  }

  /** getAgeValue: scans the Age headers keeping the largest contribution. */
  method GetAgeValue(r: Response) returns (ageValue: int)
    ensures ageValue == AgeValueOf(HeadersNamed(r.headers, AGE))
  {
    var ages := HeadersNamed(r.headers, AGE);
    ageValue := 0;
    var i := 0;
    while i < |ages|
      invariant 0 <= i <= |ages|
      invariant ageValue == AgeValueOf(ages[..i])
    {
      var hdrAge: int;
      match ParseDecimal(ages[i].value, LONG_MIN, LONG_MAX) {
        case None =>
          hdrAge := MAX_AGE;
        case Some(v) =>
          hdrAge := v;
          if hdrAge < 0 {
            hdrAge := MAX_AGE;
          }
      }
      assert ages[..i + 1][..i] == ages[..i];
      ageValue := if hdrAge > ageValue then hdrAge else ageValue;
      i := i + 1;
    }
    assert ages[..i] == ages;
  }

  function AgeValue(r: Response): int {
    AgeValueOf(HeadersNamed(r.headers, AGE))
  }

  function CorrectedReceivedAgeSecs(r: Response): int {
    var apparentAge := ApparentAgeSecs(r);
    var ageValue := AgeValue(r);
    if apparentAge > ageValue then apparentAge else ageValue
  }

  function ResponseDelaySecs(r: Response): int {
    MillisToSecs(r.responseDate - r.requestDate)
  }

  function CorrectedInitialAgeSecs(r: Response): int {
    CorrectedReceivedAgeSecs(r) + ResponseDelaySecs(r)
  }

  /** Time spent in the cache; not clamped when `now` precedes the response. */
  function ResidentTimeSecs(r: Response, now: int): int {
    MillisToSecs(now - r.responseDate)
  }

  /** getCurrentAgeSecs: corrected initial age plus resident time. */
  function CurrentAgeSecs(r: Response, now: int): int {
    CorrectedInitialAgeSecs(r) + ResidentTimeSecs(r, now)
  }

  /**
   * The current age is the larger of the apparent age and the Age value,
   * plus the response delay and the resident time: never less than either
   * source, and at least MAX_AGE plus the two delays when Date is unusable.
   */
  lemma CurrentAgeBounds(r: Response, now: int)
    ensures var delays := ResponseDelaySecs(r) + ResidentTimeSecs(r, now);
      && CurrentAgeSecs(r, now) >= ApparentAgeSecs(r) + delays
      && CurrentAgeSecs(r, now) >= AgeValue(r) + delays
      && (CurrentAgeSecs(r, now) == ApparentAgeSecs(r) + delays || CurrentAgeSecs(r, now) == AgeValue(r) + delays)
      && CurrentAgeSecs(r, now) >= delays
      && (DateValue(r).None? ==> CurrentAgeSecs(r, now) >= MAX_AGE + delays)
  {
    AgeValueIsMaximum(HeadersNamed(r.headers, AGE));
  }

  /**
   * With no Age header, a Date equal to the arrival time and no transit
   * delay, the current age is the whole seconds spent in the cache.
   */
  lemma CurrentAgeOfFreshArrival(r: Response, now: int)
    requires HeadersNamed(r.headers, AGE) == []
    requires DateValue(r) == Some(r.responseDate)
    requires r.requestDate == r.responseDate
    requires now >= r.responseDate
    ensures 1000 * CurrentAgeSecs(r, now) <= now - r.responseDate < 1000 * CurrentAgeSecs(r, now) + 1000
  {
  }

  /** A later clock reading never gives a younger response. */
  lemma CurrentAgeMonotone(r: Response, now1: int, now2: int)
    requires now1 <= now2
    ensures CurrentAgeSecs(r, now1) <= CurrentAgeSecs(r, now2)
  {
    MillisToSecsMonotone(now1 - r.responseDate, now2 - r.responseDate);
  }

  // ---------------------------------------------------------------------
  // Freshness lifetime (RFC 2616 sections 13.2.4 and 14.9.3)

  predicate IsMaxAgeDirective(e: Element) {
    e.name == MAX_AGE_DIRECTIVE || e.name == S_MAXAGE
  }

  /**
   * One step of getMaxAge: a max-age or s-maxage directive replaces the
   * running value when none was seen yet (-1) or it is smaller; one that
   * does not parse sets it to 0.
   */
  function MaxAgeStep(maxage: int, e: Element): int {
    if IsMaxAgeDirective(e) then
      match ParseLong(e.value)
      case Some(v) => if maxage == -1 || v < maxage then v else maxage
      case None => 0
    else maxage
  }

  function MaxAgeScan(ds: seq<Element>): int {
    if ds == [] then -1 else MaxAgeStep(MaxAgeScan(ds[..|ds| - 1]), ds[|ds| - 1])
  }

  /**
   * When no max-age or s-maxage value parses to a negative number: the scan
   * is -1 without such directives, 0 as soon as one of them does not parse,
   * and otherwise the smallest of their values.
   */
  lemma {:induction false} MaxAgeScanIsMinimum(ds: seq<Element>)
    requires forall i :: 0 <= i < |ds| && IsMaxAgeDirective(ds[i]) && ParseLong(ds[i].value).Some? ==> ParseLong(ds[i].value).value >= 0
    ensures (forall i :: 0 <= i < |ds| ==> !IsMaxAgeDirective(ds[i])) ==> MaxAgeScan(ds) == -1
    ensures (exists i :: 0 <= i < |ds| && IsMaxAgeDirective(ds[i]) && ParseLong(ds[i].value).None?) ==> MaxAgeScan(ds) == 0
    ensures (exists i :: 0 <= i < |ds| && IsMaxAgeDirective(ds[i])) ==> MaxAgeScan(ds) >= 0
    ensures forall i :: 0 <= i < |ds| && IsMaxAgeDirective(ds[i]) && ParseLong(ds[i].value).Some? ==> MaxAgeScan(ds) <= ParseLong(ds[i].value).value
    ensures (forall i :: 0 <= i < |ds| && IsMaxAgeDirective(ds[i]) ==> ParseLong(ds[i].value).Some?) && MaxAgeScan(ds) != -1 ==>
              exists i :: 0 <= i < |ds| && IsMaxAgeDirective(ds[i]) && ParseLong(ds[i].value) == Some(MaxAgeScan(ds))
  {
    if ds != [] {
      var init := ds[..|ds| - 1];
      assert forall i :: 0 <= i < |init| ==> ds[i] == init[i];
      MaxAgeScanIsMinimum(init);
      var last := ds[|ds| - 1];
      if (exists i :: 0 <= i < |ds| && IsMaxAgeDirective(ds[i]) && ParseLong(ds[i].value).None?) && !(IsMaxAgeDirective(last) && ParseLong(last.value).None?) {
        var i :| 0 <= i < |ds| && IsMaxAgeDirective(ds[i]) && ParseLong(ds[i].value).None?;
        assert i < |init| && IsMaxAgeDirective(init[i]) && ParseLong(init[i].value).None?;
      }
      if exists i :: 0 <= i < |ds| && IsMaxAgeDirective(ds[i]) {
        if !IsMaxAgeDirective(last) {
          var i :| 0 <= i < |ds| && IsMaxAgeDirective(ds[i]);
          assert i < |init| && IsMaxAgeDirective(init[i]);
        }
      }
    }
  }

  /**
   * A parsed -1 cannot be told from "no directive seen yet": after a scan
   * ending at -1, the next parsed max-age or s-maxage value replaces it,
   * whether it is larger or smaller.
   */
  lemma MaxAgeMinusOneIsReplaced(ds: seq<Element>, e: Element)
    requires MaxAgeScan(ds) == -1
    requires IsMaxAgeDirective(e) && ParseLong(e.value).Some?
    ensures MaxAgeScan(ds + [e]) == ParseLong(e.value).value
  {
    MaxAgeScanSnoc(ds, e);
  }

  /** "max-age=-1, max-age=5" scans to 5, not -1: the first value is overwritten. */
  lemma MaxAgeMinusOneThenFive()
    ensures MaxAgeScan([Element(MAX_AGE_DIRECTIVE, Some("-1")), Element(MAX_AGE_DIRECTIVE, Some("5"))]) == 5
  {
    var first := Element(MAX_AGE_DIRECTIVE, Some("-1"));
    var second := Element(MAX_AGE_DIRECTIVE, Some("5"));
    assert "-1"[1..] == "1" && AllDigits("1") && DigitsValue("1") == 1;
    assert ParseLong(first.value) == Some(-1);
    assert "5"[0..] == "5" && AllDigits("5") && DigitsValue("5") == 5;
    assert ParseLong(second.value) == Some(5);
    MaxAgeMinusOneIsReplaced([], first);
    assert [first] + [second] == [first, second];
    MaxAgeMinusOneIsReplaced([first], second);
  }

  lemma MaxAgeScanSnoc(ds: seq<Element>, e: Element)
    ensures MaxAgeScan(ds + [e]) == MaxAgeStep(MaxAgeScan(ds), e)
  {
    assert (ds + [e])[..|ds|] == ds;
  }

  /** getMaxAge: scans every directive of every Cache-Control header. */
  method GetMaxAge(r: Response) returns (maxage: int)
    ensures maxage == MaxAgeScan(CacheControlDirectives(r))
  {
    var hs := HeadersNamed(r.headers, CACHE_CONTROL);
    maxage := -1;
    var i := 0;
    while i < |hs|
      invariant 0 <= i <= |hs|
      invariant maxage == MaxAgeScan(Directives(r.syntax, hs[..i]))
    {
      ghost var done := Directives(r.syntax, hs[..i]);
      var elts := r.syntax.elements(hs[i].value);
      var j := 0;
      assert done + elts[..j] == done;
      while j < |elts|
        invariant 0 <= j <= |elts|
        invariant maxage == MaxAgeScan(done + elts[..j])
      {
        var elt := elts[j];
        ghost var before := maxage;
        if elt.name == MAX_AGE_DIRECTIVE || elt.name == S_MAXAGE {
          match ParseLong(elt.value) {
            case Some(currMaxAge) =>
              if maxage == -1 || currMaxAge < maxage {
                maxage := currMaxAge;
              }
            case None =>
              maxage := 0;
          }
        }
        assert maxage == MaxAgeStep(before, elt);
        assert done + elts[..j + 1] == (done + elts[..j]) + [elt];
        MaxAgeScanSnoc(done + elts[..j], elt);
        j := j + 1;
      }
      assert elts[..j] == elts;
      DirectivesStep(r.syntax, hs, i);
      i := i + 1;
    }
    assert hs[..i] == hs;
  }

  /** getFreshnessLifetimeSecs: a usable max-age first, else Expires minus Date, else 0. */
  function FreshnessLifetimeSecs(r: Response): int {
    var maxage := MaxAgeScan(CacheControlDirectives(r));
    if maxage > -1 then maxage
    else match DateValue(r)
      case None => 0
      case Some(date) =>
        match ExpirationDate(r)
        case None => 0
        case Some(expiry) => MillisToSecs(expiry - date)
  }

  /**
   * With every max-age and s-maxage value a non-negative number, the
   * lifetime is the smallest of them; a malformed one makes it 0.
   */
  lemma FreshnessFromMaxAge(r: Response)
    requires var ds := CacheControlDirectives(r);
      && (exists i :: 0 <= i < |ds| && IsMaxAgeDirective(ds[i]))
      && forall i :: 0 <= i < |ds| && IsMaxAgeDirective(ds[i]) && ParseLong(ds[i].value).Some? ==> ParseLong(ds[i].value).value >= 0
    ensures var ds := CacheControlDirectives(r);
      && FreshnessLifetimeSecs(r) >= 0
      && (forall i :: 0 <= i < |ds| && IsMaxAgeDirective(ds[i]) && ParseLong(ds[i].value).Some? ==> FreshnessLifetimeSecs(r) <= ParseLong(ds[i].value).value)
      && ((exists i :: 0 <= i < |ds| && IsMaxAgeDirective(ds[i]) && ParseLong(ds[i].value).None?) ==> FreshnessLifetimeSecs(r) == 0)
      && ((forall i :: 0 <= i < |ds| && IsMaxAgeDirective(ds[i]) ==> ParseLong(ds[i].value).Some?) ==>
            exists i :: 0 <= i < |ds| && IsMaxAgeDirective(ds[i]) && ParseLong(ds[i].value) == Some(FreshnessLifetimeSecs(r)))
  {
    MaxAgeScanIsMinimum(CacheControlDirectives(r));
  }

  /**
   * When the max-age scan ends below 0 (no max-age or s-maxage at all, or a
   * negative value such as max-age=-5), the lifetime is 0 unless both Date
   * and Expires parse, and then the whole seconds from Date to Expires,
   * which are negative when Expires comes first.
   */
  lemma FreshnessFromExpires(r: Response)
    requires MaxAgeScan(CacheControlDirectives(r)) < 0
    ensures DateValue(r).None? || ExpirationDate(r).None? ==> FreshnessLifetimeSecs(r) == 0
    ensures DateValue(r).Some? && ExpirationDate(r).Some? ==>
              var diff := ExpirationDate(r).value - DateValue(r).value;
              && (diff >= 0 ==> 0 <= 1000 * FreshnessLifetimeSecs(r) <= diff < 1000 * FreshnessLifetimeSecs(r) + 1000)
              && (diff < 0 ==> 1000 * FreshnessLifetimeSecs(r) - 1000 < diff <= 1000 * FreshnessLifetimeSecs(r) <= 0)
  {
  }

  /** isResponseFresh */
  predicate IsResponseFresh(r: Response, now: int) {
    CurrentAgeSecs(r, now) < FreshnessLifetimeSecs(r)
  }

  /** getStalenessSecs: how far the current age is past the lifetime, 0 while not past it. */
  function StalenessSecs(r: Response, now: int): (s: int)
    ensures s >= 0
    ensures s == 0 <==> CurrentAgeSecs(r, now) <= FreshnessLifetimeSecs(r)
    ensures s > 0 ==> s == CurrentAgeSecs(r, now) - FreshnessLifetimeSecs(r)
  {
    var age := CurrentAgeSecs(r, now);
    var freshness := FreshnessLifetimeSecs(r);
    if age <= freshness then 0 else age - freshness
  }

  /** A fresh response is not stale, and stays fresh for every earlier clock reading. */
  lemma FreshIsNotStale(r: Response, now: int, earlier: int)
    requires IsResponseFresh(r, now)
    requires earlier <= now
    ensures StalenessSecs(r, now) == 0
    ensures IsResponseFresh(r, earlier)
  {
    CurrentAgeMonotone(r, earlier, now);
  }

  /** Staleness only grows as the clock advances. */
  lemma StalenessMonotone(r: Response, now1: int, now2: int)
    requires now1 <= now2
    ensures StalenessSecs(r, now1) <= StalenessSecs(r, now2)
  {
    CurrentAgeMonotone(r, now1, now2);
  }

  // ---------------------------------------------------------------------
  // Heuristic freshness

  /**
   * getHeuristicFreshnessLifetimeSecs: a fraction `coefficient` of the whole
   * seconds from Last-Modified to Date, 0 when Last-Modified is later, and
   * `defaultLifetime` unchanged when either date is unusable.
   */
  function HeuristicFreshnessLifetimeSecs(r: Response, coefficient: real, defaultLifetime: int): int {
    HeuristicLifetime(DateValue(r), LastModifiedValue(r), coefficient, defaultLifetime)
  }

  /** The same computation on the two parsed dates. */
  function HeuristicLifetime(date: Option<int>, lastModified: Option<int>, coefficient: real, defaultLifetime: int): int {
    if date.Some? && lastModified.Some? then
      var diff := date.value - lastModified.value;
      if diff < 0 then 0 else TruncateToLong(coefficient * MillisToSecs(diff) as real)
    else defaultLifetime
  }

  /**
   * The heuristic lifetime is the default when a date is unusable,
   * 0 when Last-Modified follows Date, never negative for a non-negative
   * coefficient, and for coefficient c the truncation of c times the whole
   * seconds between the two dates.
   */
  lemma HeuristicLifetimeCases(r: Response, coefficient: real, defaultLifetime: int)
    ensures DateValue(r).None? || LastModifiedValue(r).None? ==> HeuristicFreshnessLifetimeSecs(r, coefficient, defaultLifetime) == defaultLifetime
    ensures DateValue(r).Some? && LastModifiedValue(r).Some? ==>
              var h := HeuristicFreshnessLifetimeSecs(r, coefficient, defaultLifetime);
              var date, lastModified := DateValue(r).value, LastModifiedValue(r).value;
              && (date < lastModified ==> h == 0)
              && (coefficient >= 0.0 ==> h >= 0)
              && (lastModified <= date ==>
                    var secs := MillisToSecs(date - lastModified);
                    && 1000 * secs <= date - lastModified < 1000 * secs + 1000
                    && (coefficient >= 0.0 ==> h as real <= coefficient * secs as real < h as real + 1.0))
  {
    var date, lastModified := DateValue(r), LastModifiedValue(r);
    if date.Some? && lastModified.Some? {
      HeuristicLifetimeFromDates(date.value, lastModified.value, coefficient, defaultLifetime);
    }
  }

  lemma HeuristicLifetimeFromDates(date: int, lastModified: int, coefficient: real, defaultLifetime: int)
    ensures var h := HeuristicLifetime(Some(date), Some(lastModified), coefficient, defaultLifetime);
              && (date < lastModified ==> h == 0)
              && (coefficient >= 0.0 ==> h >= 0)
              && (lastModified <= date && coefficient >= 0.0 ==>
                    h as real <= coefficient * MillisToSecs(date - lastModified) as real < h as real + 1.0)
  {
    var diff := date - lastModified;
    if diff >= 0 && coefficient >= 0.0 {
      ProductNonNegative(coefficient, MillisToSecs(diff) as real);
    }
  }

  lemma ProductNonNegative(a: real, b: real)
    requires a >= 0.0 && b >= 0.0
    ensures a * b >= 0.0
  {
  }

  /** isResponseHeuristicallyFresh */
  predicate IsResponseHeuristicallyFresh(r: Response, now: int, coefficient: real, defaultLifetime: int) {
    CurrentAgeSecs(r, now) < HeuristicFreshnessLifetimeSecs(r, coefficient, defaultLifetime)
  }

  /**
   * A response heuristically fresh now was so at every earlier moment, and
   * without usable Date and Last-Modified it is fresh exactly while younger
   * than the default lifetime.
   */
  lemma HeuristicFreshnessAntitone(r: Response, now1: int, now2: int, coefficient: real, defaultLifetime: int)
    requires now1 <= now2
    ensures IsResponseHeuristicallyFresh(r, now2, coefficient, defaultLifetime) ==>
              IsResponseHeuristicallyFresh(r, now1, coefficient, defaultLifetime)
    ensures DateValue(r).None? || LastModifiedValue(r).None? ==>
              (IsResponseHeuristicallyFresh(r, now1, coefficient, defaultLifetime) <==> CurrentAgeSecs(r, now1) < defaultLifetime)
  {
    CurrentAgeMonotone(r, now1, now2);
    HeuristicLifetimeCases(r, coefficient, defaultLifetime);
  }

  // ---------------------------------------------------------------------
  // Validators and directives

  /** isRevalidatable: some ETag or Last-Modified header is present. */
  function IsRevalidatable(r: Response): (b: bool)
    ensures b <==> exists i :: 0 <= i < |r.headers| &&
                     (EqualsIgnoreCase(r.headers[i].name, ETAG) || EqualsIgnoreCase(r.headers[i].name, LAST_MODIFIED))
  {
    FirstHeader(r.headers, ETAG).Some? || FirstHeader(r.headers, LAST_MODIFIED).Some?
  }

  /** Some directive's name matches `name` ignoring case. */
  predicate SomeDirectiveNamed(ds: seq<Element>, name: string) {
    exists k :: 0 <= k < |ds| && EqualsIgnoreCase(name, ds[k].name)
  }

  lemma SomeDirectiveNamedConcat(a: seq<Element>, b: seq<Element>, name: string)
    ensures SomeDirectiveNamed(a + b, name) <==> SomeDirectiveNamed(a, name) || SomeDirectiveNamed(b, name)
  {
    if SomeDirectiveNamed(a + b, name) {
      var k :| 0 <= k < |a + b| && EqualsIgnoreCase(name, (a + b)[k].name);
      if k < |a| {
        assert a[k] == (a + b)[k];
      } else {
        assert b[k - |a|] == (a + b)[k];
      }
    }
    if SomeDirectiveNamed(a, name) {
      var k :| 0 <= k < |a| && EqualsIgnoreCase(name, a[k].name);
      assert (a + b)[k] == a[k];
    }
    if SomeDirectiveNamed(b, name) {
      var k :| 0 <= k < |b| && EqualsIgnoreCase(name, b[k].name);
      assert (a + b)[|a| + k] == b[k];
    }
  }

  /** hasCacheControlDirective: some Cache-Control directive has that name, ignoring case. */
  method HasCacheControlDirective(r: Response, directive: string) returns (found: bool)
    ensures found <==> SomeDirectiveNamed(CacheControlDirectives(r), directive)
  {
    var hs := HeadersNamed(r.headers, CACHE_CONTROL);
    var i := 0;
    while i < |hs|
      invariant 0 <= i <= |hs|
      invariant !SomeDirectiveNamed(Directives(r.syntax, hs[..i]), directive)
    {
      ghost var done := Directives(r.syntax, hs[..i]);
      var elts := r.syntax.elements(hs[i].value);
      DirectivesStep(r.syntax, hs, i);
      var j := 0;
      while j < |elts|
        invariant 0 <= j <= |elts|
        invariant forall k :: 0 <= k < j ==> !EqualsIgnoreCase(directive, elts[k].name)
      {
        if EqualsIgnoreCase(directive, elts[j].name) {
          var k := DirectiveIndex(r.syntax, hs, i, j);
          assert EqualsIgnoreCase(directive, Directives(r.syntax, hs)[k].name);
          return true;
        }
        j := j + 1;
      }
      SomeDirectiveNamedConcat(done, elts, directive);
      i := i + 1;
    }
    assert hs[..i] == hs;
    return false;
  }

  /** The directives of the headers split at `n`: those of the first n, then those of the rest. */
  lemma {:induction false} DirectivesSplit(syntax: HeaderSyntax, hs: seq<Header>, n: nat)
    requires n <= |hs|
    ensures Directives(syntax, hs) == Directives(syntax, hs[..n]) + Directives(syntax, hs[n..])
    decreases |hs|
  {
    if n == |hs| {
      assert hs[..n] == hs;
      assert hs[n..] == [];
    } else {
      var init, rest := hs[..|hs| - 1], hs[n..];
      var last := syntax.elements(hs[|hs| - 1].value);
      DirectivesSplit(syntax, init, n);
      assert init[..n] == hs[..n];
      assert rest[..|rest| - 1] == init[n..] && rest[|rest| - 1] == hs[|hs| - 1];
      assert Directives(syntax, rest) == Directives(syntax, init[n..]) + last;
      assert Directives(syntax, hs) == Directives(syntax, init) + last;
      assert Directives(syntax, init) == Directives(syntax, hs[..n]) + Directives(syntax, init[n..]);
    }
  }

  /** Directive j of header i sits at a fixed position among all the directives. */
  lemma DirectiveIndex(syntax: HeaderSyntax, hs: seq<Header>, i: nat, j: nat) returns (k: nat)
    requires i < |hs| && j < |syntax.elements(hs[i].value)|
    ensures k < |Directives(syntax, hs)| && Directives(syntax, hs)[k] == syntax.elements(hs[i].value)[j]
  {
    DirectivesStep(syntax, hs, i);
    DirectivesSplit(syntax, hs, i + 1);
    k := |Directives(syntax, hs[..i])| + j;
    assert Directives(syntax, hs)[k] == Directives(syntax, hs[..i + 1])[k];
  }

  /** mustRevalidate */
  method MustRevalidate(r: Response) returns (b: bool)
    ensures b <==> SomeDirectiveNamed(CacheControlDirectives(r), MUST_REVALIDATE)
  {
    b := HasCacheControlDirective(r, MUST_REVALIDATE);
  }

  /** proxyRevalidate */
  method ProxyRevalidate(r: Response) returns (b: bool)
    ensures b <==> SomeDirectiveNamed(CacheControlDirectives(r), PROXY_REVALIDATE)
  {
    b := HasCacheControlDirective(r, PROXY_REVALIDATE);
  }

  // ---------------------------------------------------------------------
  // Serving stale responses (RFC 5861)

  /** A directive grants at least `staleness` seconds: its value parses as an int no smaller. */
  predicate Grants(e: Element, staleness: int) {
    ParseInt(e.value).Some? && staleness <= ParseInt(e.value).value
  }

  /** Some stale-while-revalidate directive (name compared ignoring case) grants `staleness` seconds. */
  predicate StaleWhileRevalidateGrants(ds: seq<Element>, staleness: int) {
    exists k :: 0 <= k < |ds| && EqualsIgnoreCase(STALE_WHILE_REVALIDATE, ds[k].name) && Grants(ds[k], staleness)
  }

  /** Some stale-while-revalidate directive of the response covers its current staleness. */
  predicate StaleWhileRevalidateAllows(r: Response, now: int) {
    StaleWhileRevalidateGrants(CacheControlDirectives(r), StalenessSecs(r, now))
  }

  lemma StaleWhileRevalidateGrantsConcat(a: seq<Element>, b: seq<Element>, staleness: int)
    ensures StaleWhileRevalidateGrants(a + b, staleness) <==> StaleWhileRevalidateGrants(a, staleness) || StaleWhileRevalidateGrants(b, staleness)
  {
    if StaleWhileRevalidateGrants(a + b, staleness) {
      var k :| 0 <= k < |a + b| && EqualsIgnoreCase(STALE_WHILE_REVALIDATE, (a + b)[k].name) && Grants((a + b)[k], staleness);
      if k < |a| {
        assert a[k] == (a + b)[k];
      } else {
        assert b[k - |a|] == (a + b)[k];
      }
    }
    if StaleWhileRevalidateGrants(a, staleness) {
      var k :| 0 <= k < |a| && EqualsIgnoreCase(STALE_WHILE_REVALIDATE, a[k].name) && Grants(a[k], staleness);
      assert (a + b)[k] == a[k];
    }
    if StaleWhileRevalidateGrants(b, staleness) {
      var k :| 0 <= k < |b| && EqualsIgnoreCase(STALE_WHILE_REVALIDATE, b[k].name) && Grants(b[k], staleness);
      assert (a + b)[|a| + k] == b[k];
    }
  }

  /** Some stale-if-error directive (name compared exactly) grants `staleness` seconds. */
  predicate StaleIfErrorAllows(ds: seq<Element>, staleness: int) {
    exists k :: 0 <= k < |ds| && ds[k].name == STALE_IF_ERROR && Grants(ds[k], staleness)
  }

  /**
   * mayReturnStaleWhileRevalidating: returns at the first directive that
   * grants the staleness; malformed ones are skipped. The Java code recomputes
   * the staleness for every directive; it is the same value each time.
   */
  method MayReturnStaleWhileRevalidating(r: Response, now: int) returns (b: bool)
    ensures b <==> StaleWhileRevalidateAllows(r, now)
  {
    var staleness := StalenessSecs(r, now);
    b := StaleWhileRevalidateScan(r.syntax, HeadersNamed(r.headers, CACHE_CONTROL), staleness);
  }

  /** The loops of mayReturnStaleWhileRevalidating over the Cache-Control headers, for a given staleness. */
  method StaleWhileRevalidateScan(syntax: HeaderSyntax, hs: seq<Header>, staleness: int) returns (b: bool)
    ensures b <==> StaleWhileRevalidateGrants(Directives(syntax, hs), staleness)
  {
    var i := 0;
    while i < |hs|
      invariant 0 <= i <= |hs|
      invariant !StaleWhileRevalidateGrants(Directives(syntax, hs[..i]), staleness)
    {
      ghost var done := Directives(syntax, hs[..i]);
      var elts := syntax.elements(hs[i].value);
      DirectivesStep(syntax, hs, i);
      var j := 0;
      while j < |elts|
        invariant 0 <= j <= |elts|
        invariant forall k :: 0 <= k < j ==> !(EqualsIgnoreCase(STALE_WHILE_REVALIDATE, elts[k].name) && Grants(elts[k], staleness))
      {
        var elt := elts[j];
        if EqualsIgnoreCase(STALE_WHILE_REVALIDATE, elt.name) {
          match ParseInt(elt.value) {
            case Some(allowedStalenessLifetime) =>
              if staleness <= allowedStalenessLifetime {
                var k := DirectiveIndex(syntax, hs, i, j);
                assert EqualsIgnoreCase(STALE_WHILE_REVALIDATE, Directives(syntax, hs)[k].name) && Grants(Directives(syntax, hs)[k], staleness);
                return true;
              }
            case None =>
          }
        }
        j := j + 1;
      }
      StaleWhileRevalidateGrantsConcat(done, elts, staleness);
      i := i + 1;
    }
    assert hs[..i] == hs;
    return false;
  }

  /** The private mayReturnStaleIfError over one header list: a flag set by the first granting directive of each header. */
  method StaleIfErrorScan(syntax: HeaderSyntax, hs: seq<Header>, stalenessSecs: int) returns (result: bool)
    ensures result <==> StaleIfErrorAllows(Directives(syntax, hs), stalenessSecs)
  {
    result := false;
    var i := 0;
    while i < |hs|
      invariant 0 <= i <= |hs|
      invariant result <==> StaleIfErrorAllows(Directives(syntax, hs[..i]), stalenessSecs)
    {
      var done := Directives(syntax, hs[..i]);
      var elts := syntax.elements(hs[i].value);
      DirectivesStep(syntax, hs, i);
      var j := 0;
      while j < |elts|
        invariant 0 <= j <= |elts|
        invariant result <==> StaleIfErrorAllows(done, stalenessSecs) || StaleIfErrorAllows(elts[..j], stalenessSecs)
      {
        var elt := elts[j];
        if elt.name == STALE_IF_ERROR {
          match ParseInt(elt.value) {
            case Some(staleIfErrorSecs) =>
              if stalenessSecs <= staleIfErrorSecs {
                result := true;
                assert StaleIfErrorAllows(elts, stalenessSecs) by {
                  assert elts[j].name == STALE_IF_ERROR && Grants(elts[j], stalenessSecs);
                }
                break;
              }
            case None =>
          }
        }
        assert elts[..j + 1] == elts[..j] + [elt];
        StaleIfErrorAllowsConcat(elts[..j], [elt], stalenessSecs);
        j := j + 1;
      }
      if j == |elts| {
        assert elts[..j] == elts;
      }
      StaleIfErrorAllowsConcat(done, elts, stalenessSecs);
      i := i + 1;
    }
    assert hs[..i] == hs;
  }

  lemma StaleIfErrorAllowsConcat(a: seq<Element>, b: seq<Element>, staleness: int)
    ensures StaleIfErrorAllows(a + b, staleness) <==> StaleIfErrorAllows(a, staleness) || StaleIfErrorAllows(b, staleness)
  {
    if StaleIfErrorAllows(a + b, staleness) {
      var k :| 0 <= k < |a + b| && (a + b)[k].name == STALE_IF_ERROR && Grants((a + b)[k], staleness);
      if k >= |a| {
        assert b[k - |a|] == (a + b)[k];
      }
    }
    if StaleIfErrorAllows(a, staleness) {
      var k :| 0 <= k < |a| && a[k].name == STALE_IF_ERROR && Grants(a[k], staleness);
      assert (a + b)[k] == a[k];
    }
    if StaleIfErrorAllows(b, staleness) {
      var k :| 0 <= k < |b| && b[k].name == STALE_IF_ERROR && Grants(b[k], staleness);
      assert (a + b)[|a| + k] == b[k];
    }
  }

  /** mayReturnStaleIfError: the request's own Cache-Control, or else the stored response's, grants the staleness. */
  method MayReturnStaleIfError(r: Response, requestHeaders: seq<Header>, now: int) returns (b: bool)
    ensures b <==> (|| StaleIfErrorAllows(Directives(r.syntax, HeadersNamed(requestHeaders, CACHE_CONTROL)), StalenessSecs(r, now))
                    || StaleIfErrorAllows(CacheControlDirectives(r), StalenessSecs(r, now)))
  {
    var stalenessSecs := StalenessSecs(r, now);
    b := StaleIfErrorScan(r.syntax, HeadersNamed(requestHeaders, CACHE_CONTROL), stalenessSecs);
    if !b {
      b := StaleIfErrorScan(r.syntax, HeadersNamed(r.headers, CACHE_CONTROL), stalenessSecs);
    }
  }

  /** Permission to serve stale while revalidating, once granted, holds for every earlier clock reading. */
  lemma StaleWhileRevalidateAntitone(r: Response, now1: int, now2: int)
    requires now1 <= now2
    requires StaleWhileRevalidateAllows(r, now2)
    ensures StaleWhileRevalidateAllows(r, now1)
  {
    StalenessMonotone(r, now1, now2);
    var ds := CacheControlDirectives(r);
    var k :| 0 <= k < |ds| && EqualsIgnoreCase(STALE_WHILE_REVALIDATE, ds[k].name) && Grants(ds[k], StalenessSecs(r, now2));
    assert EqualsIgnoreCase(STALE_WHILE_REVALIDATE, ds[k].name) && Grants(ds[k], StalenessSecs(r, now1));
  }

  /** A fresh response may always be served stale when some stale-* directive has a non-negative value. */
  lemma FreshResponseMayBeServedStale(r: Response, now: int, k: nat)
    requires IsResponseFresh(r, now)
    requires k < |CacheControlDirectives(r)|
    requires EqualsIgnoreCase(STALE_WHILE_REVALIDATE, CacheControlDirectives(r)[k].name)
    requires ParseInt(CacheControlDirectives(r)[k].value).Some? && ParseInt(CacheControlDirectives(r)[k].value).value >= 0
    ensures StaleWhileRevalidateAllows(r, now)
  {
    FreshIsNotStale(r, now, now);
  }
}

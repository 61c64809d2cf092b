/** The extraction half of `fetch_data` (main.go:161-172): three regular
    expressions run with Go's leftmost-first `FindStringSubmatch` over the login
    page. Each is a literal prefix followed by a run of non-quote bytes, so each
    is modelled as a scanner over the page bytes, with no regex engine.

    Go's regexp reads its input as UTF-8, but `"` is ASCII and no byte of a
    multi-byte sequence (nor a byte that is not valid UTF-8, read as one
    replacement rune) equals it, so `[^"]` on runes is `[^"]` on bytes. */
module Scraper {
  import opened Wrappers
  import opened ByteStrings

  const QUOTE: byte := 34  // '"'

  /** The two shapes of pattern in the program. */
  datatype Pattern =
    | OpenRun(prefix: Bytes)    // prefix([^"]+)
    | QuotedRun(prefix: Bytes)  // prefix([^"]*)"

  /** `data-sitekey="([^"]+)` */
  const SiteKeyPattern: Pattern := OpenRun(Ascii("data-sitekey=\""))
  /** `name="_token" type="hidden" value="([^"]*)"` */
  const PrimaryTokenPattern: Pattern := QuotedRun(Ascii("name=\"_token\" type=\"hidden\" value=\""))
  /** `name="token" type="hidden" value="([^"]*)"` */
  const SecondaryTokenPattern: Pattern := QuotedRun(Ascii("name=\"token\" type=\"hidden\" value=\""))

  predicate NoQuote(v: Bytes) {
    forall k :: 0 <= k < |v| ==> v[k] != QUOTE
  }

  /** Where a greedy `[^"]` run that starts at `from` stops: at the next quote,
      or at the end of the text. */
  function RunEnd(s: Bytes, from: nat): (stop: nat)
    requires from <= |s|
    ensures from <= stop <= |s|
    ensures forall k :: from <= k < stop ==> s[k] != QUOTE
    ensures stop < |s| ==> s[stop] == QUOTE
    decreases |s| - from
  {
    if from == |s| || s[from] == QUOTE then from else RunEnd(s, from + 1)
  }

  /** The greedy `[^"]` run that starts at `from`. */
  function RunFrom(s: Bytes, from: nat): Bytes
    requires from <= |s|
  {
    s[from..RunEnd(s, from)]
  }

  /** The capture group of a match that starts at position `p`, if the pattern
      matches there. The run is greedy, so it takes every byte up to the next
      quote; `[^"]+` needs at least one such byte, `[^"]*"` needs the quote. */
  function MatchAt(pat: Pattern, s: Bytes, p: nat): (r: Option<Bytes>)
    ensures r.Some? ==> OccursAt(s, pat.prefix, p) && NoQuote(r.value)
  {
    if !OccursAt(s, pat.prefix, p) then None
    else
      var start := p + |pat.prefix|;
      var stop := RunEnd(s, start);
      match pat
      case OpenRun(_) => if start < stop then Some(s[start..stop]) else None
      case QuotedRun(_) => if stop < |s| then Some(s[start..stop]) else None
  }

  /** The leftmost position at or after `p` where the pattern matches. */
  function LeftmostMatch(pat: Pattern, s: Bytes, p: nat): (r: Option<nat>)
    requires p <= |s|
    ensures r.Some? ==> p <= r.value <= |s| && MatchAt(pat, s, r.value).Some?
    ensures r.Some? ==> forall q :: p <= q < r.value ==> MatchAt(pat, s, q).None?
    ensures r.None? ==> forall q :: p <= q <= |s| ==> MatchAt(pat, s, q).None?
    decreases |s| - p
  {
    if MatchAt(pat, s, p).Some? then Some(p)
    else if p == |s| then None
    else LeftmostMatch(pat, s, p + 1)
  }

  /** `FindStringSubmatch(s)[1]`: the capture group of the leftmost match, or
      no value where Go returns nil. */
  function FindSubmatch(pat: Pattern, s: Bytes): (r: Option<Bytes>)
    ensures r.Some? ==> NoQuote(r.value)
  {
    match LeftmostMatch(pat, s, 0)
    case None => None
    case Some(p) => MatchAt(pat, s, p)
  }

  /** The three values harvested from the login page. */
  datatype FormState = FormState(siteKey: Bytes, primaryToken: Bytes, secondaryToken: Bytes)

  /** The three extractions of `fetch_data`; a value only when all three match.
      (The Go code indexes each result without checking it and panics when one
      is nil; the handler turns this `None` into that panic.) */
  function Scrape(body: Bytes): (r: Option<FormState>)
    ensures r.Some? ==> r.value.siteKey != []
    ensures r.Some? ==> NoQuote(r.value.siteKey) && NoQuote(r.value.primaryToken) && NoQuote(r.value.secondaryToken)
  {
    var siteKey := FindSubmatch(SiteKeyPattern, body);
    var primary := FindSubmatch(PrimaryTokenPattern, body);
    var secondary := FindSubmatch(SecondaryTokenPattern, body);
    if siteKey.Some? && primary.Some? && secondary.Some? then
      Some(FormState(siteKey.value, primary.value, secondary.value))
    else None
  }

  /** `prefix([^"]+)` can start at `p`: the prefix is there and a non-quote
      byte follows it. */
  predicate OpenRunStarts(s: Bytes, prefix: Bytes, p: nat) {
    OccursAt(s, prefix, p) && p + |prefix| < |s| && s[p + |prefix|] != QUOTE
  }

  /** A match with none before it is the one `FindSubmatch` reports. */
  lemma FindsLeftmost(pat: Pattern, s: Bytes, i: nat)
    requires i <= |s| && MatchAt(pat, s, i).Some?
    requires forall q :: 0 <= q < i ==> MatchAt(pat, s, q).None?
    ensures FindSubmatch(pat, s) == MatchAt(pat, s, i)
  {
    var r := LeftmostMatch(pat, s, 0);
    assert r.Some?;
    assert r.value == i;
  }

  /** No match anywhere: `FindSubmatch` reports none. */
  lemma FindsNothing(pat: Pattern, s: Bytes)
    requires forall q :: 0 <= q <= |s| ==> MatchAt(pat, s, q).None?
    ensures FindSubmatch(pat, s).None?
  {
  }

  /** The site-key scan finds a value exactly when some occurrence of the
      prefix is followed by a non-quote byte. */
  lemma OpenRunFound(prefix: Bytes, s: Bytes)
    ensures FindSubmatch(OpenRun(prefix), s).Some? <==>
      exists p :: 0 <= p <= |s| && OpenRunStarts(s, prefix, p)
  {
    var pat := OpenRun(prefix);
    forall q | 0 <= q <= |s| ensures MatchAt(pat, s, q).Some? <==> OpenRunStarts(s, prefix, q) {
      OpenRunMatchAt(prefix, s, q);
    }
  }

  /** The value starts right after the first occurrence of the prefix that is
      followed by a non-quote byte, is non-empty, holds no quote, and runs to
      the next quote or to the end of the page: no closing quote is required. */
  lemma OpenRunValue(prefix: Bytes, s: Bytes)
    requires FindSubmatch(OpenRun(prefix), s).Some?
    ensures
      var p := LeftmostMatch(OpenRun(prefix), s, 0).value;
      var start := p + |prefix|;
      var v := FindSubmatch(OpenRun(prefix), s).value;
      && OpenRunStarts(s, prefix, p)
      && (forall q :: 0 <= q < p ==> !OpenRunStarts(s, prefix, q))
      && |v| > 0 && NoQuote(v) && start + |v| <= |s| && v == s[start..start + |v|]
      && (start + |v| == |s| || s[start + |v|] == QUOTE)
  {
    var pat := OpenRun(prefix);
    var p := LeftmostMatch(pat, s, 0).value;
    forall q | 0 <= q < p ensures !OpenRunStarts(s, prefix, q) {
      OpenRunMatchAt(prefix, s, q);
    }
    OpenRunMatchAt(prefix, s, p);
    var start := p + |prefix|;
    var stop := RunEnd(s, start);
    assert FindSubmatch(pat, s).value == s[start..stop];
  }

  /** The site-key pattern matches at `q` exactly when the run can start there,
      and then captures everything up to the next quote or the end. */
  lemma OpenRunMatchAt(prefix: Bytes, s: Bytes, q: nat)
    ensures MatchAt(OpenRun(prefix), s, q).Some? <==> OpenRunStarts(s, prefix, q)
    ensures OpenRunStarts(s, prefix, q) ==>
      MatchAt(OpenRun(prefix), s, q).value == s[q + |prefix|..RunEnd(s, q + |prefix|)]
  {
    if OccursAt(s, prefix, q) {
      var start := q + |prefix|;
      var stop := RunEnd(s, start);
      assert start < stop <==> start < |s| && s[start] != QUOTE;
    }
  }

  /** The hidden-token scans: the prefix ends with a quote, so a later
      occurrence of it always supplies a closing quote for an earlier one.
      Hence the leftmost match can only be at the first occurrence of the
      prefix. */
  lemma QuotedRunAtFirstOccurrence(prefix: Bytes, s: Bytes)
    requires |prefix| > 0 && prefix[|prefix| - 1] == QUOTE
    ensures Index(s, prefix).None? ==> FindSubmatch(QuotedRun(prefix), s).None?
    ensures Index(s, prefix).Some? ==>
      FindSubmatch(QuotedRun(prefix), s) == MatchAt(QuotedRun(prefix), s, Index(s, prefix).value)
  {
    var pat := QuotedRun(prefix);
    var first := Index(s, prefix);
    if first.None? {
      FindsNothing(pat, s);
    } else {
      var i := first.value;
      assert forall q :: 0 <= q < i ==> MatchAt(pat, s, q).None?;
      if MatchAt(pat, s, i).Some? {
        FindsLeftmost(pat, s, i);
      } else {
        LaterOccurrencesUnclosed(prefix, s, i);
        FindsNothing(pat, s);
      }
    }
  }

  /** When no quote follows the first occurrence, no later one matches either:
      its own last byte would be such a quote. */
  lemma LaterOccurrencesUnclosed(prefix: Bytes, s: Bytes, i: nat)
    requires |prefix| > 0 && prefix[|prefix| - 1] == QUOTE
    requires OccursAt(s, prefix, i) && RunEnd(s, i + |prefix|) == |s|
    ensures forall q :: i < q <= |s| ==> MatchAt(QuotedRun(prefix), s, q).None?
  {
    forall q | i < q <= |s| ensures MatchAt(QuotedRun(prefix), s, q).None? {
      if OccursAt(s, prefix, q) {
        PrefixEndsInQuote(s, prefix, q);
      }
    }
  }

  /** So a hidden token is the possibly empty text from the first occurrence of
      its prefix up to the next quote, and there is none when no quote follows. */
  lemma QuotedRunMatch(prefix: Bytes, s: Bytes)
    requires |prefix| > 0 && prefix[|prefix| - 1] == QUOTE
    ensures Index(s, prefix).None? ==> FindSubmatch(QuotedRun(prefix), s).None?
    ensures Index(s, prefix).Some? ==>
      var start := Index(s, prefix).value + |prefix|;
      var r := FindSubmatch(QuotedRun(prefix), s);
      start <= |s|
      && (r.Some? <==> exists k :: start <= k < |s| && s[k] == QUOTE)
      && (r.Some? ==> start + |r.value| < |s| && r.value == s[start..start + |r.value|]
                      && NoQuote(r.value) && s[start + |r.value|] == QUOTE)
  {
    QuotedRunAtFirstOccurrence(prefix, s);
    var first := Index(s, prefix);
    if first.Some? {
      var start := first.value + |prefix|;
      var stop := RunEnd(s, start);
      if stop < |s| {
        assert FindSubmatch(QuotedRun(prefix), s) == Some(s[start..stop]);
      } else {
        assert !exists k :: start <= k < |s| && s[k] == QUOTE;
      }
    }
  }

  lemma PrefixEndsInQuote(s: Bytes, prefix: Bytes, q: nat)
    requires |prefix| > 0 && prefix[|prefix| - 1] == QUOTE
    requires OccursAt(s, prefix, q)
    ensures s[q + |prefix| - 1] == QUOTE
  {
    assert s[q + |prefix| - 1] == s[q..q + |prefix|][|prefix| - 1];
  }

  /** The bytes of the `_token` prefix that the overlap argument needs: where
      it has an `n`, and what follows. */
  lemma PrimaryPrefixBytes()
    ensures |PrimaryTokenPattern.prefix| == 35
    ensures forall d :: 0 <= d < 35 && PrimaryTokenPattern.prefix[d] == 110 ==> d == 0 || d == 11 || d == 25
    ensures PrimaryTokenPattern.prefix[1] == 97 && PrimaryTokenPattern.prefix[6] == 95
    ensures PrimaryTokenPattern.prefix[12] == QUOTE && PrimaryTokenPattern.prefix[26] == QUOTE
  {
  }

  /** The same for the `token` prefix. */
  lemma SecondaryPrefixBytes()
    ensures |SecondaryTokenPattern.prefix| == 34
    ensures forall d :: 0 <= d < 34 && SecondaryTokenPattern.prefix[d] == 110 ==> d == 0 || d == 10 || d == 24
    ensures SecondaryTokenPattern.prefix[0] == 110 && SecondaryTokenPattern.prefix[1] == 97
    ensures SecondaryTokenPattern.prefix[6] == 116
    ensures SecondaryTokenPattern.prefix[11] == QUOTE && SecondaryTokenPattern.prefix[25] == QUOTE
  {
  }

  /** `b` placed `d` bytes into `a` agrees with `a` wherever they overlap. */
  predicate Aligned(a: Bytes, b: Bytes, d: nat) {
    forall k :: 0 <= k < |b| && d + k < |a| ==> b[k] == a[d + k]
  }

  /** Two occurrences that overlap agree on the bytes they share. */
  lemma OccurrencesAlign(s: Bytes, a: Bytes, p: nat, b: Bytes, q: nat)
    ensures OccursAt(s, a, p) && OccursAt(s, b, q) && p <= q ==> Aligned(a, b, q - p)
  {
    if OccursAt(s, a, p) && OccursAt(s, b, q) && p <= q {
      forall k | 0 <= k < |b| && q - p + k < |a| ensures b[k] == a[q - p + k] {
        assert s[q + k] == s[q..q + |b|][k];
        assert s[q + k] == s[p..p + |a|][q - p + k];
      }
    }
  }

  /** Neither hidden-token prefix can be laid over the other at any overlapping
      offset: each offset has a byte where they differ. */
  lemma HiddenPrefixesNeverAlign()
    ensures forall d :: 0 <= d < |PrimaryTokenPattern.prefix| ==>
      !Aligned(PrimaryTokenPattern.prefix, SecondaryTokenPattern.prefix, d)
    ensures forall d :: 0 < d < |SecondaryTokenPattern.prefix| ==>
      !Aligned(SecondaryTokenPattern.prefix, PrimaryTokenPattern.prefix, d)
  {
    var pp, sp := PrimaryTokenPattern.prefix, SecondaryTokenPattern.prefix;
    PrimaryPrefixBytes();
    SecondaryPrefixBytes();
    forall d | 0 <= d < 35 ensures !Aligned(pp, sp, d) {
      var k := if d == 0 then 6 else if d == 11 || d == 25 then 1 else 0;
      assert sp[k] != pp[d + k];
    }
    forall d | 0 < d < 34 ensures !Aligned(sp, pp, d) {
      var k := if d == 10 || d == 24 then 1 else 0;
      assert pp[k] != sp[d + k];
    }
  }

  /** The `_token` and `token` prefixes never overlap in any page: where one
      occurs the other cannot, so neither pattern can match the other's field. */
  lemma HiddenPrefixesDisjoint(s: Bytes, p: nat, q: nat)
    requires OccursAt(s, PrimaryTokenPattern.prefix, p)
    requires OccursAt(s, SecondaryTokenPattern.prefix, q)
    ensures p + |PrimaryTokenPattern.prefix| <= q || q + |SecondaryTokenPattern.prefix| <= p
  {
    HiddenPrefixesNeverAlign();
    OccurrencesAlign(s, PrimaryTokenPattern.prefix, p, SecondaryTokenPattern.prefix, q);
    OccurrencesAlign(s, SecondaryTokenPattern.prefix, q, PrimaryTokenPattern.prefix, p);
  }

  /** A quoted field is present: its prefix occurs, and a quote follows the
      first occurrence somewhere. */
  predicate ClosedField(s: Bytes, prefix: Bytes) {
    Index(s, prefix).Some? && Index(s, prefix).value + |prefix| <= |s|
    && exists k :: Index(s, prefix).value + |prefix| <= k < |s| && s[k] == QUOTE
  }

  /** The site-key field: found exactly when some occurrence of its prefix is
      followed by a non-quote byte, and then non-empty and quote-free. */
  lemma SiteKeyField(body: Bytes)
    ensures FindSubmatch(SiteKeyPattern, body).Some? <==>
      exists p :: 0 <= p <= |body| && OpenRunStarts(body, SiteKeyPattern.prefix, p)
    ensures FindSubmatch(SiteKeyPattern, body).Some? ==>
      |FindSubmatch(SiteKeyPattern, body).value| > 0
  {
    OpenRunFound(SiteKeyPattern.prefix, body);
    if FindSubmatch(SiteKeyPattern, body).Some? {
      OpenRunValue(SiteKeyPattern.prefix, body);
    }
  }

  /** A hidden-token field: found exactly when a quote follows the first
      occurrence of its prefix. */
  lemma HiddenField(pat: Pattern)
    requires pat == PrimaryTokenPattern || pat == SecondaryTokenPattern
    ensures forall body :: FindSubmatch(pat, body).Some? <==> ClosedField(body, pat.prefix)
  {
    PrimaryPrefixBytes();
    SecondaryPrefixBytes();
    forall body ensures FindSubmatch(pat, body).Some? <==> ClosedField(body, pat.prefix) {
      QuotedRunMatch(pat.prefix, body);
    }
  }

  /** Harvesting succeeds exactly when the page has a site key with at least
      one byte and both hidden fields closed by a quote; the site key is then
      non-empty and no harvested value holds a quote. */
  lemma ScrapeSucceedsIff(body: Bytes)
    ensures Scrape(body).Some? <==>
      && (exists p :: 0 <= p <= |body| && OpenRunStarts(body, SiteKeyPattern.prefix, p))
      && ClosedField(body, PrimaryTokenPattern.prefix)
      && ClosedField(body, SecondaryTokenPattern.prefix)
    ensures Scrape(body).Some? ==>
      var st := Scrape(body).value;
      |st.siteKey| > 0 && NoQuote(st.siteKey) && NoQuote(st.primaryToken) && NoQuote(st.secondaryToken)
  {
    SiteKeyField(body);
    HiddenField(PrimaryTokenPattern);
    HiddenField(SecondaryTokenPattern);
  }

  /** Which values a harvested triple holds: the site key is the run after the
      first occurrence of its prefix that a non-quote byte follows, up to the
      next quote or the end of the page, and each hidden token is the text from
      the first occurrence of its prefix up to the quote that closes it. */
  lemma ScrapeValues(body: Bytes)
    requires Scrape(body).Some?
    ensures LeftmostMatch(SiteKeyPattern, body, 0).Some?
    ensures OpenRunStarts(body, SiteKeyPattern.prefix, LeftmostMatch(SiteKeyPattern, body, 0).value)
    ensures forall q :: 0 <= q < LeftmostMatch(SiteKeyPattern, body, 0).value ==>
      !OpenRunStarts(body, SiteKeyPattern.prefix, q)
    ensures Scrape(body).value.siteKey ==
      RunFrom(body, LeftmostMatch(SiteKeyPattern, body, 0).value + |SiteKeyPattern.prefix|)
    ensures ClosedRunAfterFirst(body, PrimaryTokenPattern.prefix, Scrape(body).value.primaryToken)
    ensures ClosedRunAfterFirst(body, SecondaryTokenPattern.prefix, Scrape(body).value.secondaryToken)
  {
    var st := Scrape(body).value;
    assert FindSubmatch(SiteKeyPattern, body) == Some(st.siteKey)
      && FindSubmatch(PrimaryTokenPattern, body) == Some(st.primaryToken)
      && FindSubmatch(SecondaryTokenPattern, body) == Some(st.secondaryToken);
    SiteKeyValue(body);
    HiddenValue(PrimaryTokenPattern.prefix, body, st.primaryToken);
    HiddenValue(SecondaryTokenPattern.prefix, body, st.secondaryToken);
  }

  /** `v` is the text from just after the first occurrence of `prefix` up to
      the quote that closes it. */
  predicate ClosedRunAfterFirst(body: Bytes, prefix: Bytes, v: Bytes) {
    && Index(body, prefix).Some?
    && Index(body, prefix).value + |prefix| < |body|
    && RunEnd(body, Index(body, prefix).value + |prefix|) < |body|
    && v == RunFrom(body, Index(body, prefix).value + |prefix|)
  }

  /** A hidden token found in a page is the closed run after the first
      occurrence of its prefix. */
  lemma HiddenValue(prefix: Bytes, body: Bytes, v: Bytes)
    requires |prefix| > 0 && prefix[|prefix| - 1] == QUOTE
    requires FindSubmatch(QuotedRun(prefix), body) == Some(v)
    ensures ClosedRunAfterFirst(body, prefix, v)
  {
    QuotedRunAtFirstOccurrence(prefix, body);
    var i := Index(body, prefix).value;
    QuotedRunValue(prefix, body, i, v);
  }

  /** The site key found in a page is the run after its leftmost usable prefix. */
  lemma SiteKeyValue(body: Bytes)
    requires FindSubmatch(SiteKeyPattern, body).Some?
    ensures LeftmostMatch(SiteKeyPattern, body, 0).Some?
    ensures OpenRunStarts(body, SiteKeyPattern.prefix, LeftmostMatch(SiteKeyPattern, body, 0).value)
    ensures forall q :: 0 <= q < LeftmostMatch(SiteKeyPattern, body, 0).value ==>
      !OpenRunStarts(body, SiteKeyPattern.prefix, q)
    ensures FindSubmatch(SiteKeyPattern, body).value ==
      RunFrom(body, LeftmostMatch(SiteKeyPattern, body, 0).value + |SiteKeyPattern.prefix|)
  {
    OpenRunValue(SiteKeyPattern.prefix, body);
    OpenRunMatchAt(SiteKeyPattern.prefix, body, LeftmostMatch(SiteKeyPattern, body, 0).value);
  }

  /** The same, with the first occurrence of the prefix given as `i`. */
  lemma QuotedRunValue(prefix: Bytes, body: Bytes, i: nat, v: Bytes)
    requires |prefix| > 0 && prefix[|prefix| - 1] == QUOTE
    requires Index(body, prefix) == Some(i)
    requires FindSubmatch(QuotedRun(prefix), body) == Some(v)
    ensures i + |prefix| < |body| && RunEnd(body, i + |prefix|) < |body|
    ensures v == body[i + |prefix|..RunEnd(body, i + |prefix|)]
  {
    assert MatchAt(QuotedRun(prefix), body, i) == Some(v) by {
      QuotedRunAtFirstOccurrence(prefix, body);
    }
    QuotedRunMatchAt(prefix, body, i);
  }

  /** At an occurrence of its prefix, a hidden-token pattern captures everything
      up to the next quote, and matches only when that quote exists. */
  lemma QuotedRunMatchAt(prefix: Bytes, s: Bytes, q: nat)
    requires OccursAt(s, prefix, q)
    ensures
      var start := q + |prefix|;
      start <= |s|
      && (MatchAt(QuotedRun(prefix), s, q).Some? <==> RunEnd(s, start) < |s|)
      && (MatchAt(QuotedRun(prefix), s, q).Some? ==>
            MatchAt(QuotedRun(prefix), s, q).value == s[start..RunEnd(s, start)])
  {
  }

  /** No occurrence of `pat` starts in `s[lo..hi]` when its first byte is not there. */
  lemma FirstByteAbsent(s: Bytes, pat: Bytes, lo: nat, hi: nat)
    requires |pat| > 0 && lo <= hi <= |s|
    requires forall j :: lo <= j < hi ==> s[j] != pat[0]
    ensures forall j :: lo <= j < hi ==> !OccursAt(s, pat, j)
  {
    forall j | lo <= j < hi ensures !OccursAt(s, pat, j) {
      if j + |pat| <= |s| {
        assert s[j..j + |pat|][0] == s[j];
      }
    }
  }

  /** A login page carrying the three fields in their usual form:
      `data-sitekey="SK1" name="_token" type="hidden" value="T1" name="token" type="hidden" value="T2"`. */
  function ExamplePage(): Bytes {
    SiteKeyPattern.prefix + Ascii("SK1\" ") + PrimaryTokenPattern.prefix + Ascii("T1\" ")
    + SecondaryTokenPattern.prefix + Ascii("T2\"")
  }

  /** Where each part of the example page sits. */
  predicate ExampleLayout(body: Bytes) {
    && |body| == 95
    && body[0..14] == SiteKeyPattern.prefix && body[14..17] == Ascii("SK1") && body[17] == QUOTE
    && body[19..54] == PrimaryTokenPattern.prefix && body[54..56] == Ascii("T1") && body[56] == QUOTE
    && body[58..92] == SecondaryTokenPattern.prefix && body[92..94] == Ascii("T2") && body[94] == QUOTE
    && (forall j :: 0 <= j < 19 ==> body[j] != 110)
    && (forall j :: 54 <= j < 58 ==> body[j] != 110)
  }

  lemma ExamplePageLayout()
    ensures ExampleLayout(ExamplePage())
  {
    var body := ExamplePage();
    var sk, pp := SiteKeyPattern.prefix, PrimaryTokenPattern.prefix;
    assert |sk| == 14;
    PrimaryPrefixBytes();
    SecondaryPrefixBytes();
    assert body[0..14] == sk;
    assert body[19..54] == pp;
    assert body[58..92] == SecondaryTokenPattern.prefix;
    forall j | 0 <= j < 19 ensures body[j] != 110 {
      if j < 14 { assert body[j] == sk[j]; }
    }
    forall j | 54 <= j < 58 ensures body[j] != 110 {
    }
  }

  lemma ExampleSiteKey(body: Bytes)
    requires ExampleLayout(body)
    ensures FindSubmatch(SiteKeyPattern, body) == Some(Ascii("SK1"))
  {
    assert RunEnd(body, 14) == 17;
    FindsLeftmost(SiteKeyPattern, body, 0);
  }

  /** An occurrence with none before it is what `Index` finds. */
  lemma FirstOccurrence(s: Bytes, pat: Bytes, i: nat)
    requires OccursAt(s, pat, i)
    requires forall j :: 0 <= j < i ==> !OccursAt(s, pat, j)
    ensures Index(s, pat) == Some(i)
  {
    IndexFromSkip(s, pat, 0, i);
  }

  lemma ExamplePrimary(body: Bytes)
    requires ExampleLayout(body)
    ensures FindSubmatch(PrimaryTokenPattern, body) == Some(Ascii("T1"))
  {
    var pp := PrimaryTokenPattern.prefix;
    PrimaryPrefixBytes();
    FirstByteAbsent(body, pp, 0, 19);
    FirstOccurrence(body, pp, 19);
    QuotedRunAtFirstOccurrence(pp, body);
    assert Ascii("T1") == [84, 49];
    assert body[54] == body[54..56][0] && body[55] == body[54..56][1];
    assert RunEnd(body, 54) == 56;
  }

  lemma ExampleSecondary(body: Bytes)
    requires ExampleLayout(body)
    ensures FindSubmatch(SecondaryTokenPattern, body) == Some(Ascii("T2"))
  {
    var sp := SecondaryTokenPattern.prefix;
    SecondaryFirstAt(body);
    SecondaryPrefixBytes();
    QuotedRunAtFirstOccurrence(sp, body);
    assert Ascii("T2") == [84, 50];
    assert body[92] == body[92..94][0] && body[93] == body[92..94][1];
    assert RunEnd(body, 92) == 94;
  }

  /** In such a page the `token` prefix first occurs at 58. */
  lemma SecondaryFirstAt(body: Bytes)
    requires ExampleLayout(body)
    ensures Index(body, SecondaryTokenPattern.prefix) == Some(58)
  {
    var sp := SecondaryTokenPattern.prefix;
    SecondaryPrefixBytes();
    // Before 54 only the `_token` prefix could hold it, and the two never overlap.
    forall q | 0 <= q < 54 ensures !OccursAt(body, sp, q) {
      if OccursAt(body, sp, q) {
        HiddenPrefixesDisjoint(body, 19, q);
      }
    }
    FirstByteAbsent(body, sp, 54, 58);
    FirstOccurrence(body, sp, 58);
  }

  /** The example page is harvested as `SK1`, `T1`, `T2`. */
  lemma ThreeFieldPage()
    ensures Scrape(ExamplePage()) == Some(FormState(Ascii("SK1"), Ascii("T1"), Ascii("T2")))
  {
    ExamplePageLayout();
    ExampleSiteKey(ExamplePage());
    ExamplePrimary(ExamplePage());
    ExampleSecondary(ExamplePage());
  }
}

/** `parse_url_token` (main.go:131-137): the session token of the inbound login
    URL is the text after the literal `?token=` marker, cut at the next marker,
    percent-encoded with `url.QueryEscape`. */
module TokenExtractor {
  import opened Wrappers
  import opened ByteStrings
  import opened QueryEscaping

  const QUESTION: byte := 63  // '?'

  /** The literal the URL is split on. */
  const TokenMarker: Bytes := Ascii("?token=")

  /** `parse_url_token`: split on the marker, escape element 1 of the split, or
      give the empty string when there is no element 1. */
  function ParseUrlToken(data: Bytes): (token: Bytes)
    ensures Index(data, TokenMarker).None? ==> token == []
    ensures forall i :: 0 <= i < |token| ==> SafeByte(token[i])
  {
    var parts := Split(data, TokenMarker);
    if |parts| > 1 then EscapeIsSafe(parts[1]); QueryEscape(parts[1]) else []
  }

  /** The raw token, located directly: the text strictly between the first
      marker and the next marker (or the end of the URL); none without a marker. */
  function Segment(data: Bytes): Option<Bytes> {
    match Index(data, TokenMarker)
    case None => None
    case Some(i) => Some(data[i + |TokenMarker|..PartEnd(data, TokenMarker, i + |TokenMarker|)])
  }

  /** The extractor returns exactly the escape of the raw token, and nothing
      when the marker is missing. */
  lemma ParseUrlTokenIsEscapedSegment(data: Bytes)
    ensures Segment(data).None? ==> ParseUrlToken(data) == []
    ensures Segment(data).Some? ==> ParseUrlToken(data) == QueryEscape(Segment(data).value)
  {
    match Index(data, TokenMarker)
    case None =>
    case Some(i) => SplitSecondPart(data, TokenMarker, i);
  }

  /** The token is empty exactly when the marker is missing or nothing stands
      between it and the next marker or the end; the handler then stops. */
  lemma EmptyTokenIff(data: Bytes)
    ensures ParseUrlToken(data) == [] <==> Segment(data).None? || Segment(data) == Some([])
  {
    ParseUrlTokenIsEscapedSegment(data);
  }

  /** The token is safe to paste into a query string, and decoding it gives the
      raw text back. */
  lemma TokenSafeAndDecodes(data: Bytes)
    ensures forall i :: 0 <= i < |ParseUrlToken(data)| ==> SafeByte(ParseUrlToken(data)[i])
    ensures Segment(data).Some? ==> QueryUnescape(ParseUrlToken(data)) == Segment(data)
  {
    ParseUrlTokenIsEscapedSegment(data);
    match Segment(data)
    case None =>
    case Some(seg) =>
      EscapeIsSafe(seg);
      UnescapeEscape(seg);
  }

  /** The raw token never holds the marker itself: whatever follows a second
      marker is dropped. */
  lemma SegmentHasNoMarker(data: Bytes)
    ensures Segment(data).Some? ==> AbsentFrom(Segment(data).value, TokenMarker, 0)
  {
    match Index(data, TokenMarker)
    case None =>
    case Some(i) =>
      SplitSecondPart(data, TokenMarker, i);
      SplitPartsFree(data, TokenMarker, 0);
      assert Split(data, TokenMarker)[1] == Segment(data).value;
  }

  predicate NoQuestionMark(s: Bytes) {
    forall i :: 0 <= i < |s| ==> s[i] != QUESTION
  }

  /** A marker starts on a `?`. */
  lemma MarkerStartsWithQuestion(data: Bytes, j: nat)
    requires OccursAt(data, TokenMarker, j)
    ensures data[j] == QUESTION
  {
    assert data[j] == data[j..j + |TokenMarker|][0];
  }

  /** So no marker starts in a stretch without `?`. */
  lemma NoMarkerWithoutQuestion(data: Bytes, lo: nat, hi: nat)
    requires lo <= hi <= |data|
    requires forall j :: lo <= j < hi ==> data[j] != QUESTION
    ensures forall j :: lo <= j < hi ==> !OccursAt(data, TokenMarker, j)
  {
    forall j | lo <= j < hi ensures !OccursAt(data, TokenMarker, j) {
      if OccursAt(data, TokenMarker, j) {
        MarkerStartsWithQuestion(data, j);
      }
    }
  }

  /** A URL with a single marker, no `?` before it and no `?` in the token:
      the token is the escape of everything after the marker. An input ending
      right after the marker gives the empty token. */
  lemma {:induction false} SingleMarker(pre: Bytes, seg: Bytes)
    requires NoQuestionMark(pre) && NoQuestionMark(seg)
    ensures Segment(pre + TokenMarker + seg) == Some(seg)
    ensures ParseUrlToken(pre + TokenMarker + seg) == QueryEscape(seg)
  {
    var data := pre + TokenMarker + seg;
    var start := |pre| + |TokenMarker|;
    assert data[..|pre|] == pre && data[start..] == seg;
    assert data[|pre|..start] == TokenMarker;
    NoMarkerWithoutQuestion(data, 0, |pre|);
    IndexFromSkip(data, TokenMarker, 0, |pre|);
    assert OccursAt(data, TokenMarker, |pre|);
    assert Index(data, TokenMarker) == Some(|pre|);
    NoMarkerWithoutQuestion(data, start, |data|);
    IndexFromSkip(data, TokenMarker, start, |data|);
    assert PartEnd(data, TokenMarker, start) == |data|;
    assert data[start..|data|] == seg;
    ParseUrlTokenIsEscapedSegment(data);
  }

  /** A second marker cuts the token short: the text after it is dropped. */
  lemma {:induction false} SecondMarker(pre: Bytes, seg: Bytes, tail: Bytes)
    requires NoQuestionMark(pre) && NoQuestionMark(seg)
    ensures Segment(pre + TokenMarker + seg + TokenMarker + tail) == Some(seg)
    ensures ParseUrlToken(pre + TokenMarker + seg + TokenMarker + tail) == QueryEscape(seg)
  {
    var data := pre + TokenMarker + seg + TokenMarker + tail;
    var start := |pre| + |TokenMarker|;
    var stop := start + |seg|;
    assert data[..|pre|] == pre && data[start..stop] == seg;
    assert data[|pre|..start] == TokenMarker;
    assert data[stop..stop + |TokenMarker|] == TokenMarker;
    NoMarkerWithoutQuestion(data, 0, |pre|);
    IndexFromSkip(data, TokenMarker, 0, |pre|);
    assert OccursAt(data, TokenMarker, |pre|);
    assert Index(data, TokenMarker) == Some(|pre|);
    NoMarkerWithoutQuestion(data, start, stop);
    IndexFromSkip(data, TokenMarker, start, stop);
    assert OccursAt(data, TokenMarker, stop);
    assert PartEnd(data, TokenMarker, start) == stop;
    ParseUrlTokenIsEscapedSegment(data);
  }

  /** The login URL of the usual shape: `https://example.com/login?token=abc123`
      gives the token `abc123`. */
  lemma ExampleToken()
    ensures ParseUrlToken(Ascii("https://example.com/login") + TokenMarker + Ascii("abc123")) == Ascii("abc123")
  {
    var pre, seg := Ascii("https://example.com/login"), Ascii("abc123");
    assert NoQuestionMark(pre) && NoQuestionMark(seg);
    SingleMarker(pre, seg);
    EscapeUnreservedIdentity(seg);
  }
}

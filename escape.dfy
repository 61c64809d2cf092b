/** `url.QueryEscape` and `url.QueryUnescape` from Go's net/url package:
    percent-encoding as in section 2.1 of RFC 3986, keeping only the unreserved
    bytes of section 2.3, with the `application/x-www-form-urlencoded` habit of
    writing a space as `+`. */
module QueryEscaping {
  import opened Wrappers
  import opened ByteStrings

  const SPACE: byte := 32
  const PLUS: byte := 43     // '+'
  const PERCENT: byte := 37  // '%'

  /** Section 2.3 of RFC 3986: `A-Z a-z 0-9 - _ . ~`, the bytes written as themselves. */
  predicate Unreserved(b: byte) {
    || (65 <= b <= 90)                      // 'A'..'Z'
    || (97 <= b <= 122)                     // 'a'..'z'
    || (48 <= b <= 57)                      // '0'..'9'
    || b == 45 || b == 95 || b == 46 || b == 126  // '-' '_' '.' '~'
  }

  /** An upper-case hexadecimal digit, as the encoder writes them. */
  predicate IsUpperHex(b: byte) {
    (48 <= b <= 57) || (65 <= b <= 70)
  }

  /** A hexadecimal digit of either case, as the decoder accepts them. */
  predicate IsHex(b: byte) {
    (48 <= b <= 57) || (65 <= b <= 70) || (97 <= b <= 102)
  }

  /** The digit for a nibble, from "0123456789ABCDEF". */
  function UpperHex(n: int): (d: byte)
    requires 0 <= n < 16
    ensures IsUpperHex(d)
  {
    if n < 10 then (48 + n) as byte else (55 + n) as byte
  }

  /** The nibble a hexadecimal digit stands for. */
  function Unhex(d: byte): (n: int)
    requires IsHex(d)
    ensures 0 <= n < 16
  {
    if d <= 57 then d as int - 48
    else if d <= 70 then d as int - 55
    else d as int - 87
  }

  /** The encoding of one byte: itself when unreserved, `+` for a space, and
      `%XX` with upper-case hexadecimal digits for everything else. */
  function EscapeByte(b: byte): (e: Bytes)
    ensures |e| == (if NeedsPercent(b) then 3 else 1)
    ensures e[0] == PERCENT <==> NeedsPercent(b)
    ensures NeedsPercent(b) ==> IsUpperHex(e[1]) && IsUpperHex(e[2]) && Unhex(e[1]) * 16 + Unhex(e[2]) == b as int
    ensures !NeedsPercent(b) ==> e[0] == (if b == SPACE then PLUS else b)
  {
    if Unreserved(b) then [b]
    else if b == SPACE then [PLUS]
    else [PERCENT, UpperHex(b as int / 16), UpperHex(b as int % 16)]
  }

  /** `url.QueryEscape`: every byte encoded in turn. */
  function QueryEscape(s: Bytes): (t: Bytes)
    ensures |t| >= |s|
    ensures t == [] <==> s == []
  {
    if s == [] then [] else EscapeByte(s[0]) + QueryEscape(s[1..])
  }

  /** `url.QueryUnescape`: `%XX` (either case) becomes the byte it names, `+`
      becomes a space, every other byte stands for itself; a `%` not followed by
      two hexadecimal digits makes the whole input invalid. */
  function QueryUnescape(t: Bytes): (r: Option<Bytes>)
    ensures r.Some? ==> |r.value| <= |t|
    ensures (forall i :: 0 <= i < |t| ==> t[i] != PERCENT) ==> r.Some? && |r.value| == |t|
  {
    if t == [] then Some([])
    else if t[0] == PERCENT then
      if |t| < 3 || !IsHex(t[1]) || !IsHex(t[2]) then None
      else
        match QueryUnescape(t[3..])
        case None => None
        case Some(rest) => Some([(Unhex(t[1]) * 16 + Unhex(t[2])) as byte] + rest)
    else
      match QueryUnescape(t[1..])
      case None => None
      case Some(rest) => Some([if t[0] == PLUS then SPACE else t[0]] + rest)
  }

  /** The bytes that an escaped string is made of: none of them is a query
      delimiter (`&`, `=`, `?`, `#`) or a quote. */
  predicate SafeByte(b: byte) {
    Unreserved(b) || b == PLUS || b == PERCENT
  }

  /** A byte that the encoder must write as `%XX`. */
  predicate NeedsPercent(b: byte) {
    !Unreserved(b) && b != SPACE
  }

  /** The strings the encoder can produce: unreserved bytes, `+`, and `%XX` with
      upper-case digits naming a byte that had to be percent-encoded. */
  predicate Canonical(t: Bytes) {
    if t == [] then true
    else if t[0] == PERCENT then
      |t| >= 3 && IsUpperHex(t[1]) && IsUpperHex(t[2])
      && NeedsPercent((Unhex(t[1]) * 16 + Unhex(t[2])) as byte)
      && Canonical(t[3..])
    else (Unreserved(t[0]) || t[0] == PLUS) && Canonical(t[1..])
  }

  lemma HexDigits(b: byte)
    ensures Unhex(UpperHex(b as int / 16)) * 16 + Unhex(UpperHex(b as int % 16)) == b as int
  {
  }

  /** Decoding the encoding of one byte in front of more text. */
  lemma UnescapeEscapedByte(b: byte, t: Bytes)
    ensures QueryUnescape(EscapeByte(b) + t) ==
      match QueryUnescape(t)
      case None => None
      case Some(rest) => Some([b] + rest)
  {
    var e := EscapeByte(b);
    if Unreserved(b) || b == SPACE {
      assert (e + t)[1..] == t;
    } else {
      HexDigits(b);
      assert (e + t)[3..] == t;
    }
  }

  /** Round trip: decoding an escaped string gives back the original bytes. */
  lemma {:induction false} UnescapeEscape(s: Bytes)
    ensures QueryUnescape(QueryEscape(s)) == Some(s)
  {
    if s != [] {
      UnescapeEscape(s[1..]);
      UnescapeEscapedByte(s[0], QueryEscape(s[1..]));
      assert [s[0]] + s[1..] == s;
    }
  }

  /** The encoder only produces canonical strings. */
  lemma {:induction false} EscapeCanonical(s: Bytes)
    ensures Canonical(QueryEscape(s))
  {
    if s != [] {
      EscapeCanonical(s[1..]);
      var e := EscapeByte(s[0]);
      var t := e + QueryEscape(s[1..]);
      if Unreserved(s[0]) || s[0] == SPACE {
        assert t[1..] == QueryEscape(s[1..]);
      } else {
        HexDigits(s[0]);
        assert t[3..] == QueryEscape(s[1..]);
      }
    }
  }

  /** Every byte of a canonical string is safe. */
  lemma {:induction false} CanonicalSafe(t: Bytes)
    requires Canonical(t)
    ensures forall i :: 0 <= i < |t| ==> SafeByte(t[i])
  {
    if t != [] {
      if t[0] == PERCENT {
        CanonicalSafe(t[3..]);
        forall i | 3 <= i < |t| ensures SafeByte(t[i]) {
          assert t[i] == t[3..][i - 3];
        }
      } else {
        CanonicalSafe(t[1..]);
        forall i | 1 <= i < |t| ensures SafeByte(t[i]) {
          assert t[i] == t[1..][i - 1];
        }
      }
    }
  }

  /** The escaped text never carries a query delimiter (`&` `=` `?` `#`) nor a
      quote, so it cannot end or split the parameter it is placed in. */
  lemma EscapeIsSafe(s: Bytes)
    ensures forall i :: 0 <= i < |QueryEscape(s)| ==> SafeByte(QueryEscape(s)[i])
    ensures forall i :: 0 <= i < |QueryEscape(s)| ==> QueryEscape(s)[i] !in {38, 61, 63, 35, 34}
  {
    EscapeCanonical(s);
    CanonicalSafe(QueryEscape(s));
  }

  /** Round trip the other way: a canonical string decodes, and encoding the
      decoded bytes gives the same string back. */
  lemma {:induction false} EscapeUnescape(t: Bytes)
    requires Canonical(t)
    ensures QueryUnescape(t).Some?
    ensures QueryEscape(QueryUnescape(t).value) == t
  {
    if t != [] {
      if t[0] == PERCENT {
        EscapeUnescape(t[3..]);
        PercentStep(t);
      } else {
        EscapeUnescape(t[1..]);
        PlainStep(t);
      }
    }
  }

  /** `EscapeUnescape` for a text that starts with a canonical `%XX`. */
  lemma PercentStep(t: Bytes)
    requires |t| >= 3 && t[0] == PERCENT && IsUpperHex(t[1]) && IsUpperHex(t[2])
    requires NeedsPercent((Unhex(t[1]) * 16 + Unhex(t[2])) as byte)
    requires QueryUnescape(t[3..]).Some? && QueryEscape(QueryUnescape(t[3..]).value) == t[3..]
    ensures QueryUnescape(t).Some? && QueryEscape(QueryUnescape(t).value) == t
  {
    UnescapePercent(t);
    EscapePercentCons(t, QueryUnescape(t[3..]).value);
  }

  /** Decoding a text that starts with `%XX`. */
  lemma UnescapePercent(t: Bytes)
    requires |t| >= 3 && t[0] == PERCENT && IsUpperHex(t[1]) && IsUpperHex(t[2])
    requires QueryUnescape(t[3..]).Some?
    ensures QueryUnescape(t) == Some([(Unhex(t[1]) * 16 + Unhex(t[2])) as byte] + QueryUnescape(t[3..]).value)
  {
  }

  /** Encoding the byte a canonical `%XX` names in front of the encoding of the rest. */
  lemma EscapePercentCons(t: Bytes, rest: Bytes)
    requires |t| >= 3 && t[0] == PERCENT && IsUpperHex(t[1]) && IsUpperHex(t[2])
    requires NeedsPercent((Unhex(t[1]) * 16 + Unhex(t[2])) as byte)
    requires QueryEscape(rest) == t[3..]
    ensures QueryEscape([(Unhex(t[1]) * 16 + Unhex(t[2])) as byte] + rest) == t
  {
    EscapePercentTriple(t[1], t[2]);
    EscapeCons((Unhex(t[1]) * 16 + Unhex(t[2])) as byte, rest);
    PercentFront(t);
  }

  /** A text that starts with `%` is its first three bytes followed by the rest. */
  lemma PercentFront(t: Bytes)
    requires |t| >= 3 && t[0] == PERCENT
    ensures [PERCENT, t[1], t[2]] + t[3..] == t
  {
    assert t == t[..3] + t[3..];
  }

  /** The encoder works byte by byte. */
  lemma EscapeCons(b: byte, rest: Bytes)
    ensures QueryEscape([b] + rest) == EscapeByte(b) + QueryEscape(rest)
  {
    assert ([b] + rest)[1..] == rest;
  }

  /** `EscapeUnescape` for a text that starts with an unreserved byte or `+`. */
  lemma PlainStep(t: Bytes)
    requires |t| >= 1 && t[0] != PERCENT && (Unreserved(t[0]) || t[0] == PLUS)
    requires QueryUnescape(t[1..]).Some? && QueryEscape(QueryUnescape(t[1..]).value) == t[1..]
    ensures QueryUnescape(t).Some? && QueryEscape(QueryUnescape(t).value) == t
  {
    var b := if t[0] == PLUS then SPACE else t[0];
    var s := [b] + QueryUnescape(t[1..]).value;
    assert QueryUnescape(t) == Some(s);
    assert s[1..] == QueryUnescape(t[1..]).value;
    assert EscapeByte(b) == [t[0]];
    assert t == [t[0]] + t[1..];
  }

  lemma UpperHexUnhex(d: byte)
    requires IsUpperHex(d)
    ensures IsHex(d) && UpperHex(Unhex(d)) == d
  {
  }

  /** A canonical `%XX` is exactly how the encoder writes the byte it names. */
  lemma EscapePercentTriple(d1: byte, d2: byte)
    requires IsUpperHex(d1) && IsUpperHex(d2)
    requires NeedsPercent((Unhex(d1) * 16 + Unhex(d2)) as byte)
    ensures EscapeByte((Unhex(d1) * 16 + Unhex(d2)) as byte) == [PERCENT, d1, d2]
  {
    var hi, lo := Unhex(d1), Unhex(d2);
    var b := (hi * 16 + lo) as byte;
    assert b as int / 16 == hi && b as int % 16 == lo;
    UpperHexUnhex(d1);
    UpperHexUnhex(d2);
  }

  /** Two inputs with the same escape are the same input. */
  lemma EscapeInjective(s1: Bytes, s2: Bytes)
    requires QueryEscape(s1) == QueryEscape(s2)
    ensures s1 == s2
  {
    UnescapeEscape(s1);
    UnescapeEscape(s2);
  }

  /** Text made only of unreserved bytes passes through the encoder unchanged. */
  lemma {:induction false} EscapeUnreservedIdentity(s: Bytes)
    requires forall i :: 0 <= i < |s| ==> Unreserved(s[i])
    ensures QueryEscape(s) == s
  {
    if s != [] {
      EscapeUnreservedIdentity(s[1..]);
      assert [s[0]] + s[1..] == s;
    }
  }
}

/**
 * The `urlEncode` helper (identical in esp.cpp, working.cpp and
 * nakakapagSendNgAttendancePeroWalangLCD.cpp): characters of the unreserved
 * set of section 2.3 of RFC 3986 are copied, every other byte becomes a
 * percent-encoded triplet "%XX" with upper-case hex digits, as in section
 * 2.1 of RFC 3986.  The helper walks the string's `c_str()`, so it stops at
 * the first NUL.
 */
module UrlEncoding {
  import opened Common
  import opened Hex

  /** The unreserved characters of RFC 3986: ALPHA / DIGIT / "-" / "." / "_" / "~". */
  predicate IsUnreserved(c: char)
  {
    ('0' <= c <= '9') || ('A' <= c <= 'Z') || ('a' <= c <= 'z') ||
    c == '-' || c == '_' || c == '.' || c == '~'
  }

  predicate AllUnreserved(s: string)
  {
    forall i :: 0 <= i < |s| ==> IsUnreserved(s[i])
  }

  /** What one character contributes to the output. */
  function EncodeChar(c: ByteChar): ByteString
  {
    if IsUnreserved(c) then [c] else "%" + HexPair(c as int)
  }

  /** The number of characters that have to be escaped. */
  function EscapeCount(s: ByteString): nat
  {
    if s == [] then 0 else (if IsUnreserved(s[0]) then 0 else 1) + EscapeCount(s[1..])
  }

  /** Percent-encoding of a whole byte string. */
  function UrlEncoded(s: ByteString): (r: ByteString)
    ensures |r| == |s| + 2 * EscapeCount(s)
  {
    if s == [] then [] else EncodeChar(s[0]) + UrlEncoded(s[1..])
  }

  /** What a walk over `c_str()` sees: everything before the first NUL. */
  function UntilNul(s: ByteString): (r: ByteString)
    ensures r <= s
    ensures NUL !in r
    ensures |r| < |s| ==> s[|r|] == NUL
  {
    if s == [] || s[0] == NUL then [] else [s[0]] + UntilNul(s[1..])
  }

  lemma {:induction false} UrlEncodedSnoc(s: ByteString, c: ByteChar)
    ensures UrlEncoded(s + [c]) == UrlEncoded(s) + EncodeChar(c)
  {
    if s == [] {
      assert [] + [c] == [c];
      assert UrlEncoded([c]) == EncodeChar(c) + UrlEncoded([]);
    } else {
      assert (s + [c])[0] == s[0];
      assert (s + [c])[1..] == s[1..] + [c];
      UrlEncodedSnoc(s[1..], c);
    }
  }

  /** The prefix before a NUL that is the first one is exactly what UntilNul keeps. */
  lemma UntilNulStopsAt(s: ByteString, p: nat)
    requires p <= |s|
    requires NUL !in s[..p]
    requires p == |s| || s[p] == NUL
    ensures UntilNul(s) == s[..p]
  {
    var r := UntilNul(s);
    assert |r| == p;
  }

  /** The loop of `urlEncode`: read `c = *p++` until NUL, copy or escape it. */
  method UrlEncode(str: ByteString) returns (encoded: ByteString)
    ensures encoded == UrlEncoded(UntilNul(str))
  {
    encoded := "";
    var p := 0;
    while p < |str| && str[p] != NUL
      invariant 0 <= p <= |str|
      invariant NUL !in str[..p]
      invariant encoded == UrlEncoded(str[..p])
    {
      var c := str[p];
      p := p + 1;
      if IsUnreserved(c) {
        encoded := encoded + [c];
      } else {
        encoded := encoded + ("%" + HexPair(c as int));
      }
      assert str[..p] == str[..p - 1] + [c];
      UrlEncodedSnoc(str[..p - 1], c);
    }
    UntilNulStopsAt(str, p);
  }

  // ---------------------------------------------------------------------------
  // Properties

  /** An unreserved character is copied; any other byte becomes '%' and its two upper-case hex digits. */
  lemma EncodeCharForm(c: ByteChar)
    ensures IsUnreserved(c) ==> EncodeChar(c) == [c]
    ensures !IsUnreserved(c) ==>
      |EncodeChar(c)| == 3 && EncodeChar(c)[0] == '%' &&
      IsUpperHexDigit(EncodeChar(c)[1]) && IsUpperHexDigit(EncodeChar(c)[2]) &&
      DecodePair(EncodeChar(c)[1], EncodeChar(c)[2]) == Some(c as int)
  {
    HexPairRoundTrip(c as int);
  }

  lemma {:induction false} EscapeCountZero(s: ByteString)
    ensures EscapeCount(s) == 0 <==> AllUnreserved(s)
  {
    if s != [] {
      EscapeCountZero(s[1..]);
      if AllUnreserved(s[1..]) && IsUnreserved(s[0]) {
        forall i | 0 <= i < |s| ensures IsUnreserved(s[i]) {
          if i > 0 { assert s[i] == s[1..][i - 1]; }
        }
      }
      if AllUnreserved(s) {
        forall i | 0 <= i < |s[1..]| ensures IsUnreserved(s[1..][i]) {
          assert s[1..][i] == s[i + 1];
        }
      }
    }
  }

  lemma {:induction false} EncodeUnreservedIdentity(s: ByteString)
    requires AllUnreserved(s)
    ensures UrlEncoded(s) == s
  {
    if s != [] {
      assert IsUnreserved(s[0]);
      assert AllUnreserved(s[1..]) by {
        forall i | 0 <= i < |s[1..]| ensures IsUnreserved(s[1..][i]) {
          assert s[1..][i] == s[i + 1];
        }
      }
      EncodeUnreservedIdentity(s[1..]);
      assert [s[0]] + s[1..] == s;
    }
  }

  /** Encoding changes nothing exactly when every character is unreserved. */
  lemma EncodeIdentityIff(s: ByteString)
    ensures UrlEncoded(s) == s <==> AllUnreserved(s)
  {
    EscapeCountZero(s);
    if AllUnreserved(s) {
      EncodeUnreservedIdentity(s);
    }
  }

  /** The output consists of unreserved characters and '%' only, so it never holds '&', '=', '?', '#' or a space. */
  lemma {:induction false} EncodedAlphabet(s: ByteString)
    ensures forall i :: 0 <= i < |UrlEncoded(s)| ==> IsUnreserved(UrlEncoded(s)[i]) || UrlEncoded(s)[i] == '%'
    ensures forall i :: 0 <= i < |UrlEncoded(s)| ==> UrlEncoded(s)[i] !in "&=?# "
  {
    if s != [] {
      var e := EncodeChar(s[0]);
      var t := UrlEncoded(s[1..]);
      EncodedAlphabet(s[1..]);
      EncodeCharForm(s[0]);
      forall i | 0 <= i < |e + t|
        ensures IsUnreserved((e + t)[i]) || (e + t)[i] == '%'
      {
        if i >= |e| {
          assert (e + t)[i] == t[i - |e|];
        }
      }
    }
  }

  /** Standard percent-decoding of section 2.1 of RFC 3986: "%XX" becomes the byte 0xXX. */
  function PercentDecode(s: ByteString): Option<ByteString>
  {
    if s == [] then Some([])
    else if s[0] == '%' then
      if |s| < 3 then None
      else
        match DecodePair(s[1], s[2])
        case None => None
        case Some(b) =>
          match PercentDecode(s[3..])
          case None => None
          case Some(rest) => Some([b as char] + rest)
    else
      match PercentDecode(s[1..])
      case None => None
      case Some(rest) => Some([s[0]] + rest)
  }

  /** Percent-decoding the output gives back the input. */
  lemma {:induction false} PercentDecodeRoundTrip(s: ByteString)
    ensures PercentDecode(UrlEncoded(s)) == Some(s)
  {
    if s != [] {
      var e := EncodeChar(s[0]);
      var t := UrlEncoded(s[1..]);
      PercentDecodeRoundTrip(s[1..]);
      EncodeCharForm(s[0]);
      assert (e + t)[0] == e[0];
      if IsUnreserved(s[0]) {
        assert (e + t)[1..] == t;
      } else {
        assert (e + t)[1] == e[1] && (e + t)[2] == e[2];
        assert (e + t)[3..] == t;
        assert (s[0] as int) as char == s[0];
      }
      assert [s[0]] + s[1..] == s;
    }
  }

  /** For a NUL-free string the helper's output decodes back to its input. */
  lemma UrlEncodeRoundTrip(s: ByteString)
    requires NUL !in s
    ensures PercentDecode(UrlEncoded(UntilNul(s))) == Some(s)
  {
    UntilNulStopsAt(s, |s|);
    assert s[..|s|] == s;
    PercentDecodeRoundTrip(s);
  }

  /** Two examples: '-' is unreserved and stays, a space becomes "%20". */
  lemma EncodingExamples()
    ensures UrlEncoded("-") == "-"
    ensures UrlEncoded(" ") == "%20"
  {
    assert HexPair(0x20) == "20";
  }
}

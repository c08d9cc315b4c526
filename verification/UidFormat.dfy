/**
 * Rendering a card's UID bytes as text.
 *
 * `uidToString` (identical in esp.cpp, working.cpp and
 * nakakapagSendNgAttendancePeroWalangLCD.cpp) joins zero-padded hex pairs
 * with '-': "04-A3-FF-12".  The card-UID sketch (kumukuhaNgCardUID.cpp)
 * puts a space before every pair instead: " 04 A3 FF 12".  Both build a
 * lower-case string with `String(b, HEX)` and upper-case it at the end.
 */
module UidFormat {
  import opened Common
  import opened Hex

  // ---------------------------------------------------------------------------
  // The dashed rendering of uidToString

  /** Upper-case hex pairs joined by '-'. */
  function DashJoined(uid: seq<Byte>): (s: ByteString)
    ensures |s| == if uid == [] then 0 else 3 * |uid| - 1
  {
    if |uid| == 0 then []
    else if |uid| == 1 then HexPair(uid[0])
    else HexPair(uid[0]) + "-" + DashJoined(uid[1..])
  }

  lemma {:induction false} DashJoinedSnoc(uid: seq<Byte>, b: Byte)
    requires uid != []
    ensures DashJoined(uid + [b]) == DashJoined(uid) + "-" + HexPair(b)
  {
    if |uid| == 1 {
      assert (uid + [b])[1..] == [b];
    } else {
      assert (uid + [b])[1..] == uid[1..] + [b];
      DashJoinedSnoc(uid[1..], b);
    }
  }

  /** The dashed rendering of one more byte of the UID. */
  lemma DashJoinedPrefix(uid: seq<Byte>, i: nat)
    requires i < |uid|
    ensures DashJoined(uid[..i + 1]) == DashJoined(uid[..i]) + (if 0 < i then "-" else "") + HexPair(uid[i])
  {
    assert uid[..i + 1] == uid[..i] + [uid[i]];
    if i == 0 {
      assert uid[..i + 1] == [uid[i]];
    } else {
      DashJoinedSnoc(uid[..i], uid[i]);
    }
  }

  /** What the first `i` passes of the `uidToString` loop have produced, once upper-cased. */
  function RenderedPrefix(uid: seq<Byte>, i: nat): ByteString
    requires i <= |uid|
  {
    DashJoined(uid[..i]) + (if 0 < i < |uid| then "-" else "")
  }

  /** One pass of the `uidToString` loop renders one more byte and the '-' after it. */
  lemma UidStep(uid: seq<Byte>, i: nat, before: ByteString, after: ByteString)
    requires i < |uid|
    requires ToUpper(before) == RenderedPrefix(uid, i)
    requires after == before + ((if uid[i] < 0x10 then "0" else "") + ArduinoHex(uid[i])) + (if i + 1 < |uid| then "-" else "")
    ensures ToUpper(after) == RenderedPrefix(uid, i + 1)
  {
    var rendered := before + ((if uid[i] < 0x10 then "0" else "") + ArduinoHex(uid[i]));
    AppendPaddedHex(before, uid[i]);
    DashJoinedPrefix(uid, i);
    ToUpperAppend(rendered, if i + 1 < |uid| then "-" else "");
    assert ToUpper("-") == "-";
  }

  /** The loop of `uidToString`: pad, `String(b, HEX)`, a '-' between bytes, then upper-case. */
  method UidToString(uid: seq<Byte>) returns (s: ByteString)
    ensures s == DashJoined(uid)
  {
    s := "";
    var i := 0;
    while i < |uid|
      invariant 0 <= i <= |uid|
      invariant ToUpper(s) == RenderedPrefix(uid, i)
    {
      var b := uid[i];
      ghost var before := s;
      if b < 0x10 {
        s := s + "0";
      }
      s := s + ArduinoHex(b);
      if i + 1 < |uid| {
        s := s + "-";
      }
      UidStep(uid, i, before, s);
      i := i + 1;
    }
    assert uid[..i] == uid;
    s := ToUpper(s);
  }

  /** Position by position: pair k sits at 3k, and '-' exactly at positions 2 mod 3. */
  lemma {:induction false} DashJoinedLayout(uid: seq<Byte>)
    ensures forall k :: 0 <= k < |uid| ==> DashJoined(uid)[3 * k .. 3 * k + 2] == HexPair(uid[k])
    ensures forall i :: 0 <= i < |DashJoined(uid)| ==> (DashJoined(uid)[i] == '-' <==> i % 3 == 2)
    ensures DashJoined(uid) != [] ==> DashJoined(uid)[0] != '-' && DashJoined(uid)[|DashJoined(uid)| - 1] != '-'
  {
    var s := DashJoined(uid);
    if |uid| <= 1 {
      if |uid| == 1 {
        HexPairRoundTrip(uid[0]);
      }
    } else {
      var t := DashJoined(uid[1..]);
      DashJoinedLayout(uid[1..]);
      HexPairRoundTrip(uid[0]);
      assert s == HexPair(uid[0]) + "-" + t;
      forall k | 0 <= k < |uid|
        ensures s[3 * k .. 3 * k + 2] == HexPair(uid[k])
      {
        if k > 0 {
          assert s[3 * k .. 3 * k + 2] == t[3 * (k - 1) .. 3 * (k - 1) + 2];
          assert uid[1..][k - 1] == uid[k];
        }
      }
      forall i | 0 <= i < |s|
        ensures s[i] == '-' <==> i % 3 == 2
      {
        if i >= 3 {
          assert s[i] == t[i - 3];
        }
      }
    }
  }

  /** Every character of the dashed rendering is an upper-case hex digit or '-'. */
  lemma DashJoinedAlphabet(uid: seq<Byte>)
    ensures forall i :: 0 <= i < |DashJoined(uid)| ==> IsUpperHexDigit(DashJoined(uid)[i]) || DashJoined(uid)[i] == '-'
  {
    var s := DashJoined(uid);
    DashJoinedLayout(uid);
    forall i | 0 <= i < |s|
      ensures IsUpperHexDigit(s[i]) || s[i] == '-'
    {
      if i % 3 != 2 {
        var k := i / 3;
        assert 3 * k <= i < 3 * k + 2;
        assert s[3 * k .. 3 * k + 2] == HexPair(uid[k]);
        HexPairRoundTrip(uid[k]);
        assert s[i] == HexPair(uid[k])[i - 3 * k];
      }
    }
  }

  // ---------------------------------------------------------------------------
  // Reading the dashed rendering back: split on '-', decode every pair

  function ParseDashed(s: string): Option<seq<Byte>>
  {
    if s == [] then Some([]) else ParseGroups(s)
  }

  /** A pair of hex digits, then either the end or '-' and more groups. */
  function ParseGroups(s: string): Option<seq<Byte>>
    decreases |s|
  {
    if |s| < 2 then None
    else
      match DecodePair(s[0], s[1])
      case None => None
      case Some(b) =>
        if |s| == 2 then Some([b])
        else if s[2] != '-' then None
        else
          match ParseGroups(s[3..])
          case None => None
          case Some(rest) => Some([b] + rest)
  }

  lemma {:induction false} ParseGroupsRoundTrip(uid: seq<Byte>)
    requires uid != []
    ensures ParseGroups(DashJoined(uid)) == Some(uid)
  {
    var s := DashJoined(uid);
    HexPairRoundTrip(uid[0]);
    if |uid| == 1 {
      assert s == HexPair(uid[0]);
      assert [uid[0]] == uid;
    } else {
      assert s == HexPair(uid[0]) + "-" + DashJoined(uid[1..]);
      assert s[0] == HexPair(uid[0])[0] && s[1] == HexPair(uid[0])[1] && s[2] == '-';
      assert s[3..] == DashJoined(uid[1..]);
      ParseGroupsRoundTrip(uid[1..]);
      assert [uid[0]] + uid[1..] == uid;
    }
  }

  /** Splitting `uidToString`'s output on '-' and decoding each pair gives the bytes back. */
  lemma ParseDashedRoundTrip(uid: seq<Byte>)
    ensures ParseDashed(DashJoined(uid)) == Some(uid)
  {
    if uid != [] {
      ParseGroupsRoundTrip(uid);
    }
  }

  /** Distinct cards get distinct strings. */
  lemma DashJoinedInjective(u: seq<Byte>, v: seq<Byte>)
    requires DashJoined(u) == DashJoined(v)
    ensures u == v
  {
    ParseDashedRoundTrip(u);
    ParseDashedRoundTrip(v);
  }

  // ---------------------------------------------------------------------------
  // The space-led rendering of the card-UID sketch

  /** A space, then the upper-case hex pair, for every byte. */
  function SpaceLed(uid: seq<Byte>): (s: ByteString)
    ensures |s| == 3 * |uid|
  {
    if uid == [] then [] else " " + HexPair(uid[0]) + SpaceLed(uid[1..])
  }

  lemma {:induction false} SpaceLedSnoc(uid: seq<Byte>, b: Byte)
    ensures SpaceLed(uid + [b]) == SpaceLed(uid) + " " + HexPair(b)
  {
    if uid == [] {
      assert ([] + [b])[1..] == [];
    } else {
      assert (uid + [b])[1..] == uid[1..] + [b];
      SpaceLedSnoc(uid[1..], b);
    }
  }

  /** One pass of the card-UID loop appends a space and the canonical pair, once upper-cased. */
  lemma SpacedStep(before: ByteString, b: Byte)
    ensures ToUpper(before + (if b < 0x10 then " 0" else " ") + ArduinoHex(b)) == ToUpper(before) + " " + HexPair(b)
  {
    var pad: ByteString := if b < 0x10 then "0" else "";
    assert (if b < 0x10 then " 0" else " ") == " " + pad;
    assert before + (" " + pad) + ArduinoHex(b) == (before + " ") + (pad + ArduinoHex(b));
    AppendPaddedHex(before + " ", b);
    ToUpperAppend(before, " ");
  }

  /** The loop of the card-UID sketch: " 0" or " ", then `String(b, HEX)`, then upper-case. */
  method SpacedUidString(uid: seq<Byte>) returns (s: ByteString)
    ensures s == SpaceLed(uid)
  {
    s := "";
    var i := 0;
    while i < |uid|
      invariant 0 <= i <= |uid|
      invariant ToUpper(s) == SpaceLed(uid[..i])
    {
      var b := uid[i];
      ghost var before := s;
      s := s + (if b < 0x10 then " 0" else " ");
      s := s + ArduinoHex(b);
      SpacedStep(before, b);
      assert uid[..i + 1] == uid[..i] + [b];
      SpaceLedSnoc(uid[..i], b);
      i := i + 1;
    }
    assert uid[..i] == uid;
    s := ToUpper(s);
  }

  /** Position by position: a space at 3k, then the pair of byte k. */
  lemma {:induction false} SpaceLedLayout(uid: seq<Byte>)
    ensures forall k :: 0 <= k < |uid| ==> SpaceLed(uid)[3 * k] == ' ' && SpaceLed(uid)[3 * k + 1 .. 3 * k + 3] == HexPair(uid[k])
  {
    if uid != [] {
      var s := SpaceLed(uid);
      var t := SpaceLed(uid[1..]);
      SpaceLedLayout(uid[1..]);
      assert s == " " + HexPair(uid[0]) + t;
      forall k | 0 <= k < |uid|
        ensures s[3 * k] == ' ' && s[3 * k + 1 .. 3 * k + 3] == HexPair(uid[k])
      {
        if k > 0 {
          assert s[3 * k] == t[3 * (k - 1)];
          assert s[3 * k + 1 .. 3 * k + 3] == t[3 * (k - 1) + 1 .. 3 * (k - 1) + 3];
          assert uid[1..][k - 1] == uid[k];
        }
      }
    }
  }

  /** Every '-' replaced by a space. */
  function DashToSpace(s: ByteString): ByteString
  {
    seq(|s|, i requires 0 <= i < |s| => if s[i] == '-' then ' ' else s[i])
  }

  lemma DashToSpaceAppend(a: ByteString, b: ByteString)
    ensures DashToSpace(a + b) == DashToSpace(a) + DashToSpace(b)
  {
  }

  /** For a non-empty UID the card-UID sketch prints `" " + uidToString(uid)` with spaces for dashes. */
  lemma {:induction false} SpaceLedIsDashJoined(uid: seq<Byte>)
    requires uid != []
    ensures SpaceLed(uid) == " " + DashToSpace(DashJoined(uid))
  {
    var p := HexPair(uid[0]);
    HexPairRoundTrip(uid[0]);
    assert DashToSpace(p) == p;
    if |uid| == 1 {
      assert DashJoined(uid) == p;
      assert uid[1..] == [];
      assert SpaceLed(uid) == " " + p + SpaceLed([]);
    } else {
      var rest := DashJoined(uid[1..]);
      SpaceLedIsDashJoined(uid[1..]);
      assert DashJoined(uid) == (p + "-") + rest;
      DashToSpaceAppend(p + "-", rest);
      DashToSpaceAppend(p, "-");
      assert DashToSpace("-") == " ";
      assert SpaceLed(uid) == " " + p + SpaceLed(uid[1..]);
    }
  }

  /** Drops every space. */
  function RemoveSpaces(s: string): string
  {
    if s == [] then [] else (if s[0] == ' ' then [] else [s[0]]) + RemoveSpaces(s[1..])
  }

  lemma {:induction false} RemoveSpacesAppend(a: string, b: string)
    ensures RemoveSpaces(a + b) == RemoveSpaces(a) + RemoveSpaces(b)
  {
    if a == [] {
      assert a + b == b;
    } else {
      assert (a + b)[0] == a[0];
      assert (a + b)[1..] == a[1..] + b;
      RemoveSpacesAppend(a[1..], b);
    }
  }

  /** Decodes consecutive pairs of hex digits. */
  function DecodePairs(s: string): Option<seq<Byte>>
  {
    if s == [] then Some([])
    else if |s| < 2 then None
    else
      match DecodePair(s[0], s[1])
      case None => None
      case Some(b) =>
        match DecodePairs(s[2..])
        case None => None
        case Some(rest) => Some([b] + rest)
  }

  /** Removing the spaces and decoding consecutive pairs gives the bytes back. */
  lemma {:induction false} SpaceLedRoundTrip(uid: seq<Byte>)
    ensures DecodePairs(RemoveSpaces(SpaceLed(uid))) == Some(uid)
  {
    if uid != [] {
      var p := HexPair(uid[0]);
      var t := SpaceLed(uid[1..]);
      HexPairRoundTrip(uid[0]);
      RemoveSpacesAppend(" " + p, t);
      RemoveSpacesAppend(" ", p);
      assert RemoveSpaces(p) == p by {
        assert p[1..][1..] == [];
      }
      var r := RemoveSpaces(t);
      assert RemoveSpaces(SpaceLed(uid)) == p + r;
      assert (p + r)[2..] == r;
      SpaceLedRoundTrip(uid[1..]);
      assert [uid[0]] + uid[1..] == uid;
    }
  }
}

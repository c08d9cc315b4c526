/**
 * The outbound request shared by the three reporting sketches: the UID text
 * goes through `urlEncode` into the value of a single query parameter.
 * The HTTP client itself is not modelled; what it reports is an input.
 */
module Request {
  import opened Common
  import opened UidFormat
  import opened UrlEncoding

  /**
   * What the HTTPS client reports for one attempt: whether `https.begin`
   * succeeded, the code `GET` returned, the body `getString` returned and
   * the text `errorToString` gives for the code.
   */
  datatype Exchange = Exchange(beginOk: bool, httpCode: int, payload: string, errorText: string)

  /** `uidToString`'s output passes through `urlEncode` unchanged: its alphabet 0-9, A-F and '-' is unreserved. */
  lemma UidNeedsNoEscaping(uid: seq<Byte>)
    ensures NUL !in DashJoined(uid)
    ensures UrlEncoded(UntilNul(DashJoined(uid))) == DashJoined(uid)
  {
    var s := DashJoined(uid);
    DashJoinedAlphabet(uid);
    assert AllUnreserved(s);
    assert s[..|s|] == s;
    UntilNulStopsAt(s, |s|);
    EncodeUnreservedIdentity(s);
  }

  /** The query value sent for a card holds none of '&', '=', '?', '#' or a space, so it cannot end the parameter early. */
  lemma UidQueryValueIsSafe(uid: seq<Byte>)
    ensures forall i :: 0 <= i < |UrlEncoded(UntilNul(DashJoined(uid)))| ==>
      UrlEncoded(UntilNul(DashJoined(uid)))[i] !in "&=?# "
  {
    EncodedAlphabet(UntilNul(DashJoined(uid)));
  }
}

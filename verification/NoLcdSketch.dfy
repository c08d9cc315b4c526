/**
 * nakakapagSendNgAttendancePeroWalangLCD.cpp: the reporting sketch without
 * a display and without a rate limit.  Every card read leads to one GET
 * attempt with the UID as `cardUID`, and the card is halted.
 */
module NoLcdSketch {
  import opened Common
  import opened UidFormat
  import opened UrlEncoding
  import opened Request

  const ServerName: string :=
    "https://script.google.com/macros/s/AKfycbwj7wnx5Jga_-GEs8XPX7dhl8MXrPjyKNtXXe9zm5NyqCqJjJRqepPkIMkotf3ZUm8/exec"

  /**
   * One pass of `loop()`: `card` is the UID when a new card was present and
   * read, `beginOk` whether `https.begin` succeeded.  `request` is the URL
   * of the GET that was issued, `halted` whether `PICC_HaltA` was called.
   */
  method Loop(card: Option<seq<Byte>>, beginOk: bool) returns (request: Option<string>, halted: bool)
    ensures halted <==> card.Some?
    ensures request.Some? <==> card.Some? && beginOk
    ensures request.Some? ==> request.value == ServerName + "?cardUID=" + DashJoined(card.value)
  {
    request, halted := None, false;
    if card.None? {
      return;
    }
    var uidStr := UidToString(card.value);
    var encoded := UrlEncode(uidStr);
    UidNeedsNoEscaping(card.value);
    assert encoded == DashJoined(card.value);
    var url := ServerName + "?cardUID=" + encoded;
    if beginOk {
      request := Some(url);
    }
    halted := true;
  }
}

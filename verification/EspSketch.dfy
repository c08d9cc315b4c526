/**
 * esp.cpp: read a card, show its UID, rate-limit sends to one per
 * `sendInterval`, send the UID as `studentID`, and show the server's reply
 * (cut to one 16-character row) or the failure.
 */
module EspSketch {
  import opened Common
  import opened UidFormat
  import opened UrlEncoding
  import opened Lcd
  import opened Debounce
  import opened Request

  const ServerName: string := "https://script.google.com/macros/s/YOUR_DEPLOY_ID/exec"

  /**
   * The screen put up as soon as a card is read: a UID of up to five bytes
   * (14 characters) fits whole on row 1, a longer one is cut to 16.
   */
  function UidScreen(uid: seq<Byte>): (s: Screen)
    ensures s.top == "UID:"
    ensures s.bottom <= DashJoined(uid)
    ensures |uid| <= 5 ==> s.bottom == DashJoined(uid)
    ensures |uid| > 5 ==> |s.bottom| == Width
  {
    Screen("UID:", ShownRow(DashJoined(uid)))
  }

  /** The sketch's global state: the debounce timestamp and the LCD. */
  class Reporter {
    var lastSendMillis: U32
    var screen: Screen

    /** `setup()` ends on "RFID ready" / "Tap card" whatever the WiFi outcome; no send has happened yet. */
    constructor ()
      ensures lastSendMillis == 0
      ensures screen == Screen("RFID ready", "Tap card")
    {
      lastSendMillis := 0;
      screen := Screen("RFID ready", "Tap card");
    }

    /**
     * One pass of `loop()`.  `card` is the UID when a new card was present
     * and read, `now` is `millis()`, `net` is what the HTTPS client reports.
     * `frames` are the screens put up in order, `request` the URL of the GET
     * that was issued, `halted` whether `PICC_HaltA` was called.
     */
    method Loop(card: Option<seq<Byte>>, now: U32, net: Exchange)
      returns (frames: seq<Screen>, request: Option<string>, halted: bool)
      modifies this
      ensures card.None? ==> frames == [] && request.None? && !halted
      ensures card.None? ==> lastSendMillis == old(lastSendMillis)
      ensures card.Some? ==> halted && lastSendMillis == NextLastSend(old(lastSendMillis), now)
      ensures card.Some? && SendSkipped(old(lastSendMillis), now) ==>
        request.None? && frames == [UidScreen(card.value)]
      ensures card.Some? && !SendSkipped(old(lastSendMillis), now) ==>
        |frames| == 2 && frames[0] == UidScreen(card.value) &&
        request == (if net.beginOk then Some(ServerName + "?studentID=" + DashJoined(card.value)) else None)
      ensures card.Some? && !SendSkipped(old(lastSendMillis), now) && !net.beginOk ==>
        frames[1] == Screen("HTTPS failed", "")
      ensures card.Some? && !SendSkipped(old(lastSendMillis), now) && net.beginOk && net.httpCode > 0 ==>
        frames[1] == Screen("Server:", ShownRow(net.payload))
      ensures card.Some? && !SendSkipped(old(lastSendMillis), now) && net.beginOk && net.httpCode <= 0 ==>
        frames[1] == Screen("Send failed:", DecimalString(net.httpCode))
      ensures screen == if frames == [] then old(screen) else frames[|frames| - 1]
    {
      frames, request, halted := [], None, false;
      if card.None? {
        return;
      }
      var uidStr := UidToString(card.value);
      screen := Screen("UID:", ShownRow(uidStr));
      frames := [screen];

      if SendSkipped(lastSendMillis, now) {
        halted := true;
        return;
      }
      lastSendMillis := now;

      var encoded := UrlEncode(uidStr);
      UidNeedsNoEscaping(card.value);
      assert encoded == DashJoined(card.value);
      var url := ServerName + "?studentID=" + encoded;

      if net.beginOk {
        request := Some(url);
        if net.httpCode > 0 {
          screen := Screen("Server:", ShownRow(net.payload));
        } else {
          screen := Screen("Send failed:", DecimalString(net.httpCode));
        }
      } else {
        screen := Screen("HTTPS failed", "");
      }
      frames := frames + [screen];
      halted := true;
    }
  }
}

/**
 * working.cpp: read a card, ask the user to wait, send the UID as
 * `cardUID`, show the reply split on '|' into two rows (or the HTTP error),
 * then go back to the idle prompt.  There is no rate limit.
 */
module WorkingSketch {
  import opened Common
  import opened UidFormat
  import opened UrlEncoding
  import opened Lcd
  import opened Request

  const ServerName: string :=
    "https://script.google.com/macros/s/AKfycbyIcMoIE_ZbEABsjswjcsqFfVqAO2dxKcmwNm88S7e_iC4DrQ70ZM15mCTpKgCb02rR/exec"

  /** Shown while the request is in flight. */
  const Waiting := Screen("Hello  Student", "Please wait")

  /** The idle prompt every finished request returns to. */
  const Idle := Screen("Ready, Tap card.", "")

  /** The sketch's global state: the LCD. */
  class Reporter {
    var screen: Screen

    /** `setup()` ends on "WiFi Connected" over "Ready, Tap card.". */
    constructor ()
      ensures screen == Screen("WiFi Connected", "Ready, Tap card.")
    {
      screen := Screen("WiFi Connected", "Ready, Tap card.");
    }

    /**
     * One pass of `loop()`.  `card` is the UID when a new card was present
     * and read, `net` is what the HTTPS client reports.  `frames` are the
     * screens put up in order, `request` the URL of the GET that was issued,
     * `halted` whether `PICC_HaltA` was called.
     */
    method Loop(card: Option<seq<Byte>>, net: Exchange)
      returns (frames: seq<Screen>, request: Option<string>, halted: bool)
      modifies this
      ensures card.None? ==> frames == [] && request.None? && !halted
      ensures card.Some? ==> halted && frames != [] && frames[0] == Waiting
      ensures card.Some? && !net.beginOk ==> request.None? && frames == [Waiting]
      ensures card.Some? && net.beginOk ==>
        request == Some(ServerName + "?cardUID=" + DashJoined(card.value)) &&
        |frames| == 3 && frames[2] == Idle
      ensures card.Some? && net.beginOk && net.httpCode > 0 ==> frames[1] == ReplyScreen(net.payload)
      ensures card.Some? && net.beginOk && net.httpCode <= 0 ==> frames[1] == Screen("HTTP Error", net.errorText)
      ensures screen == if frames == [] then old(screen) else frames[|frames| - 1]
    {
      frames, request, halted := [], None, false;
      if card.None? {
        return;
      }
      var uidStr := UidToString(card.value);
      screen := Waiting;
      frames := [screen];

      var encoded := UrlEncode(uidStr);
      UidNeedsNoEscaping(card.value);
      assert encoded == DashJoined(card.value);
      var url := ServerName + "?cardUID=" + encoded;

      if net.beginOk {
        request := Some(url);
        if net.httpCode > 0 {
          var payload := net.payload;
          var sepIndex := IndexOf(payload, '|');
          if sepIndex != -1 {
            var line1 := Substring(payload, 0, sepIndex);
            var line2 := Substring(payload, sepIndex + 1, |payload|);
            screen := Screen(Substring(line1, 0, Width), Substring(line2, 0, Width));
          } else {
            screen := Screen(Substring(payload, 0, Width), "");
          }
        } else {
          screen := Screen("HTTP Error", net.errorText);
        }
        frames := frames + [screen];
        screen := Idle;
        frames := frames + [screen];
      }
      halted := true;
    }
  }
}

# RFID attendance reporter: a Dafny model

The firmware sketches read an RFID card's UID bytes, show status on a 16x2
character LCD and report the UID to an attendance web app with an HTTPS GET.
Inside the hardware and network glue there is a small core, and this project
models it and proves its properties:

- **UID formatting.** `uidToString` renders the UID bytes as zero-padded
  upper-case hex pairs joined by `-` ("04-A3-FF-12"). It appears identically
  in esp.cpp, working.cpp and nakakapagSendNgAttendancePeroWalangLCD.cpp.
  The card-UID sketch (kumukuhaNgCardUID.cpp) uses an inline variant that
  puts a space before every pair (" 04 A3 FF 12"). Both loops are modelled as
  methods that build a lower-case string with `String(b, HEX)` and then apply
  `toUpperCase()`. Each method is proved equal to an upper-case specification
  function (`DashJoined`, `SpaceLed`). The lemmas give the length, the position
  of every pair and separator, and the decoding back to the bytes.
- **Percent-encoding.** `urlEncode` appears identically in the same three
  sketches. It copies the unreserved characters of section 2.3 of RFC 3986
  and turns every other byte into `%XX` with upper-case hex, as in section 2.1
  of RFC 3986. The method walks the string's `c_str()`, so it stops at the
  first NUL. It is proved equal to `UrlEncoded(UntilNul(str))`. The lemmas
  give the output length, the identity on unreserved-only strings (both
  directions), the output alphabet, and percent-decoding back to the input.
  They also show that a UID needs no escaping.
- **Send debounce (esp.cpp).** The global `lastSendMillis` and the test
  `millis() - lastSendMillis < sendInterval` use 32-bit unsigned wrap-around.
  Time is `U32`, and the subtraction is written out modulo 2^32.
- **LCD rendering.** A `Screen` holds the two rows. esp.cpp cuts a row to 16
  characters. working.cpp splits the reply at its first `|` into two rows,
  cuts each to 16 characters, and returns to the idle prompt after a reply or
  an error.
- **The `loop()` of each reporting sketch.** esp.cpp and working.cpp keep
  global state (the debounce stamp, the LCD), so each becomes a class whose
  `Loop` method updates its fields. The `Loop` of
  nakakapagSendNgAttendancePeroWalangLCD.cpp has no state and is a plain
  method. The inputs are what the hardware and libraries would supply:
  - `EspSketch.Reporter.Loop` takes the card UID (or none), `millis()` and
    what the HTTPS client reports (`Exchange`).
  - `WorkingSketch.Reporter.Loop` takes the card UID and the `Exchange`. It
    has no rate limit, so it takes no time.
  - `NoLcdSketch.Loop` takes the card UID and whether `https.begin`
    succeeded. It neither shows nor reads anything else.

  The two class methods return the screens they put up, in order. All three
  return the URL of the GET issued (if any) and whether the card was halted.

Modules: `Common` (bytes, byte strings, `Option`), `Hex`, `UidFormat`,
`UrlEncoding`, `Debounce`, `Lcd`, `Request`, and one module per sketch:
`EspSketch`, `WorkingSketch`, `NoLcdSketch`.

Two behaviours of the code worth noting:

- In working.cpp, a failed `https.begin` does not reset the display. It stays
  on "Hello  Student" / "Please wait" until the next card.
- On a failed request, esp.cpp shows the numeric `httpCode` rather than an
  error text.

## Model

| member | source | states |
|---|---|---|
| `Hex.PaddedArduinoHex` | esp.cpp:176-180 | the "0" pad for bytes below 0x10, then `String(b, HEX)`, then `toUpperCase` give exactly the two upper-case hex digits of the byte |
| `Hex.HexPairRoundTrip` | working.cpp:164-165 | each byte renders as exactly two upper-case hex digits, and decoding them (either case) gives the byte back |
| `UidFormat.DashJoined` | working.cpp:161-170 | the dashed rendering has length 3n-1 for n >= 1 bytes and is empty for none |
| `UidFormat.UidToString` | esp.cpp:173-182 | the loop (pad, `String(b, HEX)`, '-' unless last, then upper-case) returns exactly the dashed upper-case rendering of the UID |
| `UidFormat.DashJoinedLayout` | nakakapagSendNgAttendancePeroWalangLCD.cpp:86-95 | pair k sits at positions 3k..3k+1 and is the byte's hex pair; '-' occurs exactly at positions 2 mod 3, so it is never first or last |
| `UidFormat.DashJoinedAlphabet` | working.cpp:163-168 | every character of the rendering is an upper-case hex digit or '-' |
| `UidFormat.ParseDashedRoundTrip` | nakakapagSendNgAttendancePeroWalangLCD.cpp:88-92 | splitting the rendering on '-' and hex-decoding each pair gives back the UID bytes |
| `UidFormat.DashJoinedInjective` | esp.cpp:173-182 | two UIDs with the same rendering are equal |
| `UidFormat.SpaceLed` | kumukuhaNgCardUID.cpp:32-37 | the space-led rendering has length exactly 3n |
| `UidFormat.SpacedUidString` | kumukuhaNgCardUID.cpp:32-37 | the loop (" 0" or " ", `String(b, HEX)`, then `toUpperCase`) returns exactly the space-led upper-case rendering |
| `UidFormat.SpaceLedLayout` | kumukuhaNgCardUID.cpp:33-36 | a space stands before every byte, including the first, and is followed by that byte's two hex digits |
| `UidFormat.SpaceLedIsDashJoined` | kumukuhaNgCardUID.cpp:33-37 | for n >= 1 the space-led rendering is " " followed by the dashed rendering with every '-' replaced by a space |
| `UidFormat.SpaceLedRoundTrip` | kumukuhaNgCardUID.cpp:34-37 | removing the spaces and hex-decoding consecutive pairs gives back the UID bytes |
| `UrlEncoding.UrlEncoded` | esp.cpp:192-207 | output length = input length + 2 x (number of characters outside the unreserved set) |
| `UrlEncoding.UntilNul` | esp.cpp:194-195 | the walk over `c_str()` sees a prefix of the string with no NUL, which ends at the end of the string or at its first NUL |
| `UrlEncoding.UrlEncode` | working.cpp:172-189 | the loop returns the percent-encoding of the string up to its first NUL |
| `UrlEncoding.EncodeCharForm` | nakakapagSendNgAttendancePeroWalangLCD.cpp:102-110 | an unreserved character is copied; any other byte becomes exactly three characters: '%' and two upper-case hex digits of its unsigned value |
| `UrlEncoding.EncodeIdentityIff` | nakakapagSendNgAttendancePeroWalangLCD.cpp:102-106 | encoding leaves a string unchanged if and only if every character is unreserved |
| `UrlEncoding.EncodedAlphabet` | esp.cpp:196-204 | the output holds only unreserved characters and '%', hence never '&', '=', '?', '#' or a space |
| `UrlEncoding.PercentDecodeRoundTrip` | esp.cpp:191-208 | percent-decoding the encoding gives back the input |
| `UrlEncoding.UrlEncodeRoundTrip` | working.cpp:175-188 | for a NUL-free string, percent-decoding what the helper returns gives back the string |
| `UrlEncoding.EncodingExamples` | esp.cpp:196-204 | "-" encodes to "-", a space to "%20" |
| `Request.UidNeedsNoEscaping` | esp.cpp:129 | `urlEncode(uidToString(uid)) == uidToString(uid)`: the UID alphabet is unreserved and has no NUL |
| `Request.UidQueryValueIsSafe` | working.cpp:87 | the query value sent for a card holds none of '&', '=', '?', '#' or a space |
| `Debounce.SendSkipped` | esp.cpp:120 | a read is skipped exactly when the 32-bit wrap-around difference `now - last` is below 2000: the plain difference without a wrap, now + (2^32 - last) after one |
| `Debounce.WrapSub` | esp.cpp:120 | the unsigned 32-bit `now - last` is the plain difference when now >= last, and now + (2^32 - last) after a wrap |
| `Debounce.NextLastSend` | esp.cpp:120-126 | a skipped read leaves `lastSendMillis` unchanged; an accepted read sets it to `now` |
| `Debounce.DebounceWindow` | esp.cpp:30-31 | a read d ms after the last send (d < 2^32, across a clock wrap too) is skipped if and only if d < 2000 |
| `Debounce.DebounceExamples` | esp.cpp:119-125 | 1000 ms after a send the read is skipped, 2001 ms after it is accepted, and starting from 0 every read in the first 2000 ms is skipped |
| `Debounce.AcceptedAreSpaced` | esp.cpp:119-126 | over any run of card reads, consecutive sends (and the first send and the start) are at least 2000 ms apart |
| `Debounce.LastSendIsLastAccepted` | esp.cpp:126 | after a run of reads, `lastSendMillis` is the time of the last send, or unchanged when nothing was sent |
| `Lcd.IndexOf` | working.cpp:112 | `indexOf('\|')` is -1 exactly when there is no '\|', and otherwise the position of the first one |
| `Lcd.ShownRow` | esp.cpp:110-114 | a row is the whole string when its length is at most 16, otherwise exactly its first 16 characters |
| `Lcd.SubstringRowAgrees` | working.cpp:118-123 | `substring(0, 16)` shows the same text as esp.cpp's length test: the prefix of length min(len, 16) |
| `Lcd.SplitReply` | working.cpp:112-115 | a reply with a '\|' splits at the first one: line1 has no '\|', and line1 + "\|" + line2 is the reply; without a '\|' there is no split |
| `Lcd.ReplyScreen` | working.cpp:106-124 | both rows are at most 16 characters; with a '\|' they are prefixes of line1 and line2; without one, row 0 is the reply's first min(len, 16) characters and row 1 stays cleared |
| `Lcd.TwoFieldReply` | working.cpp:111-120 | a reply `line1 + "\|" + line2` with no '\|' in line1 (such as "Present\|John Doe") shows line1 over line2, each cut to 16 |
| `EspSketch.UidScreen` | esp.cpp:106-114 | "UID:" over the dashed UID: whole for up to five bytes (14 characters), otherwise its first 16 characters |
| `EspSketch.Reporter.constructor` | esp.cpp:84-88 | after `setup()` no send has happened (`lastSendMillis` is 0) and the display shows "RFID ready" / "Tap card" |
| `EspSketch.Reporter.Loop` | esp.cpp:91-170 | no card: nothing changes. A card: its UID is shown cut to 16 characters and the card is halted. A skipped read sends nothing and keeps the stamp. An accepted read sets the stamp to `now`, sends `serverName + "?studentID=" + uidToString(uid)` if `https.begin` succeeds, and shows the reply row, the error code or "HTTPS failed" |
| `WorkingSketch.Reporter.constructor` | working.cpp:55-65 | after `setup()` the display shows "WiFi Connected" / "Ready, Tap card." |
| `WorkingSketch.Reporter.Loop` | working.cpp:68-158 | no card: nothing happens. A card: "Hello  Student" / "Please wait" is shown and the card is halted. If `https.begin` fails, no GET is issued and that screen stays. Otherwise the GET goes to `serverName + "?cardUID=" + uidToString(uid)`, then the reply screen (`httpCode > 0`) or "HTTP Error" and the error text (`httpCode <= 0`) is shown, and the display ends cleared with "Ready, Tap card." on row 0 |
| `NoLcdSketch.Loop` | nakakapagSendNgAttendancePeroWalangLCD.cpp:45-83 | every card read is halted and leads to exactly one GET attempt, to `serverName + "?cardUID=" + uidToString(uid)`, issued when `https.begin` succeeds; without a card nothing happens |

## Left out

- WiFi association and its retry loops in `setup()`: network I/O. The
  constructors give only the screen that `setup()` ends on, and they leave
  out the intermediate "Connecting" and "WiFi failed" screens.
- The MFRC522 reader library (`PICC_IsNewCardPresent`, `PICC_ReadCardSerial`,
  `PICC_HaltA`): the UID is an input (`None` when no card was read), and the
  halt is a returned flag. The library's limit of 10 UID bytes is not
  imposed, because every property holds for any length.
- The HTTPS client (`setInsecure`, `setFollowRedirects`, `setTimeout`, `GET`,
  `getString`, `errorToString`, `end`): whether `begin` succeeds, the code,
  the body and the error text are inputs (`Request.Exchange`). The 10 s
  timeout and the disabled certificate check are library settings, and the
  model has no behaviour for them.
- The LCD and I2C driver: only the two row strings are modelled. Every print
  follows a clear at column 0, so a row is exactly the printed text.
- The buzzer, all `delay(...)` calls and the Serial log: hardware timing and
  output with no behaviour to verify.
- esp.cpp reads `millis()` twice, at lines 120 and 126. The model uses one
  `now` per pass, so the stamp is set to the same time that was tested.
- Arduino core behaviour is modelled from its documented semantics. This
  covers `String::substring` (bounds swapped when reversed, clamped to the
  length), `String::indexOf`, `String(b, HEX)`, `String(int)` and
  `toUpperCase`. The core's own source is not part of this model.
- The source compares a possibly signed `char` against the character ranges.
  A byte of 0x80 or above is outside every range whether it is read signed or
  unsigned, so the model uses the unsigned value. This is also what
  `(unsigned char)c` prints.
- A `String` append that fails for lack of memory is not modelled.
- The UID renderings (`HexPair`, `ToUpper`, `DashJoined`, `SpaceLed`,
  `UidToString`, `SpacedUidString`) and the encoder's input and output use
  `ByteString`, whose characters are below 0x100, as in an Arduino `String`.
  The LCD rows, the reply payload and the URL are plain `string`.

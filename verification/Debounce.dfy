/**
 * The send rate limit of esp.cpp: a global `unsigned long lastSendMillis`
 * (32 bits on the ESP8266) and the test `millis() - lastSendMillis <
 * sendInterval`, whose subtraction wraps around modulo 2^32.
 */
module Debounce {

  const Modulus := 0x1_0000_0000

  /** An `unsigned long` on the ESP8266. */
  type U32 = x: int | 0 <= x < 0x1_0000_0000

  /** `sendInterval`: the minimal time between two sends, in milliseconds. */
  const SendInterval: U32 := 2000

  /** `now - last` on unsigned 32-bit operands. */
  function WrapSub(now: U32, last: U32): (d: U32)
    ensures now >= last ==> d == now - last
    ensures now < last ==> d == now + (Modulus - last)
  {
    (now - last) % Modulus
  }

  /** The read is ignored: less than `sendInterval` has passed since the last send. */
  function SendSkipped(last: U32, now: U32): (skipped: bool)
    ensures now >= last ==> (skipped <==> now - last < SendInterval)
    ensures now < last ==> (skipped <==> now + (Modulus - last) < SendInterval)
  {
    WrapSub(now, last) < SendInterval
  }

  /** The value of `lastSendMillis` after a read at `now`. */
  function NextLastSend(last: U32, now: U32): (next: U32)
    ensures SendSkipped(last, now) ==> next == last
    ensures !SendSkipped(last, now) ==> next == now
  {
    if SendSkipped(last, now) then last else now
  }

  /** A read `d` milliseconds after the last send is ignored exactly when d < 2000, across a wrap of the clock too. */
  lemma DebounceWindow(last: U32, d: nat)
    requires d < Modulus
    ensures WrapSub((last + d) % Modulus, last) == d
    ensures SendSkipped(last, (last + d) % Modulus) <==> d < SendInterval
  {
    if last + d >= Modulus {
      assert (last + d) % Modulus == last + d - Modulus;
    }
  }

  /** A read 1000 ms after a send is ignored and one 2001 ms after it goes through; every read in the first two seconds after boot is ignored. */
  lemma DebounceExamples(last: U32, now: U32)
    ensures SendSkipped(last, (last + 1000) % Modulus)
    ensures !SendSkipped(last, (last + 2001) % Modulus)
    ensures now < SendInterval ==> SendSkipped(0, now)
  {
    DebounceWindow(last, 1000);
    DebounceWindow(last, 2001);
  }

  /** The times, out of a run of card reads, whose reads lead to a send. */
  function Accepted(last: U32, times: seq<U32>): seq<U32>
    decreases |times|
  {
    if times == [] then []
    else if SendSkipped(last, times[0]) then Accepted(last, times[1..])
    else [times[0]] + Accepted(times[0], times[1..])
  }

  /** `lastSendMillis` after a run of card reads. */
  function LastSendAfter(last: U32, times: seq<U32>): U32
    decreases |times|
  {
    if times == [] then last else LastSendAfter(NextLastSend(last, times[0]), times[1..])
  }

  /** Any two sends, and the first send and the starting state, are at least `sendInterval` apart. */
  lemma {:induction false} AcceptedAreSpaced(last: U32, times: seq<U32>)
    decreases |times|
    ensures forall i :: 0 < i < |Accepted(last, times)| ==>
      WrapSub(Accepted(last, times)[i], Accepted(last, times)[i - 1]) >= SendInterval
    ensures Accepted(last, times) != [] ==> WrapSub(Accepted(last, times)[0], last) >= SendInterval
  {
    if times != [] {
      if SendSkipped(last, times[0]) {
        AcceptedAreSpaced(last, times[1..]);
      } else {
        var rest := Accepted(times[0], times[1..]);
        AcceptedAreSpaced(times[0], times[1..]);
        var acc := [times[0]] + rest;
        forall i | 0 < i < |acc|
          ensures WrapSub(acc[i], acc[i - 1]) >= SendInterval
        {
          assert acc[i] == rest[i - 1];
          if i > 1 {
            assert acc[i - 1] == rest[i - 2];
          }
        }
      }
    }
  }

  /** The state after a run is the time of its last send, or the starting state when nothing was sent. */
  lemma {:induction false} LastSendIsLastAccepted(last: U32, times: seq<U32>)
    decreases |times|
    ensures Accepted(last, times) == [] ==> LastSendAfter(last, times) == last
    ensures Accepted(last, times) != [] ==>
      LastSendAfter(last, times) == Accepted(last, times)[|Accepted(last, times)| - 1]
  {
    if times != [] {
      LastSendIsLastAccepted(NextLastSend(last, times[0]), times[1..]);
    }
  }
}

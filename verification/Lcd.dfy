/**
 * What the 16x2 character LCD shows.
 *
 * Every `lcd.print` in the sketches follows an `lcd.clear()` and a
 * `setCursor(0, row)`, so a row holds exactly the string printed on it;
 * the panel shows its first 16 characters.  This module has the string
 * slicing that keeps a row within 16 characters (esp.cpp) and the split of
 * a server reply on its first '|' into two rows (working.cpp).
 */
module Lcd {
  import opened Common

  /** Characters per row. */
  const Width := 16

  /** The two rows of the panel. */
  datatype Screen = Screen(top: string, bottom: string)

  function Min(a: int, b: int): int
  {
    if a <= b then a else b
  }

  /**
   * `String::substring(left, right)` of the Arduino core: the bounds are
   * swapped when reversed, a start at or past the end gives "", and an end
   * past the end is clamped to the length.
   */
  function Substring(s: string, left: nat, right: nat): string
  {
    var lo := if left > right then right else left;
    var hi := if left > right then left else right;
    if lo >= |s| then [] else s[lo .. Min(hi, |s|)]
  }

  /** `String::indexOf(c)`: the first position of `c`, or -1. */
  function IndexOf(s: string, c: char): (r: int)
    ensures -1 <= r < |s|
    ensures r == -1 <==> c !in s
    ensures r >= 0 ==> s[r] == c && c !in s[..r]
  {
    if s == [] then -1
    else if s[0] == c then 0
    else
      var k := IndexOf(s[1..], c);
      assert k >= 0 ==> s[..k + 1] == [s[0]] + s[1..][..k];
      if k == -1 then -1 else k + 1
  }

  /** esp.cpp's row text: the whole string when it fits, `substring(0, 16)` otherwise. */
  function ShownRow(s: string): (r: string)
    ensures r <= s
    ensures |r| == Min(|s|, Width)
  {
    if |s| <= Width then s else Substring(s, 0, Width)
  }

  /** working.cpp prints `substring(0, 16)` without the length test; both show the same text. */
  lemma SubstringRowAgrees(s: string)
    ensures Substring(s, 0, Width) == ShownRow(s)
    ensures Substring(s, 0, Width) == s[..Min(|s|, Width)]
  {
  }

  /** The split of a reply at its first '|' into the text before it and everything after it. */
  function SplitReply(payload: string): (r: Option<(string, string)>)
    ensures r.None? <==> '|' !in payload
    ensures r.Some? ==> r.value.0 + "|" + r.value.1 == payload && '|' !in r.value.0
  {
    var sepIndex := IndexOf(payload, '|');
    if sepIndex != -1 then
      var line1 := Substring(payload, 0, sepIndex);
      var line2 := Substring(payload, sepIndex + 1, |payload|);
      assert payload == payload[..sepIndex] + [payload[sepIndex]] + payload[sepIndex + 1..];
      Some((line1, line2))
    else
      None
  }

  /**
   * The screen working.cpp puts up for a reply: with a '|', the text before
   * it on row 0 and the text after it on row 1; without, the reply on row 0
   * and row 1 left cleared.  Each row is cut to 16 characters.
   */
  function ReplyScreen(payload: string): (r: Screen)
    ensures |r.top| <= Width && |r.bottom| <= Width
    ensures SplitReply(payload).Some? ==>
      r.top <= SplitReply(payload).value.0 && |r.top| == Min(|SplitReply(payload).value.0|, Width) &&
      r.bottom <= SplitReply(payload).value.1 && |r.bottom| == Min(|SplitReply(payload).value.1|, Width)
    ensures SplitReply(payload).None? ==>
      r.top <= payload && |r.top| == Min(|payload|, Width) && r.bottom == ""
  {
    match SplitReply(payload)
    case Some((line1, line2)) => Screen(Substring(line1, 0, Width), Substring(line2, 0, Width))
    case None => Screen(Substring(payload, 0, Width), "")
  }

  /**
   * A reply built as `line1 + "|" + line2`, with no '|' in `line1`, shows
   * `line1` over `line2`, each cut to 16 characters ("Present|John Doe"
   * shows "Present" over "John Doe").
   */
  lemma TwoFieldReply(line1: string, line2: string)
    requires '|' !in line1
    ensures SplitReply(line1 + "|" + line2) == Some((line1, line2))
    ensures ReplyScreen(line1 + "|" + line2) == Screen(ShownRow(line1), ShownRow(line2))
  {
    var p := line1 + "|" + line2;
    var k := IndexOf(p, '|');
    assert p[..|line1|] == line1;
    assert p[|line1|] == '|';
    assert k == |line1|;
    assert p[|line1| + 1..] == line2;
    SubstringRowAgrees(line1);
    SubstringRowAgrees(line2);
  }

  /** `String(n)` of the Arduino core: decimal, with a leading '-' when negative. */
  function DecimalString(n: int): string
  {
    if n < 0 then "-" + NaturalDecimal(-n) else NaturalDecimal(n)
  }

  function NaturalDecimal(n: nat): string
  {
    if n < 10 then [('0' as int + n) as char]
    else NaturalDecimal(n / 10) + [('0' as int + n % 10) as char]
  }
}

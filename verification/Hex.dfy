/** Texts of bytes in hexadecimal, as `Buffer.from(text, "hex")` reads and `toString("hex")` writes
    them. */
module Hex {
  import opened JsNumber
  import opened Strings

  /** A pair of hexadecimal digits, of either case, at the start of the text. */
  predicate HasPair(t: string) {
    |t| >= 2 && Digit(t[0]) >= 0 && Digit(t[1]) >= 0
  }

  /** Byte by byte up to the first pair that is not hexadecimal; an odd character at the end is
      dropped. */
  function HexDecode(t: string): seq<Byte> {
    if HasPair(t) then [16 * Digit(t[0]) + Digit(t[1])] + HexDecode(t[2..]) else []
  }

  function HexDigit(d: int): (c: char)
    requires 0 <= d < 16
    ensures Digit(c) == d
  {
    if d < 10 then ('0' as int + d) as char else ('a' as int + d - 10) as char
  }

  function HexPair(b: Byte): string {
    [HexDigit(b / 16), HexDigit(b % 16)]
  }

  /** Two lower-case digits a byte. */
  function HexText(bytes: seq<Byte>): (t: string)
    ensures |t| == 2 * |bytes|
  {
    if bytes == [] then [] else HexPair(bytes[0]) + HexText(bytes[1..])
  }

  lemma PairText(t: string, b: Byte)
    requires HasPair(t)
    ensures 16 * Digit(t[0]) + Digit(t[1]) == b <==> Lower(t[..2]) == HexPair(b)
  {
    assert Lower(t[..2]) == [LowerChar(t[0]), LowerChar(t[1])] by {
      LowerAt(t[..2], 0);
      LowerAt(t[..2], 1);
    }
    LowerDigit(t[0], b / 16);
    LowerDigit(t[1], b % 16);
  }

  lemma LowerDigit(c: char, d: int)
    requires 0 <= d < 16
    ensures LowerChar(c) == HexDigit(d) <==> Digit(c) == d
  {
  }

  lemma LowerPair(t: string, b: Byte)
    requires |t| >= 2 && Lower(t[..2]) == HexPair(b)
    ensures HasPair(t)
  {
    LowerAt(t[..2], 0);
    LowerAt(t[..2], 1);
    LowerDigit(t[0], b / 16);
    LowerDigit(t[1], b % 16);
  }

  /** The text starts with the digits of the bytes, in either case, and no pair is behind them. */
  predicate ReadsAs(t: string, bytes: seq<Byte>) {
    && 2 * |bytes| <= |t| && Lower(t[..2 * |bytes|]) == HexText(bytes)
    && !HasPair(t[2 * |bytes|..])
  }

  lemma OneByteMore(t: string, bytes: seq<Byte>)
    requires bytes != [] && HasPair(t)
    ensures ReadsAs(t, bytes) <==>
              16 * Digit(t[0]) + Digit(t[1]) == bytes[0] && ReadsAs(t[2..], bytes[1..])
  {
    var n, rest := 2 * |bytes|, t[2..];
    PairText(t, bytes[0]);
    if n <= |t| {
      assert rest[n - 2..] == t[n..];
      LowerSplits(t, n);
      assert Lower(t[..n]) == Lower(t[..n])[..2] + Lower(t[..n])[2..];
      hide Lower, HexText, HasPair, Digit, HexPair;
      assert HexText(bytes)[..2] == HexPair(bytes[0]) && HexText(bytes)[2..] == HexText(bytes[1..]) by {
        TextSplits(bytes);
      }
    }
  }

  lemma TextSplits(bytes: seq<Byte>)
    requires bytes != []
    ensures HexText(bytes) == HexPair(bytes[0]) + HexText(bytes[1..])
    ensures HexText(bytes)[..2] == HexPair(bytes[0]) && HexText(bytes)[2..] == HexText(bytes[1..])
  {
  }

  /** Which texts are read as given bytes: those that start with their digits, in either case, and
      have no whole pair behind them. Anything else may follow. */
  lemma {:induction false} AcceptedTexts(t: string, bytes: seq<Byte>)
    ensures HexDecode(t) == bytes <==> ReadsAs(t, bytes)
    decreases |bytes|
  {
    if bytes == [] {
      assert t[..0] == "" && t[0..] == t;
    } else if HasPair(t) {
      AcceptedTexts(t[2..], bytes[1..]);
      OneByteMore(t, bytes);
      hide ReadsAs, HasPair, Digit;
      assert HexDecode(t) == [16 * Digit(t[0]) + Digit(t[1])] + HexDecode(t[2..]);
    } else if ReadsAs(t, bytes) {
      LowerSplits(t, 2 * |bytes|);
      TextSplits(bytes);
      LowerPair(t, bytes[0]);
      assert false;
    }
  }

  lemma LowerSplits(t: string, n: nat)
    requires 2 <= n <= |t|
    ensures Lower(t[..n])[..2] == Lower(t[..2]) && Lower(t[..n])[2..] == Lower(t[2..][..n - 2])
  {
    assert t[..n] == t[..2] + t[2..][..n - 2];
    LowerConcat(t[..2], t[2..][..n - 2]);
  }

  lemma {:induction false} TextIsLower(bytes: seq<Byte>)
    ensures LowerDigits(HexText(bytes))
  {
    if bytes != [] {
      TextIsLower(bytes[1..]);
    }
  }

  /** Reading what was written, with anything behind it that is no pair of digits. */
  lemma HexRoundTrip(bytes: seq<Byte>, tail: string)
    requires !HasPair(tail)
    ensures HexDecode(HexText(bytes) + tail) == bytes
  {
    var t, n := HexText(bytes) + tail, 2 * |bytes|;
    assert t[..n] == HexText(bytes) && t[n..] == tail;
    TextIsLower(bytes);
    LowerFixed(HexText(bytes));
    AcceptedTexts(t, bytes);
  }

  /** A text of lower-case digits, two for every byte. */
  predicate CanonicalText(t: string, width: nat) {
    |t| == 2 * width && LowerDigits(t)
  }

  /** It is the only such text that is read as those bytes. */
  lemma CanonicalTextIsUnique(t: string, bytes: seq<Byte>)
    ensures CanonicalText(t, |bytes|) && HexDecode(t) == bytes <==> t == HexText(bytes)
  {
    TextIsLower(bytes);
    if CanonicalText(t, |bytes|) && HexDecode(t) == bytes {
      AcceptedTexts(t, bytes);
      LowerFixed(t);
      assert t[..2 * |bytes|] == t;
    }
    HexRoundTrip(bytes, "");
    assert HexText(bytes) + "" == HexText(bytes);
  }
}

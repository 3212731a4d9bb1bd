/** Subnet keys of dotted quads: the first three octets as numbers, plain or IPv4-mapped. */
module SubnetRanges {
  import opened Wrappers
  import opened Strings
  import opened Subnet

  predicate OctetTexts(parts: seq<string>) {
    |parts| == 4 && forall i :: 0 <= i < 4 ==> IsOctetText(parts[i]) && DecimalValue(parts[i]) <= 255
  }

  /** A dotted quad on its own or in the IPv4-mapped form, blanks around it or not. */
  function QuadText(mapped: bool, parts: seq<string>): string {
    (if mapped then MAPPED else "") + Join(parts, '.')
  }

  function RangeKey(parts: seq<string>): string
    requires OctetTexts(parts)
  {
    Octet(DecimalValue(parts[0])) + "." + Octet(DecimalValue(parts[1])) + "." + Octet(DecimalValue(parts[2])) + ".0/24"
  }

  predicate QuadChars(s: string) {
    forall i :: 0 <= i < |s| ==> s[i] == '.' || '0' <= s[i] <= '9'
  }

  lemma {:induction false} JoinedOctets(parts: seq<string>)
    requires forall i :: 0 <= i < |parts| ==> IsOctetText(parts[i])
    ensures QuadChars(Join(parts, '.')) && (parts != [] ==> Join(parts, '.') != "")
  {
    if |parts| > 1 {
      JoinedOctets(parts[1..]);
      OctetChars(parts[0]);
    } else if |parts| == 1 {
      OctetChars(parts[0]);
    }
  }

  lemma OctetChars(s: string)
    requires IsOctetText(s)
    ensures s != "" && Free(s, '.') && QuadChars(s)
  {
    forall i | 0 <= i < |s| ensures '0' <= s[i] <= '9' {
      assert s[i] in s;
    }
  }

  lemma QuadParses(mapped: bool, parts: seq<string>)
    requires OctetTexts(parts)
    ensures DottedQuad(QuadText(mapped, parts)) == Some(parts)
  {
    var body, raw := Join(parts, '.'), QuadText(mapped, parts);
    JoinedOctets(parts);
    forall i | 0 <= i < 4 ensures Free(parts[i], '.') {
      OctetChars(parts[i]);
    }
    SplitJoin(parts, '.');
    forall p | p in parts ensures IsOctetText(p) {
      var i :| 0 <= i < 4 && parts[i] == p;
    }
    hide Join, Split, IsOctetText, DecimalValue;
    if mapped {
      assert raw[|MAPPED|..] == body;
      assert MAPPED <= raw;
    } else {
      assert raw == body && body[0] != MAPPED[0];
      assert !(MAPPED <= raw);
    }
  }

  lemma QuadIsPlain(mapped: bool, parts: seq<string>)
    requires OctetTexts(parts)
    ensures var s := QuadText(mapped, parts);
            s != "" && Lower(s) == s && !IsSpace(s[0]) && !IsSpace(s[|s| - 1])
  {
    var s := QuadText(mapped, parts);
    JoinedOctets(parts);
    hide Join, IsSpace;
    forall i | 0 <= i < |s| ensures !('A' <= s[i] <= 'Z') && !IsSpace(s[i]) {
      PlainChar(s[i]);
    }
    LowerFixed(s);
  }

  lemma PlainChar(c: char)
    requires c in ".:f" || '0' <= c <= '9'
    ensures !('A' <= c <= 'Z') && !IsSpace(c)
  {
  }

  lemma KeyOfQuad(before: string, mapped: bool, parts: seq<string>, after: string)
    requires OctetTexts(parts) && Blank(before) && Blank(after)
    ensures SubnetOf(before + QuadText(mapped, parts) + after) == Some(RangeKey(parts))
  {
    var s := QuadText(mapped, parts);
    QuadIsPlain(mapped, parts);
    QuadParses(mapped, parts);
    hide QuadText, Trim, DottedQuad, IsSpace, Lower, Octet, IsOctetText, DecimalValue, Blank;
    TrimDrops(before, s, after);
    forall p | p in parts ensures DecimalValue(p) <= 255 {
      var i :| 0 <= i < 4 && parts[i] == p;
    }
  }

  lemma {:induction false} OctetIsDecimal(n: nat)
    ensures Free(Octet(n), '.') && DecimalValue(Octet(n)) == n
  {
    var units := ['0' + (n % 10) as char];
    if n < 10 {
      assert units[..0] == "" && Octet(n) == units;
    } else {
      OctetIsDecimal(n / 10);
      assert Octet(n)[..|Octet(n)| - 1] == Octet(n / 10);
    }
  }

  lemma ThreeSplit(a: string, b: string, c: string)
    requires Free(a, '.') && Free(b, '.') && Free(c, '.')
    ensures Split(a + "." + b + "." + c + ".0/24", '.') == [a, b, c, "0/24"]
  {
    assert a + "." + b + "." + c + ".0/24" == a + "." + (b + "." + (c + "." + "0/24"));
    SplitFirst(a, '.', b + "." + (c + "." + "0/24"));
    SplitFirst(b, '.', c + "." + "0/24");
    SplitFirst(c, '.', "0/24");
    SplitFree("0/24", '.');
  }

  lemma RangeSplits(parts: seq<string>)
    requires OctetTexts(parts)
    ensures Split(RangeKey(parts), '.')
            == [Octet(DecimalValue(parts[0])), Octet(DecimalValue(parts[1])), Octet(DecimalValue(parts[2])), "0/24"]
  {
    hide Octet, DecimalValue, IsOctetText, Split, Free;
    OctetIsDecimal(DecimalValue(parts[0]));
    OctetIsDecimal(DecimalValue(parts[1]));
    OctetIsDecimal(DecimalValue(parts[2]));
    ThreeSplit(Octet(DecimalValue(parts[0])), Octet(DecimalValue(parts[1])), Octet(DecimalValue(parts[2])));
  }

  lemma RangeKeyIsInjective(p: seq<string>, q: seq<string>)
    requires OctetTexts(p) && OctetTexts(q) && RangeKey(p) == RangeKey(q)
    ensures forall i :: 0 <= i < 3 ==> DecimalValue(p[i]) == DecimalValue(q[i])
  {
    RangeSplits(p);
    RangeSplits(q);
    forall i | 0 <= i < 3 ensures DecimalValue(p[i]) == DecimalValue(q[i]) {
      OctetIsDecimal(DecimalValue(p[i]));
      OctetIsDecimal(DecimalValue(q[i]));
      hide Octet, DecimalValue, IsOctetText, Split, RangeKey;
      var parts := [Octet(DecimalValue(p[0])), Octet(DecimalValue(p[1])), Octet(DecimalValue(p[2])), "0/24"];
      assert parts == [Octet(DecimalValue(q[0])), Octet(DecimalValue(q[1])), Octet(DecimalValue(q[2])), "0/24"];
      assert parts[i] == Octet(DecimalValue(q[i])) && parts[i] == Octet(DecimalValue(p[i]));
    }
  }

  /** Two IPv4 addresses, plain or mapped, have the same key exactly when their first three
      octets agree as numbers. */
  lemma SameKeyIffSameRange(mapped: bool, p: seq<string>, mapped': bool, q: seq<string>,
                            before: string, after: string, before': string, after': string)
    requires OctetTexts(p) && OctetTexts(q)
    requires Blank(before) && Blank(after) && Blank(before') && Blank(after')
    ensures SubnetOf(before + QuadText(mapped, p) + after) == SubnetOf(before' + QuadText(mapped', q) + after')
            <==> forall i :: 0 <= i < 3 ==> DecimalValue(p[i]) == DecimalValue(q[i])
  {
    KeyOfQuad(before, mapped, p, after);
    KeyOfQuad(before', mapped', q, after');
    hide SubnetOf, QuadText, Blank, Octet, DecimalValue, IsOctetText;
    if RangeKey(p) == RangeKey(q) {
      RangeKeyIsInjective(p, q);
    }
  }

  /** A dotted quad and a form in hexadecimal groups never share a key. */
  lemma HexFormHasAnotherKey(w: Written, values: seq<int>, mapped: bool, parts: seq<string>)
    requires Writes(w, values) && OctetTexts(parts)
    ensures SubnetOf(Text(w)).Some? && SubnetOf(QuadText(mapped, parts)).Some?
    ensures SubnetOf(Text(w)) != SubnetOf(QuadText(mapped, parts))
  {
    hide Writes, SubnetOf, Text, QuadText, ExpandIpv6, Octet, DecimalValue, IsOctetText, Lower, HexValue, Canonical;
    hide LowerDigits;
    assert "" + Text(w) + "" == Text(w) && "" + QuadText(mapped, parts) + "" == QuadText(mapped, parts);
    KeyOfWritten("", w, values, "");
    KeyOfQuad("", mapped, parts, "");
    var g := ExpandIpv6(Lower(Text(w)));
    ParsedIsSome(g, values);
    EndsDiffer(g.value, parts);
  }

  lemma EndsDiffer(g: seq<string>, parts: seq<string>)
    requires |g| == 8 && OctetTexts(parts)
    ensures NetworkKey(g) != RangeKey(parts)
  {
    hide Octet, DecimalValue, IsOctetText;
    var a, b := NetworkKey(g), RangeKey(parts);
    assert a[|a| - 1] == '8' && b[|b| - 1] == '4';
  }

  lemma MappedInGroups(w: Written, values: seq<int>)
    requires w == Compressed([], ["ffff", "cb00", "7105"]) && values == [0, 0, 0, 0, 0, 0xffff, 0xcb00, 0x7105]
    ensures Writes(w, values) && Text(w) == "::ffff:cb00:7105"
  {
    FourDigits("ffff");
    FourDigits("cb00");
    FourDigits("7105");
    assert values[5..] == [0xffff, 0xcb00, 0x7105];
    hide HexValue;
    assert Join(w.tail[2..], ':') == "7105" && Join(w.tail[1..], ':') == "cb00:7105";
  }

  lemma FourDigits(s: string)
    requires |s| == 4
    ensures HexValue(s) == 0x1000 * Digit(s[0]) + 0x100 * Digit(s[1]) + 0x10 * Digit(s[2]) + Digit(s[3])
  {
    assert s[..3][..2] == s[..2] && s[..2][..1] == s[..1] && s[..1][..0] == "";
    assert HexValue(s[..1]) == Digit(s[0]);
    assert HexValue(s[..2]) == 0x10 * Digit(s[0]) + Digit(s[1]);
    assert HexValue(s[..3]) == 0x100 * Digit(s[0]) + 0x10 * Digit(s[1]) + Digit(s[2]);
  }

  lemma MappedInOctets(parts: seq<string>)
    requires parts == ["203", "0", "113", "5"]
    ensures OctetTexts(parts) && QuadText(true, parts) == "::ffff:203.0.113.5"
    ensures DecimalValue("203") == 203 && DecimalValue("0") == 0 && DecimalValue("113") == 113 && DecimalValue("5") == 5
  {
    assert "203"[..2] == "20" && "20"[..1] == "2" && "2"[..0] == "" && "0"[..0] == "" && "5"[..0] == "";
    assert "113"[..2] == "11" && "11"[..1] == "1" && "1"[..0] == "";
    assert DecimalValue("20") == 20 && DecimalValue("11") == 11;
    hide DecimalValue;
    assert Join(parts[3..], '.') == "5" && Join(parts[2..], '.') == "113.5" && Join(parts[1..], '.') == "0.113.5";
  }

  /** So one IPv4-mapped address has two keys: 203.0.113.5 mapped in dotted form and in groups. */
  lemma MappedAddressHasTwoKeys()
    ensures SubnetOf("::ffff:cb00:7105").Some? && SubnetOf("::ffff:203.0.113.5").Some?
    ensures SubnetOf("::ffff:cb00:7105") != SubnetOf("::ffff:203.0.113.5")
    ensures DecimalValue("203") == 0xcb && DecimalValue("0") == 0x00
    ensures DecimalValue("113") == 0x71 && DecimalValue("5") == 0x05
  {
    var w, values := Compressed([], ["ffff", "cb00", "7105"]), [0, 0, 0, 0, 0, 0xffff, 0xcb00, 0x7105];
    var parts := ["203", "0", "113", "5"];
    MappedInGroups(w, values);
    MappedInOctets(parts);
    HexFormHasAnotherKey(w, values, true, parts);
  }
}

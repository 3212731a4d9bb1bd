/** Subnet keys: however an IPv6 address is written, its first 48 bits give one key. */
module Subnet {
  import opened Wrappers
  import opened Strings

  // ---- hexadecimal groups ----

  /** `/^[0-9a-f]{1,4}$/` */
  predicate IsGroup(s: string) {
    1 <= |s| <= 4 && LowerDigits(s)
  }

  /** Leading zeros dropped, but never the last character. */
  function Strip(s: string): string {
    if |s| > 1 && s[0] == '0' then Strip(s[1..]) else s
  }

  // ---- the parser ----

  function Stripped(groups: seq<string>): seq<string> {
    if groups == [] then [] else [Strip(groups[0])] + Stripped(groups[1..])
  }

  function Zeros(n: nat): seq<string> {
    if n == 0 then [] else ["0"] + Zeros(n - 1)
  }

  predicate EveryIsGroup(groups: seq<string>) {
    forall i :: 0 <= i < |groups| ==> IsGroup(groups[i])
  }

  /** The groups with zeros filled in for the `::`, checked and stripped. */
  function Filled(head: seq<string>, tail: seq<string>): (groups: Option<seq<string>>)
    ensures groups.Some? ==> |groups.value| == 8
  {
    var fill := 8 - |head| - |tail|;
    if fill < 0 then None
    else
      var groups := head + (Zeros(fill) + tail);
      if |groups| != 8 || !EveryIsGroup(groups) then None
      else
        StrippedLength(groups);
        Some(Stripped(groups))
  }

  function ExpandIpv6(raw: string): (groups: Option<seq<string>>)
    ensures groups.Some? ==> |groups.value| == 8
  {
    var halves := SplitDouble(raw);
    if |halves| > 2 then None
    else
      var head := if halves[0] != "" then Split(halves[0], ':') else [];
      var tail := if |halves| == 2 && halves[1] != "" then Split(halves[1], ':') else [];
      if |halves| == 1 && |head| != 8 then None else Filled(head, tail)
  }

  lemma {:induction false} StrippedLength(groups: seq<string>)
    ensures |Stripped(groups)| == |groups|
    ensures forall i :: 0 <= i < |groups| ==> Stripped(groups)[i] == Strip(groups[i])
  {
    if groups != [] {
      StrippedLength(groups[1..]);
    }
  }

  predicate IsOctetText(s: string) {
    1 <= |s| <= 3 && forall c <- s :: '0' <= c <= '9'
  }

  function DecimalValue(s: string): nat {
    if s == "" then 0
    else
      var c := s[|s| - 1];
      10 * DecimalValue(s[..|s| - 1]) + if '0' <= c <= '9' then c as nat - '0' as nat else 0
  }

  /** A number in decimal, without leading zeros. */
  function Octet(n: nat): string {
    var units := ['0' + (n % 10) as char];
    if n < 10 then units else Octet(n / 10) + units
  }

  const MAPPED := "::ffff:"

  /** The four octets of a dotted quad, plain or in the `::ffff:` form, as the pattern takes it. */
  function DottedQuad(raw: string): (parts: Option<seq<string>>)
    ensures parts.Some? ==> |parts.value| == 4
  {
    var body := if MAPPED <= raw then raw[|MAPPED|..] else raw;
    var parts := Split(body, '.');
    if |parts| == 4 && forall p <- parts :: IsOctetText(p) then Some(parts) else None
  }

  function SubnetOf(ip: string): Option<string> {
    var raw := Lower(Trim(ip));
    if raw == "" then None
    else
      match DottedQuad(raw)
      case Some(p) =>
        if exists part <- p :: DecimalValue(part) > 255 then None
        else
          Some(Octet(DecimalValue(p[0])) + "." + Octet(DecimalValue(p[1])) + "." + Octet(DecimalValue(p[2])) + ".0/24")
      case None =>
        if ':' !in raw then None
        else
          match ExpandIpv6(raw)
          case None => None
          case Some(g) => Some(g[0] + ":" + g[1] + ":" + g[2] + "::/48")
  }

  // ---- section 2.2 of RFC 4291: the written forms of an address ----

  function HexValue(s: string): int {
    if s == "" then 0 else 16 * HexValue(s[..|s| - 1]) + Digit(s[|s| - 1])
  }

  /** One to four hexadecimal digits, upper or lower case, leading zeros allowed. */
  predicate GroupChars(s: string) {
    1 <= |s| <= 4 && forall i :: 0 <= i < |s| ==> Digit(s[i]) >= 0
  }

  predicate GroupText(s: string, value: int) {
    GroupChars(s) && HexValue(s) == value
  }

  predicate GroupTexts(texts: seq<string>, values: seq<int>) {
    |texts| == |values| && forall i :: 0 <= i < |texts| ==> GroupText(texts[i], values[i])
  }

  /** All eight groups, or the groups before and after a `::`. */
  datatype Written = Full(texts: seq<string>) | Compressed(head: seq<string>, tail: seq<string>)

  /** What stands for the run of zeros is left out of the text. */
  predicate Writes(w: Written, groups: seq<int>) {
    && |groups| == 8
    && match w
       case Full(texts) => GroupTexts(texts, groups)
       case Compressed(head, tail) =>
         && |head| + |tail| <= 8
         && GroupTexts(head, groups[..|head|])
         && (forall i :: |head| <= i < 8 - |tail| ==> groups[i] == 0)
         && GroupTexts(tail, groups[8 - |tail|..])
  }

  function Text(w: Written): string {
    match w
    case Full(texts) => Join(texts, ':')
    case Compressed(head, tail) => Join(head, ':') + "::" + Join(tail, ':')
  }

  predicate AllGroups(texts: seq<string>) {
    forall i :: 0 <= i < |texts| ==> GroupChars(texts[i])
  }

  lemma {:induction false} JoinedGroups(texts: seq<string>)
    requires AllGroups(texts)
    ensures var s := Join(texts, ':');
            && NoDouble(s)
            && (s == "" <==> texts == [])
            && (s != "" ==> s[0] != ':' && s[|s| - 1] != ':')
            && (forall i :: 0 <= i < |s| ==> s[i] == ':' || Digit(s[i]) >= 0)
            && (|texts| >= 2 ==> ':' in s)
  {
    if |texts| > 1 {
      var first, rest := texts[0], Join(texts[1..], ':');
      JoinedGroups(texts[1..]);
      var s := Join(texts, ':');
      assert s == first + ":" + rest;
      assert s[|first|] == ':';
      assert s[|s| - 1] == rest[|rest| - 1];
    }
  }

  // ---- the value of a group ----

  lemma {:induction false} LowerKeepsValue(s: string)
    requires forall i :: 0 <= i < |s| ==> Digit(s[i]) >= 0
    ensures LowerDigits(Lower(s)) && HexValue(Lower(s)) == HexValue(s)
  {
    if s != "" {
      var n := |s| - 1;
      LowerKeepsValue(s[..n]);
      LowerConcat(s[..n], s[n..]);
      assert s[..n] + s[n..] == s;
      assert Lower(s[n..]) == [LowerChar(s[n])];
      assert Lower(s)[..n] == Lower(s[..n]);
      assert Digit(LowerChar(s[n])) == Digit(s[n]);
    }
  }

  lemma {:induction false} StripKeepsValue(s: string)
    requires LowerDigits(s) && s != ""
    ensures LowerDigits(Strip(s)) && Canonical(Strip(s)) && HexValue(Strip(s)) == HexValue(s)
  {
    if |s| > 1 && s[0] == '0' {
      StripKeepsValue(s[1..]);
      LeadingZero(s[1..]);
      assert s == "0" + s[1..];
    }
  }

  lemma {:induction false} LeadingZero(s: string)
    ensures HexValue("0" + s) == HexValue(s)
  {
    if s != "" {
      LeadingZero(s[..|s| - 1]);
      assert ("0" + s)[..|s|] == "0" + s[..|s| - 1];
    }
  }

  /** Without leading zeros. */
  predicate Canonical(s: string) {
    s != "" && (|s| == 1 || s[0] != '0')
  }

  lemma {:induction false} ValueIsNatural(s: string)
    requires LowerDigits(s)
    ensures HexValue(s) >= 0 && (Canonical(s) && s != "0" ==> HexValue(s) >= 1)
  {
    if |s| == 1 {
      assert HexValue(s) == Digit(s[0]);
    } else if s != "" {
      ValueIsNatural(s[..|s| - 1]);
    }
  }

  lemma LastDigit(s: string)
    requires LowerDigits(s) && s != ""
    ensures var c := s[|s| - 1];
            0 <= Digit(c) < 16 && HexValue(s) % 16 == Digit(c) && HexValue(s) / 16 == HexValue(s[..|s| - 1])
  {
    ValueIsNatural(s[..|s| - 1]);
  }

  /** One value, one canonical text. */
  lemma {:induction false} CanonicalIsUnique(a: string, b: string)
    requires LowerDigits(a) && LowerDigits(b) && Canonical(a) && Canonical(b) && HexValue(a) == HexValue(b)
    ensures a == b
    decreases |a| + |b|
  {
    var m, n := |a| - 1, |b| - 1;
    assert HexValue("") == 0;
    hide HexValue, Digit;
    LastDigit(a);
    LastDigit(b);
    SameDigit(a[m], b[n]);
    assert a == a[..m] + [a[m]] && b == b[..n] + [b[n]];
    ValueIsNatural(a[..m]);
    ValueIsNatural(b[..n]);
    assert (m == 0 ==> a[..m] == "") && (n == 0 ==> b[..n] == "");
    if m > 0 && n > 0 {
      CanonicalIsUnique(a[..m], b[..n]);
    }
  }

  // ---- one address, one key ----

  /** Texts in lower case with these values. */
  predicate Spelled(texts: seq<string>, values: seq<int>) {
    |texts| == |values| && forall i :: 0 <= i < |texts| ==> IsGroup(texts[i]) && HexValue(texts[i]) == values[i]
  }

  lemma LowerSpells(texts: seq<string>, values: seq<int>)
    requires GroupTexts(texts, values)
    ensures Spelled(LowerAll(texts), values) && AllGroups(texts) && AllGroups(LowerAll(texts))
  {
    forall i | 0 <= i < |texts| ensures IsGroup(LowerAll(texts)[i]) && HexValue(LowerAll(texts)[i]) == values[i] {
      assert GroupText(texts[i], values[i]);
      LowerKeepsValue(texts[i]);
    }
    GroupsAreGroupChars(LowerAll(texts), values);
  }

  lemma GroupsAreGroupChars(texts: seq<string>, values: seq<int>)
    requires Spelled(texts, values)
    ensures AllGroups(texts)
  {
  }

  lemma {:induction false} ZerosSpelled(n: nat)
    ensures |Zeros(n)| == n && forall i :: 0 <= i < n ==> Zeros(n)[i] == "0"
  {
    if n > 0 {
      ZerosSpelled(n - 1);
    }
  }

  /** Splitting a joined half at its colons gives its groups back. */
  lemma SplitHalf(texts: seq<string>)
    requires AllGroups(texts)
    ensures (if Join(texts, ':') != "" then Split(Join(texts, ':'), ':') else []) == texts
  {
    JoinedGroups(texts);
    if texts != [] {
      forall i | 0 <= i < |texts| ensures Free(texts[i], ':') {
        assert GroupChars(texts[i]);
      }
      SplitJoin(texts, ':');
    }
  }

  /** The groups a parse ends with: canonical texts of the eight values. */
  predicate Parsed(groups: Option<seq<string>>, values: seq<int>) {
    && groups.Some? && |groups.value| == 8 == |values|
    && forall i :: 0 <= i < 8 ==>
                     && LowerDigits(groups.value[i]) && Canonical(groups.value[i])
                     && HexValue(groups.value[i]) == values[i]
  }

  lemma StrippedParses(texts: seq<string>, values: seq<int>)
    requires Spelled(texts, values) && |texts| == 8
    ensures Parsed(Some(Stripped(texts)), values)
  {
    StrippedLength(texts);
    forall i | 0 <= i < 8
      ensures LowerDigits(Stripped(texts)[i]) && Canonical(Stripped(texts)[i])
      ensures HexValue(Stripped(texts)[i]) == values[i]
    {
      StripKeepsValue(texts[i]);
    }
  }

  lemma FullParses(texts: seq<string>, values: seq<int>)
    requires Spelled(texts, values) && |texts| == 8
    ensures Parsed(ExpandIpv6(Join(texts, ':')), values)
  {
    assert Spelled([], []) && texts != [];
    hide Join, Split, SplitDouble, Filled, Parsed, IsGroup, HexValue, Spelled;
    GroupsAreGroupChars(texts, values);
    JoinedGroups(texts);
    SplitDoubleNone(Join(texts, ':'));
    SplitHalf(texts);
    assert values[..8] == values && values[8..] == [];
    FilledParses(texts, [], values);
  }

  lemma SpelledTogether(a: seq<string>, b: seq<string>, values: seq<int>)
    requires |a| <= |values| && Spelled(a, values[..|a|]) && Spelled(b, values[|a|..])
    ensures Spelled(a + b, values)
  {
    hide IsGroup, HexValue;
    forall i | 0 <= i < |a + b| ensures IsGroup((a + b)[i]) && HexValue((a + b)[i]) == values[i] {
      if i < |a| {
        assert values[..|a|][i] == values[i];
      } else {
        assert values[|a|..][i - |a|] == values[i];
      }
    }
  }

  lemma ZerosSpell(values: seq<int>)
    requires forall i :: 0 <= i < |values| ==> values[i] == 0
    ensures Spelled(Zeros(|values|), values)
  {
    ZerosSpelled(|values|);
    assert HexValue("0") == 0 && IsGroup("0");
    hide HexValue, IsGroup, Zeros;
  }

  lemma FilledParses(head: seq<string>, tail: seq<string>, values: seq<int>)
    requires |values| == 8 && |head| + |tail| <= 8
    requires Spelled(head, values[..|head|]) && Spelled(tail, values[8 - |tail|..])
    requires forall i :: |head| <= i < 8 - |tail| ==> values[i] == 0
    ensures Parsed(Filled(head, tail), values)
  {
    var late := values[|head|..];
    var zeros := Zeros(8 - |head| - |tail|);
    ZerosSpell(late[..8 - |head| - |tail|]);
    assert late[|zeros|..] == values[8 - |tail|..];
    SpelledTogether(zeros, tail, late);
    SpelledTogether(head, zeros + tail, values);
    StrippedParses(head + (zeros + tail), values);
    hide Stripped, Zeros, Parsed, HexValue, IsGroup;
  }

  lemma ExpandsAround(raw: string, h: string, t: string, head: seq<string>, tail: seq<string>)
    requires SplitDouble(raw) == [h, t]
    requires (if h != "" then Split(h, ':') else []) == head && (if t != "" then Split(t, ':') else []) == tail
    ensures ExpandIpv6(raw) == Filled(head, tail)
  {
    hide Split, SplitDouble, Filled;
  }

  lemma CompressedParses(head: seq<string>, tail: seq<string>, values: seq<int>)
    requires |values| == 8 && |head| + |tail| <= 8
    requires Spelled(head, values[..|head|]) && Spelled(tail, values[8 - |tail|..])
    requires forall i :: |head| <= i < 8 - |tail| ==> values[i] == 0
    ensures Parsed(ExpandIpv6(Join(head, ':') + "::" + Join(tail, ':')), values)
  {
    GroupsAreGroupChars(head, values[..|head|]);
    GroupsAreGroupChars(tail, values[8 - |tail|..]);
    JoinedGroups(head);
    JoinedGroups(tail);
    hide Join, Split, SplitDouble, Stripped, Zeros, Parsed, HexValue, IsGroup, ExpandIpv6, GroupChars;
    var h, t := Join(head, ':'), Join(tail, ':');
    SplitDoubleOnce(h, t);
    SplitHalf(head);
    SplitHalf(tail);
    ExpandsAround(h + "::" + t, h, t, head, tail);
    FilledParses(head, tail, values);
  }

  /** Any written form parses to canonical texts of the address's own eight values. */
  lemma WrittenParses(w: Written, values: seq<int>)
    requires Writes(w, values)
    ensures Parsed(ExpandIpv6(Lower(Text(w))), values)
  {
    match w
    case Full(texts) =>
      LowerSpells(texts, values);
      LowerJoin(texts);
      FullParses(LowerAll(texts), values);
    case Compressed(head, tail) =>
      hide Lower, Join, ExpandIpv6, Parsed, GroupTexts, LowerAll;
      LowerSpells(head, values[..|head|]);
      LowerSpells(tail, values[8 - |tail|..]);
      LowerJoin(head);
      LowerJoin(tail);
      LowerConcat(Join(head, ':') + "::", Join(tail, ':'));
      LowerConcat(Join(head, ':'), "::");
      LowerColons();
      CompressedParses(LowerAll(head), LowerAll(tail), values);
  }

  predicate AddressChars(s: string) {
    forall i :: 0 <= i < |s| ==> s[i] == ':' || Digit(s[i]) >= 0
  }

  lemma TextShape(w: Written, values: seq<int>)
    requires Writes(w, values)
    ensures Text(w) != "" && AddressChars(Text(w)) && ':' in Text(w)
  {
    match w
    case Full(texts) =>
      LowerSpells(texts, values);
      JoinedGroups(texts);
      hide Join, LowerAll;
    case Compressed(head, tail) =>
      LowerSpells(head, values[..|head|]);
      LowerSpells(tail, values[8 - |tail|..]);
      JoinedGroups(head);
      JoinedGroups(tail);
      hide Join, LowerAll, GroupTexts, Digit;
      assert Text(w)[|Join(head, ':')|] == ':';
  }

  lemma AddressChar(c: char)
    requires c == ':' || Digit(c) >= 0
    ensures !IsSpace(c) && LowerChar(c) != '.' && (LowerChar(c) == ':' || Digit(LowerChar(c)) >= 0)
  {
  }

  lemma LowerAddress(s: string)
    requires AddressChars(s)
    ensures Free(Lower(s), '.') && (':' in s ==> ':' in Lower(s))
    ensures forall i :: 0 <= i < |s| ==> !IsSpace(s[i])
  {
    hide IsSpace, LowerChar, Digit, Lower;
    forall i | 0 <= i < |s| ensures !IsSpace(s[i]) && Lower(s)[i] != '.' {
      LowerAt(s, i);
      AddressChar(s[i]);
    }
    if ':' in s {
      var i :| 0 <= i < |s| && s[i] == ':';
      LowerAt(s, i);
      LowerColon();
      assert Lower(s)[i] == ':';
    }
  }

  lemma NotADottedQuad(raw: string)
    requires Free(raw, '.')
    ensures DottedQuad(raw).None?
  {
    SplitFree(if MAPPED <= raw then raw[|MAPPED|..] else raw, '.');
  }

  function NetworkKey(g: seq<string>): string
    requires |g| == 8
  {
    g[0] + ":" + g[1] + ":" + g[2] + "::/48"
  }

  lemma KeyOfWritten(before: string, w: Written, values: seq<int>, after: string)
    requires Writes(w, values) && Blank(before) && Blank(after)
    ensures Parsed(ExpandIpv6(Lower(Text(w))), values)
    ensures SubnetOf(before + Text(w) + after) == Some(NetworkKey(ExpandIpv6(Lower(Text(w))).value))
  {
    TextShape(w, values);
    WrittenParses(w, values);
    hide Writes, Text, ExpandIpv6, Trim, DottedQuad, IsSpace, Lower;
    var s := Text(w);
    LowerAddress(s);
    TrimDrops(before, s, after);
    NotADottedQuad(Lower(s));
  }

  lemma KeySplits(g: seq<string>)
    requires |g| == 8 && Free(g[0], ':') && Free(g[1], ':') && Free(g[2], ':')
    ensures Split(NetworkKey(g), ':') == [g[0], g[1], g[2], "", "/48"]
  {
    var key := NetworkKey(g);
    assert key == g[0] + ":" + (g[1] + ":" + (g[2] + ":" + ("" + ":" + "/48")));
    SplitFirst(g[0], ':', g[1] + ":" + (g[2] + ":" + ("" + ":" + "/48")));
    SplitFirst(g[1], ':', g[2] + ":" + ("" + ":" + "/48"));
    SplitFirst(g[2], ':', "" + ":" + "/48");
    SplitFirst("", ':', "/48");
    SplitFree("/48", ':');
  }

  lemma KeyIsInjective(g: seq<string>, g': seq<string>)
    requires |g| == 8 && Free(g[0], ':') && Free(g[1], ':') && Free(g[2], ':')
    requires |g'| == 8 && Free(g'[0], ':') && Free(g'[1], ':') && Free(g'[2], ':')
    requires NetworkKey(g) == NetworkKey(g')
    ensures g[0] == g'[0] && g[1] == g'[1] && g[2] == g'[2]
  {
    KeySplits(g);
    KeySplits(g');
    hide NetworkKey, Split, Free;
    var parts := [g[0], g[1], g[2], "", "/48"];
    assert parts == [g'[0], g'[1], g'[2], "", "/48"];
    assert parts[0] == g'[0] && parts[1] == g'[1] && parts[2] == g'[2];
  }

  lemma KeyIsNetwork(g: seq<string>, values: seq<int>, g': seq<string>, values': seq<int>)
    requires Parsed(Some(g), values) && Parsed(Some(g'), values')
    ensures NetworkKey(g) == NetworkKey(g') <==> values[..3] == values'[..3]
  {
    if NetworkKey(g) == NetworkKey(g') {
      KeyIsInjective(g, g');
    }
    SameGroup(g[0], g'[0]);
    SameGroup(g[1], g'[1]);
    SameGroup(g[2], g'[2]);
    assert NetworkKey(g) == NetworkKey(g') <==> g[0] == g'[0] && g[1] == g'[1] && g[2] == g'[2];
    hide NetworkKey, HexValue, Canonical, LowerDigits;
    FirstThree(values, values');
  }

  lemma FirstThree(values: seq<int>, values': seq<int>)
    requires |values| == 8 == |values'|
    ensures values[..3] == values'[..3]
            <==> values[0] == values'[0] && values[1] == values'[1] && values[2] == values'[2]
  {
    if values[..3] == values'[..3] {
      assert values[..3][0] == values'[0] && values[..3][1] == values'[1] && values[..3][2] == values'[2];
    }
  }

  lemma SameGroup(a: string, b: string)
    requires LowerDigits(a) && Canonical(a) && LowerDigits(b) && Canonical(b)
    ensures a == b <==> HexValue(a) == HexValue(b)
  {
    if HexValue(a) == HexValue(b) {
      CanonicalIsUnique(a, b);
    }
  }

  /** However two addresses are written, upper or lower case, padded or not, with `::` for any run
      of zero groups, with blanks around them: they have the same key exactly when their first 48
      bits agree. */
  lemma SameKeyIffSameNetwork(w: Written, values: seq<int>, w': Written, values': seq<int>,
                              before: string, after: string, before': string, after': string)
    requires Writes(w, values) && Writes(w', values')
    requires Blank(before) && Blank(after) && Blank(before') && Blank(after')
    ensures SubnetOf(before + Text(w) + after).Some?
    ensures SubnetOf(before + Text(w) + after) == SubnetOf(before' + Text(w') + after') <==> values[..3] == values'[..3]
  {
    hide Writes, Text, ExpandIpv6, Parsed, NetworkKey, SubnetOf, Blank, Lower;
    KeyOfWritten(before, w, values, after);
    KeyOfWritten(before', w', values', after');
    var g, g' := ExpandIpv6(Lower(Text(w))), ExpandIpv6(Lower(Text(w')));
    ParsedIsSome(g, values);
    ParsedIsSome(g', values');
    KeyIsNetwork(g.value, values, g'.value, values');
  }

  lemma ParsedIsSome(g: Option<seq<string>>, values: seq<int>)
    requires Parsed(g, values)
    ensures g.Some? && |g.value| == 8 && |values| == 8
  {
  }

  // ---- nothing else parses ----

  lemma HalfIsJoined(half: string, groups: seq<string>)
    requires groups == if half != "" then Split(half, ':') else []
    ensures Join(groups, ':') == half
  {
    JoinSplit(half, ':');
  }

  function Values(texts: seq<string>): (values: seq<int>)
    ensures |values| == |texts| && forall i :: 0 <= i < |texts| ==> values[i] == HexValue(texts[i])
  {
    if texts == [] then [] else [HexValue(texts[0])] + Values(texts[1..])
  }

  lemma GroupIsText(s: string)
    requires IsGroup(s)
    ensures GroupText(s, HexValue(s))
  {
  }

  lemma TextsOf(texts: seq<string>)
    requires EveryIsGroup(texts)
    ensures GroupTexts(texts, Values(texts))
  {
    forall i | 0 <= i < |texts| ensures GroupText(texts[i], HexValue(texts[i])) {
      GroupIsText(texts[i]);
    }
    hide GroupText, IsGroup, HexValue;
  }

  lemma GroupsOfFilled(head: seq<string>, tail: seq<string>)
    requires Filled(head, tail).Some?
    ensures |head| + |tail| <= 8 && EveryIsGroup(head) && EveryIsGroup(tail)
  {
    var zeros := Zeros(8 - |head| - |tail|);
    var groups := head + (zeros + tail);
    assert EveryIsGroup(groups);
    hide IsGroup, Zeros, Stripped, Filled;
    forall i | 0 <= i < |head| ensures IsGroup(head[i]) { assert groups[i] == head[i]; }
    forall i | 0 <= i < |tail| ensures IsGroup(tail[i]) { assert groups[|head| + |zeros| + i] == tail[i]; }
  }

  lemma FilledIsWritten(head: seq<string>, tail: seq<string>) returns (values: seq<int>)
    requires Filled(head, tail).Some?
    ensures Writes(Compressed(head, tail), values)
    ensures tail == [] && |head| == 8 ==> Writes(Full(head), values)
  {
    GroupsOfFilled(head, tail);
    hide IsGroup, HexValue, Filled, GroupTexts, EveryIsGroup;
    TextsOf(head);
    TextsOf(tail);
    var blank := seq(8 - |head| - |tail|, i => 0);
    values := Values(head) + (blank + Values(tail));
    assert values[..|head|] == Values(head);
    assert values[8 - |tail|..] == Values(tail);
    assert tail == [] && |head| == 8 ==> values == Values(head);
  }

  ghost predicate IsWrittenForm(s: string) {
    exists w, values :: Writes(w, values) && Text(w) == s
  }

  /** The parser accepts exactly the written forms, as long as `::` may also stand for no group
      at all; everything else gives null and so no key. */
  lemma ParsesExactlyTheWrittenForms(ip: string)
    ensures ExpandIpv6(Lower(ip)).Some? <==> IsWrittenForm(Lower(ip))
  {
    var raw := Lower(ip);
    LowerTwice(ip);
    if ExpandIpv6(raw).Some? {
      var halves := SplitDouble(raw);
      JoinHalves(raw);
      var head := if halves[0] != "" then Split(halves[0], ':') else [];
      var tail := if |halves| == 2 && halves[1] != "" then Split(halves[1], ':') else [];
      hide Split, SplitDouble, Filled, Writes, Join;
      HalfIsJoined(halves[0], head);
      var values := FilledIsWritten(head, tail);
      if |halves| == 1 {
        assert Text(Full(head)) == raw;
      } else {
        HalfIsJoined(halves[1], tail);
        assert Text(Compressed(head, tail)) == raw;
      }
    } else if IsWrittenForm(raw) {
      var w, values :| Writes(w, values) && Text(w) == raw;
      WrittenParses(w, values);
    }
  }
}

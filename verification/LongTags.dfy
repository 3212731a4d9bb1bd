/** Why a tag has to fit in one byte: the parsers take a longer one for a tag and a value. */
module LongTags {
  import opened Wrappers
  import opened JsNumber
  import opened Varints
  import opened BlockCodec
  import opened ReferenceCodec

  /** A tag at the cursor is the last thing in the buffer. */
  predicate EndsWithTag(p: seq<Byte>, i: nat) {
    VarintAt(p, i).Got? && VarintAt(p, i).next == |p|
  }

  /** ... and takes more than one byte. */
  predicate EndsWithLongTag(p: seq<Byte>, i: nat) {
    EndsWithTag(p, i) && At(p, i) >= 128
  }

  lemma TagGroups(b: seq<Byte>, i: nat)
    requires VarintAt(b, i).Got? && At(b, i) >= 128
    ensures VarintAt(b, i).value % 8 == At(b, i) % 8
    ensures VarintAt(b, i + 1) == Got(VarintAt(b, i).value / 128, VarintAt(b, i).next)
  {
  }

  lemma LongTagExtended(p: seq<Byte>, i: nat, rest: seq<Byte>)
    requires EndsWithLongTag(p, i)
    ensures var b, tag := p + rest, VarintAt(p, i).value;
            && VarintAt(b, i) == Got(tag, |p|) && VarintAt(b, i + 1) == Got(tag / 128, |p|)
            && At(b, i) >= 128 && At(b, i) % 8 == tag % 8
  {
    var b := p + rest;
    assert SameUpTo(p, b, |p|);
    ReadsLocal(p, b, |p|, i, 0, 0);
    AtLocal(p, b, |p|, i);
    TagGroups(b, i);
  }

  // ---- what is put behind a tag ----

  /** Nothing a field may start with. */
  function Sevens(n: nat): seq<Byte> {
    seq(n, _ => 7)
  }

  /** A length-delimited field of `n` bytes, from its length on. */
  function Blob(n: nat): seq<Byte> {
    Varint(n) + Sevens(n)
  }

  lemma {:induction false} VarintIsShort(n: nat)
    ensures 1 <= |Varint(n)| <= 1 + n / 128
  {
    if n >= 128 {
      VarintIsShort(n / 128);
    }
  }

  /** What a reader that skips `k` bytes of it, and not its length, finds next. */
  lemma InsideABlob(k: nat)
    ensures k < |Blob(k + 10)|
    ensures k > 0 ==> Blob(k + 10)[k] == 7
    ensures k == 0 ==> Blob(10) == [10] + Sevens(10)
  {
    VarintIsShort(k + 10);
  }

  /** `middle` sits in `b` behind the first `n` bytes, and `end` behind that. */
  predicate Follows(b: seq<Byte>, n: nat, middle: seq<Byte>, end: seq<Byte>) {
    n <= |b| && b[n..] == middle + end
  }

  lemma FollowsAt(b: seq<Byte>, n: nat, middle: seq<Byte>, end: seq<Byte>, k: nat)
    requires Follows(b, n, middle, end) && k < |middle|
    ensures n + k < |b| && At(b, n + k) == middle[k]
  {
    assert b[n + k] == b[n..][k];
  }

  lemma BlobSkipped(b: seq<Byte>, n: nat, len: nat, end: seq<Byte>)
    requires Follows(b, n, Blob(len), end)
    ensures VarintAt(b, n) == Got(len, n + |Varint(len)|)
    ensures Sits(b, n + |Blob(len)|, end) && n + |Blob(len)| + |end| == |b|
    ensures |Blob(len)| == |Varint(len)| + len
  {
    assert b[n..] == Varint(len) + (Sevens(len) + end);
    assert Sits(b, n, Varint(len) + (Sevens(len) + end));
    SitsSplit(b, n, Varint(len), Sevens(len) + end);
    VarintRoundTrip(len);
    VarintSits(b, n, Varint(len));
    assert b[n + |Blob(len)|..] == b[n..][|Blob(len)|..] == end;
  }

  // ---- turns of the parsers ----

  lemma HeightMoves(b: seq<Byte>, i: int, j: int, turns: nat)
    requires i < |b| && HeightStep(b, i) == Next(j) && HeightFrom(b, j, turns) == Done(None)
    ensures HeightFrom(b, i, turns + 1) == Done(None)
  {
    hide HeightStep;
  }

  lemma HashMoves(b: seq<Byte>, i: int, j: int, turns: nat)
    requires i < |b| && HashStep(b, i) == Next(j) && HashFrom(b, j, turns) == Done(None)
    ensures HashFrom(b, i, turns + 1) == Done(None)
  {
    hide HashStep;
  }

  /** A parser at the byte 7 gives up. */
  lemma SevenStops(b: seq<Byte>, j: nat, turns: nat)
    requires j < |b| && At(b, j) == 7 && turns > 0
    ensures HeightFrom(b, j, turns) == Done(None) && HashFrom(b, j, turns) == Done(None)
  {
    hide VarintAt, LengthAt, At, Reversed;
    assert HeightStep(b, j) == Stop(None) && HashStep(b, j) == Stop(None);
    hide HeightStep, HashStep;
  }

  /** Both parsers step over a field of another number than 3 by the length it has. */
  lemma BlobSteps(b: seq<Byte>, i: nat, n: nat, k: nat)
    requires i < |b| && At(b, i) % 8 == 2 && At(b, i) != 26 && VarintAt(b, i + 1) == Got(k, n) && k < TWO31
    ensures HeightStep(b, i) == Next(n + k)
    ensures n + k <= |b| ==> HashStep(b, i) == Next(n + k)
  {
    LengthExactBelow2To31(b, i + 1);
    hide VarintAt, LengthAt, At, Reversed;
  }

  /** ... which leads them to give up behind a field of seven bytes that are sevens. */
  lemma ShortBlobStops(b: seq<Byte>, j: nat, turns: nat)
    requires j + 10 < |b| && At(b, j) == 10 && At(b, j + 1) == 7 && At(b, j + 9) == 7 && turns > 1
    ensures HeightFrom(b, j, turns) == Done(None) && HashFrom(b, j, turns) == Done(None)
  {
    assert VarintAt(b, j + 1) == Got(7, j + 2);
    hide *;
    BlobSteps(b, j, j + 2, 7);
    SevenStops(b, j + 9, turns - 1);
    HeightMoves(b, j, j + 9, turns - 1);
    HashMoves(b, j, j + 9, turns - 1);
  }

  /** Past the first byte of a blob's tag and over `k` bytes, the parsers are inside the blob. */
  lemma LostInABlob(b: seq<Byte>, n: nat, k: nat, end: seq<Byte>, turns: nat)
    requires Follows(b, n, Blob(k + 10), end) && turns > 1
    ensures n + k < |b| && HeightFrom(b, n + k, turns) == Done(None) && HashFrom(b, n + k, turns) == Done(None)
  {
    InsideABlob(k);
    hide HeightFrom, HashFrom, At;
    FollowsAt(b, n, Blob(k + 10), end, k);
    if k > 0 {
      SevenStops(b, n + k, turns);
    } else {
      assert |Blob(10)| == 11;
      FollowsAt(b, n, Blob(10), end, 1);
      FollowsAt(b, n, Blob(10), end, 9);
      FollowsAt(b, n, Blob(10), end, 10);
      BlobSkipped(b, n, 10, end);
      ShortBlobStops(b, n, turns);
    }
  }

  // ---- the height ----

  lemma NullIsNotTrue(b: seq<Byte>, i: nat, turns: nat)
    requires HeightFrom(b, i, turns) == Done(None) && TrueHeight(b, i).Some?
    ensures !ReadsTruly(b, i)
  {
    hide HeightFrom, TrueHeight;
    if ReadsTruly(b, i) {
      var t: nat :| HeightFrom(b, i, t) == Done(TrueHeight(b, i));
      MoreTurns(b, i, t, t + turns);
      MoreTurns(b, i, turns, t + turns);
    }
  }

  /** The field whose tag ends at `n` and everything behind it are plain, but for the tag. */
  predicate PlainBehind(b: seq<Byte>, i: nat, n: nat) {
    && (At(b, i) % 8 == 2 && VarintAt(b, n).Got? ==> VarintAt(b, n).value < TWO31)
    && (TrueHeightStep(b, i).Next? ==> PlainWalk(b, TrueHeightStep(b, i).at))
  }

  /** The rest of a blob's long tag is taken for its length. */
  lemma BlobTagIsMisread(b: seq<Byte>, i: nat, n: nat, k: nat, end: seq<Byte>)
    requires i < |b| && At(b, i) >= 128 && At(b, i) % 8 == 2
    requires VarintAt(b, i + 1) == Got(k, n) && k < TWO31 && Follows(b, n, Blob(k + 10), end)
    ensures HeightFrom(b, i, 3) == Done(None) && HashFrom(b, i, 3) == Done(None)
  {
    hide *;
    LostInABlob(b, n, k, end, 2);
    BlobSteps(b, i, n, k);
    HeightMoves(b, i, n + k, 2);
    HashMoves(b, i, n + k, 2);
  }

  lemma BlobTagReadsTruly(b: seq<Byte>, i: nat, n: nat, tag: nat, len: nat)
    requires i < |b| && VarintAt(b, i) == Got(tag, n) && tag % 8 == 2 && At(b, i) % 8 == 2 && len < TWO31
    requires Follows(b, n, Blob(len), BlockID(5))
    ensures TrueHeight(b, i) == Some(5) && PlainBehind(b, i, n)
  {
    BlobSkipped(b, n, len, BlockID(5));
    HeightBehindTheWall(b, n + |Blob(len)|, 5);
    hide VarintAt, At, PlainWalk, Sits, Blob, BlockID;
    assert TrueHeightStep(b, i) == Next(n + |Blob(len)|);
  }

  /** A tag of two or more bytes in front of a length-delimited field: some length, bytes and plain
      fields behind it mislead the parser. */
  lemma LongBlobTagMisleads(p: seq<Byte>, i: nat) returns (rest: seq<Byte>)
    requires EndsWithLongTag(p, i) && VarintAt(p, i).value % 8 == 2 && VarintAt(p, i).value / 128 + 10 < TWO31
    ensures PlainBehind(p + rest, i, |p|) && !ReadsTruly(p + rest, i)
  {
    var n, tag := |p|, VarintAt(p, i).value;
    var k := tag / 128;
    rest := Blob(k + 10) + BlockID(5);
    var b := p + rest;
    assert i < n;
    assert Follows(b, n, Blob(k + 10), BlockID(5));
    LongTagExtended(p, i, rest);
    hide *;
    BlobTagReadsTruly(b, i, n, tag, k + 10);
    BlobTagIsMisread(b, i, n, k, BlockID(5));
    NullIsNotTrue(b, i, 3);
  }

  /** The rest of a number's long tag is taken for the value, and the value for the next tag. */
  lemma AfterALongTag(b: seq<Byte>, i: nat, turns: nat)
    requires i < |b| && At(b, i) >= 128 && VarintAt(b, i).Got? && VarintAt(b, i).value % 8 == 0
    ensures HeightFrom(b, i, turns) == if turns == 0 then Unfinished else HeightFrom(b, VarintAt(b, i).next, turns - 1)
  {
    TagGroups(b, i);
    hide VarintAt, At, LengthAt;
  }

  /** Whatever a number's long tag, some value and some plain fields behind it mislead the parser. */
  lemma LongTagMisleads(p: seq<Byte>, i: nat) returns (rest: seq<Byte>)
    requires EndsWithLongTag(p, i) && VarintAt(p, i).value % 8 == 0
    ensures PlainBehind(p + rest, i, |p|) && !ReadsTruly(p + rest, i)
  {
    rest := if VarintAt(p, i).value == 8 then [0x05] else [0x08, 0x08, 0x05];
    var b, n := p + rest, |p|;
    LongTagExtended(p, i, rest);
    assert At(b, n) == rest[0];
    OneByteTag(b, n);
    assert |rest| > 1 ==> At(b, n + 1) == 8 && At(b, n + 2) == 5;
    assert |rest| > 1 ==> VarintAt(b, n + 1) == Got(8, n + 2) && VarintAt(b, n + 2) == Got(5, n + 3);
    assert i < n;
    hide VarintAt, At;
    assert TrueHeight(b, i) == Some(5) && PlainBehind(b, i, n) by {
      if |rest| > 1 {
        assert TrueHeightStep(b, i) == Next(n + 1);
        assert TrueHeight(b, n + 1) == Some(5);
      }
    }
    forall turns: nat ensures HeightFrom(b, i, turns) != Done(Some(5)) {
      AfterALongTag(b, i, turns);
      if turns > 1 {
        HeightTurn(b, n, turns - 1);
      }
    }
  }

  lemma OtherWiresAreTrue(b: seq<Byte>, i: nat)
    requires i < |b| && At(b, i) % 8 !in {0, 2} && VarintAt(b, i).Got? && VarintAt(b, i).value % 8 == At(b, i) % 8
    ensures ReadsTruly(b, i)
  {
    hide VarintAt, LengthAt, At;
    assert HeightFrom(b, i, 1) == Done(TrueHeight(b, i));
  }

  lemma TagWire(p: seq<Byte>, i: nat)
    requires VarintAt(p, i).Got?
    ensures VarintAt(p, i).value % 8 == At(p, i) % 8 && i < |p|
  {
  }

  lemma TagExtended(p: seq<Byte>, i: nat, rest: seq<Byte>)
    requires EndsWithTag(p, i)
    ensures VarintAt(p + rest, i) == VarintAt(p, i) && At(p + rest, i) == At(p, i) && i < |p|
  {
    var b := p + rest;
    assert SameUpTo(p, b, |p|);
    ReadsLocal(p, b, |p|, i, 0, 0);
    AtLocal(p, b, |p|, i);
  }

  lemma PlainBehindAShortTag(p: seq<Byte>, i: nat, rest: seq<Byte>)
    requires EndsWithTag(p, i) && At(p, i) < 128 && PlainBehind(p + rest, i, |p|)
    ensures ReadsTruly(p + rest, i)
  {
    var b := p + rest;
    TagExtended(p, i, rest);
    OneByteTag(b, i);
    hide VarintAt, At, EndsWithTag;
    assert PlainWalk(b, i);
    HeightIsTrue(b, i, |b|);
  }

  /** One byte is all a tag can have: whatever plain field follows it and whatever plain fields follow
      that, a tag lets the parser read truly exactly when it is one byte long, or of a wire type
      that ends the message. */
  lemma OneByteTagIsNeeded(p: seq<Byte>, i: nat)
    requires EndsWithTag(p, i) && VarintAt(p, i).value / 128 + 10 < TWO31
    ensures At(p, i) < 128 || At(p, i) % 8 !in {0, 2} <==>
              forall rest :: PlainBehind(p + rest, i, |p|) ==> ReadsTruly(p + rest, i)
  {
    TagWire(p, i);
    if At(p, i) < 128 || At(p, i) % 8 !in {0, 2} {
      forall rest | PlainBehind(p + rest, i, |p|) ensures ReadsTruly(p + rest, i) {
        if At(p, i) < 128 {
          PlainBehindAShortTag(p, i, rest);
        } else {
          TagExtended(p, i, rest);
          OtherWiresAreTrue(p + rest, i);
        }
      }
    } else if At(p, i) % 8 == 0 {
      var rest := LongTagMisleads(p, i);
    } else {
      var rest := LongBlobTagMisleads(p, i);
    }
  }

  /** Field 18 with value 8 in front of height 5 reads as height 8. */
  lemma LongTagFabricates()
    ensures var buf: seq<Byte> := [0x90, 0x01, 0x08, 0x08, 0x05];
            TrueHeight(buf, 0) == Some(5) && HeightFrom(buf, 0, 2) == Done(Some(8))
  {
    var buf: seq<Byte> := [0x90, 0x01, 0x08, 0x08, 0x05];
    assert VarintAt(buf, 1) == Got(1, 2);
    assert VarintAt(buf, 0) == Got(144, 2);
    assert VarintAt(buf, 2) == Got(8, 3);
    assert VarintAt(buf, 3) == Got(8, 4);
    assert VarintAt(buf, 4) == Got(5, 5);
  }

  // ---- the hash ----

  lemma NullHashIsNotTrue(b: seq<Byte>, i: nat, turns: nat)
    requires HashFrom(b, i, turns) == Done(None) && TrueHash(b, i).Some?
    ensures !ReadsHashTruly(b, i)
  {
    hide HashFrom, TrueHash;
    if ReadsHashTruly(b, i) {
      var t: nat :| HashFrom(b, i, t) == Done(TrueHash(b, i));
      MoreHashTurns(b, i, t, t + turns);
      MoreHashTurns(b, i, turns, t + turns);
    }
  }

  predicate PlainHashBehind(b: seq<Byte>, i: nat, n: nat) {
    && (At(b, i) % 8 == 2 && VarintAt(b, n).Got? ==> VarintAt(b, n).value < TWO31)
    && (TrueHashStep(b, i).Next? ==> PlainHashWalk(b, TrueHashStep(b, i).at))
  }

  /** What to put between a long tag and a hash. */
  function Gap(tag: nat): seq<Byte> {
    match tag % 8
    case 2 => Blob(tag / 128 + 10)
    case 5 => Sevens(4)
    case 1 => Sevens(8)
    case _ => [7]
  }

  lemma HashFollows(b: seq<Byte>, n: nat, middle: seq<Byte>)
    requires Follows(b, n, middle, HashField(1))
    ensures TrueHashStep(b, n + |middle|) == Stop(Some(Reversed(seq(32, _ => 1))))
    ensures TrueHash(b, n + |middle|) == Some(Reversed(seq(32, _ => 1)))
    ensures PlainHashWalk(b, n + |middle|) && |b| == n + |middle| + 34
  {
    assert b[n + |middle|..] == b[n..][|middle|..] == HashField(1);
    HashFieldReads(b, n + |middle|, 1);
    hide TrueHashStep, PlainHashWalk, Reversed;
  }

  lemma TrueReaderSkipsTheGap(b: seq<Byte>, i: nat, n: nat, tag: nat)
    requires i < |b| && VarintAt(b, i) == Got(tag, n) && tag % 8 in {0, 1, 2, 5}
    requires tag != 26 && Follows(b, n, Gap(tag), HashField(1))
    ensures TrueHashStep(b, i) == Next(n + |Gap(tag)|)
  {
    FollowsAt(b, n, Gap(tag), HashField(1), 0);
    if tag % 8 == 2 {
      BlobSkipped(b, n, tag / 128 + 10, HashField(1));
    } else if tag % 8 == 0 {
      assert VarintAt(b, n) == Got(7, n + 1);
    }
    hide VarintAt, At, Reversed, HashField, Follows, Varint;
  }

  /** The reader steps over the gap to the hash. */
  lemma TrueReaderFindsTheHash(b: seq<Byte>, i: nat, n: nat, tag: nat)
    requires i < |b| && VarintAt(b, i) == Got(tag, n) && tag % 8 == At(b, i) % 8 && tag % 8 in {0, 1, 2, 5}
    requires tag != 26 && tag / 128 + 10 < TWO31 && Follows(b, n, Gap(tag), HashField(1))
    ensures TrueHash(b, i).Some? && PlainHashBehind(b, i, n)
  {
    TrueReaderSkipsTheGap(b, i, n, tag);
    HashFollows(b, n, Gap(tag));
    if tag % 8 == 2 {
      BlobSkipped(b, n, tag / 128 + 10, HashField(1));
    }
    hide VarintAt, At, PlainHashWalk, Reversed, HashField, Follows, Gap, TrueHashStep;
  }

  /** The parser ends in the gap. */
  lemma ParserMissesTheHash(b: seq<Byte>, i: nat, n: nat, tag: nat)
    requires i < |b| && At(b, i) >= 128 && VarintAt(b, i + 1) == Got(tag / 128, n) && n <= i + 5
    requires tag % 8 == At(b, i) % 8 && tag % 8 in {0, 1, 2, 5}
    requires tag / 128 < TWO31 && Follows(b, n, Gap(tag), HashField(1))
    ensures HashFrom(b, i, 3) == Done(None)
  {
    if tag % 8 == 2 {
      BlobTagIsMisread(b, i, n, tag / 128, HashField(1));
    } else {
      var j := if tag % 8 == 0 then n else if tag % 8 == 5 then i + 5 else i + 9;
      FollowsAt(b, n, Gap(tag), HashField(1), j - n);
      hide VarintAt, LengthAt, At, Follows, Blob, Reversed, HeightFrom, HashFrom;
      SevenStops(b, j, 2);
      assert HashStep(b, i) == Next(j);
      HashMoves(b, i, j, 2);
    }
  }

  lemma OverlongHashTagIsMisread(b: seq<Byte>, i: nat, n: nat)
    requires i < |b| && At(b, i) >= 128 && At(b, i) % 8 == 2 && VarintAt(b, i + 1) == Got(0, n)
    requires n + 2 < |b| && At(b, n) == 0x20 && VarintAt(b, n + 1) == Got(7, n + 2) && At(b, n + 2) == 7
    ensures HashFrom(b, i, 3) == Done(None)
  {
    hide VarintAt, LengthAt, At, Reversed, HashFrom;
    BlobSteps(b, i, n, 0);
    assert HashStep(b, n) == Next(n + 2);
    SevenStops(b, n + 2, 1);
    HashMoves(b, n, n + 2, 1);
    HashMoves(b, i, n, 2);
  }

  /** A hash whose own tag is written in more than one byte is not found. */
  lemma OverlongHashTagMisleads(p: seq<Byte>, i: nat) returns (rest: seq<Byte>)
    requires EndsWithLongTag(p, i) && VarintAt(p, i).value == 26
    ensures PlainHashBehind(p + rest, i, |p|) && !ReadsHashTruly(p + rest, i)
  {
    var n := |p|;
    rest := [0x20] + Sevens(32);
    var b := p + rest;
    assert i < n;
    LongTagExtended(p, i, rest);
    assert At(b, n) == 0x20 && At(b, n + 1) == 7 && At(b, n + 2) == 7;
    assert VarintAt(b, n) == Got(32, n + 1) && VarintAt(b, n + 1) == Got(7, n + 2);
    assert |b| == n + 33;
    hide VarintAt, LengthAt, At, Sevens, Reversed, HashFrom;
    assert TrueHashStep(b, i).Stop? && TrueHash(b, i).Some?;
    OverlongHashTagIsMisread(b, i, n);
    NullHashIsNotTrue(b, i, 3);
  }

  /** Whatever the tag of two to five bytes in front of a number, fixed or length-delimited field,
      some value and a hash behind it mislead the hash parser. */
  lemma LongTagMisleadsTheHash(p: seq<Byte>, i: nat) returns (rest: seq<Byte>)
    requires EndsWithLongTag(p, i) && |p| <= i + 5 && VarintAt(p, i).value % 8 in {0, 1, 2, 5}
    ensures PlainHashBehind(p + rest, i, |p|) && !ReadsHashTruly(p + rest, i)
  {
    var n, tag := |p|, VarintAt(p, i).value;
    FiveByteTag(p, i);
    assert i < n;
    if tag == 26 {
      rest := OverlongHashTagMisleads(p, i);
    } else {
      rest := Gap(tag) + HashField(1);
      var b := p + rest;
      assert Follows(b, n, Gap(tag), HashField(1));
      LongTagExtended(p, i, rest);
      hide *;
      TrueReaderFindsTheHash(b, i, n, tag);
      ParserMissesTheHash(b, i, n, tag);
      NullHashIsNotTrue(b, i, 3);
    }
  }

  lemma FiveByteTag(p: seq<Byte>, i: nat)
    requires VarintAt(p, i).Got? && VarintAt(p, i).next <= i + 5
    ensures VarintAt(p, i).value / 128 + 10 < TWO31
  {
    VarintBound(p, i, 5);
    GroupPowers();
    SevenMore(28);
  }

  lemma {:induction false} VarintBound(p: seq<Byte>, i: int, bytes: nat)
    requires VarintAt(p, i).Got? && VarintAt(p, i).next <= i + bytes
    ensures VarintAt(p, i).value < Pow2(7 * bytes)
    decreases bytes
  {
    if At(p, i) >= 128 {
      VarintBound(p, i + 1, bytes - 1);
    }
    hide Pow2;
    SevenMore(7 * (bytes - 1));
  }

  lemma OtherHashWiresAreTrue(b: seq<Byte>, i: nat)
    requires i < |b| && At(b, i) % 8 !in {0, 1, 2, 5}
    requires VarintAt(b, i).Got? && VarintAt(b, i).value % 8 == At(b, i) % 8
    ensures ReadsHashTruly(b, i)
  {
    hide VarintAt, LengthAt, At;
    assert HashFrom(b, i, 1) == Done(TrueHash(b, i));
  }

  lemma PlainHashBehindAShortTag(p: seq<Byte>, i: nat, rest: seq<Byte>)
    requires EndsWithTag(p, i) && At(p, i) < 128 && PlainHashBehind(p + rest, i, |p|)
    ensures ReadsHashTruly(p + rest, i)
  {
    var b := p + rest;
    TagExtended(p, i, rest);
    OneByteTag(b, i);
    hide VarintAt, At, EndsWithTag;
    assert PlainHashWalk(b, i);
    HashIsTrue(b, i, |b|);
  }

  /** So it is for the hash parser and tags of up to five bytes, as many as a legal tag takes. */
  lemma OneByteTagIsNeededForTheHash(p: seq<Byte>, i: nat)
    requires EndsWithTag(p, i) && |p| <= i + 5
    ensures At(p, i) < 128 || At(p, i) % 8 !in {0, 1, 2, 5} <==>
              forall rest :: PlainHashBehind(p + rest, i, |p|) ==> ReadsHashTruly(p + rest, i)
  {
    TagWire(p, i);
    if At(p, i) < 128 || At(p, i) % 8 !in {0, 1, 2, 5} {
      forall rest | PlainHashBehind(p + rest, i, |p|) ensures ReadsHashTruly(p + rest, i) {
        if At(p, i) < 128 {
          PlainHashBehindAShortTag(p, i, rest);
        } else {
          TagExtended(p, i, rest);
          OtherHashWiresAreTrue(p + rest, i);
        }
      }
    } else {
      var rest := LongTagMisleadsTheHash(p, i);
    }
  }
}

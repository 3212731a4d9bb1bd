/** The two parsers against a reader that takes every tag and every length as the number that is
    written, where the parsers take one byte for a tag and 32 bits for a length.

    They agree wherever the fields are plain, and a cut message then gives its height, or its hash,
    exactly when the cut is behind it. Which longer lengths are safe is settled here, which longer
    tags are in `LongTags`, and what the reader itself lets through in `StrictCodec`. */
module ReferenceCodec {
  import opened Wrappers
  import opened JsNumber
  import opened Varints
  import opened BlockCodec

  // ---- the height ----

  function TrueHeightStep(buf: seq<Byte>, i: nat): (step: Step<nat>)
    ensures step.Next? ==> step.at > i
  {
    match VarintAt(buf, i)
    case Truncated => Stop(None)
    case Got(tag, at) =>
      if tag == 8 then
        match VarintAt(buf, at)
        case Truncated => Stop(None)
        case Got(v, _) => Stop(Some(v))
      else if tag % 8 == 2 then
        match VarintAt(buf, at)
        case Truncated => Stop(None)
        case Got(len, next) => Next(next + len)
      else if tag % 8 == 0 then
        match VarintAt(buf, at)
        case Truncated => Stop(None)
        case Got(_, next) => Next(next)
      else Stop(None)
  }

  /** Field by field to the first varint field 1; null when the bytes run out before its end. */
  function TrueHeight(buf: seq<Byte>, i: nat): Option<nat>
    decreases |buf| - i
  {
    if i >= |buf| then None
    else
      match TrueHeightStep(buf, i)
      case Stop(result) => result
      case Next(j) => TrueHeight(buf, j)
  }

  /** The field at the cursor has a one-byte tag and, if it carries one, a length below 2^31. */
  predicate Plain(buf: seq<Byte>, i: nat) {
    && At(buf, i) < 128
    && ShortLength(buf, i)
  }

  predicate ShortLength(buf: seq<Byte>, i: nat) {
    At(buf, i) % 8 == 2 && VarintAt(buf, i + 1).Got? ==> VarintAt(buf, i + 1).value < TWO31
  }

  /** Every field the reference reader meets from the cursor on is plain. */
  predicate PlainWalk(buf: seq<Byte>, i: nat)
    decreases |buf| - i
  {
    i >= |buf| || (Plain(buf, i) && (TrueHeightStep(buf, i).Next? ==> PlainWalk(buf, TrueHeightStep(buf, i).at)))
  }

  lemma OneByteTag(buf: seq<Byte>, i: nat)
    requires i < |buf| && At(buf, i) < 128
    ensures VarintAt(buf, i) == Got(At(buf, i), i + 1)
  {
  }

  /** One turn of the parser is one step of the reference reader exactly when the length is short. */
  lemma HeightStepIsTrue(buf: seq<Byte>, i: nat)
    requires i < |buf| && At(buf, i) < 128
    ensures HeightStep(buf, i) == TrueHeightStep(buf, i) <==> ShortLength(buf, i)
  {
    hide VarintAt, LengthAt, At;
    OneByteTag(buf, i);
    if VarintAt(buf, i + 1).Got? {
      LengthExactBelow2To31(buf, i + 1);
      LengthEndsWithVarint(buf, i + 1, 0, 0);
    } else {
      LengthTruncated(buf, i + 1, 0, 0);
    }
  }

  /** On every buffer whose fields are plain as far as the reference reader goes, the parser
      ends, and with the reference reader's answer. */
  lemma {:induction false} HeightIsTrue(buf: seq<Byte>, i: nat, turns: nat)
    requires PlainWalk(buf, i) && turns >= |buf| - i
    ensures HeightFrom(buf, i, turns) == Done(TrueHeight(buf, i))
    decreases turns
  {
    hide HeightStep, TrueHeightStep, ShortLength, At;
    if i < |buf| {
      HeightStepIsTrue(buf, i);
      if TrueHeightStep(buf, i).Next? {
        HeightIsTrue(buf, TrueHeightStep(buf, i).at, turns - 1);
      }
    }
  }

  // ---- truncation ----

  /** A cut buffer has a varint exactly when that ends before the cut. */
  lemma {:induction false} VarintOfPrefix(buf: seq<Byte>, k: nat, i: nat)
    requires k <= |buf|
    ensures VarintAt(buf[..k], i)
         == if VarintAt(buf, i).Got? && VarintAt(buf, i).next <= k then VarintAt(buf, i) else Truncated
    decreases |buf| - i
  {
    if i < k && At(buf, i) >= 128 {
      VarintOfPrefix(buf, k, i + 1);
    }
  }

  /** Where the first height field ends. */
  function HeightEnd(buf: seq<Byte>, i: nat): (end: Option<nat>)
    ensures end.Some? ==> i < end.value <= |buf|
    decreases |buf| - i
  {
    if i >= |buf| then None
    else
      match TrueHeightStep(buf, i)
      case Stop(None) => None
      case Stop(Some(_)) => Some(VarintAt(buf, VarintAt(buf, i).next).next)
      case Next(j) => HeightEnd(buf, j)
  }

  lemma TrueHeightStepOfPrefix(buf: seq<Byte>, k: nat, i: nat)
    requires i < k <= |buf|
    ensures var step := TrueHeightStep(buf, i);
            TrueHeightStep(buf[..k], i)
            == match step
               case Stop(None) => step
               case Stop(Some(_)) => if VarintAt(buf, VarintAt(buf, i).next).next <= k then step else Stop(None)
               case Next(j) => if TrueHeightStep(buf[..k], i).Next? then step else Stop(None)
    ensures TrueHeightStep(buf, i).Next? && TrueHeightStep(buf[..k], i).Stop? ==> TrueHeightStep(buf, i).at > k
    ensures Plain(buf, i) ==> Plain(buf[..k], i)
  {
    assert At(buf[..k], i) == At(buf, i);
    VarintOfPrefix(buf, k, i);
    VarintOfPrefix(buf, k, i + 1);
    if VarintAt(buf, i).Got? {
      VarintOfPrefix(buf, k, VarintAt(buf, i).next);
    }
    hide VarintAt, At;
  }

  /** A cut message gives the height of the whole exactly when the cut is behind its height. */
  lemma {:induction false} TrueHeightOfPrefix(buf: seq<Byte>, k: nat, i: nat)
    requires k <= |buf|
    ensures TrueHeight(buf[..k], i)
         == if HeightEnd(buf, i).Some? && HeightEnd(buf, i).value <= k then TrueHeight(buf, i) else None
    ensures PlainWalk(buf, i) ==> PlainWalk(buf[..k], i)
    decreases |buf| - i
  {
    hide TrueHeightStep, Plain, VarintAt;
    if i < k {
      TrueHeightStepOfPrefix(buf, k, i);
      if TrueHeightStep(buf, i).Next? {
        TrueHeightOfPrefix(buf, k, TrueHeightStep(buf, i).at);
      }
    }
  }

  /** Never a fabricated number: a message of plain fields that is cut anywhere gives its height if
      the height field is whole, and null if it is not. */
  lemma TruncationNeverFabricates(buf: seq<Byte>, k: nat, turns: nat)
    requires PlainWalk(buf, 0) && k <= |buf| <= turns
    ensures HeightFrom(buf[..k], 0, turns)
         == Done(if HeightEnd(buf, 0).Some? && HeightEnd(buf, 0).value <= k then TrueHeight(buf, 0) else None)
    ensures HeightEnd(buf, 0).Some? <==> TrueHeight(buf, 0).Some?
  {
    hide TrueHeight, PlainWalk, HeightFrom, HeightEnd;
    TrueHeightOfPrefix(buf, k, 0);
    HeightIsTrue(buf[..k], 0, turns);
    HeightHasAnEnd(buf, 0);
  }

  lemma {:induction false} HeightHasAnEnd(buf: seq<Byte>, i: nat)
    ensures HeightEnd(buf, i).Some? <==> TrueHeight(buf, i).Some?
    decreases |buf| - i
  {
    if i < |buf| && TrueHeightStep(buf, i).Next? {
      HeightHasAnEnd(buf, TrueHeightStep(buf, i).at);
    }
  }

  // ---- the hash ----

  function TrueHashStep(buf: seq<Byte>, i: nat): (step: Step<seq<Byte>>)
    ensures step.Next? ==> step.at > i
  {
    match VarintAt(buf, i)
    case Truncated => Stop(None)
    case Got(tag, at) =>
      if tag % 8 == 2 then
        match VarintAt(buf, at)
        case Truncated => Stop(None)
        case Got(len, next) =>
          if next + len > |buf| then Stop(None)
          else if tag != 26 then Next(next + len)
          else if len == 32 then Stop(Some(Reversed(buf[next..next + 32])))
          else Stop(None)
      else if tag % 8 == 0 then
        match VarintAt(buf, at)
        case Truncated => Stop(None)
        case Got(_, next) => Next(next)
      else if tag % 8 == 5 then Next(at + 4)
      else if tag % 8 == 1 then Next(at + 8)
      else Stop(None)
  }

  /** Field by field to the first length-delimited field 3, reversed when it is 32 bytes long. */
  function TrueHash(buf: seq<Byte>, i: nat): Option<seq<Byte>>
    decreases |buf| - i
  {
    if i >= |buf| then None
    else
      match TrueHashStep(buf, i)
      case Stop(result) => result
      case Next(j) => TrueHash(buf, j)
  }

  predicate PlainHashWalk(buf: seq<Byte>, i: nat)
    decreases |buf| - i
  {
    i >= |buf| || (Plain(buf, i) && (TrueHashStep(buf, i).Next? ==> PlainHashWalk(buf, TrueHashStep(buf, i).at)))
  }

  lemma HashStepIsTrue(buf: seq<Byte>, i: nat)
    requires i < |buf| && Plain(buf, i)
    ensures HashStep(buf, i) == TrueHashStep(buf, i)
  {
    hide VarintAt, LengthAt, At, Reversed;
    OneByteTag(buf, i);
    ReadInside(buf, i);
    if VarintAt(buf, i + 1).Got? {
      LengthExactBelow2To31(buf, i + 1);
    } else {
      LengthTruncated(buf, i + 1, 0, 0);
    }
  }

  /** The hash parser too ends with the reference reader's answer wherever the fields are plain. */
  lemma {:induction false} HashIsTrue(buf: seq<Byte>, i: nat, turns: nat)
    requires PlainHashWalk(buf, i) && turns >= |buf| - i
    ensures HashFrom(buf, i, turns) == Done(TrueHash(buf, i))
    decreases turns
  {
    hide HashStep, TrueHashStep, ShortLength, At;
    if i < |buf| {
      HashStepIsTrue(buf, i);
      if TrueHashStep(buf, i).Next? {
        HashIsTrue(buf, TrueHashStep(buf, i).at, turns - 1);
      }
    }
  }

  /** Where the first field 3 ends, when it is a hash. */
  function HashEnd(buf: seq<Byte>, i: nat): (end: Option<nat>)
    ensures end.Some? ==> i < end.value <= |buf|
    decreases |buf| - i
  {
    if i >= |buf| then None
    else
      match TrueHashStep(buf, i)
      case Stop(None) => None
      case Stop(Some(_)) => Some(VarintAt(buf, VarintAt(buf, i).next).next + 32)
      case Next(j) => HashEnd(buf, j)
  }

  lemma TrueHashStepOfPrefix(buf: seq<Byte>, k: nat, i: nat)
    requires i < k <= |buf|
    ensures var step, cut := TrueHashStep(buf, i), TrueHashStep(buf[..k], i);
            && (step == Stop(None) ==> cut == Stop(None))
            && (step.Stop? && step.result.Some? ==>
                  cut == if VarintAt(buf, VarintAt(buf, i).next).next + 32 <= k then step else Stop(None))
            && (step.Next? ==> cut == step || (cut == Stop(None) && step.at > k))
  {
    VarintOfPrefix(buf, k, i);
    if VarintAt(buf, i).Got? {
      VarintOfPrefix(buf, k, VarintAt(buf, i).next);
      var length := VarintAt(buf, VarintAt(buf, i).next);
      if length.Got? && length.next + 32 <= k {
        assert buf[..k][length.next..length.next + 32] == buf[length.next..length.next + 32];
      }
    }
    hide VarintAt, Reversed;
  }

  lemma PlainOfPrefix(buf: seq<Byte>, k: nat, i: nat)
    requires i < k <= |buf| && Plain(buf, i)
    ensures Plain(buf[..k], i)
  {
    TrueHeightStepOfPrefix(buf, k, i);
  }

  lemma {:induction false} TrueHashOfPrefix(buf: seq<Byte>, k: nat, i: nat)
    requires k <= |buf|
    ensures TrueHash(buf[..k], i)
         == if HashEnd(buf, i).Some? && HashEnd(buf, i).value <= k then TrueHash(buf, i) else None
    ensures PlainHashWalk(buf, i) ==> PlainHashWalk(buf[..k], i)
    decreases |buf| - i
  {
    hide TrueHashStep, Plain, VarintAt;
    if i < k {
      TrueHashStepOfPrefix(buf, k, i);
      if Plain(buf, i) {
        PlainOfPrefix(buf, k, i);
      }
      if TrueHashStep(buf, i).Next? {
        TrueHashOfPrefix(buf, k, TrueHashStep(buf, i).at);
      }
    }
  }

  /** Nor a fabricated hash: it is read exactly when the cut is behind it. */
  lemma TruncationNeverFabricatesAHash(buf: seq<Byte>, k: nat, turns: nat)
    requires PlainHashWalk(buf, 0) && k <= |buf| <= turns
    ensures HashFrom(buf[..k], 0, turns)
         == Done(if HashEnd(buf, 0).Some? && HashEnd(buf, 0).value <= k then TrueHash(buf, 0) else None)
    ensures HashEnd(buf, 0).Some? <==> TrueHash(buf, 0).Some?
  {
    hide TrueHash, PlainHashWalk, HashFrom, HashEnd;
    TrueHashOfPrefix(buf, k, 0);
    HashIsTrue(buf[..k], 0, turns);
    HashHasAnEnd(buf, 0);
  }

  lemma {:induction false} HashHasAnEnd(buf: seq<Byte>, i: nat)
    ensures HashEnd(buf, i).Some? <==> TrueHash(buf, i).Some?
    decreases |buf| - i
  {
    if i < |buf| && TrueHashStep(buf, i).Next? {
      HashHasAnEnd(buf, TrueHashStep(buf, i).at);
    }
  }

  // ---- what goes wrong otherwise ----

  const LONG_LENGTH: seq<Byte> := [0x12, 0x80, 0x80, 0x80, 0x80, 0x10, 0x08, 0x05]

  lemma LongLengthReads()
    ensures VarintAt(LONG_LENGTH, 0) == Got(0x12, 1) && VarintAt(LONG_LENGTH, 1) == Got(TWO32, 6)
    ensures At(LONG_LENGTH, 0) == 0x12 && At(LONG_LENGTH, 6) == 0x08 && VarintAt(LONG_LENGTH, 7) == Got(5, 8)
  {
    assert VarintAt(LONG_LENGTH, 5) == Got(0x10, 6);
    assert VarintAt(LONG_LENGTH, 4) == Got(0x800, 6);
    assert VarintAt(LONG_LENGTH, 3) == Got(0x4_0000, 6);
    assert VarintAt(LONG_LENGTH, 2) == Got(0x200_0000, 6);
  }

  /** A length of 2^32 reads as 0, so a message cut short by four gigabytes gives a height. */
  lemma LongLengthFabricates()
    ensures TrueHeight(LONG_LENGTH, 0) == None && HeightFrom(LONG_LENGTH, 0, 2) == Done(Some(5))
  {
    hide VarintAt, LengthAt, At, ToInt32;
    LongLengthReads();
    LengthIsSigned32(LONG_LENGTH, 1);
    assert LengthAt(LONG_LENGTH, 1, 0, 0) == Got(0, 6) by { WrapsToZero(); }
    assert |LONG_LENGTH| == 8;
    assert HeightStep(LONG_LENGTH, 0) == Next(6);
    assert HeightStep(LONG_LENGTH, 6) == Stop(Some(5));
  }

  lemma WrapsToZero()
    ensures ToInt32(TWO32) == 0
  {
  }

  // ---- and the limit on lengths is exact ----

  predicate SameUpTo(b: seq<Byte>, c: seq<Byte>, n: nat) {
    n <= |b| && n <= |c| && b[..n] == c[..n]
  }

  lemma AtLocal(b: seq<Byte>, c: seq<Byte>, n: nat, j: int)
    requires SameUpTo(b, c, n) && j < n
    ensures At(b, j) == At(c, j)
  {
    if j >= 0 {
      assert b[..n][j] == c[..n][j];
    }
  }

  lemma {:induction false} ReadsLocal(b: seq<Byte>, c: seq<Byte>, n: nat, j: int, len: int, s: nat)
    requires SameUpTo(b, c, n) && VarintAt(b, j).Got? && VarintAt(b, j).next <= n
    ensures VarintAt(c, j) == VarintAt(b, j) && LengthAt(c, j, len, s) == LengthAt(b, j, len, s)
    decreases |b| - j
  {
    assert n <= |b| && n <= |c|;
    hide SameUpTo, OrIn, At;
    AtLocal(b, c, n, j);
    if At(b, j) >= 128 {
      ReadsLocal(b, c, n, j + 1, OrIn(len, At(b, j), s), s + 7);
    }
  }

  lemma {:induction false} VarintEndsBy(b: seq<Byte>, j: int, e: nat)
    requires j <= e < |b| && b[e] < 128
    ensures VarintAt(b, j).Got? && VarintAt(b, j).next <= e + 1
    decreases e - j
  {
    if j < e && At(b, j) >= 128 {
      VarintEndsBy(b, j + 1, e);
    }
  }

  /** From `m`, just behind the end of a varint, up to `n` there are only bytes no field may start
      with, and more of them than any 32-bit length can step over. */
  predicate Walled(b: seq<Byte>, m: nat, n: nat) {
    && 0 < m && m + TWO31 <= n <= |b|
    && b[m - 1] < 128
    && forall k :: m <= k < n ==> b[k] == 7
  }

  lemma WallStops(b: seq<Byte>, m: nat, n: nat, j: int)
    requires Walled(b, m, n) && m <= j < n
    ensures HeightStep(b, j) == Stop(None)
  {
    assert b[j] == 7;
  }

  lemma ReadsBeforeTheWall(b: seq<Byte>, m: nat, n: nat, j: int)
    requires Walled(b, m, n) && j <= m
    ensures VarintAt(b, j).Got? && VarintAt(b, j).next <= m + 1
    ensures var r := LengthAt(b, j, 0, 0); r.Got? && r.next == VarintAt(b, j).next && r.next + r.value < n
  {
    assert b[m] == 7;
    VarintEndsBy(b, j, m);
    LengthEndsWithVarint(b, j, 0, 0);
    if j < m {
      VarintEndsBy(b, j, m - 1);
    } else {
      assert VarintAt(b, m) == Got(7, m + 1);
      LengthExactBelow2To31(b, m);
    }
  }

  /** The parser cannot tell two such buffers apart, nor get behind the wall. */
  lemma StepBeforeTheWall(b: seq<Byte>, c: seq<Byte>, m: nat, n: nat, j: int)
    requires Walled(b, m, n) && Walled(c, m, n) && SameUpTo(b, c, n) && j < n
    ensures HeightStep(c, j) == HeightStep(b, j) && (HeightStep(b, j).Next? ==> HeightStep(b, j).at < n)
  {
    hide Walled, VarintAt, LengthAt, At, SameUpTo;
    WallIsInside(b, m, n);
    if j >= m {
      hide HeightStep;
      WallStops(b, m, n, j);
      WallStops(c, m, n, j);
    } else {
      ReadsBeforeTheWall(b, m, n, j + 1);
      AtLocal(b, c, n, j);
      ReadsLocal(b, c, n, j + 1, 0, 0);
    }
  }

  lemma WallIsInside(b: seq<Byte>, m: nat, n: nat)
    requires Walled(b, m, n)
    ensures 0 < m && m + TWO31 <= n <= |b|
  {
  }

  lemma {:induction false} LoopBeforeTheWall(b: seq<Byte>, c: seq<Byte>, m: nat, n: nat, j: int, turns: nat)
    requires Walled(b, m, n) && Walled(c, m, n) && SameUpTo(b, c, n) && j < n
    ensures HeightFrom(c, j, turns) == HeightFrom(b, j, turns)
    decreases turns
  {
    hide *;
    WallIsInside(b, m, n);
    WallIsInside(c, m, n);
    HeightTurn(b, j, turns);
    HeightTurn(c, j, turns);
    if turns > 0 {
      StepBeforeTheWall(b, c, m, n, j);
      if HeightStep(b, j).Next? {
        LoopBeforeTheWall(b, c, m, n, HeightStep(b, j).at, turns - 1);
      }
    }
  }

  lemma {:induction false} MoreTurns(b: seq<Byte>, j: int, turns: nat, more: nat)
    requires HeightFrom(b, j, turns).Done? && turns <= more
    ensures HeightFrom(b, j, more) == HeightFrom(b, j, turns)
    decreases turns
  {
    hide HeightStep;
    if j < |b| && HeightStep(b, j).Next? {
      MoreTurns(b, HeightStep(b, j).at, turns - 1, more - 1);
    }
  }

  /** The parser comes to the reference reader's answer from the cursor on. */
  ghost predicate ReadsTruly(b: seq<Byte>, i: nat) {
    exists turns: nat :: HeightFrom(b, i, turns) == Done(TrueHeight(b, i))
  }

  /** A field with a one-byte tag whose length is the last thing in the buffer. */
  predicate EndsWithLength(p: seq<Byte>, i: nat) {
    && i < |p| && At(p, i) < 128 && At(p, i) % 8 == 2
    && VarintAt(p, i + 1).Got? && VarintAt(p, i + 1).next == |p|
  }

  lemma LengthOfExtension(p: seq<Byte>, i: nat, rest: seq<Byte>)
    requires EndsWithLength(p, i)
    ensures var b, len := p + rest, VarintAt(p, i + 1).value;
            && At(b, i) == At(p, i) && VarintAt(b, i + 1) == Got(len, |p|)
            && TrueHeightStep(b, i) == Next(|p| + len)
  {
    var b := p + rest;
    assert SameUpTo(p, b, |p|);
    hide SameUpTo, VarintAt, LengthAt, At;
    AtLocal(p, b, |p|, i);
    ReadsLocal(p, b, |p|, i + 1, 0, 0);
    OneByteTag(b, i);
  }

  lemma {:induction false} VarintLastByte(b: seq<Byte>, j: nat)
    requires VarintAt(b, j).Got?
    ensures j < VarintAt(b, j).next <= |b| && b[VarintAt(b, j).next - 1] < 128
    decreases |b| - j
  {
    if At(b, j) >= 128 {
      VarintLastByte(b, j + 1);
    }
  }

  /** A wall as long as the length says, and a height behind it. */
  function Behind(len: nat, height: nat): seq<Byte> {
    seq(len, _ => 7) + BlockID(height)
  }

  lemma BehindTheWall(p: seq<Byte>, i: nat, height: nat)
    requires EndsWithLength(p, i) && VarintAt(p, i + 1).value >= TWO31
    ensures var len := VarintAt(p, i + 1).value;
            var b := p + Behind(len, height);
            && Walled(b, |p|, |p| + len)
            && PlainWalk(b, |p| + len)
            && TrueHeight(b, i) == Some(height)
  {
    var len := VarintAt(p, i + 1).value;
    var b := p + Behind(len, height);
    var n := |p| + len;
    VarintLastByte(p, i + 1);
    assert b[|p| - 1] == p[|p| - 1];
    LengthOfExtension(p, i, Behind(len, height));
    assert b[n..] == BlockID(height);
    assert Sits(b, n, BlockID(height));
    HeightBehindTheWall(b, n, height);
    hide TrueHeightStep, PlainWalk, Walled, VarintAt, At;
    assert i < |b|;
  }

  lemma HeightBehindTheWall(b: seq<Byte>, n: nat, height: nat)
    requires Sits(b, n, BlockID(height))
    ensures n < |b| && TrueHeightStep(b, n) == Stop(Some(height)) && TrueHeight(b, n) == Some(height) && PlainWalk(b, n)
  {
    assert At(b, n) == b[n..n + |BlockID(height)|][0] == 0x08;
    OneByteTag(b, n);
    VarintRoundTrip(height);
    SitsSplit(b, n, [0x08], Varint(height));
    VarintSits(b, n + 1, Varint(height));
    hide VarintAt, At, Sits, Varint;
  }

  lemma WallsLookAlike(p: seq<Byte>, len: nat, x: nat, y: nat)
    ensures SameUpTo(p + Behind(len, x), p + Behind(len, y), |p| + len)
  {
    var b, c := p + Behind(len, x), p + Behind(len, y);
    assert b[..|p| + len] == p + seq(len, _ => 7) == c[..|p| + len];
  }

  lemma OneIsMisread(b: seq<Byte>, c: seq<Byte>, m: nat, n: nat, i: nat)
    requires Walled(b, m, n) && Walled(c, m, n) && SameUpTo(b, c, n) && i < n
    requires TrueHeight(b, i) != TrueHeight(c, i)
    ensures !ReadsTruly(b, i) || !ReadsTruly(c, i)
  {
    hide Walled, SameUpTo, TrueHeight, HeightFrom;
    if ReadsTruly(b, i) && ReadsTruly(c, i) {
      var t: nat :| HeightFrom(b, i, t) == Done(TrueHeight(b, i));
      var u: nat :| HeightFrom(c, i, u) == Done(TrueHeight(c, i));
      var more := if t > u then t else u;
      MoreTurns(b, i, t, more);
      MoreTurns(c, i, u, more);
      LoopBeforeTheWall(b, c, m, n, i, more);
    }
  }

  /** Whatever the long length, there is something to put behind it on which the parser fails,
      in any number of turns, although every later field is plain. */
  lemma LongLengthMisleads(p: seq<Byte>, i: nat) returns (rest: seq<Byte>)
    requires EndsWithLength(p, i) && VarintAt(p, i + 1).value >= TWO31
    ensures PlainWalk(p + rest, |p| + VarintAt(p, i + 1).value) && !ReadsTruly(p + rest, i)
  {
    var len := VarintAt(p, i + 1).value;
    assert i < |p|;
    BehindTheWall(p, i, 5);
    BehindTheWall(p, i, 6);
    hide *;
    WallsLookAlike(p, len, 5, 6);
    OneIsMisread(p + Behind(len, 5), p + Behind(len, 6), |p|, |p| + len, i);
    rest := if ReadsTruly(p + Behind(len, 5), i) then Behind(len, 6) else Behind(len, 5);
  }

  /** The limit is exact: a length lets the parser read truly whatever plain fields follow it
      exactly when it is below 2^31. */
  lemma ShortLengthIsNeeded(p: seq<Byte>, i: nat)
    requires EndsWithLength(p, i)
    ensures VarintAt(p, i + 1).value < TWO31 <==>
              forall rest :: PlainWalk(p + rest, |p| + VarintAt(p, i + 1).value) ==> ReadsTruly(p + rest, i)
  {
    var len := VarintAt(p, i + 1).value;
    if len < TWO31 {
      forall rest | PlainWalk(p + rest, |p| + len) ensures ReadsTruly(p + rest, i) {
        LengthOfExtension(p, i, rest);
        HeightIsTrue(p + rest, i, |p + rest|);
      }
    } else {
      var rest := LongLengthMisleads(p, i);
    }
  }

  // ---- the same for hashes ----

  lemma WallStopsTheHash(b: seq<Byte>, m: nat, n: nat, j: int)
    requires Walled(b, m, n) && m <= j < n
    ensures HashStep(b, j) == Stop(None)
  {
    assert At(b, j) == 7;
    hide VarintAt, LengthAt, At, Reversed;
  }

  lemma HashStepBeforeTheWall(b: seq<Byte>, c: seq<Byte>, m: nat, n: nat, j: int)
    requires Walled(b, m, n) && Walled(c, m, n) && SameUpTo(b, c, n) && |b| == |c| && j < n
    ensures HashStep(c, j) == HashStep(b, j) && (HashStep(b, j).Next? ==> HashStep(b, j).at < n)
  {
    hide Walled, VarintAt, LengthAt, At, SameUpTo, Reversed;
    WallIsInside(b, m, n);
    if j >= m {
      hide HashStep;
      WallStopsTheHash(b, m, n, j);
      WallStopsTheHash(c, m, n, j);
    } else {
      ReadsBeforeTheWall(b, m, n, j + 1);
      AtLocal(b, c, n, j);
      ReadsLocal(b, c, n, j + 1, 0, 0);
      ReadInside(b, j);
      var next := LengthAt(b, j + 1, 0, 0).next;
      if next >= 0 {
        SameSlice(b, c, n, next);
      }
    }
  }

  lemma SameSlice(b: seq<Byte>, c: seq<Byte>, n: nat, i: nat)
    requires SameUpTo(b, c, n) && i + 32 <= n
    ensures b[i..i + 32] == c[i..i + 32]
  {
    assert b[i..i + 32] == b[..n][i..i + 32] && c[i..i + 32] == c[..n][i..i + 32];
  }

  lemma {:induction false} HashLoopBeforeTheWall(b: seq<Byte>, c: seq<Byte>, m: nat, n: nat, j: int, turns: nat)
    requires Walled(b, m, n) && Walled(c, m, n) && SameUpTo(b, c, n) && |b| == |c| && j < n
    ensures HashFrom(c, j, turns) == HashFrom(b, j, turns)
    decreases turns
  {
    hide *;
    WallIsInside(b, m, n);
    HashTurn(b, j, turns);
    HashTurn(c, j, turns);
    if turns > 0 {
      HashStepBeforeTheWall(b, c, m, n, j);
      if HashStep(b, j).Next? {
        HashLoopBeforeTheWall(b, c, m, n, HashStep(b, j).at, turns - 1);
      }
    }
  }

  lemma {:induction false} MoreHashTurns(b: seq<Byte>, j: int, turns: nat, more: nat)
    requires HashFrom(b, j, turns).Done? && turns <= more
    ensures HashFrom(b, j, more) == HashFrom(b, j, turns)
    decreases turns
  {
    hide HashStep;
    if j < |b| && HashStep(b, j).Next? {
      MoreHashTurns(b, HashStep(b, j).at, turns - 1, more - 1);
    }
  }

  ghost predicate ReadsHashTruly(b: seq<Byte>, i: nat) {
    exists turns: nat :: HashFrom(b, i, turns) == Done(TrueHash(b, i))
  }

  /** A wall as long as the length says, and a hash behind it. */
  function HashBehindWall(len: nat, x: Byte): seq<Byte> {
    seq(len, _ => 7) + HashField(x)
  }

  function HashField(x: Byte): seq<Byte> {
    [0x1A, 0x20] + seq(32, _ => x)
  }

  lemma HashFieldReads(b: seq<Byte>, n: nat, x: Byte)
    requires n + 34 == |b| && b[n..] == HashField(x)
    ensures TrueHashStep(b, n) == Stop(Some(Reversed(seq(32, _ => x)))) && PlainHashWalk(b, n)
  {
    assert b[n] == b[n..][0] && b[n + 1] == b[n..][1];
    assert b[n + 2..n + 34] == b[n..][2..] == seq(32, _ => x);
    OneByteTag(b, n);
    assert VarintAt(b, n + 1) == Got(32, n + 2);
    hide VarintAt, Reversed;
  }

  lemma LengthOfHashExtension(p: seq<Byte>, i: nat, rest: seq<Byte>)
    requires EndsWithLength(p, i) && At(p, i) != 26 && |rest| >= VarintAt(p, i + 1).value
    ensures TrueHashStep(p + rest, i) == Next(|p| + VarintAt(p, i + 1).value)
  {
    LengthOfExtension(p, i, rest);
    OneByteTag(p + rest, i);
    hide VarintAt, At;
  }

  lemma HashWallStands(p: seq<Byte>, i: nat, x: Byte)
    requires EndsWithLength(p, i) && VarintAt(p, i + 1).value >= TWO31
    ensures var len := VarintAt(p, i + 1).value;
            var b, n := p + HashBehindWall(len, x), |p| + len;
            Walled(b, |p|, n) && n + 34 == |b| && b[n..] == HashField(x)
  {
    VarintLastByte(p, i + 1);
    hide VarintAt, At;
    var len := VarintAt(p, i + 1).value;
    var b := p + HashBehindWall(len, x);
    assert b[|p| - 1] == p[|p| - 1];
    assert b[|p| + len..] == HashField(x);
  }

  lemma BehindTheHashWall(p: seq<Byte>, i: nat, x: Byte)
    requires EndsWithLength(p, i) && At(p, i) != 26 && VarintAt(p, i + 1).value >= TWO31
    ensures var len := VarintAt(p, i + 1).value;
            var b := p + HashBehindWall(len, x);
            && Walled(b, |p|, |p| + len)
            && PlainHashWalk(b, |p| + len)
            && TrueHash(b, i) == Some(Reversed(seq(32, _ => x)))
  {
    assert i < |p|;
    hide TrueHashStep, PlainHashWalk, Walled, VarintAt, At, Reversed, EndsWithLength;
    var len := VarintAt(p, i + 1).value;
    var b := p + HashBehindWall(len, x);
    LengthOfHashExtension(p, i, HashBehindWall(len, x));
    HashWallStands(p, i, x);
    HashFieldReads(b, |p| + len, x);
    hide HashBehindWall, HashField;
    TrueHashGoesOn(b, i);
    TrueHashGoesOn(b, |p| + len);
  }

  lemma TrueHashGoesOn(b: seq<Byte>, i: nat)
    requires i < |b|
    ensures TrueHash(b, i) == match TrueHashStep(b, i) case Stop(result) => result case Next(j) => TrueHash(b, j)
  {
  }

  lemma OneHashIsMisread(b: seq<Byte>, c: seq<Byte>, m: nat, n: nat, i: nat)
    requires Walled(b, m, n) && Walled(c, m, n) && SameUpTo(b, c, n) && |b| == |c| && i < n
    requires TrueHash(b, i) != TrueHash(c, i)
    ensures !ReadsHashTruly(b, i) || !ReadsHashTruly(c, i)
  {
    hide Walled, SameUpTo, TrueHash, HashFrom;
    if ReadsHashTruly(b, i) && ReadsHashTruly(c, i) {
      var t: nat :| HashFrom(b, i, t) == Done(TrueHash(b, i));
      var u: nat :| HashFrom(c, i, u) == Done(TrueHash(c, i));
      var more := if t > u then t else u;
      MoreHashTurns(b, i, t, more);
      MoreHashTurns(c, i, u, more);
      HashLoopBeforeTheWall(b, c, m, n, i, more);
    }
  }

  lemma HashWallsLookAlike(p: seq<Byte>, len: nat)
    ensures SameUpTo(p + HashBehindWall(len, 1), p + HashBehindWall(len, 2), |p| + len)
    ensures Reversed(seq(32, _ => 1)) != Reversed(seq(32, _ => 2))
  {
    var b, c := p + HashBehindWall(len, 1), p + HashBehindWall(len, 2);
    assert b[..|p| + len] == p + seq(len, _ => 7) == c[..|p| + len];
    assert Reversed(seq(32, _ => 1))[0] == 1 && Reversed(seq(32, _ => 2))[0] == 2;
  }

  lemma LongLengthMisleadsTheHash(p: seq<Byte>, i: nat) returns (rest: seq<Byte>)
    requires EndsWithLength(p, i) && At(p, i) != 26 && VarintAt(p, i + 1).value >= TWO31
    ensures PlainHashWalk(p + rest, |p| + VarintAt(p, i + 1).value) && !ReadsHashTruly(p + rest, i)
  {
    var len := VarintAt(p, i + 1).value;
    assert i < |p|;
    BehindTheHashWall(p, i, 1);
    BehindTheHashWall(p, i, 2);
    assert |p + HashBehindWall(len, 1)| == |p + HashBehindWall(len, 2)|;
    hide *;
    HashWallsLookAlike(p, len);
    OneHashIsMisread(p + HashBehindWall(len, 1), p + HashBehindWall(len, 2), |p|, |p| + len, i);
    rest := if ReadsHashTruly(p + HashBehindWall(len, 1), i) then HashBehindWall(len, 2) else HashBehindWall(len, 1);
  }

  /** Nor is a longer length safe in front of a hash, whatever field that is not the hash has it. */
  lemma ShortLengthIsNeededForTheHash(p: seq<Byte>, i: nat)
    requires EndsWithLength(p, i) && At(p, i) != 26
    ensures VarintAt(p, i + 1).value < TWO31 <==>
              forall rest :: PlainHashWalk(p + rest, |p| + VarintAt(p, i + 1).value) ==> ReadsHashTruly(p + rest, i)
  {
    var len := VarintAt(p, i + 1).value;
    if len < TWO31 {
      forall rest | PlainHashWalk(p + rest, |p| + len) ensures ReadsHashTruly(p + rest, i) {
        LengthOfExtension(p, i, rest);
        OneByteTag(p + rest, i);
        assert TrueHashStep(p + rest, i).Next? ==> TrueHashStep(p + rest, i).at == |p| + len;
        hide TrueHashStep, HashFrom, TrueHash;
        HashIsTrue(p + rest, i, |p + rest|);
      }
    } else {
      var rest := LongLengthMisleadsTheHash(p, i);
    }
  }

  lemma HashLengthReads(p: seq<Byte>, i: nat, rest: seq<Byte>)
    requires EndsWithLength(p, i) && At(p, i) == 26
    ensures var b := p + rest;
            && At(b, i) == 26 && VarintAt(b, i) == Got(26, i + 1)
            && VarintAt(b, i + 1) == VarintAt(p, i + 1) && LengthAt(b, i + 1, 0, 0) == LengthAt(p, i + 1, 0, 0)
            && LengthAt(p, i + 1, 0, 0).Got? && LengthAt(p, i + 1, 0, 0).next == |p|
  {
    assert SameUpTo(p, p + rest, |p|);
    hide SameUpTo;
    AtLocal(p, p + rest, |p|, i);
    ReadsLocal(p, p + rest, |p|, i + 1, 0, 0);
    LengthEndsWithVarint(p, i + 1, 0, 0);
  }

  lemma FieldThreeStops(b: seq<Byte>, i: nat, n: int, len: int, read: int)
    requires i < |b| && At(b, i) == 26 && VarintAt(b, i) == Got(26, i + 1)
    requires VarintAt(b, i + 1) == Got(len, n) && LengthAt(b, i + 1, 0, 0) == Got(read, n)
    ensures HashStep(b, i).Stop?
    ensures read == len || (len != 32 && read != 32) ==> HashStep(b, i) == TrueHashStep(b, i)
  {
    hide VarintAt, LengthAt, At, Reversed;
  }

  lemma SameStopIsTrue(b: seq<Byte>, i: nat)
    requires i < |b| && HashStep(b, i).Stop? && HashStep(b, i) == TrueHashStep(b, i)
    ensures ReadsHashTruly(b, i)
  {
    hide HashStep, TrueHashStep;
    assert HashFrom(b, i, 1) == Done(TrueHash(b, i));
  }

  lemma HashLengthIsHarmless(p: seq<Byte>, i: nat, rest: seq<Byte>)
    requires EndsWithLength(p, i) && At(p, i) == 26
    requires VarintAt(p, i + 1).value < TWO31 || LengthAt(p, i + 1, 0, 0) != Got(32, |p|)
    ensures ReadsHashTruly(p + rest, i)
  {
    assert i < |p| && VarintAt(p, i + 1).Got? && VarintAt(p, i + 1).next == |p|;
    HashLengthReads(p, i, rest);
    LengthExactBelow2To31(p, i + 1);
    hide *;
    FieldThreeStops(p + rest, i, |p|, VarintAt(p, i + 1).value, LengthAt(p, i + 1, 0, 0).value);
    SameStopIsTrue(p + rest, i);
  }

  lemma LongHashLengthMisleads(p: seq<Byte>, i: nat) returns (rest: seq<Byte>)
    requires EndsWithLength(p, i) && At(p, i) == 26
    requires VarintAt(p, i + 1).value >= TWO31 && LengthAt(p, i + 1, 0, 0) == Got(32, |p|)
    ensures !ReadsHashTruly(p + rest, i)
  {
    rest := seq(32, _ => 0);
    var b := p + rest;
    assert i < |p|;
    HashLengthReads(p, i, rest);
    hide VarintAt, LengthAt, EndsWithLength, At, Reversed, HashFrom;
    assert TrueHashStep(b, i) == Stop(None);
    assert HashStep(b, i).Stop? && HashStep(b, i) != Stop(None);
    hide HashStep, TrueHashStep;
    forall turns: nat ensures HashFrom(b, i, turns) != Done(TrueHash(b, i)) {
      HashTurn(b, i, turns);
    }
  }

  /** In front of the hash itself a longer length is safe exactly when it does not read as 32. */
  lemma HashLengthMayBeLong(p: seq<Byte>, i: nat)
    requires EndsWithLength(p, i) && At(p, i) == 26
    ensures VarintAt(p, i + 1).value < TWO31 || LengthAt(p, i + 1, 0, 0) != Got(32, |p|) <==>
              forall rest :: ReadsHashTruly(p + rest, i)
  {
    hide VarintAt, LengthAt, At, ReadsHashTruly;
    if VarintAt(p, i + 1).value < TWO31 || LengthAt(p, i + 1, 0, 0) != Got(32, |p|) {
      forall rest ensures ReadsHashTruly(p + rest, i) {
        HashLengthIsHarmless(p, i, rest);
      }
    } else {
      var rest := LongHashLengthMisleads(p, i);
    }
  }
}

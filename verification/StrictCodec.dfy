/** What `heightFromBlockID` lets through that is malformed. Its comment promises null for it; the
    reader of `ReferenceCodec` is as lenient as the parser, a strict one is not. */
module StrictCodec {
  import opened Wrappers
  import opened JsNumber
  import opened Varints
  import opened BlockCodec
  import opened ReferenceCodec

  /** At most ten bytes and below 2^64, as protobuf has it; off the end there is no varint. */
  predicate ProperVarint(buf: seq<Byte>, i: nat) {
    VarintAt(buf, i).Got? ==> VarintAt(buf, i).next <= i + 10 && VarintAt(buf, i).value < TWO32 * TWO32
  }

  /** The field at the cursor has a number, and its tag and the number behind it are proper. */
  predicate Proper(buf: seq<Byte>, i: nat) {
    && ProperVarint(buf, i)
    && (VarintAt(buf, i).Got? ==>
          && VarintAt(buf, i).value >= 8
          && (VarintAt(buf, i).value % 8 in {0, 2} ==> ProperVarint(buf, VarintAt(buf, i).next)))
  }

  /** A reader that gives null at the first field that is not proper. */
  function StrictHeight(buf: seq<Byte>, i: nat): Option<nat>
    decreases |buf| - i
  {
    if i >= |buf| || !Proper(buf, i) then None
    else
      match TrueHeightStep(buf, i)
      case Stop(result) => result
      case Next(j) => StrictHeight(buf, j)
  }

  /** Every field up to the height, that one included, is proper. */
  predicate ProperWalk(buf: seq<Byte>, i: nat)
    decreases |buf| - i
  {
    i >= |buf| || (Proper(buf, i) && (TrueHeightStep(buf, i).Next? ==> ProperWalk(buf, TrueHeightStep(buf, i).at)))
  }

  lemma {:induction false} StrictIsProper(buf: seq<Byte>, i: nat)
    ensures StrictHeight(buf, i) == if ProperWalk(buf, i) then TrueHeight(buf, i) else None
    decreases |buf| - i
  {
    hide Proper, TrueHeightStep;
    if i < |buf| && TrueHeightStep(buf, i).Next? {
      StrictIsProper(buf, TrueHeightStep(buf, i).at);
    }
  }

  /** On plain fields a malformed message gets a number exactly when there is a height and a field
      up to it is not proper; in every other case the parser is as strict as can be. */
  lemma MalformedGetsThrough(buf: seq<Byte>, turns: nat)
    requires PlainWalk(buf, 0) && turns >= |buf|
    ensures HeightFrom(buf, 0, turns) == Done(StrictHeight(buf, 0)) <==>
              ProperWalk(buf, 0) || TrueHeight(buf, 0) == None
    ensures HeightFrom(buf, 0, turns) != Done(StrictHeight(buf, 0)) ==>
              HeightFrom(buf, 0, turns).Done? && HeightFrom(buf, 0, turns).result.Some? && StrictHeight(buf, 0) == None
  {
    hide HeightFrom, TrueHeight, StrictHeight, ProperWalk, PlainWalk;
    HeightIsTrue(buf, 0, turns);
    StrictIsProper(buf, 0);
  }

  /** Field number 0 in front of height 5. */
  lemma FieldZeroGetsThrough()
    ensures var buf: seq<Byte> := [0x00, 0x00, 0x08, 0x05];
            PlainWalk(buf, 0) && TrueHeight(buf, 0) == Some(5) && !ProperWalk(buf, 0)
  {
    var buf: seq<Byte> := [0x00, 0x00, 0x08, 0x05];
    assert VarintAt(buf, 0) == Got(0, 1) && VarintAt(buf, 1) == Got(0, 2);
    assert VarintAt(buf, 2) == Got(8, 3) && VarintAt(buf, 3) == Got(5, 4);
    assert TrueHeightStep(buf, 0) == Next(2) && TrueHeightStep(buf, 2) == Stop(Some(5));
    assert PlainWalk(buf, 2);
  }

  /** `n` groups that say nothing, and a last one. */
  function Stretched(n: nat, last: Byte): seq<Byte> {
    seq(n, _ => 0x80) + [last]
  }

  lemma {:induction false} StretchedReads(n: nat, last: Byte, buf: seq<Byte>, i: nat)
    requires last < 128 && Sits(buf, i, Stretched(n, last))
    ensures VarintAt(buf, i) == Got(last * Pow2(7 * n), i + n + 1)
    decreases n
  {
    assert At(buf, i) == Stretched(n, last)[0];
    if n > 0 {
      assert Stretched(n, last) == [0x80] + Stretched(n - 1, last);
      SitsSplit(buf, i, [0x80], Stretched(n - 1, last));
      StretchedReads(n - 1, last, buf, i + 1);
      SevenMore(7 * (n - 1));
    }
  }

  /** Heights of eleven and more bytes get through, whatever they come to: with ten groups that say
      nothing in front, even 0 is malformed, and any power of 128 above 2^64 is a height. */
  lemma LongHeightsGetThrough(n: nat, last: Byte)
    requires last < 128 && n >= 10
    ensures var buf := [0x08] + Stretched(n, last);
            && PlainWalk(buf, 0) && TrueHeight(buf, 0) == Some(last * Pow2(7 * n))
            && StrictHeight(buf, 0) == None
  {
    var buf := [0x08] + Stretched(n, last);
    assert buf[1..1 + n + 1] == Stretched(n, last);
    StretchedReads(n, last, buf, 1);
    OneByteTag(buf, 0);
    hide VarintAt, Pow2;
    assert At(buf, 0) == 8;
    hide At;
    assert TrueHeightStep(buf, 0) == Stop(Some(last * Pow2(7 * n)));
  }

  lemma PlainOfExtension(p: seq<Byte>, rest: seq<Byte>, i: nat)
    requires i < |p| && Plain(p, i) && TrueHeightStep(p, i) != Stop(None)
    ensures Plain(p + rest, i) && TrueHeightStep(p + rest, i) == TrueHeightStep(p, i)
  {
    var buf := p + rest;
    assert buf[..|p|] == p && At(buf, i) == At(p, i);
    TrueHeightStepOfPrefix(buf, |p|, i);
    VarintOfPrefix(buf, |p|, i);
    VarintOfPrefix(buf, |p|, i + 1);
    OneByteTag(p, i);
    hide VarintAt, At;
  }

  /** Nothing behind the height is looked at: bytes that cut a field short, or are no field, may
      follow it. */
  lemma {:induction false} NothingBehindTheHeightIsRead(p: seq<Byte>, rest: seq<Byte>, i: nat)
    requires TrueHeight(p, i).Some? && PlainWalk(p, i)
    ensures TrueHeight(p + rest, i) == TrueHeight(p, i) && PlainWalk(p + rest, i)
    ensures forall turns: nat :: turns >= |p + rest| - i ==> HeightFrom(p + rest, i, turns) == Done(TrueHeight(p, i))
    decreases |p| - i
  {
    PlainOfExtension(p, rest, i);
    hide TrueHeightStep, Plain;
    if TrueHeightStep(p, i).Next? {
      NothingBehindTheHeightIsRead(p, rest, TrueHeightStep(p, i).at);
    }
    forall turns: nat | turns >= |p + rest| - i
      ensures HeightFrom(p + rest, i, turns) == Done(TrueHeight(p, i))
    {
      HeightIsTrue(p + rest, i, turns);
    }
  }
}

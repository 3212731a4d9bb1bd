/** The hand-written protobuf codec: a BlockID encoder and the two cursor parsers. */
module BlockCodec {
  import opened Wrappers
  import opened JsNumber
  import opened Varints

  // ---- the encoder ----

  /** A BlockID that carries only a height: field 1, varint. */
  function BlockID(height: nat): seq<Byte> {
    [0x08] + Varint(height)
  }

  method EncodeBlockIDHeight(height: nat) returns (out: seq<Byte>)
    ensures out == BlockID(height)
  {
    out := [0x08];
    var v := height;
    while true
      invariant out + Varint(v) == BlockID(height)
      decreases v
    {
      var b := v % 128;
      ghost var before := v;
      v := v / 128;
      if v == 0 {
        assert Varint(before) == [b];
        out := out + [b];
        break;
      }
      assert out + ([128 + b] + Varint(v)) == (out + [128 + b]) + Varint(v);
      out := out + [128 + b];
    }
  }

  // ---- the parsers ----

  /** One turn of a parser's loop: on to the next field, or done. */
  datatype Step<+T> = Next(at: int) | Stop(result: Option<T>)

  /** `Unfinished` is a loop still running after the given number of turns. */
  datatype Outcome<+T> = Done(result: Option<T>) | Unfinished

  function HeightStep(buf: seq<Byte>, i: int): Step<nat> {
    var field, wire := At(buf, i) / 8, At(buf, i) % 8;
    if field == 1 && wire == 0 then
      match VarintAt(buf, i + 1)
      case Truncated => Stop(None)
      case Got(v, _) => Stop(Some(v))
    else if wire == 2 then
      match LengthAt(buf, i + 1, 0, 0)
      case Truncated => Stop(None)
      case Got(len, next) => Next(next + len)
    else if wire == 0 then
      match VarintAt(buf, i + 1)
      case Truncated => Stop(None)
      case Got(_, next) => Next(next)
    else Stop(None)
  }

  function HeightFrom(buf: seq<Byte>, i: int, turns: nat): Outcome<nat>
    decreases turns
  {
    if i >= |buf| then Done(None)
    else if turns == 0 then Unfinished
    else
      match HeightStep(buf, i)
      case Stop(result) => Done(result)
      case Next(j) => HeightFrom(buf, j, turns - 1)
  }

  lemma HeightTurn(buf: seq<Byte>, i: int, turns: nat)
    ensures i >= |buf| ==> HeightFrom(buf, i, turns) == Done(None)
    ensures i < |buf| && turns == 0 ==> HeightFrom(buf, i, turns) == Unfinished
    ensures i < |buf| && turns > 0 ==>
              HeightFrom(buf, i, turns)
              == match HeightStep(buf, i)
                 case Stop(result) => Done(result)
                 case Next(j) => HeightFrom(buf, j, turns - 1)
  {
  }

  method HeightFromBlockID(buf: seq<Byte>, turns: nat) returns (r: Outcome<nat>)
    ensures r == HeightFrom(buf, 0, turns)
  {
    hide VarintAt, LengthAt, At, HeightFrom;
    var i, left := 0, turns;
    while i < |buf|
      invariant HeightFrom(buf, 0, turns) == HeightFrom(buf, i, left)
      decreases left
    {
      HeightTurn(buf, i, left);
      if left == 0 { return Unfinished; }
      left := left - 1;
      var tag := At(buf, i);
      i := i + 1;
      var field, wire := tag / 8, tag % 8;
      if field == 1 && wire == 0 {
        var height := ReadVarint(buf, i);
        return Done(match height case Truncated => None case Got(v, _) => Some(v));
      }
      if wire == 2 {
        var length := ReadLength(buf, i);
        if length.Truncated? { return Done(None); }
        i := length.next + length.value;
      } else if wire == 0 {
        var next := SkipVarint(buf, i);
        if next.None? { return Done(None); }
        i := next.value;
      } else {
        break;
      }
    }
    HeightTurn(buf, i, left);
    return Done(None);
  }

  function Reversed(s: seq<Byte>): seq<Byte> {
    seq(|s|, k requires 0 <= k < |s| => s[|s| - 1 - k])
  }

  function HashStep(buf: seq<Byte>, i: int): Step<seq<Byte>> {
    var field, wire := At(buf, i) / 8, At(buf, i) % 8;
    if wire == 2 then
      match LengthAt(buf, i + 1, 0, 0)
      case Truncated => Stop(None)
      case Got(len, next) =>
        if next + len > |buf| then Stop(None)
        else if field == 3 then
          if len != 32 then Stop(None) else Stop(Some(Reversed(buf[next..next + 32])))
        else Next(next + len)
    else if wire == 0 then
      match VarintAt(buf, i + 1)
      case Truncated => Stop(None)
      case Got(_, next) => Next(next)
    else if wire == 5 then Next(i + 5)
    else if wire == 1 then Next(i + 9)
    else Stop(None)
  }

  function HashFrom(buf: seq<Byte>, i: int, turns: nat): Outcome<seq<Byte>>
    decreases turns
  {
    if i >= |buf| then Done(None)
    else if turns == 0 then Unfinished
    else
      match HashStep(buf, i)
      case Stop(result) => Done(result)
      case Next(j) => HashFrom(buf, j, turns - 1)
  }

  lemma ReadInside(buf: seq<Byte>, i: int)
    ensures At(buf, i) != 0 ==> 0 <= i < |buf|
  {
  }

  lemma HashTurn(buf: seq<Byte>, i: int, turns: nat)
    ensures i >= |buf| ==> HashFrom(buf, i, turns) == Done(None)
    ensures i < |buf| && turns == 0 ==> HashFrom(buf, i, turns) == Unfinished
    ensures i < |buf| && turns > 0 ==>
              HashFrom(buf, i, turns)
              == match HashStep(buf, i)
                 case Stop(result) => Done(result)
                 case Next(j) => HashFrom(buf, j, turns - 1)
  {
  }

  method HashFromCompactBlock(buf: seq<Byte>, turns: nat) returns (r: Outcome<seq<Byte>>)
    ensures r == HashFrom(buf, 0, turns)
  {
    hide VarintAt, LengthAt, At, HashFrom, Reversed;
    var i, left := 0, turns;
    while i < |buf|
      invariant HashFrom(buf, 0, turns) == HashFrom(buf, i, left)
      decreases left
    {
      HashTurn(buf, i, left);
      if left == 0 { return Unfinished; }
      left := left - 1;
      var tag := At(buf, i);
      assert tag != 0 ==> i >= 0 by { ReadInside(buf, i); }
      i := i + 1;
      var field, wire := tag / 8, tag % 8;
      if wire == 2 {
        var length := ReadLength(buf, i);
        if length.Truncated? { return Done(None); }
        i := length.next;
        var len := length.value;
        if i + len > |buf| { return Done(None); }
        if field == 3 {
          if len != 32 { return Done(None); }
          return Done(Some(Reversed(buf[i..i + len])));
        }
        i := i + len;
        continue;
      }
      if wire == 0 {
        var next := SkipVarint(buf, i);
        if next.None? { return Done(None); }
        i := next.value;
        continue;
      }
      if wire == 5 { i := i + 4; continue; }
      if wire == 1 { i := i + 8; continue; }
      return Done(None);
    }
    HashTurn(buf, i, left);
    return Done(None);
  }

  // ---- well-formed fields ----

  /** A field with a one-byte tag, by its wire type: 0, 1, 2 or 5. */
  datatype RawField =
    | Number(num: nat, varint: seq<Byte>)
    | Fixed64(num: nat, bytes: seq<Byte>)
    | Blob(num: nat, len: seq<Byte>, bytes: seq<Byte>)
    | Fixed32(num: nat, bytes: seq<Byte>)

  predicate WellFormed(f: RawField) {
    && 1 <= f.num <= 15
    && match f
       case Number(_, varint) => IsVarint(varint)
       case Fixed64(_, bytes) => |bytes| == 8
       case Blob(_, len, bytes) => IsVarint(len) && |len| <= 5 && Value(len) == |bytes| < TWO31
       case Fixed32(_, bytes) => |bytes| == 4
  }

  type Field = f: RawField | WellFormed(f) witness Number(1, [0])

  function Wire(f: Field): Byte {
    match f case Number(_, _) => 0 case Fixed64(_, _) => 1 case Blob(_, _, _) => 2 case Fixed32(_, _) => 5
  }

  function Tag(f: Field): (tag: Byte)
    ensures tag / 8 == f.num && tag % 8 == Wire(f)
  {
    8 * f.num + Wire(f)
  }

  function Body(f: Field): seq<Byte> {
    match f
    case Number(_, varint) => varint
    case Fixed64(_, bytes) => bytes
    case Blob(_, len, bytes) => len + bytes
    case Fixed32(_, bytes) => bytes
  }

  function Encoded(f: Field): (s: seq<Byte>)
    ensures s != []
  {
    [Tag(f)] + Body(f)
  }

  function Message(fields: seq<Field>): seq<Byte> {
    if fields == [] then [] else Encoded(fields[0]) + Message(fields[1..])
  }

  lemma SmallIsItself(n: nat)
    requires n < TWO31
    ensures ToInt32(n) == n
  {
  }

  lemma BlobSits(buf: seq<Byte>, i: int, f: Field)
    requires f.Blob? && Sits(buf, i, f.len + f.bytes)
    ensures LengthAt(buf, i, 0, 0) == Got(|f.bytes|, i + |f.len|)
    ensures Sits(buf, i + |f.len|, f.bytes)
  {
    hide VarintAt, LengthAt, Sits, IsVarint, At, Value, ToInt32;
    SitsSplit(buf, i, f.len, f.bytes);
    VarintSits(buf, i, f.len);
    LengthIsSigned32(buf, i);
    SmallIsItself(|f.bytes|);
  }

  lemma BlobCut(buf: seq<Byte>, i: int, f: Field)
    requires f.Blob? && CutIn(buf, i, f.len + f.bytes)
    ensures var r := LengthAt(buf, i, 0, 0); r.Truncated? || r.next + r.value > |buf|
  {
    hide VarintAt, LengthAt, Sits, IsVarint, At, Value, ToInt32, CutIn;
    CutInside(buf, i, f.len + f.bytes);
    CutSplit(buf, i, f.len, f.bytes);
    if CutIn(buf, i, f.len) {
      VarintCut(buf, i, f.len);
      LengthTruncated(buf, i, 0, 0);
    } else {
      VarintSits(buf, i, f.len);
      LengthIsSigned32(buf, i);
      SmallIsItself(|f.bytes|);
    }
  }

  lemma TagSits(buf: seq<Byte>, i: int, f: Field)
    requires Sits(buf, i, Encoded(f))
    ensures 0 <= i < i + |Encoded(f)| <= |buf| && At(buf, i) == Tag(f)
    ensures Sits(buf, i + 1, Body(f)) && |Encoded(f)| == 1 + |Body(f)|
  {
    hide WellFormed, Body, Tag;
    assert At(buf, i) == buf[i..i + |Encoded(f)|][0];
    SitsSplit(buf, i, [Tag(f)], Body(f));
  }

  lemma TagCut(buf: seq<Byte>, i: int, f: Field)
    requires CutIn(buf, i, Encoded(f)) && i < |buf|
    ensures 0 <= i < |buf| < i + |Encoded(f)| && At(buf, i) == Tag(f)
    ensures CutIn(buf, i + 1, Body(f)) && |Encoded(f)| == 1 + |Body(f)|
  {
    hide WellFormed, Body, Tag;
    assert At(buf, i) == buf[i..][0];
    CutSplit(buf, i, [Tag(f)], Body(f));
  }

  // ---- the height ----

  /** A field the height parser steps over. */
  predicate NotTheHeight(f: Field) {
    f.Blob? || (f.Number? && f.num != 1)
  }

  predicate NoHeightIn(fields: seq<Field>) {
    forall k :: 0 <= k < |fields| ==> NotTheHeight(fields[k])
  }

  lemma HeightSkips(buf: seq<Byte>, i: int, f: Field)
    requires NotTheHeight(f) && Sits(buf, i, Encoded(f))
    ensures 0 <= i < |buf| && HeightStep(buf, i) == Next(i + |Encoded(f)|)
  {
    hide VarintAt, LengthAt, Sits, IsVarint, At, Value, Tag, Encoded;
    TagSits(buf, i, f);
    if f.Blob? {
      BlobSits(buf, i + 1, f);
    } else {
      VarintSits(buf, i + 1, f.varint);
    }
  }

  lemma HeightCut(buf: seq<Byte>, i: int, f: Field)
    requires NotTheHeight(f) && CutIn(buf, i, Encoded(f)) && i < |buf|
    ensures var step := HeightStep(buf, i); step == Stop(None) || (step.Next? && step.at > |buf|)
  {
    hide VarintAt, LengthAt, CutIn, IsVarint, At, Value, Tag, Encoded;
    TagCut(buf, i, f);
    if f.Blob? {
      BlobCut(buf, i + 1, f);
    } else {
      VarintCut(buf, i + 1, f.varint);
    }
  }

  lemma {:induction false} HeightBehind(buf: seq<Byte>, i: int, fields: seq<Field>, turns: nat)
    requires NoHeightIn(fields) && Sits(buf, i, Message(fields)) && turns >= |fields|
    ensures HeightFrom(buf, i, turns) == HeightFrom(buf, i + |Message(fields)|, turns - |fields|)
    decreases |fields|
  {
    hide Sits, HeightFrom, HeightStep, Encoded, WellFormed, NotTheHeight;
    if fields != [] {
      var f := fields[0];
      SitsSplit(buf, i, Encoded(f), Message(fields[1..]));
      HeightSkips(buf, i, f);
      HeightTurn(buf, i, turns);
      HeightBehind(buf, i + |Encoded(f)|, fields[1..], turns - 1);
    }
  }

  lemma HeightHere(buf: seq<Byte>, i: int, height: nat, turns: nat)
    requires Sits(buf, i, BlockID(height)) && turns > 0
    ensures HeightFrom(buf, i, turns) == Done(Some(height))
  {
    assert 0 <= i < |buf| && At(buf, i) == buf[i..i + |BlockID(height)|][0] == 0x08;
    hide VarintAt, LengthAt, Sits, IsVarint, Value, HeightFrom, At;
    VarintRoundTrip(height);
    SitsSplit(buf, i, [0x08], Varint(height));
    VarintSits(buf, i + 1, Varint(height));
    HeightTurn(buf, i, turns);
  }

  /** Round trip: the height that was encoded is the height that is read, behind any well-formed
      fields that are not the height and in front of any bytes at all. */
  lemma HeightRoundTrip(fields: seq<Field>, height: nat, suffix: seq<Byte>, turns: nat)
    requires NoHeightIn(fields) && turns > |fields|
    ensures HeightFrom(Message(fields) + BlockID(height) + suffix, 0, turns) == Done(Some(height))
  {
    hide HeightFrom, Message, BlockID, NoHeightIn;
    var before, id := Message(fields), BlockID(height);
    var buf := before + id + suffix;
    assert Sits(buf, 0, before);
    assert Sits(buf, |before|, id);
    hide Sits;
    HeightBehind(buf, 0, fields, turns);
    HeightHere(buf, |before|, height, turns - |fields|);
  }

  lemma CutHeightHere(buf: seq<Byte>, i: int, height: nat, turns: nat)
    requires CutIn(buf, i, BlockID(height)) && turns > 0
    ensures HeightFrom(buf, i, turns) == Done(None)
  {
    if i < |buf| {
      assert At(buf, i) == buf[i..][0] == 0x08;
      hide VarintAt, LengthAt, CutIn, IsVarint, Value, HeightFrom, At;
      VarintRoundTrip(height);
      CutSplit(buf, i, [0x08], Varint(height));
      VarintCut(buf, i + 1, Varint(height));
      HeightTurn(buf, i, turns);
    }
  }

  lemma {:induction false} CutHeightFrom(buf: seq<Byte>, i: int, fields: seq<Field>, height: nat, turns: nat)
    requires NoHeightIn(fields) && turns > |fields|
    requires CutIn(buf, i, Message(fields) + BlockID(height))
    ensures HeightFrom(buf, i, turns) == Done(None)
    decreases |fields|
  {
    hide Sits, CutIn, HeightStep, Encoded, WellFormed, NotTheHeight, BlockID;
    if fields == [] {
      assert Message(fields) + BlockID(height) == BlockID(height);
      CutHeightHere(buf, i, height, turns);
    } else if i < |buf| {
      var f, rest := fields[0], Message(fields[1..]) + BlockID(height);
      assert Message(fields) + BlockID(height) == Encoded(f) + rest;
      CutSplit(buf, i, Encoded(f), rest);
      if CutIn(buf, i, Encoded(f)) {
        HeightCut(buf, i, f);
      } else {
        HeightSkips(buf, i, f);
        CutHeightFrom(buf, i + |Encoded(f)|, fields[1..], height, turns - 1);
      }
    }
  }

  /** A truncated message never passes for a height: every strict prefix reads as null. */
  lemma TruncatedHeightIsNull(fields: seq<Field>, height: nat, k: nat, turns: nat)
    requires NoHeightIn(fields) && turns > |fields|
    requires k < |Message(fields) + BlockID(height)|
    ensures HeightFrom((Message(fields) + BlockID(height))[..k], 0, turns) == Done(None)
  {
    hide HeightFrom, Message, BlockID, NoHeightIn;
    CutHeightFrom((Message(fields) + BlockID(height))[..k], 0, fields, height, turns);
  }

  // ---- the hash ----

  predicate IsHash(f: Field) {
    f.Blob? && f.num == 3
  }

  function HashIn(f: Field): Option<seq<Byte>>
    requires IsHash(f)
  {
    if |f.bytes| == 32 then Some(Reversed(f.bytes)) else None
  }

  /** The first length-delimited field 3, in display order, when it is 32 bytes long. */
  function FirstHash(fields: seq<Field>): Option<seq<Byte>> {
    if fields == [] then None
    else if IsHash(fields[0]) then HashIn(fields[0])
    else FirstHash(fields[1..])
  }

  predicate HasHash(fields: seq<Field>) {
    fields != [] && (IsHash(fields[0]) || HasHash(fields[1..]))
  }

  lemma HashSkipsBlob(buf: seq<Byte>, i: int, f: Field)
    requires !IsHash(f) && f.Blob? && Sits(buf, i, Encoded(f))
    ensures 0 <= i < |buf| && HashStep(buf, i) == Next(i + |Encoded(f)|)
  {
    hide VarintAt, LengthAt, Sits, IsVarint, At, Value, Tag, Encoded, Reversed;
    TagSits(buf, i, f);
    BlobSits(buf, i + 1, f);
    InsideBuffer(buf, i + 1 + |f.len|, f.bytes);
  }

  lemma HashSkips(buf: seq<Byte>, i: int, f: Field)
    requires !IsHash(f) && Sits(buf, i, Encoded(f))
    ensures 0 <= i < |buf| && HashStep(buf, i) == Next(i + |Encoded(f)|)
  {
    hide VarintAt, LengthAt, Sits, IsVarint, At, Value, Tag, Encoded, Reversed;
    if f.Blob? {
      HashSkipsBlob(buf, i, f);
    } else {
      TagSits(buf, i, f);
      if f.Number? {
        VarintSits(buf, i + 1, f.varint);
      }
    }
  }

  lemma InsideBuffer(buf: seq<Byte>, i: int, s: seq<Byte>)
    requires Sits(buf, i, s)
    ensures 0 <= i <= i + |s| <= |buf| && buf[i..i + |s|] == s
  {
  }

  lemma HashHere(buf: seq<Byte>, i: int, f: Field)
    requires IsHash(f) && Sits(buf, i, Encoded(f))
    ensures 0 <= i < |buf| && HashStep(buf, i) == Stop(HashIn(f))
  {
    hide VarintAt, LengthAt, Sits, IsVarint, At, Value, Tag, Encoded, Reversed;
    TagSits(buf, i, f);
    BlobSits(buf, i + 1, f);
    InsideBuffer(buf, i + 1 + |f.len|, f.bytes);
  }

  lemma HashCut(buf: seq<Byte>, i: int, f: Field)
    requires CutIn(buf, i, Encoded(f)) && i < |buf|
    ensures var step := HashStep(buf, i); step == Stop(None) || (step.Next? && step.at > |buf|)
  {
    hide VarintAt, LengthAt, CutIn, IsVarint, At, Value, Tag, Encoded, Reversed;
    TagCut(buf, i, f);
    if f.Blob? {
      BlobCut(buf, i + 1, f);
    } else if f.Number? {
      VarintCut(buf, i + 1, f.varint);
    }
  }

  lemma {:induction false} HashBehind(buf: seq<Byte>, i: int, fields: seq<Field>, turns: nat)
    requires Sits(buf, i, Message(fields)) && turns >= |fields|
    requires HasHash(fields) || |buf| == i + |Message(fields)|
    ensures HashFrom(buf, i, turns) == Done(FirstHash(fields))
    decreases |fields|
  {
    hide Sits, HashStep, Encoded, WellFormed, IsHash;
    if fields != [] {
      hide HashFrom;
      var f, rest := fields[0], fields[1..];
      SitsSplit(buf, i, Encoded(f), Message(rest));
      if IsHash(f) {
        HashHere(buf, i, f);
        HashTurn(buf, i, turns);
      } else {
        HashSkips(buf, i, f);
        HashTurn(buf, i, turns);
        HashBehind(buf, i + |Encoded(f)|, rest, turns - 1);
      }
    }
  }

  /** The hash of a well-formed message is the reverse of its first length-delimited field 3, or
      null when that is missing or not 32 bytes long; what follows that field is never read. */
  lemma HashIsFirstField3(fields: seq<Field>, suffix: seq<Byte>, turns: nat)
    requires turns >= |fields| && (suffix == [] || HasHash(fields))
    ensures HashFrom(Message(fields) + suffix, 0, turns) == Done(FirstHash(fields))
  {
    hide HashFrom, Message, HasHash, FirstHash;
    HashBehind(Message(fields) + suffix, 0, fields, turns);
  }

  lemma {:induction false} FirstIsFound(fields: seq<Field>, j: nat)
    requires j < |fields| && fields[j].Blob? && fields[j].num == 3
    requires forall i :: 0 <= i < j ==> !(fields[i].Blob? && fields[i].num == 3)
    ensures HasHash(fields)
    ensures FirstHash(fields) == if |fields[j].bytes| == 32 then Some(Reversed(fields[j].bytes)) else None
  {
    if j > 0 {
      FirstIsFound(fields[1..], j - 1);
    }
  }

  lemma {:induction false} NoneIsFound(fields: seq<Field>)
    requires forall f <- fields :: !(f.Blob? && f.num == 3)
    ensures FirstHash(fields) == None
  {
    if fields != [] {
      assert fields[0] in fields;
      NoneIsFound(fields[1..]);
    }
  }

  /** Byte by byte: the last of the 32 comes first and the first comes last. */
  lemma HashIsTurnedRound(fields: seq<Field>, suffix: seq<Byte>, turns: nat, j: nat)
    requires turns >= |fields| && j < |fields| && fields[j].Blob? && fields[j].num == 3
    requires forall i :: 0 <= i < j ==> !(fields[i].Blob? && fields[i].num == 3)
    ensures var r := HashFrom(Message(fields) + suffix, 0, turns);
            && r.Done? && (r.result.Some? <==> |fields[j].bytes| == 32)
            && (r.result.Some? ==>
                  |r.result.value| == 32 && forall k :: 0 <= k < 32 ==> r.result.value[k] == fields[j].bytes[31 - k])
  {
    FirstIsFound(fields, j);
    hide HashFrom, Message, HasHash, FirstHash;
    HashIsFirstField3(fields, suffix, turns);
  }

  lemma NoHashIsNull(fields: seq<Field>, turns: nat)
    requires turns >= |fields| && forall f <- fields :: !(f.Blob? && f.num == 3)
    ensures HashFrom(Message(fields), 0, turns) == Done(None)
  {
    NoneIsFound(fields);
    HashIsFirstField3(fields, [], turns);
    assert Message(fields) + [] == Message(fields);
  }

  lemma {:induction false} CutHashFrom(buf: seq<Byte>, i: int, fields: seq<Field>, turns: nat)
    requires turns >= |fields| && CutIn(buf, i, Message(fields))
    requires fields != [] && !HasHash(fields[..|fields| - 1])
    ensures HashFrom(buf, i, turns) == Done(None)
    decreases |fields|
  {
    hide Sits, CutIn, HashStep, Encoded, WellFormed, IsHash;
    if i < |buf| {
      var f, rest := fields[0], fields[1..];
      CutSplit(buf, i, Encoded(f), Message(rest));
      if CutIn(buf, i, Encoded(f)) {
        HashCut(buf, i, f);
      } else {
        if rest == [] {
          CutInside(buf, i + |Encoded(f)|, Message(rest));
        } else {
          assert fields[..|fields| - 1][1..] == rest[..|rest| - 1];
          assert fields[..|fields| - 1][0] == f;
          HashSkips(buf, i, f);
          CutHashFrom(buf, i + |Encoded(f)|, rest, turns - 1);
        }
      }
    }
  }

  lemma CutInside(buf: seq<Byte>, i: int, s: seq<Byte>)
    requires CutIn(buf, i, s)
    ensures 0 <= i <= |buf| < i + |s|
  {
  }

  /** A message cut anywhere before the end of its first field 3 gives null, never part of a
      hash. */
  lemma TruncatedHashIsNull(fields: seq<Field>, k: nat, turns: nat)
    requires turns >= |fields| && k < |Message(fields)|
    requires fields != [] && !HasHash(fields[..|fields| - 1])
    ensures HashFrom(Message(fields)[..k], 0, turns) == Done(None)
  {
    hide HashFrom, Message, HasHash;
    CutHashFrom(Message(fields)[..k], 0, fields, turns);
  }

  // ---- when the cursor goes forward ----

  /** Every length the loop meets on its own way from the cursor reads as non-negative, so that
      each field takes it forward. */
  predicate MovesForward(buf: seq<Byte>, i: nat)
    decreases |buf| - i
  {
    i >= |buf| || (HeightStep(buf, i).Next? ==> HeightStep(buf, i).at > i && MovesForward(buf, HeightStep(buf, i).at))
  }

  /** Then the loop ends within as many turns as there are bytes left. */
  lemma {:induction false} HeightLoopEnds(buf: seq<Byte>, i: nat, turns: nat)
    requires MovesForward(buf, i) && turns >= |buf| - i
    ensures HeightFrom(buf, i, turns).Done?
    decreases turns
  {
    hide HeightStep;
    if i < |buf| && HeightStep(buf, i).Next? {
      HeightLoopEnds(buf, HeightStep(buf, i).at, turns - 1);
    }
  }

  /** A length field that reads as -6 and so leads back to itself. */
  const BACKWARDS: seq<Byte> := [0x12, 0xFA, 0xFF, 0xFF, 0xFF, 0x0F]

  lemma BackwardsLength()
    ensures LengthAt(BACKWARDS, 1, 0, 0) == Got(-6, 6) && At(BACKWARDS, 0) == 0x12
  {
    assert VarintAt(BACKWARDS, 5) == Got(15, 6);
    assert VarintAt(BACKWARDS, 4) == Got(0x7FF, 6);
    assert VarintAt(BACKWARDS, 3) == Got(0x3_FFFF, 6);
    assert VarintAt(BACKWARDS, 2) == Got(0x1FF_FFFF, 6);
    assert VarintAt(BACKWARDS, 1) == Got(0xFFFF_FFFA, 6);
    LengthIsSigned32(BACKWARDS, 1);
    assert ToInt32(0xFFFF_FFFA) == -6;
  }

  /** On it the loop is still running after any number of turns. */
  lemma {:induction false} HeightLoopMayNotEnd(turns: nat)
    ensures HeightFrom(BACKWARDS, 0, turns) == Unfinished
  {
    BackwardsLength();
    hide VarintAt, LengthAt, At;
    if turns > 0 {
      HeightLoopMayNotEnd(turns - 1);
    }
  }

  /** So is the loop of the hash parser. */
  lemma {:induction false} HashLoopMayNotEnd(turns: nat)
    ensures HashFrom(BACKWARDS, 0, turns) == Unfinished
  {
    BackwardsLength();
    hide VarintAt, LengthAt, At;
    if turns > 0 {
      HashLoopMayNotEnd(turns - 1);
    }
  }
}

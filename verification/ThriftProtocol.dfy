/** The Thrift `Protocol` interface: what one protocol element is, how it is read from
    and written to a buffer, and the contract that every implementation keeps.  The
    Apache Thrift strict binary protocol is given as an instance that keeps it. */
module ThriftProtocol {
  import opened Bytes

  /** Wire identifiers of field types.  A byte that names no type is representable,
      because a type is only looked at when a value of it is due. */
  type FieldType = byte
  const STOP: FieldType := 0
  const BOOL: FieldType := 2
  const BYTE: FieldType := 3
  const DOUBLE: FieldType := 4
  const I16: FieldType := 6
  const I32: FieldType := 8
  const I64: FieldType := 10
  const STRING: FieldType := 11
  const STRUCT: FieldType := 12
  const MAP: FieldType := 13
  const SET: FieldType := 14
  const LIST: FieldType := 15

  type ValueType = t: FieldType | t != 0 witness 1
  type Size = n: int | 0 <= n < 0x8000_0000
  type Text = s: seq<byte> | |s| < 0x8000_0000 witness []

  datatype MessageType = Call | Reply | Exception | Oneway

  /** One element of a message, as one `read...` call returns it and one `write...` call
      emits it. */
  datatype Token =
    | MessageHeader(name: Text, messageType: MessageType, sequenceId: i32)
    | MessageFooter
    | StructHeader
    | StructFooter
    | FieldHeader(fieldType: ValueType, fieldId: i16)
    | FieldStop
    | FieldFooter
    | ListHeader(elemType: FieldType, size: Size)
    | ListFooter
    | SetHeader(elemType: FieldType, size: Size)
    | SetFooter
    | MapHeader(keyType: FieldType, valueType: FieldType, size: Size)
    | MapFooter
    | BoolValue(b: bool)
    | ByteValue(n8: byte)
    | I16Value(n16: i16)
    | I32Value(n32: i32)
    | I64Value(n64: i64)
    | DoubleValue(bits: u64)
    | StringValue(s: Text)

  /** Which `read...` function is called. */
  datatype Kind =
    | MessageBeginK | MessageEndK | StructBeginK | StructEndK | FieldBeginK | FieldEndK
    | ListBeginK | ListEndK | SetBeginK | SetEndK | MapBeginK | MapEndK
    | ScalarK(scalarType: FieldType)

  function KindOf(t: Token): (k: Kind) {
    match t
    case MessageHeader(_, _, _) => MessageBeginK
    case MessageFooter => MessageEndK
    case StructHeader => StructBeginK
    case StructFooter => StructEndK
    case FieldHeader(_, _) => FieldBeginK
    case FieldStop => FieldBeginK
    case FieldFooter => FieldEndK
    case ListHeader(_, _) => ListBeginK
    case ListFooter => ListEndK
    case SetHeader(_, _) => SetBeginK
    case SetFooter => SetEndK
    case MapHeader(_, _, _) => MapBeginK
    case MapFooter => MapEndK
    case BoolValue(_) => ScalarK(BOOL)
    case ByteValue(_) => ScalarK(BYTE)
    case I16Value(_) => ScalarK(I16)
    case I32Value(_) => ScalarK(I32)
    case I64Value(_) => ScalarK(I64)
    case DoubleValue(_) => ScalarK(DOUBLE)
    case StringValue(_) => ScalarK(STRING)
  }

  predicate IsScalarType(t: FieldType) {
    t == BOOL || t == BYTE || t == DOUBLE || t == I16 || t == I32 || t == I64 || t == STRING
  }

  /** The kinds whose elements carry information, and so occupy at least one octet. */
  predicate Consuming(k: Kind) {
    k.MessageBeginK? || k.FieldBeginK? || k.ListBeginK? || k.SetBeginK? || k.MapBeginK? || k.ScalarK?
  }

  /** `false` from a `read...` function is `More`; an exception is `Invalid`; on success the
      element is removed from the front of the buffer, where it took up `len` octets. */
  datatype ReadResult = More | Invalid | Got(tok: Token, len: nat)

  datatype Protocol = Protocol(read: (Kind, seq<byte>) -> ReadResult, write: Token -> seq<byte>)

  function Read(p: Protocol, k: Kind, b: seq<byte>): (r: ReadResult) { p.read(k, b) }

  function Write(p: Protocol, t: Token): (b: seq<byte>) { p.write(t) }

  /** A read returns an element of the kind asked for, out of octets that are there. */
  ghost predicate ReadsSoundly(p: Protocol) {
    forall k, b :: SoundRead(k, b, Read(p, k, b))
  }

  predicate SoundRead(k: Kind, b: seq<byte>, r: ReadResult) {
    r.Got? ==>
      && KindOf(r.tok) == k
      && r.len <= |b|
      && (Consuming(k) ==> r.len > 0)
  }

  /** A read that has reached a verdict reaches the same one when more octets follow. */
  ghost predicate ReadsStably(p: Protocol) {
    forall k, b, c {:trigger Read(p, k, b + c)} ::
      !Read(p, k, b).More? ==> Read(p, k, b + c) == Read(p, k, b)
  }

  /** Reading what was written returns it. */
  ghost predicate ReadsBack(p: Protocol) {
    forall t, c {:trigger Read(p, KindOf(t), Write(p, t) + c)} ::
      Read(p, KindOf(t), Write(p, t) + c) == Got(t, |Write(p, t)|)
  }

  ghost predicate Lawful(p: Protocol) {
    ReadsSoundly(p) && ReadsStably(p) && ReadsBack(p)
  }

  function WriteAll(p: Protocol, ts: seq<Token>): (b: seq<byte>) {
    if ts == [] then [] else Write(p, ts[0]) + WriteAll(p, ts[1..])
  }

  lemma {:induction false} WriteAllConcat(p: Protocol, s: seq<Token>, t: seq<Token>)
    ensures WriteAll(p, s + t) == WriteAll(p, s) + WriteAll(p, t)
  {
    if s == [] {
      assert s + t == t;
    } else {
      assert (s + t)[0] == s[0] && (s + t)[1..] == s[1..] + t;
      WriteAllConcat(p, s[1..], t);
    }
  }

  datatype Lexed = Stuck | Left(rest: seq<byte>)

  /** What is left of octets `b` after reading exactly the elements `ts` from them. */
  function Lex(p: Protocol, b: seq<byte>, ts: seq<Token>): (r: Lexed)
    decreases |ts|
  {
    if ts == [] then Left(b)
    else
      var r := Read(p, KindOf(ts[0]), b);
      if r.Got? && r.tok == ts[0] && r.len <= |b| then Lex(p, b[r.len..], ts[1..]) else Stuck
  }

  lemma {:induction false} LexConcat(p: Protocol, b: seq<byte>, s: seq<Token>, t: seq<Token>)
    ensures Lex(p, b, s + t) == match Lex(p, b, s) case Stuck => Stuck case Left(m) => Lex(p, m, t)
    decreases |s|
  {
    if s == [] {
      assert s + t == t;
    } else {
      assert (s + t)[0] == s[0] && (s + t)[1..] == s[1..] + t;
      var r := Read(p, KindOf(s[0]), b);
      if r.Got? && r.tok == s[0] && r.len <= |b| {
        LexConcat(p, b[r.len..], s[1..], t);
      }
    }
  }

  /** Written elements are read back, whatever follows them. */
  lemma {:induction false} LexWritten(p: Protocol, ts: seq<Token>, rest: seq<byte>)
    requires Lawful(p)
    ensures Lex(p, WriteAll(p, ts) + rest, ts) == Left(rest)
    decreases |ts|
  {
    if ts == [] {
      assert [] + rest == rest;
    } else {
      var w := Write(p, ts[0]);
      var tail := WriteAll(p, ts[1..]) + rest;
      assert WriteAll(p, ts) + rest == w + tail;
      assert (w + tail)[|w|..] == tail;
      LexWritten(p, ts[1..], rest);
    }
  }
}

/** The strict binary encoding of the Thrift protocol specification. */
module ThriftBinary {
  import opened Bytes
  import opened ThriftProtocol

  const VERSION: u16 := 0x8001
  const MIN_MESSAGE_BEGIN: nat := 12

  function TypeCode(t: MessageType): (c: byte)
    ensures 1 <= c <= 4
  {
    match t case Call => 1 case Reply => 2 case Exception => 3 case Oneway => 4
  }

  function TypeFromCode(c: byte): (t: MessageType)
    requires 1 <= c <= 4
    ensures TypeCode(t) == c
  {
    if c == 1 then Call else if c == 2 then Reply else if c == 3 then Exception else Oneway
  }

  function ReadMessageBegin(b: seq<byte>): (r: ReadResult) {
    if |b| < MIN_MESSAGE_BEGIN then More
    else if U16At(b, 0) != VERSION then Invalid
    else if !(1 <= b[3] <= 4) then Invalid
    else
      var n := U32At(b, 4);
      if n >= 0x8000_0000 then Invalid
      else if |b| < n + MIN_MESSAGE_BEGIN then More
      else Got(MessageHeader(b[8..8 + n], TypeFromCode(b[3]), Signed32(U32At(b, 8 + n))), n + MIN_MESSAGE_BEGIN)
  }

  function ReadFieldBegin(b: seq<byte>): (r: ReadResult) {
    if |b| < 1 then More
    else if b[0] == STOP then Got(FieldStop, 1)
    else if |b| < 3 then More
    else Got(FieldHeader(b[0], Signed16(U16At(b, 1))), 3)
  }

  function ReadSequenceBegin(b: seq<byte>, isSet: bool): (r: ReadResult) {
    if |b| < 5 then More
    else
      var n := U32At(b, 1);
      if n >= 0x8000_0000 then Invalid
      else Got(if isSet then SetHeader(b[0], n) else ListHeader(b[0], n), 5)
  }

  function ReadMapBegin(b: seq<byte>): (r: ReadResult) {
    if |b| < 6 then More
    else
      var n := U32At(b, 2);
      if n >= 0x8000_0000 then Invalid else Got(MapHeader(b[0], b[1], n), 6)
  }

  function ReadString(b: seq<byte>): (r: ReadResult) {
    if |b| < 4 then More
    else
      var n := U32At(b, 0);
      if n >= 0x8000_0000 then Invalid
      else if |b| < 4 + n then More
      else Got(StringValue(b[4..4 + n]), 4 + n)
  }

  function ReadScalar(t: FieldType, b: seq<byte>): (r: ReadResult) {
    if t == BOOL then (if |b| < 1 then More else Got(BoolValue(b[0] != 0), 1))
    else if t == BYTE then (if |b| < 1 then More else Got(ByteValue(b[0]), 1))
    else if t == I16 then (if |b| < 2 then More else Got(I16Value(Signed16(U16At(b, 0))), 2))
    else if t == I32 then (if |b| < 4 then More else Got(I32Value(Signed32(U32At(b, 0))), 4))
    else if t == I64 then (if |b| < 8 then More else Got(I64Value(Signed64(U64At(b, 0))), 8))
    else if t == DOUBLE then (if |b| < 8 then More else Got(DoubleValue(U64At(b, 0)), 8))
    else if t == STRING then ReadString(b)
    else Invalid
  }

  function ReadBinary(k: Kind, b: seq<byte>): (r: ReadResult) {
    match k
    case MessageBeginK => ReadMessageBegin(b)
    case FieldBeginK => ReadFieldBegin(b)
    case ListBeginK => ReadSequenceBegin(b, false)
    case SetBeginK => ReadSequenceBegin(b, true)
    case MapBeginK => ReadMapBegin(b)
    case ScalarK(t) => ReadScalar(t, b)
    case MessageEndK => Got(MessageFooter, 0)
    case StructBeginK => Got(StructHeader, 0)
    case StructEndK => Got(StructFooter, 0)
    case FieldEndK => Got(FieldFooter, 0)
    case ListEndK => Got(ListFooter, 0)
    case SetEndK => Got(SetFooter, 0)
    case MapEndK => Got(MapFooter, 0)
  }

  function WriteBinary(t: Token): (b: seq<byte>) {
    match t
    case MessageHeader(name, messageType, id) =>
      PutU16(VERSION) + [0, TypeCode(messageType)] + PutU32(|name|) + name + PutU32(Unsigned32(id))
    case FieldHeader(ft, id) => [ft] + PutU16(Unsigned16(id))
    case FieldStop => [STOP]
    case ListHeader(et, n) => [et] + PutU32(n)
    case SetHeader(et, n) => [et] + PutU32(n)
    case MapHeader(kt, vt, n) => [kt, vt] + PutU32(n)
    case BoolValue(v) => [if v then 1 else 0]
    case ByteValue(n) => [n]
    case I16Value(n) => PutU16(Unsigned16(n))
    case I32Value(n) => PutU32(Unsigned32(n))
    case I64Value(n) => PutU64(Unsigned64(n))
    case DoubleValue(n) => PutU64(n)
    case StringValue(s) => PutU32(|s|) + s
    case MessageFooter => []
    case StructHeader => []
    case StructFooter => []
    case FieldFooter => []
    case ListFooter => []
    case SetFooter => []
    case MapFooter => []
  }

  const BINARY: Protocol := Protocol(ReadBinary, WriteBinary)

  lemma MessageBeginReadsBack(name: Text, mt: MessageType, id: i32, c: seq<byte>)
    ensures ReadMessageBegin(WriteBinary(MessageHeader(name, mt, id)) + c)
         == Got(MessageHeader(name, mt, id), |name| + MIN_MESSAGE_BEGIN)
  {
    var head := PutU16(VERSION) + [0, TypeCode(mt)];
    var b := head + PutU32(|name|) + name + PutU32(Unsigned32(id)) + c;
    assert b == PutU16(VERSION) + ([0, TypeCode(mt)] + PutU32(|name|) + name + PutU32(Unsigned32(id)) + c);
    assert U16At(b, 0) == VERSION;
    assert b == head + PutU32(|name|) + (name + PutU32(Unsigned32(id)) + c);
    PutAnywhere32(head, |name|, name + PutU32(Unsigned32(id)) + c);
    var front := head + PutU32(|name|) + name;
    assert b == front + PutU32(Unsigned32(id)) + c;
    PutAnywhere32(front, Unsigned32(id), c);
    assert b[8..8 + |name|] == name;
    assert WriteBinary(MessageHeader(name, mt, id)) + c == b;
  }

  lemma {:induction false} ScalarReadsBack(t: Token, c: seq<byte>)
    requires KindOf(t).ScalarK?
    ensures ReadBinary(KindOf(t), WriteBinary(t) + c) == Got(t, |WriteBinary(t)|)
  {
    hide PutU16, PutU32, PutU64, U16At, U32At, U64At;
    var w := WriteBinary(t);
    assert [] + w + c == w + c;
    match t {
      case BoolValue(_) =>
      case ByteValue(_) =>
      case I16Value(n) => PutAnywhere16([], Unsigned16(n), c);
      case I32Value(n) => PutAnywhere32([], Unsigned32(n), c);
      case I64Value(n) => PutAnywhere64([], Unsigned64(n), c);
      case DoubleValue(n) => PutAnywhere64([], n, c);
      case StringValue(text) =>
        PutAnywhere32([], |text|, text + c);
        assert w + c == [] + PutU32(|text|) + (text + c);
        assert (w + c)[4..4 + |text|] == text;
    }
  }

  lemma TokenReadsBack(t: Token, c: seq<byte>)
    ensures ReadBinary(KindOf(t), WriteBinary(t) + c) == Got(t, |WriteBinary(t)|)
  {
    var w := WriteBinary(t);
    assert forall i | 0 <= i < |w| :: (w + c)[i] == w[i];
    match t
    case MessageHeader(name, mt, id) => MessageBeginReadsBack(name, mt, id, c);
    case FieldHeader(ft, id) =>
      assert w + c == [ft] + PutU16(Unsigned16(id)) + c;
      PutAnywhere16([ft], Unsigned16(id), c);
    case ListHeader(et, n) => assert w + c == [et] + PutU32(n) + c; PutAnywhere32([et], n, c);
    case SetHeader(et, n) => assert w + c == [et] + PutU32(n) + c; PutAnywhere32([et], n, c);
    case MapHeader(kt, vt, n) => assert w + c == [kt, vt] + PutU32(n) + c; PutAnywhere32([kt, vt], n, c);
    case _ => if KindOf(t).ScalarK? { ScalarReadsBack(t, c); }
  }

  lemma MessageBeginStable(b: seq<byte>, c: seq<byte>)
    requires !ReadMessageBegin(b).More?
    ensures ReadMessageBegin(b + c) == ReadMessageBegin(b)
  {
    assert forall i | 0 <= i < |b| :: (b + c)[i] == b[i];
    if ReadMessageBegin(b).Got? { SliceOfFront(b, c, 8, 8 + U32At(b, 4)); }
  }

  lemma StringStable(b: seq<byte>, c: seq<byte>)
    requires !ReadString(b).More?
    ensures ReadString(b + c) == ReadString(b)
  {
    assert forall i | 0 <= i < |b| :: (b + c)[i] == b[i];
    if ReadString(b).Got? { SliceOfFront(b, c, 4, 4 + U32At(b, 0)); }
  }

  lemma ReadBinaryStable(k: Kind, b: seq<byte>, c: seq<byte>)
    requires !ReadBinary(k, b).More?
    ensures ReadBinary(k, b + c) == ReadBinary(k, b)
  {
    if k.MessageBeginK? {
      MessageBeginStable(b, c);
    } else if k == ScalarK(STRING) {
      StringStable(b, c);
    } else {
      assert forall i | 0 <= i < |b| :: (b + c)[i] == b[i];
    }
  }

  lemma ReadBinarySound(k: Kind, b: seq<byte>)
    ensures SoundRead(k, b, ReadBinary(k, b))
  {
  }

  /** The binary protocol keeps the contract of the interface. */
  lemma {:induction false} BinaryIsLawful()
    ensures Lawful(BINARY)
  {
    forall k, b
      ensures SoundRead(k, b, Read(BINARY, k, b))
    {
      ReadBinarySound(k, b);
    }
    hide ReadBinary, WriteBinary, KindOf;
    forall k, b, c | !Read(BINARY, k, b).More?
      ensures Read(BINARY, k, b + c) == Read(BINARY, k, b)
    {
      ReadBinaryStable(k, b, c);
    }
    forall t, c ensures Read(BINARY, KindOf(t), Write(BINARY, t) + c) == Got(t, |Write(BINARY, t)|) {
      TokenReadsBack(t, c);
    }
  }
}

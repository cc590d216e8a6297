/** The decoder reads elements and writes them again. With the binary protocol that reproduces the
    octets it read, with two exceptions that this module pins down. */
module ThriftExact {
  import opened Bytes
  import opened ThriftProtocol
  import opened ThriftBinary
  import opened ThriftGrammar
  import opened ThriftMachine

  /** The two places where different octets read as the same element: every octet but 0 is true,
      and the third octet of a message is skipped. */
  predicate Canonical(k: Kind, b: seq<byte>) {
    match k
    case ScalarK(t) => t == BOOL && |b| > 0 ==> b[0] <= 1
    case MessageBeginK => |b| > 2 ==> b[2] == 0
    case _ => true
  }

  lemma {:induction false} MessageBeginRewritten(b: seq<byte>)
    requires ReadMessageBegin(b).Got?
    ensures var r := ReadMessageBegin(b);
            && |WriteBinary(r.tok)| == r.len
            && (WriteBinary(r.tok) == b[..r.len] <==> b[2] == 0)
  {
    hide PutU16, PutU32, U32At, TypeFromCode, TypeCode;
    var r := ReadMessageBegin(b);
    var n := U32At(b, 4);
    var c := b[..r.len];
    assert U16At(b, 0) == U16At(c[..2], 0);
    Rewrite16(c[..2]);
    assert U32At(b, 4) == U32At(c[4..8], 0) by { SameWord(b, 4, c[4..8]); }
    assert U32At(b, 8 + n) == U32At(c[8 + n..], 0) by { SameWord(b, 8 + n, c[8 + n..]); }
    Rewrite32(c[4..8]);
    Rewrite32(c[8 + n..]);
    var w := WriteBinary(r.tok);
    assert w == c[..2] + [0, b[3]] + c[4..8] + b[8..8 + n] + c[8 + n..];
    assert w[2] == 0 && c[2] == b[2];
    assert b[2] == 0 ==> w == c;
  }

  lemma SameWord(b: seq<byte>, at: nat, c: seq<byte>)
    requires at + 4 <= |b| && |c| == 4 && c == b[at..at + 4]
    ensures U32At(b, at) == U32At(c, 0)
  {
  }

  lemma SameLongWord(b: seq<byte>, c: seq<byte>)
    requires 8 <= |b| && c == b[..8]
    ensures U64At(b, 0) == U64At(c, 0)
  {
  }

  lemma {:induction false} ScalarRewritten(t: FieldType, b: seq<byte>)
    requires ReadScalar(t, b).Got?
    ensures var r := ReadScalar(t, b);
            && |WriteBinary(r.tok)| == r.len
            && (WriteBinary(r.tok) == b[..r.len] <==> (t == BOOL ==> b[0] <= 1))
  {
    hide PutU16, PutU32, PutU64, U16At, U32At, U64At, ReadString;
    if t == BOOL || t == BYTE {
      assert b[..1] == [b[0]];
    } else if t == I16 {
      SameHalfWord(b, 0, b[..2]);
      Rewrite16(b[..2]);
    } else if t == I32 {
      SameWord(b, 0, b[..4]);
      Rewrite32(b[..4]);
    } else if t == STRING {
      StringRewritten(b);
    } else {
      SameLongWord(b, b[..8]);
      Rewrite64(b[..8]);
    }
  }

  lemma {:induction false} StringRewritten(b: seq<byte>)
    requires ReadString(b).Got?
    ensures var r := ReadString(b); |WriteBinary(r.tok)| == r.len <= |b| && WriteBinary(r.tok) == b[..r.len]
  {
    hide PutU32, U32At;
    SameWord(b, 0, b[..4]);
    Rewrite32(b[..4]);
    var n := U32At(b, 0);
    assert b[..4 + n] == b[..4] + b[4..4 + n];
  }

  lemma SameHalfWord(b: seq<byte>, at: nat, c: seq<byte>)
    requires at + 2 <= |b| && |c| == 2 && c == b[at..at + 2]
    ensures U16At(b, at) == U16At(c, 0)
  {
  }

  lemma {:induction false} HeaderRewritten(k: Kind, b: seq<byte>)
    requires k in {FieldBeginK, ListBeginK, SetBeginK, MapBeginK} && ReadBinary(k, b).Got?
    ensures var r := ReadBinary(k, b); WriteBinary(r.tok) == b[..r.len]
  {
    hide PutU32, U32At;
    if k == FieldBeginK {
      if b[0] == STOP {
        assert b[..1] == [b[0]];
      } else {
        assert U16At(b, 1) == U16At(b[1..3], 0);
        Rewrite16(b[1..3]);
        assert b[..3] == [b[0]] + b[1..3];
      }
    } else if k == MapBeginK {
      SameWord(b, 2, b[2..6]);
      Rewrite32(b[2..6]);
      assert b[..6] == [b[0], b[1]] + b[2..6];
    } else {
      SameWord(b, 1, b[1..5]);
      Rewrite32(b[1..5]);
      assert b[..5] == [b[0]] + b[1..5];
    }
  }

  lemma TokenRewritten(k: Kind, b: seq<byte>)
    requires ReadBinary(k, b).Got?
    ensures var r := ReadBinary(k, b);
            && |WriteBinary(r.tok)| == r.len <= |b|
            && (WriteBinary(r.tok) == b[..r.len] <==> Canonical(k, b))
  {
    if k.MessageBeginK? {
      MessageBeginRewritten(b);
    } else if k.ScalarK? {
      ScalarRewritten(k.scalarType, b);
    } else if k in {FieldBeginK, ListBeginK, SetBeginK, MapBeginK} {
      HeaderRewritten(k, b);
    }
  }

  /** Every element of the run was in its canonical form. */
  predicate CanonicalRun(b: seq<byte>, ts: seq<Token>)
    decreases |ts|
  {
    ts == [] ||
    (&& var r := Read(BINARY, KindOf(ts[0]), b);
     && r.Got?
     && r.len <= |b|
     && Canonical(KindOf(ts[0]), b)
     && CanonicalRun(b[r.len..], ts[1..]))
  }

  /** Writing what was read gives back the octets read if and only if all were canonical. */
  lemma {:induction false} WrittenAsRead(b: seq<byte>, ts: seq<Token>)
    requires Lex(BINARY, b, ts).Left?
    ensures var rest := Lex(BINARY, b, ts).rest;
            && |WriteAll(BINARY, ts)| + |rest| == |b|
            && (WriteAll(BINARY, ts) + rest == b <==> CanonicalRun(b, ts))
    decreases |ts|
  {
    hide ReadBinary, WriteBinary, Canonical, KindOf;
    if ts == [] {
      assert [] + b == b;
    } else {
      var k := KindOf(ts[0]);
      var r := Read(BINARY, k, b);
      TokenRewritten(k, b);
      WrittenAsRead(b[r.len..], ts[1..]);
      var w, tail, rest := Write(BINARY, ts[0]), WriteAll(BINARY, ts[1..]), Lex(BINARY, b, ts).rest;
      assert w + tail + rest == w + (tail + rest);
      assert b == b[..r.len] + b[r.len..];
      assert w + (tail + rest) == b <==> w == b[..r.len] && tail + rest == b[r.len..] by {
        SplitEqual(w, tail + rest, b);
      }
    }
  }

  lemma SplitEqual(a: seq<byte>, c: seq<byte>, b: seq<byte>)
    requires |a| + |c| == |b|
    ensures a + c == b <==> a == b[..|a|] && c == b[|a|..]
  {
    assert (a + c)[..|a|] == a && (a + c)[|a|..] == c;
    assert b == b[..|a|] + b[|a|..];
  }

  /** A finished run of the machine has copied its input octet by octet if and only if every
      element of it was canonical. */
  lemma {:induction false} MachineCopiesOctets(p: Protocol, b: seq<byte>, m: Message, rest: seq<byte>)
    requires p == BINARY && Lawful(p) && ParseMessage(p, b) == Ok(m, rest)
    ensures WellTypedMessage(m)
    ensures var copy := WriteAll(p, MessageTokens(m));
            && Run(p, INITIAL, b) == Finished(Machine(Done, [], copy), rest)
            && (copy + rest == b <==> CanonicalRun(b, MessageTokens(m)))
  {
    hide Run, ParseMessage, Lex, WriteAll, CanonicalRun, MessageTokens, WellTypedMessage;
    MachineRefinesGrammar(p, b);
    ParseMessageExact(p, b, m, rest);
    WrittenAsRead(b, MessageTokens(m));
  }

  // ----- A message that is not copied octet by octet -----

  /** A call with one field, a boolean sent as 2. */
  const SAMPLE: seq<byte> := [0x80, 1, 0, 1, 0, 0, 0, 0, 0, 0, 0, 7, BOOL, 0, 1, 2, STOP]

  const SAMPLE_MESSAGE: Message := Message([], Call, 7, Field(1, Scalar(BoolValue(true)), NoFields))

  /** The elements of the message. */
  const SAMPLE_TOKENS: seq<Token> :=
    [MessageHeader([], Call, 7), StructHeader, FieldHeader(BOOL, 1), BoolValue(true),
     FieldFooter, FieldStop, StructFooter, MessageFooter]

  lemma SampleTokens()
    ensures WellTypedMessage(SAMPLE_MESSAGE) && MessageTokens(SAMPLE_MESSAGE) == SAMPLE_TOKENS
  {
    var v := Scalar(BoolValue(true));
    assert TypeOf(v) == BOOL && WellTyped(v) && Tokens(v) == [BoolValue(true)];
    assert FieldTokens(NoFields) == [];
    assert FieldTokens(Field(1, v, NoFields)) == [FieldHeader(BOOL, 1), BoolValue(true), FieldFooter];
  }

  lemma {:induction false} LexStep(b: seq<byte>, t: Token, ts: seq<Token>, len: nat)
    requires len <= |b| && ReadBinary(KindOf(t), b) == Got(t, len)
    ensures Lex(BINARY, b, [t] + ts) == Lex(BINARY, b[len..], ts)
    ensures CanonicalRun(b, [t] + ts) <==> Canonical(KindOf(t), b) && CanonicalRun(b[len..], ts)
  {
    hide ReadBinary, Canonical;
    assert ([t] + ts)[1..] == ts;
  }

  lemma SampleReads()
    ensures ReadBinary(MessageBeginK, SAMPLE) == Got(MessageHeader([], Call, 7), 12)
    ensures ReadBinary(FieldBeginK, SAMPLE[12..]) == Got(FieldHeader(BOOL, 1), 3)
    ensures ReadBinary(ScalarK(BOOL), SAMPLE[15..]) == Got(BoolValue(true), 1)
    ensures !Canonical(ScalarK(BOOL), SAMPLE[15..])
    ensures ReadBinary(FieldBeginK, SAMPLE[16..]) == Got(FieldStop, 1)
  {
    assert SAMPLE[8..8] == [];
  }

  lemma EndsAreFree(b: seq<byte>)
    ensures ReadBinary(StructBeginK, b) == Got(StructHeader, 0) && ReadBinary(FieldEndK, b) == Got(FieldFooter, 0)
    ensures ReadBinary(StructEndK, b) == Got(StructFooter, 0) && ReadBinary(MessageEndK, b) == Got(MessageFooter, 0)
    ensures b[0..] == b
  {
  }

  lemma {:induction false} SampleIsRead()
    ensures Lex(BINARY, SAMPLE, SAMPLE_TOKENS) == Left([])
    ensures !CanonicalRun(SAMPLE, SAMPLE_TOKENS)
  {
    SampleReads();
    hide Lex, CanonicalRun, ReadBinary, Canonical;
    var b1, b2, b3, b4 := SAMPLE[12..], SAMPLE[15..], SAMPLE[16..], SAMPLE[17..];
    assert b1[3..] == b2 && b2[1..] == b3 && b3[1..] == b4 && b4 == [];
    EndsAreFree(b1);
    EndsAreFree(b3);
    EndsAreFree(b4);
    LexNothing(b4);
    LexStep(b4, MessageFooter, [], 0);
    var u7 := [MessageFooter] + [];
    LexStep(b4, StructFooter, u7, 0);
    var u6 := [StructFooter] + u7;
    LexStep(b3, FieldStop, u6, 1);
    var u5 := [FieldStop] + u6;
    LexStep(b3, FieldFooter, u5, 0);
    var u4 := [FieldFooter] + u5;
    LexStep(b2, BoolValue(true), u4, 1);
    var u3 := [BoolValue(true)] + u4;
    LexStep(b1, FieldHeader(BOOL, 1), u3, 3);
    var u2 := [FieldHeader(BOOL, 1)] + u3;
    LexStep(b1, StructHeader, u2, 0);
    var u1 := [StructHeader] + u2;
    LexStep(SAMPLE, MessageHeader([], Call, 7), u1, 12);
    assert [MessageHeader([], Call, 7)] + u1 == SAMPLE_TOKENS;
  }

  lemma LexNothing(b: seq<byte>)
    ensures Lex(BINARY, b, []) == Left(b)
  {
  }

  /** The machine takes the message and writes back something else. */
  lemma {:induction false} CopyCanDiffer(p: Protocol)
    requires p == BINARY && Lawful(p)
    ensures WellTypedMessage(SAMPLE_MESSAGE)
    ensures var copy := WriteAll(p, MessageTokens(SAMPLE_MESSAGE));
            && Run(p, INITIAL, SAMPLE) == Finished(Machine(Done, [], copy), [])
            && copy != SAMPLE
  {
    hide Run, ParseMessage, Lex, WriteAll, CanonicalRun, MessageTokens, WellTypedMessage;
    SampleTokens();
    SampleIsRead();
    ParseMessageExact(p, SAMPLE, SAMPLE_MESSAGE, []);
    MachineCopiesOctets(p, SAMPLE, SAMPLE_MESSAGE, []);
    var copy := WriteAll(p, MessageTokens(SAMPLE_MESSAGE));
    assert copy + [] == copy;
  }
}

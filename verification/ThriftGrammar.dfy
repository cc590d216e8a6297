/** The Thrift message grammar as trees, and a recursive-descent parser for it: the simple
    form that the stack machine is compared with. */
module ThriftGrammar {
  import opened Bytes
  import opened ThriftProtocol

  datatype Value =
    | Scalar(tok: Token)
    | Struct(fields: Fields)
    | List(elemType: FieldType, elems: Values)
    | Set(elemType: FieldType, elems: Values)
    | Map(keyType: FieldType, valueType: FieldType, entries: Entries)

  datatype Fields = NoFields | Field(id: i16, value: Value, others: Fields)
  datatype Values = NoValues | Elem(value: Value, others: Values)
  datatype Entries = NoEntries | Entry(key: Value, value: Value, others: Entries)

  datatype Message = Message(name: Text, messageType: MessageType, sequenceId: i32, body: Fields)

  function TypeOf(v: Value): (t: FieldType) {
    match v
    case Scalar(tok) => if KindOf(tok).ScalarK? then KindOf(tok).scalarType else STOP
    case Struct(_) => STRUCT
    case List(_, _) => LIST
    case Set(_, _) => SET
    case Map(_, _, _) => MAP
  }

  function Count(vs: Values): (n: nat) { match vs case NoValues => 0 case Elem(_, os) => 1 + Count(os) }

  function CountEntries(es: Entries): (n: nat) {
    match es case NoEntries => 0 case Entry(_, _, os) => 1 + CountEntries(os)
  }

  /** Every container holds values of its declared types, and its size can be written down. */
  predicate WellTyped(v: Value) {
    match v
    case Scalar(tok) => KindOf(tok).ScalarK?
    case Struct(fs) => WellTypedFields(fs)
    case List(t, vs) => WellTypedValues(t, vs) && Count(vs) < 0x8000_0000
    case Set(t, vs) => WellTypedValues(t, vs) && Count(vs) < 0x8000_0000
    case Map(kt, vt, es) => WellTypedEntries(kt, vt, es) && CountEntries(es) < 0x8000_0000
  }

  predicate WellTypedFields(fs: Fields) {
    match fs case NoFields => true case Field(_, v, os) => WellTyped(v) && WellTypedFields(os)
  }

  predicate WellTypedValues(t: FieldType, vs: Values)
    decreases vs
  {
    match vs
    case NoValues => true
    case Elem(v, os) => WellTyped(v) && TypeOf(v) == t && WellTypedValues(t, os)
  }

  predicate WellTypedEntries(kt: FieldType, vt: FieldType, es: Entries)
    decreases es
  {
    match es
    case NoEntries => true
    case Entry(k, v, os) =>
      WellTyped(k) && TypeOf(k) == kt && WellTyped(v) && TypeOf(v) == vt && WellTypedEntries(kt, vt, os)
  }

  lemma TypedIsNotStop(v: Value)
    requires WellTyped(v)
    ensures TypeOf(v) != STOP
  {
  }

  /** The elements of a value, in the order the protocol carries them. */
  function Tokens(v: Value): (ts: seq<Token>)
    requires WellTyped(v)
  {
    match v
    case Scalar(tok) => [tok]
    case Struct(fs) => [StructHeader] + FieldTokens(fs) + [FieldStop, StructFooter]
    case List(t, vs) => [ListHeader(t, Count(vs))] + ValueTokens(t, vs) + [ListFooter]
    case Set(t, vs) => [SetHeader(t, Count(vs))] + ValueTokens(t, vs) + [SetFooter]
    case Map(kt, vt, es) => [MapHeader(kt, vt, CountEntries(es))] + EntryTokens(kt, vt, es) + [MapFooter]
  }

  function FieldTokens(fs: Fields): (ts: seq<Token>)
    requires WellTypedFields(fs)
  {
    match fs
    case NoFields => []
    case Field(id, v, os) =>
      TypedIsNotStop(v);
      [FieldHeader(TypeOf(v), id)] + Tokens(v) + [FieldFooter] + FieldTokens(os)
  }

  function ValueTokens(t: FieldType, vs: Values): (ts: seq<Token>)
    requires WellTypedValues(t, vs)
    decreases vs
  {
    match vs case NoValues => [] case Elem(v, os) => Tokens(v) + ValueTokens(t, os)
  }

  function EntryTokens(kt: FieldType, vt: FieldType, es: Entries): (ts: seq<Token>)
    requires WellTypedEntries(kt, vt, es)
    decreases es
  {
    match es case NoEntries => [] case Entry(k, v, os) => Tokens(k) + Tokens(v) + EntryTokens(kt, vt, os)
  }

  predicate WellTypedMessage(m: Message) { WellTypedFields(m.body) }

  function MessageTokens(m: Message): (ts: seq<Token>)
    requires WellTypedMessage(m)
  {
    [MessageHeader(m.name, m.messageType, m.sequenceId)] + Tokens(Struct(m.body)) + [MessageFooter]
  }

  /** `Short`: the octets end inside the value.  `Bad`: they are not a value. */
  datatype Parse<T> = Short | Bad | Ok(value: T, rest: seq<byte>)

  function ParseValue(p: Protocol, t: FieldType, b: seq<byte>): (r: Parse<Value>)
    requires Lawful(p)
    ensures r.Ok? ==> |r.rest| < |b|
    decreases |b|, 2
  {
    if IsScalarType(t) then
      match Read(p, ScalarK(t), b)
      case More => Short
      case Invalid => Bad
      case Got(tok, n) => Ok(Scalar(tok), b[n..])
    else if t == STRUCT then ParseStruct(p, b)
    else if t == LIST || t == SET then ParseSequence(p, t, b)
    else if t == MAP then ParseMap(p, b)
    else Bad
  }

  function ParseStruct(p: Protocol, b: seq<byte>): (r: Parse<Value>)
    requires Lawful(p)
    ensures r.Ok? ==> |r.rest| < |b|
    decreases |b|, 1
  {
    match Read(p, StructBeginK, b)
    case More => Short
    case Invalid => Bad
    case Got(_, n) =>
      match ParseFields(p, b[n..])
      case Short => Short
      case Bad => Bad
      case Ok(fs, b1) =>
        match Read(p, StructEndK, b1)
        case More => Short
        case Invalid => Bad
        case Got(_, k) => Ok(Struct(fs), b1[k..])
  }

  /** The fields of a struct, up to and including the stop mark. */
  function ParseFields(p: Protocol, b: seq<byte>): (r: Parse<Fields>)
    requires Lawful(p)
    ensures r.Ok? ==> |r.rest| < |b|
    decreases |b|, 0
  {
    match Read(p, FieldBeginK, b)
    case More => Short
    case Invalid => Bad
    case Got(tok, n) =>
      if tok.FieldStop? then Ok(NoFields, b[n..])
      else
        match ParseValue(p, tok.fieldType, b[n..])
        case Short => Short
        case Bad => Bad
        case Ok(v, b1) =>
          match Read(p, FieldEndK, b1)
          case More => Short
          case Invalid => Bad
          case Got(_, k) =>
            match ParseFields(p, b1[k..])
            case Short => Short
            case Bad => Bad
            case Ok(fs, b2) => Ok(Field(tok.fieldId, v, fs), b2)
  }

  function BeginKind(t: FieldType): (k: Kind) { if t == SET then SetBeginK else ListBeginK }
  function EndKind(t: FieldType): (k: Kind) { if t == SET then SetEndK else ListEndK }

  function ParseSequence(p: Protocol, t: FieldType, b: seq<byte>): (r: Parse<Value>)
    requires Lawful(p)
    requires t == LIST || t == SET
    ensures r.Ok? ==> |r.rest| < |b|
    decreases |b|, 1
  {
    match Read(p, BeginKind(t), b)
    case More => Short
    case Invalid => Bad
    case Got(tok, n) =>
      match ParseValues(p, tok.elemType, tok.size, b[n..])
      case Short => Short
      case Bad => Bad
      case Ok(vs, b1) =>
        match Read(p, EndKind(t), b1)
        case More => Short
        case Invalid => Bad
        case Got(_, k) => Ok(if t == SET then Set(tok.elemType, vs) else List(tok.elemType, vs), b1[k..])
  }

  function ParseValues(p: Protocol, t: FieldType, count: nat, b: seq<byte>): (r: Parse<Values>)
    requires Lawful(p)
    ensures r.Ok? ==> |r.rest| <= |b|
    decreases |b|, 3
  {
    if count == 0 then Ok(NoValues, b)
    else
      match ParseValue(p, t, b)
      case Short => Short
      case Bad => Bad
      case Ok(v, b1) =>
        match ParseValues(p, t, count - 1, b1)
        case Short => Short
        case Bad => Bad
        case Ok(vs, b2) => Ok(Elem(v, vs), b2)
  }

  function ParseMap(p: Protocol, b: seq<byte>): (r: Parse<Value>)
    requires Lawful(p)
    ensures r.Ok? ==> |r.rest| < |b|
    decreases |b|, 1
  {
    match Read(p, MapBeginK, b)
    case More => Short
    case Invalid => Bad
    case Got(tok, n) =>
      match ParseEntries(p, tok.keyType, tok.valueType, tok.size, b[n..])
      case Short => Short
      case Bad => Bad
      case Ok(es, b1) =>
        match Read(p, MapEndK, b1)
        case More => Short
        case Invalid => Bad
        case Got(_, k) => Ok(Map(tok.keyType, tok.valueType, es), b1[k..])
  }

  function ParseEntries(p: Protocol, kt: FieldType, vt: FieldType, count: nat, b: seq<byte>): (r: Parse<Entries>)
    requires Lawful(p)
    ensures r.Ok? ==> |r.rest| <= |b|
    decreases |b|, 3
  {
    if count == 0 then Ok(NoEntries, b)
    else
      match ParseValue(p, kt, b)
      case Short => Short
      case Bad => Bad
      case Ok(k, b1) =>
        match ParseValue(p, vt, b1)
        case Short => Short
        case Bad => Bad
        case Ok(v, b2) =>
          match ParseEntries(p, kt, vt, count - 1, b2)
          case Short => Short
          case Bad => Bad
          case Ok(es, b3) => Ok(Entry(k, v, es), b3)
  }

  function ParseMessage(p: Protocol, b: seq<byte>): (r: Parse<Message>)
    requires Lawful(p)
  {
    match Read(p, MessageBeginK, b)
    case More => Short
    case Invalid => Bad
    case Got(tok, n) =>
      match ParseStruct(p, b[n..])
      case Short => Short
      case Bad => Bad
      case Ok(s, b1) =>
        match Read(p, MessageEndK, b1)
        case More => Short
        case Invalid => Bad
        case Got(_, k) => Ok(Message(tok.name, tok.messageType, tok.sequenceId, s.fields), b1[k..])
  }

  // ----- The parser accepts exactly the grammar -----

  lemma LexOne(p: Protocol, b: seq<byte>, t: Token, ts: seq<Token>)
    ensures Lex(p, b, [t] + ts) ==
      var r := Read(p, KindOf(t), b);
      if r.Got? && r.tok == t && r.len <= |b| then Lex(p, b[r.len..], ts) else Stuck
  {
    assert ([t] + ts)[1..] == ts;
  }

  lemma LexLast(p: Protocol, b: seq<byte>, t: Token)
    ensures Lex(p, b, [t]) ==
      var r := Read(p, KindOf(t), b);
      if r.Got? && r.tok == t && r.len <= |b| then Left(b[r.len..]) else Stuck
  {
    assert [t] + [] == [t];
    LexOne(p, b, t, []);
  }

  /** Two runs of elements with one element on either side. */
  lemma LexBracket(p: Protocol, b: seq<byte>, open: Token, inner: seq<Token>, close: seq<Token>)
    ensures Lex(p, b, [open] + inner + close) ==
      var r := Read(p, KindOf(open), b);
      if r.Got? && r.tok == open && r.len <= |b|
      then match Lex(p, b[r.len..], inner) case Stuck => Stuck case Left(m) => Lex(p, m, close)
      else Stuck
  {
    assert [open] + inner + close == [open] + (inner + close);
    LexOne(p, b, open, inner + close);
    var r := Read(p, KindOf(open), b);
    if r.Got? && r.tok == open && r.len <= |b| {
      LexConcat(p, b[r.len..], inner, close);
    }
  }

  lemma LexThree(p: Protocol, b: seq<byte>, r: seq<Token>, s: seq<Token>, t: seq<Token>)
    ensures Lex(p, b, r + s + t) ==
      match Lex(p, b, r)
      case Stuck => Stuck
      case Left(m) => match Lex(p, m, s) case Stuck => Stuck case Left(n) => Lex(p, n, t)
  {
    LexConcat(p, b, r + s, t);
    LexConcat(p, b, r, s);
  }

  lemma LexField(p: Protocol, b: seq<byte>, t: ValueType, id: i16, inner: seq<Token>, tail: seq<Token>)
    ensures Lex(p, b, [FieldHeader(t, id)] + inner + [FieldFooter] + tail) ==
      var r := Read(p, FieldBeginK, b);
      if r.Got? && r.tok == FieldHeader(t, id) && r.len <= |b|
      then match Lex(p, b[r.len..], inner)
        case Stuck => Stuck
        case Left(m) =>
          var e := Read(p, FieldEndK, m);
          if e.Got? && e.tok == FieldFooter && e.len <= |m| then Lex(p, m[e.len..], tail) else Stuck
      else Stuck
  {
    assert [FieldHeader(t, id)] + inner + [FieldFooter] + tail
        == [FieldHeader(t, id)] + inner + ([FieldFooter] + tail);
    LexBracket(p, b, FieldHeader(t, id), inner, [FieldFooter] + tail);
    var r := Read(p, FieldBeginK, b);
    if r.Got? && r.tok == FieldHeader(t, id) && r.len <= |b| && Lex(p, b[r.len..], inner).Left? {
      LexOne(p, Lex(p, b[r.len..], inner).rest, FieldFooter, tail);
    }
  }

  lemma EndToken(p: Protocol, k: Kind, b: seq<byte>)
    requires Lawful(p)
    requires Read(p, k, b).Got?
    ensures k == StructBeginK ==> Read(p, k, b).tok == StructHeader
    ensures k == StructEndK ==> Read(p, k, b).tok == StructFooter
    ensures k == FieldEndK ==> Read(p, k, b).tok == FieldFooter
    ensures k == ListEndK ==> Read(p, k, b).tok == ListFooter
    ensures k == SetEndK ==> Read(p, k, b).tok == SetFooter
    ensures k == MapEndK ==> Read(p, k, b).tok == MapFooter
    ensures k == MessageEndK ==> Read(p, k, b).tok == MessageFooter
  {
    assert KindOf(Read(p, k, b).tok) == k;
  }

  lemma ScalarKindType(p: Protocol, t: FieldType, b: seq<byte>)
    requires Lawful(p)
    requires Read(p, ScalarK(t), b).Got?
    ensures WellTyped(Scalar(Read(p, ScalarK(t), b).tok)) && TypeOf(Scalar(Read(p, ScalarK(t), b).tok)) == t
  {
    assert KindOf(Read(p, ScalarK(t), b).tok) == ScalarK(t);
  }

  /** What the parser accepts is a well-typed value of the type asked for, and its elements
      are exactly the octets consumed. */
  lemma {:induction false} ValueSound(p: Protocol, t: FieldType, b: seq<byte>)
    requires Lawful(p)
    requires ParseValue(p, t, b).Ok?
    ensures var r := ParseValue(p, t, b);
      WellTyped(r.value) && TypeOf(r.value) == t && Lex(p, b, Tokens(r.value)) == Left(r.rest)
    decreases |b|, 2
  {
    if IsScalarType(t) {
      ScalarKindType(p, t, b);
      LexLast(p, b, Read(p, ScalarK(t), b).tok);
    } else if t == STRUCT {
      StructSound(p, b);
    } else if t == LIST || t == SET {
      SequenceSound(p, t, b);
    } else {
      MapSound(p, b);
    }
  }

  lemma {:induction false} StructSound(p: Protocol, b: seq<byte>)
    requires Lawful(p)
    requires ParseStruct(p, b).Ok?
    ensures var r := ParseStruct(p, b);
      r.value.Struct? && WellTyped(r.value) && Lex(p, b, Tokens(r.value)) == Left(r.rest)
    decreases |b|, 1
  {
    var n := Read(p, StructBeginK, b).len;
    FieldsSound(p, b[n..]);
    var fs := ParseFields(p, b[n..]);
    EndToken(p, StructBeginK, b);
    EndToken(p, StructEndK, fs.rest);
    var body := FieldTokens(fs.value);
    assert [StructHeader] + body + [FieldStop, StructFooter]
        == [StructHeader] + (body + [FieldStop]) + [StructFooter];
    LexBracket(p, b, StructHeader, body + [FieldStop], [StructFooter]);
    LexLast(p, fs.rest, StructFooter);
  }

  lemma {:induction false} FieldsSound(p: Protocol, b: seq<byte>)
    requires Lawful(p)
    requires ParseFields(p, b).Ok?
    ensures var r := ParseFields(p, b);
      WellTypedFields(r.value) && Lex(p, b, FieldTokens(r.value) + [FieldStop]) == Left(r.rest)
    decreases |b|, 0
  {
    var h := Read(p, FieldBeginK, b);
    if h.tok.FieldStop? {
      assert [] + [FieldStop] == [FieldStop];
      LexLast(p, b, FieldStop);
    } else {
      ValueSound(p, h.tok.fieldType, b[h.len..]);
      var v := ParseValue(p, h.tok.fieldType, b[h.len..]);
      EndToken(p, FieldEndK, v.rest);
      var k := Read(p, FieldEndK, v.rest).len;
      FieldsSound(p, v.rest[k..]);
      var os := ParseFields(p, v.rest[k..]);
      var tail := FieldTokens(os.value) + [FieldStop];
      var fs := Field(h.tok.fieldId, v.value, os.value);
      assert FieldTokens(fs) + [FieldStop]
          == [FieldHeader(h.tok.fieldType, h.tok.fieldId)] + Tokens(v.value) + [FieldFooter] + tail;
      LexField(p, b, h.tok.fieldType, h.tok.fieldId, Tokens(v.value), tail);
    }
  }

  lemma {:induction false} SequenceSound(p: Protocol, t: FieldType, b: seq<byte>)
    requires Lawful(p)
    requires t == LIST || t == SET
    requires ParseSequence(p, t, b).Ok?
    ensures var r := ParseSequence(p, t, b);
      WellTyped(r.value) && TypeOf(r.value) == t && Lex(p, b, Tokens(r.value)) == Left(r.rest)
    decreases |b|, 1
  {
    hide Lex, ParseValues, ValueTokens;
    var h := Read(p, BeginKind(t), b);
    ValuesSound(p, h.tok.elemType, h.tok.size, b[h.len..]);
    var vs := ParseValues(p, h.tok.elemType, h.tok.size, b[h.len..]);
    EndToken(p, EndKind(t), vs.rest);
    var close := if t == SET then SetFooter else ListFooter;
    LexBracket(p, b, h.tok, ValueTokens(h.tok.elemType, vs.value), [close]);
    LexLast(p, vs.rest, close);
  }

  lemma {:induction false} ValuesSound(p: Protocol, t: FieldType, count: nat, b: seq<byte>)
    requires Lawful(p)
    requires ParseValues(p, t, count, b).Ok?
    ensures var r := ParseValues(p, t, count, b);
      WellTypedValues(t, r.value) && Count(r.value) == count && Lex(p, b, ValueTokens(t, r.value)) == Left(r.rest)
    decreases |b|, 3
  {
    if count != 0 {
      hide Lex, ParseValue, Tokens, Lawful;
      ValueSound(p, t, b);
      var v := ParseValue(p, t, b);
      ValuesSound(p, t, count - 1, v.rest);
      LexConcat(p, b, Tokens(v.value), ValueTokens(t, ParseValues(p, t, count - 1, v.rest).value));
    }
  }

  lemma {:induction false} MapSound(p: Protocol, b: seq<byte>)
    requires Lawful(p)
    requires ParseMap(p, b).Ok?
    ensures var r := ParseMap(p, b);
      WellTyped(r.value) && TypeOf(r.value) == MAP && Lex(p, b, Tokens(r.value)) == Left(r.rest)
    decreases |b|, 1
  {
    var h := Read(p, MapBeginK, b);
    EntriesSound(p, h.tok.keyType, h.tok.valueType, h.tok.size, b[h.len..]);
    var es := ParseEntries(p, h.tok.keyType, h.tok.valueType, h.tok.size, b[h.len..]);
    EndToken(p, MapEndK, es.rest);
    LexBracket(p, b, h.tok, EntryTokens(h.tok.keyType, h.tok.valueType, es.value), [MapFooter]);
    LexLast(p, es.rest, MapFooter);
  }

  lemma {:induction false} EntriesSound(p: Protocol, kt: FieldType, vt: FieldType, count: nat, b: seq<byte>)
    requires Lawful(p)
    requires ParseEntries(p, kt, vt, count, b).Ok?
    ensures var r := ParseEntries(p, kt, vt, count, b);
      WellTypedEntries(kt, vt, r.value) && CountEntries(r.value) == count
      && Lex(p, b, EntryTokens(kt, vt, r.value)) == Left(r.rest)
    decreases |b|, 3
  {
    hide Lex, ParseValue, ParseEntries, Tokens, Lawful, WellTyped, TypeOf;
    if count == 0 {
      NoEntriesSound(p, kt, vt, b);
    } else {
      EntriesParts(p, kt, vt, count, b);
      ValueSound(p, kt, b);
      var k := ParseValue(p, kt, b);
      ValueSound(p, vt, k.rest);
      var v := ParseValue(p, vt, k.rest);
      EntriesSound(p, kt, vt, count - 1, v.rest);
      var es := ParseEntries(p, kt, vt, count - 1, v.rest).value;
      LexThree(p, b, Tokens(k.value), Tokens(v.value), EntryTokens(kt, vt, es));
      assert EntryTokens(kt, vt, Entry(k.value, v.value, es))
          == Tokens(k.value) + Tokens(v.value) + EntryTokens(kt, vt, es);
    }
  }

  lemma NoEntriesSound(p: Protocol, kt: FieldType, vt: FieldType, b: seq<byte>)
    requires Lawful(p)
    ensures ParseEntries(p, kt, vt, 0, b) == Ok(NoEntries, b) && Lex(p, b, []) == Left(b)
  {
  }

  lemma {:induction false} EntriesParts(p: Protocol, kt: FieldType, vt: FieldType, count: nat, b: seq<byte>)
    requires Lawful(p) && count > 0 && ParseEntries(p, kt, vt, count, b).Ok?
    ensures var k := ParseValue(p, kt, b);
      && k.Ok?
      && var v := ParseValue(p, vt, k.rest);
      && v.Ok?
      && |v.rest| < |k.rest| < |b|
      && var es := ParseEntries(p, kt, vt, count - 1, v.rest);
      && es.Ok?
      && ParseEntries(p, kt, vt, count, b) == Ok(Entry(k.value, v.value, es.value), es.rest)
  {
    hide ParseValue, Lawful;
  }

  /** Conversely, octets that carry the elements of a well-typed value parse to that value. */
  lemma {:induction false} ValueComplete(p: Protocol, v: Value, b: seq<byte>)
    requires Lawful(p) && WellTyped(v)
    requires Lex(p, b, Tokens(v)).Left?
    ensures ParseValue(p, TypeOf(v), b) == Ok(v, Lex(p, b, Tokens(v)).rest)
    decreases v
  {
    match v
    case Scalar(tok) => LexLast(p, b, tok); assert IsScalarType(TypeOf(v));
    case Struct(fs) => StructComplete(p, fs, b);
    case List(t, vs) => SequenceComplete(p, LIST, t, vs, b);
    case Set(t, vs) => SequenceComplete(p, SET, t, vs, b);
    case Map(kt, vt, es) => MapComplete(p, kt, vt, es, b);
  }

  lemma {:induction false} SequenceComplete(p: Protocol, c: FieldType, t: FieldType, vs: Values, b: seq<byte>)
    requires Lawful(p) && WellTypedValues(t, vs) && Count(vs) < 0x8000_0000
    requires c == LIST || c == SET
    requires Lex(p, b, Tokens(if c == SET then Set(t, vs) else List(t, vs))).Left?
    ensures var v := if c == SET then Set(t, vs) else List(t, vs);
      ParseSequence(p, c, b) == Ok(v, Lex(p, b, Tokens(v)).rest)
    decreases vs, 1
  {
    var n := Count(vs);
    var open := if c == SET then SetHeader(t, n) else ListHeader(t, n);
    var close := if c == SET then SetFooter else ListFooter;
    var inner := ValueTokens(t, vs);
    LexBracket(p, b, open, inner, [close]);
    var b1 := b[Read(p, BeginKind(c), b).len..];
    ValuesComplete(p, t, vs, b1);
    LexLast(p, Lex(p, b1, inner).rest, close);
  }

  lemma {:induction false} MapComplete(p: Protocol, kt: FieldType, vt: FieldType, es: Entries, b: seq<byte>)
    requires Lawful(p) && WellTyped(Map(kt, vt, es))
    requires Lex(p, b, Tokens(Map(kt, vt, es))).Left?
    ensures ParseMap(p, b) == Ok(Map(kt, vt, es), Lex(p, b, Tokens(Map(kt, vt, es))).rest)
    decreases es, 1
  {
    var open := MapHeader(kt, vt, CountEntries(es));
    var inner := EntryTokens(kt, vt, es);
    LexBracket(p, b, open, inner, [MapFooter]);
    var b1 := b[Read(p, MapBeginK, b).len..];
    EntriesComplete(p, kt, vt, es, b1);
    LexLast(p, Lex(p, b1, inner).rest, MapFooter);
  }

  lemma {:induction false} StructComplete(p: Protocol, fs: Fields, b: seq<byte>)
    requires Lawful(p) && WellTypedFields(fs)
    requires Lex(p, b, Tokens(Struct(fs))).Left?
    ensures ParseStruct(p, b) == Ok(Struct(fs), Lex(p, b, Tokens(Struct(fs))).rest)
    decreases fs, 1
  {
    var body := FieldTokens(fs);
    assert Tokens(Struct(fs)) == [StructHeader] + (body + [FieldStop]) + [StructFooter];
    LexBracket(p, b, StructHeader, body + [FieldStop], [StructFooter]);
    var b1 := b[Read(p, StructBeginK, b).len..];
    FieldsComplete(p, fs, b1);
    LexLast(p, Lex(p, b1, body + [FieldStop]).rest, StructFooter);
  }

  lemma FieldStep(p: Protocol, b: seq<byte>, t: ValueType, id: i16, v: Value,
                  b2: seq<byte>, os: Fields, rest: seq<byte>)
    requires Lawful(p)
    requires Read(p, FieldBeginK, b).Got? && Read(p, FieldBeginK, b).tok == FieldHeader(t, id)
    requires ParseValue(p, t, b[Read(p, FieldBeginK, b).len..]) == Ok(v, b2)
    requires Read(p, FieldEndK, b2).Got?
    requires ParseFields(p, b2[Read(p, FieldEndK, b2).len..]) == Ok(os, rest)
    ensures ParseFields(p, b) == Ok(Field(id, v, os), rest)
  {
  }

  lemma EntryStep(p: Protocol, kt: FieldType, vt: FieldType, count: nat, b: seq<byte>,
                  k: Value, b1: seq<byte>, v: Value, b2: seq<byte>, os: Entries, rest: seq<byte>)
    requires Lawful(p)
    requires ParseValue(p, kt, b) == Ok(k, b1) && ParseValue(p, vt, b1) == Ok(v, b2)
    requires ParseEntries(p, kt, vt, count, b2) == Ok(os, rest)
    ensures ParseEntries(p, kt, vt, count + 1, b) == Ok(Entry(k, v, os), rest)
  {
  }

  lemma {:induction false} FieldsComplete(p: Protocol, fs: Fields, b: seq<byte>)
    requires Lawful(p) && WellTypedFields(fs)
    requires Lex(p, b, FieldTokens(fs) + [FieldStop]).Left?
    ensures ParseFields(p, b) == Ok(fs, Lex(p, b, FieldTokens(fs) + [FieldStop]).rest)
    decreases fs, 0
  {
    match fs
    case NoFields =>
      assert [] + [FieldStop] == [FieldStop];
      LexLast(p, b, FieldStop);
    case Field(id, v, os) =>
      TypedIsNotStop(v);
      var tail := FieldTokens(os) + [FieldStop];
      assert FieldTokens(fs) + [FieldStop] == [FieldHeader(TypeOf(v), id)] + Tokens(v) + [FieldFooter] + tail;
      LexField(p, b, TypeOf(v), id, Tokens(v), tail);
      var b1 := b[Read(p, FieldBeginK, b).len..];
      ValueComplete(p, v, b1);
      var b2 := Lex(p, b1, Tokens(v)).rest;
      var b3 := b2[Read(p, FieldEndK, b2).len..];
      FieldsComplete(p, os, b3);
      FieldStep(p, b, TypeOf(v), id, v, b2, os, Lex(p, b3, tail).rest);
  }

  lemma {:induction false} ValuesComplete(p: Protocol, t: FieldType, vs: Values, b: seq<byte>)
    requires Lawful(p) && WellTypedValues(t, vs)
    requires Lex(p, b, ValueTokens(t, vs)).Left?
    ensures ParseValues(p, t, Count(vs), b) == Ok(vs, Lex(p, b, ValueTokens(t, vs)).rest)
    decreases vs, 0
  {
    match vs
    case NoValues =>
    case Elem(v, os) =>
      LexConcat(p, b, Tokens(v), ValueTokens(t, os));
      ValueComplete(p, v, b);
      ValuesComplete(p, t, os, Lex(p, b, Tokens(v)).rest);
  }

  lemma {:induction false} EntriesComplete(p: Protocol, kt: FieldType, vt: FieldType, es: Entries, b: seq<byte>)
    requires Lawful(p) && WellTypedEntries(kt, vt, es)
    requires Lex(p, b, EntryTokens(kt, vt, es)).Left?
    ensures ParseEntries(p, kt, vt, CountEntries(es), b) == Ok(es, Lex(p, b, EntryTokens(kt, vt, es)).rest)
    decreases es, 0
  {
    match es
    case NoEntries =>
    case Entry(k, v, os) =>
      LexThree(p, b, Tokens(k), Tokens(v), EntryTokens(kt, vt, os));
      ValueComplete(p, k, b);
      var b1 := Lex(p, b, Tokens(k)).rest;
      ValueComplete(p, v, b1);
      var b2 := Lex(p, b1, Tokens(v)).rest;
      EntriesComplete(p, kt, vt, os, b2);
      EntryStep(p, kt, vt, CountEntries(os), b, k, b1, v, b2, os, Lex(p, b2, EntryTokens(kt, vt, os)).rest);
  }

  lemma {:induction false} MessageSound(p: Protocol, b: seq<byte>, m: Message, rest: seq<byte>)
    requires Lawful(p) && ParseMessage(p, b) == Ok(m, rest)
    ensures WellTypedMessage(m) && Lex(p, b, MessageTokens(m)) == Left(rest)
  {
    hide Lex, ParseStruct, Tokens;
    var h := Read(p, MessageBeginK, b);
    StructSound(p, b[h.len..]);
    var s := ParseStruct(p, b[h.len..]);
    EndToken(p, MessageEndK, s.rest);
    LexBracket(p, b, h.tok, Tokens(Struct(m.body)), [MessageFooter]);
    LexLast(p, s.rest, MessageFooter);
  }

  lemma {:induction false} MessageComplete(p: Protocol, b: seq<byte>, m: Message, rest: seq<byte>)
    requires Lawful(p) && WellTypedMessage(m) && Lex(p, b, MessageTokens(m)) == Left(rest)
    ensures ParseMessage(p, b) == Ok(m, rest)
  {
    hide Lex, ParseStruct, Lawful, Tokens;
    var h := Read(p, MessageBeginK, b);
    LexBracket(p, b, MessageHeader(m.name, m.messageType, m.sequenceId), Tokens(Struct(m.body)), [MessageFooter]);
    StructComplete(p, m.body, b[h.len..]);
    LexLast(p, Lex(p, b[h.len..], Tokens(Struct(m.body))).rest, MessageFooter);
  }

  /** A message parses from `b` if and only if it is well typed and its elements stand at the
      front of `b`. */
  lemma {:induction false} ParseMessageExact(p: Protocol, b: seq<byte>, m: Message, rest: seq<byte>)
    requires Lawful(p)
    ensures ParseMessage(p, b) == Ok(m, rest)
       <==> WellTypedMessage(m) && Lex(p, b, MessageTokens(m)) == Left(rest)
  {
    hide ParseMessage, WellTypedMessage, Lex, MessageTokens;
    if ParseMessage(p, b) == Ok(m, rest) {
      MessageSound(p, b, m, rest);
    }
    if WellTypedMessage(m) && Lex(p, b, MessageTokens(m)) == Left(rest) {
      MessageComplete(p, b, m, rest);
    }
  }

  /** Parsing undoes writing, whatever follows the message. */
  lemma ParseWritten(p: Protocol, m: Message, rest: seq<byte>)
    requires Lawful(p) && WellTypedMessage(m)
    ensures ParseMessage(p, WriteAll(p, MessageTokens(m)) + rest) == Ok(m, rest)
  {
    LexWritten(p, MessageTokens(m), rest);
    ParseMessageExact(p, WriteAll(p, MessageTokens(m)) + rest, m, rest);
  }
}

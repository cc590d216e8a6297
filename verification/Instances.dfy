/** A simple self-delimiting format for maps of strings. It shows that the laws asked of serializers
    can be met, and stands in for them where a concrete message is needed. */
module PlainFormat {
  import opened Bytes

  // ----- Numbers as octets: n zeros and a one -----

  function Unary(ns: seq<nat>): (b: seq<byte>)
    ensures |b| >= |ns|
  {
    if ns == [] then [] else UnaryOne(ns[0]) + Unary(ns[1..])
  }

  function UnaryOne(n: nat): (b: seq<byte>)
    ensures |b| > 0
  {
    if n == 0 then [1] else [0] + UnaryOne(n - 1)
  }

  /** The numbers in some octets, having counted `n` zeros; an unfinished number is dropped. */
  function Numbers(b: seq<byte>, n: nat): (ns: seq<nat>) {
    if b == [] then []
    else if b[0] == 0 then Numbers(b[1..], n + 1)
    else [n] + Numbers(b[1..], 0)
  }

  lemma {:induction false} NumbersOne(n: nat, k: nat, rest: seq<byte>)
    ensures Numbers(UnaryOne(n) + rest, k) == [k + n] + Numbers(rest, 0)
    decreases n
  {
    var b := UnaryOne(n) + rest;
    if n == 0 {
      assert b[1..] == rest;
    } else {
      assert b[1..] == UnaryOne(n - 1) + rest;
      NumbersOne(n - 1, k + 1, rest);
    }
  }

  lemma {:induction false} NumbersUnary(ns: seq<nat>)
    ensures Numbers(Unary(ns), 0) == ns
  {
    if ns != [] {
      NumbersOne(ns[0], 0, Unary(ns[1..]));
      NumbersUnary(ns[1..]);
    }
  }

  // ----- Entries as numbers, each part after its length -----

  type Entry = (seq<nat>, seq<nat>)

  function Flatten(es: seq<Entry>): (ns: seq<nat>) {
    if es == [] then []
    else [|es[0].0|] + es[0].0 + [|es[0].1|] + es[0].1 + Flatten(es[1..])
  }

  function Unflatten(ns: seq<nat>): (es: seq<Entry>) {
    if ns == [] then []
    else
      var k := ns[0];
      if |ns| < k + 2 then []
      else
        var v := ns[k + 1];
        if |ns| < k + 2 + v then []
        else [(ns[1..k + 1], ns[k + 2..k + 2 + v])] + Unflatten(ns[k + 2 + v..])
  }

  lemma {:induction false} UnflattenFlatten(es: seq<Entry>)
    ensures Unflatten(Flatten(es)) == es
  {
    if es != [] {
      var (x, y) := es[0];
      var ns, rest := Flatten(es), Flatten(es[1..]);
      var k, v := |x|, |y|;
      assert ns == [k] + x + [v] + y + rest;
      assert ns[0] == k && ns[k + 1] == v;
      assert ns[1..k + 1] == x && ns[k + 2..k + 2 + v] == y && ns[k + 2 + v..] == rest;
      UnflattenFlatten(es[1..]);
    }
  }

  lemma {:induction false} FlattenLength(es: seq<Entry>, i: nat)
    requires i < |es|
    ensures |Flatten(es)| >= |es[i].1|
  {
    if i > 0 {
      FlattenLength(es[1..], i - 1);
    }
  }

  // ----- Strings as numbers -----

  function Codes(s: string): (ns: seq<nat>)
    ensures |ns| == |s|
  {
    seq(|s|, i requires 0 <= i < |s| => s[i] as int)
  }

  function CharOf(n: nat): (c: char) {
    if n < 0xD800 || 0xE000 <= n < 0x11_0000 then n as char else '?'
  }

  function Chars(ns: seq<nat>): (s: string) {
    seq(|ns|, i requires 0 <= i < |ns| => CharOf(ns[i]))
  }

  lemma CharsCodes(s: string)
    ensures Chars(Codes(s)) == s
  {
    forall i | 0 <= i < |s|
      ensures Chars(Codes(s))[i] == s[i]
    {
      assert Codes(s)[i] == s[i] as int;
    }
  }

  // ----- Maps as lists of entries -----

  ghost function Listed<K(!new), V(!new)>(m: map<K, V>): (es: seq<(K, V)>)
    decreases |m|
  {
    if m == map[] then []
    else
      var k :| k in m;
      Smaller(m, k);
      [(k, m[k])] + Listed(m - {k})
  }

  lemma Smaller<K, V>(m: map<K, V>, k: K)
    requires k in m
    ensures |m - {k}| < |m|
  {
    assert m == (m - {k})[k := m[k]];
  }

  function ToMap<K(==), V>(es: seq<(K, V)>): (m: map<K, V>) {
    if es == [] then map[] else ToMap(es[1..])[es[0].0 := es[0].1]
  }

  lemma {:induction false} ToMapListed<K(!new), V(!new)>(m: map<K, V>)
    ensures ToMap(Listed(m)) == m
    decreases |m|
  {
    if m != map[] {
      var k := Listed(m)[0].0;
      Smaller(m, k);
      ToMapListed(m - {k});
      assert Listed(m)[1..] == Listed(m - {k});
      assert (m - {k})[k := m[k]] == m;
    }
  }

  lemma {:induction false} ListedAt<K(!new), V(!new)>(m: map<K, V>, k: K) returns (i: nat)
    requires k in m
    ensures i < |Listed(m)| && Listed(m)[i] == (k, m[k])
    decreases |m|
  {
    var k0 := Listed(m)[0].0;
    if k == k0 {
      i := 0;
    } else {
      Smaller(m, k0);
      i := ListedAt(m - {k0}, k);
      assert Listed(m)[1..] == Listed(m - {k0});
      i := i + 1;
    }
  }
}

/** A lawful serializer, and a request that a rewrite makes too large for the next decoder. */
module DubboInstance {
  import opened Wrappers
  import opened Bytes
  import opened Framing
  import opened DubboProtocol
  import opened DubboRewrite
  import opened PlainFormat

  function CodeObject(o: Object): (ns: seq<nat>) {
    match o case Text(s) => [0] + Codes(s) case Other(n) => [1, n]
  }

  function ObjectOf(ns: seq<nat>): (o: Object) {
    if ns == [] then Other(0)
    else if ns[0] == 0 then Text(Chars(ns[1..]))
    else if |ns| == 1 then Other(0) else Other(ns[1])
  }

  lemma ObjectCoded(o: Object)
    ensures ObjectOf(CodeObject(o)) == o
  {
    if o.Text? {
      assert CodeObject(o)[1..] == Codes(o.text);
      CharsCodes(o.text);
    }
  }

  function Code(es: seq<(Object, Object)>): (r: seq<PlainFormat.Entry>)
    ensures |r| == |es| && forall i | 0 <= i < |es| :: r[i] == (CodeObject(es[i].0), CodeObject(es[i].1))
  {
    seq(|es|, i requires 0 <= i < |es| => (CodeObject(es[i].0), CodeObject(es[i].1)))
  }

  function Uncode(es: seq<PlainFormat.Entry>): (r: seq<(Object, Object)>)
    ensures |r| == |es| && forall i | 0 <= i < |es| :: r[i] == (ObjectOf(es[i].0), ObjectOf(es[i].1))
  {
    seq(|es|, i requires 0 <= i < |es| => (ObjectOf(es[i].0), ObjectOf(es[i].1)))
  }

  lemma {:induction false} UncodeCode(es: seq<(Object, Object)>)
    ensures Uncode(Code(es)) == es
  {
    hide CodeObject, ObjectOf;
    forall i | 0 <= i < |es|
      ensures Uncode(Code(es))[i] == es[i]
    {
      ObjectCoded(es[i].0);
      ObjectCoded(es[i].1);
    }
  }

  ghost function Encode(a: Attachments): (b: seq<byte>) {
    [1] + Unary(Flatten(Code(Listed(a))))
  }

  function Decode(b: seq<byte>): (a: Attachments) {
    if b == [] then map[] else ToMap(Uncode(Unflatten(Numbers(b[1..], 0))))
  }

  lemma {:induction false} DecodeEncode(a: Attachments)
    ensures Encode(a) != [] && Decode(Encode(a)) == a
  {
    hide Code, Uncode;
    var es := Listed(a);
    NumbersUnary(Flatten(Code(es)));
    UnflattenFlatten(Code(es));
    UncodeCode(es);
    ToMapListed(a);
    assert Encode(a)[1..] == Unary(Flatten(Code(es)));
  }

  // ----- Requests -----

  /** How many octets `k` short strings take up: each is its length, below 32, and as many octets. */
  function SkipStrings(b: seq<byte>, k: nat): (r: Option<nat>)
    ensures r.Some? ==> r.value <= |b|
    decreases k
  {
    if k == 0 then Some(0)
    else if b == [] || b[0] >= 32 || |b| <= b[0] then None
    else
      var n := 1 + b[0];
      var r := SkipStrings(b[n..], k - 1);
      if r == None then None else Some(n + r.value)
  }

  lemma {:induction false} SkipOnlyStrings(b: seq<byte>, k: nat, m: nat, c: seq<byte>)
    requires SkipStrings(b, k).Some? && SkipStrings(b, k).value <= m <= |b|
    ensures SkipStrings(b[..m] + c, k) == SkipStrings(b, k)
    decreases k
  {
    if k > 0 {
      var n := 1 + b[0];
      assert (b[..m] + c)[n..] == b[n..][..m - n] + c;
      SkipOnlyStrings(b[n..], k - 1, m - n, c);
    }
  }

  lemma SkipOne(s: seq<byte>, rest: seq<byte>, k: nat)
    requires |s| < 32 && SkipStrings(rest, k).Some?
    ensures SkipStrings([|s|] + s + rest, k + 1) == Some(1 + |s| + SkipStrings(rest, k).value)
  {
    assert ([|s|] + s + rest)[1 + |s|..] == rest;
  }

  /** Attachments behind Dubbo version, service, its version, method and, for want of parameters, an
      empty string of their types. */
  function Locate(b: seq<byte>): (r: Option<nat>) {
    var r := SkipStrings(b, 4);
    if r.Some? && r.value < |b| && b[r.value] == 0 then Some(r.value + 1) else None
  }

  ghost const CALLS: Serializer := Serializer(Locate, Decode, Encode)

  /** The deserializer wants the first four strings. */
  const TAKES_CALLS: Deserializer := (h: Header, b: seq<byte>) => SkipStrings(b, 4).Some?

  lemma {:induction false} CallsAreLawful()
    ensures Lawful(CALLS) && ReadsRequestsUpTo(CALLS, TAKES_CALLS)
  {
    hide SkipStrings, Locate, Decode, Encode;
    forall a: Attachments
      ensures CALLS.encode(a) != [] && CALLS.decode(CALLS.encode(a)) == a
    {
      DecodeEncode(a);
    }
    forall b: seq<byte> | CALLS.locate(b).Some?
      ensures CALLS.locate(b).value <= |b|
    {
      LocateStable(b, []);
    }
    forall b: seq<byte>, c: seq<byte> | CALLS.locate(b).Some?
      ensures CALLS.locate(Front(CALLS, b) + c) == CALLS.locate(b)
      ensures SkipStrings(Front(CALLS, b) + c, 4).Some?
    {
      LocateStable(b, c);
    }
  }

  lemma {:induction false} LocateStable(b: seq<byte>, c: seq<byte>)
    requires Locate(b).Some?
    ensures Locate(b).value <= |b| && Locate(b[..Locate(b).value] + c) == Locate(b)
    ensures SkipStrings(b[..Locate(b).value] + c, 4).Some?
  {
    hide SkipStrings;
    var n := SkipStrings(b, 4).value;
    SkipOnlyStrings(b, 4, n + 1, c);
    assert (b[..n + 1] + c)[n] == b[n];
  }

  lemma EncodeLength(a: Attachments, k: Object)
    requires k in a && a[k].Text?
    ensures |Encode(a)| > |a[k].text|
  {
    var i := ListedAt(a, k);
    FlattenLength(Code(Listed(a)), i);
  }

  /** Version 2.0.2, service "d" without a version, method "m", no parameters, no attachments. */
  const CALL: seq<byte> := [5] + [50, 46, 48, 46, 50] + ([1] + [100] + ([0] + [] + ([1] + [109] + [0, 1])))

  /** A two-way request with that call. */
  const REQUEST: seq<byte> := HeaderOctets(0xC2, 0, 1, 13) + CALL

  const LONG: string := seq(MAX_BODY_SIZE, _ => 'x')

  lemma {:induction false} CallIsLocated()
    ensures |CALL| == 13 && SkipStrings(CALL, 4) == Some(11) && Locate(CALL) == Some(12)
  {
    assert SkipStrings([0, 1], 0) == Some(0);
    hide SkipStrings;
    SkipOne([109], [0, 1], 0);
    SkipOne([], [1] + [109] + [0, 1], 1);
    SkipOne([100], [0] + [] + ([1] + [109] + [0, 1]), 2);
    SkipOne([50, 46, 48, 46, 50], [1] + [100] + ([0] + [] + ([1] + [109] + [0, 1])), 3);
    assert CALL[11] == 0;
  }

  /** A two-way request, or a response, with a body that is accepted is one frame. */
  lemma {:induction false} MessageIsFrame(accepts: Deserializer, flag: byte, status: byte, body: seq<byte>)
    requires IsValidInfo(flag, status) && !IsHeartbeat(TypeOf(flag)) && |body| <= MAX_BODY_SIZE
    requires AcceptsBody(accepts, Header(TypeOf(flag), 1, |body|, status), body)
    ensures var b := HeaderOctets(flag, status, 1, |body|) + body;
            && DecodeHeader(b) == Decoded(Header(TypeOf(flag), 1, |body|, status))
            && b[MESSAGE_SIZE..] == body
            && CutFrame(accepts, b) == Whole(|b|, false)
  {
    hide DecodeHeader, HeaderOctets, TypeOf, IsValidInfo, AcceptsBody;
    var b := HeaderOctets(flag, status, 1, |body|) + body;
    HeaderReadsBack(flag, status, 1, |body|, body);
    assert b[MESSAGE_SIZE..|b|] == body;
  }

  lemma {:induction false} RequestIsFrame()
    ensures DecodeHeader(REQUEST) == Decoded(Header(Request, 1, 13, 0)) && REQUEST[MESSAGE_SIZE..] == CALL
    ensures CutFrame(TAKES_CALLS, REQUEST) == Whole(|REQUEST|, false)
  {
    assert TypeOf(0xC2) == Request && IsValidInfo(0xC2, 0);
    CallIsLocated();
    hide DecodeHeader, HeaderOctets, TypeOf, IsValidInfo, SkipStrings, Locate, CutFrame;
    MessageIsFrame(TAKES_CALLS, 0xC2, 0, CALL);
  }

  /** The decoder takes the request, the rewrite gives it one long attachment, and the same decoder
      does not take the result. */
  lemma {:induction false} RewriteCanBreakFrame(rest: seq<byte>)
    ensures Lawful(CALLS) && Located(CALLS, REQUEST)
    ensures CutFrame(TAKES_CALLS, REQUEST) == Whole(|REQUEST|, false)
    ensures var r := Rewritten(CALLS, REQUEST, map["k" := LONG]);
            CutFrame(TAKES_CALLS, r + rest) != Whole(|r|, false)
  {
    CallsAreLawful();
    RequestIsFrame();
    CallIsLocated();
    hide DecodeHeader, Lawful, Encode, Locate, ReadsRequestsUpTo, CutFrame, HeaderOctets;
    var m: Mutation := map["k" := LONG];
    var a := Override(AttachmentsOf(CALLS, REQUEST), m);
    OverrideAt(AttachmentsOf(CALLS, REQUEST), m, Text("k"));
    EncodeLength(a, Text("k"));
    RequestStaysFramed(CALLS, TAKES_CALLS, REQUEST, m, rest);
    RewriteFront(CALLS, REQUEST, m);
  }

  // ----- A response whose type admits no attachments -----

  /** Bodies that are one octet and then attachments; in a result the octet is its type. */
  ghost const TYPED: Serializer := Serializer((b: seq<byte>) => if b == [] then None else Some(1), Decode, Encode)

  const FIRST: ResultReader := (b: seq<byte>) => if b == [] then None else Some((b[0] as int, 1))

  const TAKES_RESULTS: Deserializer := (h: Header, b: seq<byte>) => AcceptsResult(FIRST, b)

  /** A response without a value. */
  const NULL_RESPONSE: seq<byte> := HeaderOctets(0x02, OK, 1, 1) + [WITH_NULL_VALUE]

  lemma TypedIsLawful()
    ensures Lawful(TYPED) && ReadsResults(TYPED, TAKES_RESULTS, FIRST)
  {
    forall a: Attachments
      ensures TYPED.encode(a) != [] && TYPED.decode(TYPED.encode(a)) == a
    {
      DecodeEncode(a);
    }
  }

  lemma {:induction false} NullResponseIsFrame()
    ensures DecodeHeader(NULL_RESPONSE) == Decoded(Header(Response, 1, 1, OK))
    ensures NULL_RESPONSE[MESSAGE_SIZE..] == [WITH_NULL_VALUE]
    ensures CutFrame(TAKES_RESULTS, NULL_RESPONSE) == Whole(|NULL_RESPONSE|, false)
  {
    assert TypeOf(0x02) == Response && IsValidInfo(0x02, OK);
    assert AcceptsResult(FIRST, [WITH_NULL_VALUE]);
    hide DecodeHeader, HeaderOctets, TypeOf, IsValidInfo, CutFrame;
    MessageIsFrame(TAKES_RESULTS, 0x02, OK, [WITH_NULL_VALUE]);
  }

  /** The decoder takes the response, and does not take it after any rewrite. */
  lemma {:induction false} RewriteCanBreakResponse(m: Mutation, rest: seq<byte>)
    requires m != map[]
    ensures Lawful(TYPED) && Located(TYPED, NULL_RESPONSE)
    ensures CutFrame(TAKES_RESULTS, NULL_RESPONSE) == Whole(|NULL_RESPONSE|, false)
    ensures var r := Rewritten(TYPED, NULL_RESPONSE, m);
            CutFrame(TAKES_RESULTS, r + rest) != Whole(|r|, false)
  {
    TypedIsLawful();
    NullResponseIsFrame();
    hide DecodeHeader, CutFrame;
    ResponseStaysFramed(TYPED, TAKES_RESULTS, FIRST, NULL_RESPONSE, m, rest);
  }
}

/** A lawful protobuf stand-in, and a message that a rewrite cuts short. */
module TrpcInstance {
  import opened Wrappers
  import opened Bytes
  import opened Framing
  import opened TrpcProtocol
  import opened TrpcRewrite
  import opened PlainFormat

  function Code(es: seq<(string, string)>): (r: seq<PlainFormat.Entry>)
    ensures |r| == |es| && forall i | 0 <= i < |es| :: r[i] == (Codes(es[i].0), Codes(es[i].1))
  {
    seq(|es|, i requires 0 <= i < |es| => (Codes(es[i].0), Codes(es[i].1)))
  }

  function Uncode(es: seq<PlainFormat.Entry>): (r: seq<(string, string)>)
    ensures |r| == |es| && forall i | 0 <= i < |es| :: r[i] == (Chars(es[i].0), Chars(es[i].1))
  {
    seq(|es|, i requires 0 <= i < |es| => (Chars(es[i].0), Chars(es[i].1)))
  }

  lemma {:induction false} UncodeCode(es: seq<(string, string)>)
    ensures Uncode(Code(es)) == es
  {
    hide Codes, Chars;
    forall i | 0 <= i < |es|
      ensures Uncode(Code(es))[i] == es[i]
    {
      CharsCodes(es[i].0);
      CharsCodes(es[i].1);
    }
  }

  ghost function Serialize(h: ProtocolHeader): (raw: seq<byte>) {
    Unary([h.fields] + Flatten(Code(Listed(h.transInfo))))
  }

  function Parse(raw: seq<byte>): (r: Option<ProtocolHeader>) {
    var ns := Numbers(raw, 0);
    if ns == [] then None else Some(ProtocolHeader(ToMap(Uncode(Unflatten(ns[1..]))), ns[0]))
  }

  ghost const PLAIN: Protobuf := Protobuf(Parse, Serialize)

  lemma {:induction false} PlainIsLawful()
    ensures Lawful(PLAIN)
  {
    hide Code, Uncode;
    forall h: ProtocolHeader
      ensures PLAIN.parse(PLAIN.serialize(h)) == Some(h)
    {
      var es := Listed(h.transInfo);
      var ns := [h.fields] + Flatten(Code(es));
      NumbersUnary(ns);
      assert ns[1..] == Flatten(Code(es));
      UnflattenFlatten(Code(es));
      UncodeCode(es);
      ToMapListed(h.transInfo);
    }
  }

  lemma SerializeLength(h: ProtocolHeader, k: string)
    requires k in h.transInfo
    ensures |Serialize(h)| > |h.transInfo[k]|
  {
    var i := ListedAt(h.transInfo, k);
    FlattenLength(Code(Listed(h.transInfo)), i);
  }

  const LONG: string := seq(MAX_PB_HEADER, _ => 'x')

  /** A unary message with an empty header and no body. */
  ghost const MESSAGE: seq<byte> :=
    Assembled(FixedHeader(0, UNARY, 0, 0, 0, 0), Serialize(ProtocolHeader(map[], 0)), [])

  lemma {:induction false} MessageIsMutable()
    ensures Mutable(PLAIN, MESSAGE) && HeaderAt(MESSAGE).streamFrameType == UNARY
    ensures PLAIN.parse(RawOf(MESSAGE)) == Some(ProtocolHeader(map[], 0))
  {
    PlainIsLawful();
    var empty := ProtocolHeader(map[], 0);
    var raw := Serialize(empty);
    assert raw == [1] by {
      assert [0] + Flatten(Code(Listed(empty.transInfo))) == [0];
      assert Unary([0]) == UnaryOne(0) + Unary([]);
    }
    assert PLAIN.parse(raw) == Some(empty);
    hide HeaderAt, HasMagic, Assembled, Serialize, Parse;
    AssembledParts(FixedHeader(0, UNARY, 0, 0, 0, 0), raw, [], []);
    assert MESSAGE + [] == MESSAGE;
  }

  /** The rewrite gives the message one long entry, and the frame checker does not take the result whole. */
  lemma {:induction false} MutateCanBreakFrame(parses: Parser, rest: seq<byte>)
    requires forall raw :: parses(UNARY, raw) <==> PLAIN.parse(raw).Some?
    ensures Lawful(PLAIN) && Mutable(PLAIN, MESSAGE)
    ensures var f := Mutated(PLAIN, MESSAGE, map["k" := LONG]);
            CutFrame(parses, f + rest) != Whole(|f|, false)
  {
    PlainIsLawful();
    MessageIsMutable();
    hide HeaderAt, HasMagic, Lawful, Serialize, Parse;
    var m: Mutation := map["k" := LONG];
    SerializeLength(NewHeader(PLAIN, MESSAGE, m), "k");
    MutatedIsOneFrame(PLAIN, parses, MESSAGE, m, rest);
  }
}

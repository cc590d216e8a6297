/** Rewriting a Dubbo message in place: the attachments at its end are overridden by a mutation,
    serialized again, and the length in the header is recomputed. */
module DubboRewrite {
  import opened Wrappers
  import opened Bytes
  import opened Framing
  import opened DubboProtocol

  /** A Hessian2 value; everything but a string is left alone. */
  datatype Object = Text(text: string) | Other(id: nat)

  type Attachments = map<Object, Object>
  type Mutation = map<string, string>

  function AsAttachments(m: Mutation): (a: Attachments) {
    map k | k in m :: Text(k) := Text(m[k])
  }

  /** The attachments with every key of the mutation set to its new value. */
  function Override(a: Attachments, m: Mutation): (r: Attachments) {
    a + AsAttachments(m)
  }

  predicate Mutates(m: Mutation, o: Object) {
    o.Text? && o.text in m
  }

  lemma OverrideAt(a: Attachments, m: Mutation, o: Object)
    ensures o in Override(a, m) <==> o in a || Mutates(m, o)
    ensures Mutates(m, o) ==> Override(a, m)[o] == Text(m[o.text])
    ensures o in a && !Mutates(m, o) ==> Override(a, m)[o] == a[o]
  {
    assert Mutates(m, o) ==> Text(o.text) in AsAttachments(m);
  }

  lemma {:induction false} OverrideTwice(a: Attachments, m: Mutation, n: Mutation)
    ensures Override(Override(a, m), n) == Override(a, m + n)
  {
    hide Override;
    var l, r := Override(Override(a, m), n), Override(a, m + n);
    forall o: Object
      ensures o in l <==> o in r
      ensures o in l ==> l[o] == r[o]
    {
      OverrideAt(a, m, o);
      OverrideAt(Override(a, m), n, o);
      OverrideAt(a, m + n, o);
    }
  }

  function Restrict(m: Mutation, keys: set<string>): (r: Mutation) {
    map k | k in m && k in keys :: m[k]
  }

  lemma RestrictToAll(m: Mutation)
    ensures Restrict(m, m.Keys) == m
  {
  }

  lemma OverrideNothing(a: Attachments, m: Mutation)
    ensures Override(a, map[]) == a && Restrict(m, {}) == map[]
  {
    assert AsAttachments(map[]).Keys == {};
    assert Restrict(m, {}).Keys == {};
  }

  /** Setting one key and then overriding by the other keys is overriding by all of them. */
  lemma {:induction false} OverrideOne(a: Attachments, m: Mutation, keys: set<string>, k: string)
    requires k in keys && keys <= m.Keys
    ensures Override(a[Text(k) := Text(m[k])], Restrict(m, keys - {k})) == Override(a, Restrict(m, keys))
  {
    hide Override;
    var x, n, all := a[Text(k) := Text(m[k])], Restrict(m, keys - {k}), Restrict(m, keys);
    var l, r := Override(x, n), Override(a, all);
    forall o: Object
      ensures o in l <==> o in r
      ensures o in l ==> l[o] == r[o]
    {
      OverrideAt(x, n, o);
      OverrideAt(a, all, o);
    }
  }

  /** The string under a key, if there is one and it is a string. */
  function Find(a: Attachments, key: string): (r: Option<string>) {
    if Text(key) in a && a[Text(key)].Text? then Some(a[Text(key)].text) else None
  }

  /** After a mutation every key of it is found with its new value, and no other key changes. */
  lemma {:induction false} OverrideFind(a: Attachments, m: Mutation, key: string)
    ensures Find(Override(a, m), key) == if key in m then Some(m[key]) else Find(a, key)
  {
    hide Override;
    OverrideAt(a, m, Text(key));
  }

  /** Removing a key and then inserting it sets it, whether or not it was there. */
  lemma RemoveThenInsert(a: Attachments, k: Object, v: Object)
    ensures (a - {k})[k := v] == a[k := v]
  {
  }

  class Attachment {
    var attachment: Attachments
    var updated: bool
    const offset: nat  // where the attachments begin in the message

    constructor (value: Attachments, offset: nat)
      ensures attachment == value && this.offset == offset && !updated
    {
      attachment, this.offset, updated := value, offset, false;
    }

    /** Like the map it wraps, does not replace the value of a key that is there. */
    method Insert(key: string, value: string)
      modifies this
      ensures updated
      ensures attachment == if Text(key) in old(attachment) then old(attachment)
                            else old(attachment)[Text(key) := Text(value)]
    {
      updated := true;
      if Text(key) !in attachment {
        attachment := attachment[Text(key) := Text(value)];
      }
    }

    method Remove(key: string)
      modifies this
      ensures updated && attachment == old(attachment) - {Text(key)}
    {
      updated := true;
      attachment := attachment - {Text(key)};
    }

    /** Applies a mutation, in whatever order its entries come. */
    method Apply(mutation: Mutation)
      modifies this
      ensures attachment == Override(old(attachment), mutation)
      ensures updated == (old(updated) || mutation != map[])
    {
      hide Override, Restrict;
      ghost var a := attachment;
      var todo := mutation.Keys;
      RestrictToAll(mutation);
      while todo != {}
        invariant todo <= mutation.Keys
        invariant Override(attachment, Restrict(mutation, todo)) == Override(a, mutation)
        invariant updated == (old(updated) || todo != mutation.Keys)
        decreases |todo|
      {
        var k :| k in todo;
        RemoveThenInsert(attachment, Text(k), Text(mutation[k]));
        OverrideOne(attachment, mutation, todo, k);
        Remove(k);
        Insert(k, mutation[k]);
        todo := todo - {k};
      }
      OverrideNothing(attachment, mutation);
    }
  }

  // ----- Splicing the message -----

  const BODY_LENGTH_SIZE := 4

  /** The message with everything from `offset` on replaced and the length field set to match. */
  function Spliced(b: seq<byte>, headerSize: nat, offset: nat, attachments: seq<byte>): (r: seq<byte>)
    requires BODY_LENGTH_SIZE <= headerSize <= offset <= |b|
  {
    b[..headerSize - BODY_LENGTH_SIZE] + PutU32((offset - headerSize + |attachments|) % 0x1_0000_0000) +
    b[headerSize..offset] + attachments
  }

  method Splice(buffer: Buffer, headerSize: nat, offset: nat, attachments: seq<byte>)
    requires BODY_LENGTH_SIZE <= headerSize <= offset <= |buffer.data|
    modifies buffer
    ensures buffer.data == Spliced(old(buffer.data), headerSize, offset, attachments)
  {
    hide PutU32;
    ghost var b := buffer.data;
    var origin := new Buffer([]);
    origin.MoveFrom(buffer, |buffer.data|);
    assert origin.data == b && buffer.data == [];
    buffer.MoveFrom(origin, headerSize - BODY_LENGTH_SIZE);
    assert buffer.data == b[..headerSize - BODY_LENGTH_SIZE];
    origin.Drain(BODY_LENGTH_SIZE);
    assert origin.data == b[headerSize..];
    var attachmentBuffer := new Buffer(attachments);
    var newBodySize := offset - headerSize + |attachmentBuffer.data|;
    buffer.Add(PutU32(newBodySize % 0x1_0000_0000));
    buffer.MoveFrom(origin, offset - headerSize);
    buffer.MoveFrom(attachmentBuffer, |attachmentBuffer.data|);
    origin.Drain(|origin.data|);
    assert b[headerSize..][..offset - headerSize] == b[headerSize..offset];
  }

  /** The serializer: `locate` finds how far into a body the attachments begin, if it can be read up
      to there. */
  datatype Serializer = Serializer(locate: seq<byte> -> Option<nat>, decode: seq<byte> -> Attachments,
                                   encode: Attachments -> seq<byte>)

  /** What is written is not empty and is read back, and where the attachments begin depends only
      on what comes before them. */
  ghost predicate Lawful(z: Serializer) {
    && (forall a: Attachments :: z.encode(a) != [] && z.decode(z.encode(a)) == a)
    && (forall b: seq<byte> :: z.locate(b).Some? ==> z.locate(b).value <= |b|)
    && (forall b: seq<byte>, c: seq<byte> :: z.locate(b).Some? ==> z.locate(Front(z, b) + c) == z.locate(b))
  }

  /** The part of a body before its attachments. */
  function Front(z: Serializer, b: seq<byte>): (f: seq<byte>) {
    if z.locate(b).Some? && z.locate(b).value <= |b| then b[..z.locate(b).value] else b
  }

  /** A message whose attachments can be found. */
  predicate Located(z: Serializer, b: seq<byte>) {
    |b| >= MESSAGE_SIZE && z.locate(b[MESSAGE_SIZE..]).Some?
  }

  function OffsetOf(z: Serializer, b: seq<byte>): (n: nat)
    requires Located(z, b)
  {
    MESSAGE_SIZE + z.locate(b[MESSAGE_SIZE..]).value
  }

  lemma OffsetInRange(z: Serializer, b: seq<byte>)
    requires Lawful(z) && Located(z, b)
    ensures MESSAGE_SIZE <= OffsetOf(z, b) <= |b|
  {
  }

  ghost function AttachmentsOf(z: Serializer, b: seq<byte>): (a: Attachments)
    requires Lawful(z) && Located(z, b)
  {
    z.decode(b[OffsetOf(z, b)..])
  }

  /** The specification: nothing for an empty mutation, else the attachments overridden. */
  ghost function Rewritten(z: Serializer, b: seq<byte>, m: Mutation): (r: seq<byte>)
    requires Lawful(z) && Located(z, b)
  {
    if m == map[] then b
    else Spliced(b, MESSAGE_SIZE, OffsetOf(z, b), z.encode(Override(AttachmentsOf(z, b), m)))
  }

  /** Rewrites a request if its attachments have been touched. */
  method HeaderMutation(buffer: Buffer, z: Serializer, attachment: Attachment?, headerSize: nat)
    requires attachment != null && attachment.updated ==>
               BODY_LENGTH_SIZE <= headerSize <= attachment.offset <= |buffer.data|
    modifies buffer
    ensures buffer.data == if attachment != null && attachment.updated
                           then Spliced(old(buffer.data), headerSize, attachment.offset,
                                        z.encode(attachment.attachment))
                           else old(buffer.data)
  {
    if attachment != null && attachment.updated {
      Splice(buffer, headerSize, attachment.offset, z.encode(attachment.attachment));
    }
  }

  /** The attachments as they were read from the message in the buffer. */
  ghost predicate ReadFrom(z: Serializer, attachment: Attachment, b: seq<byte>)
    requires Lawful(z)
    reads attachment
  {
    && Located(z, b)
    && attachment.offset == OffsetOf(z, b)
    && attachment.attachment == AttachmentsOf(z, b)
    && !attachment.updated
  }

  method EncodeRequest(buffer: Buffer, z: Serializer, attachment: Attachment, mutation: Mutation)
    requires Lawful(z) && ReadFrom(z, attachment, buffer.data)
    modifies buffer, attachment
    ensures buffer.data == Rewritten(z, old(buffer.data), mutation)
    ensures attachment.attachment == Override(old(attachment.attachment), mutation)
  {
    hide Lawful, Spliced;
    OffsetInRange(z, buffer.data);
    attachment.Apply(mutation);
    HeaderMutation(buffer, z, attachment, MESSAGE_SIZE);
  }

  /** A response is rewritten when there is a mutation; its result must then have attachments. */
  method EncodeResponse(buffer: Buffer, z: Serializer, attachment: Attachment?, mutation: Mutation)
    requires Lawful(z)
    requires mutation != map[] ==> attachment != null && ReadFrom(z, attachment, buffer.data)
    modifies buffer, attachment
    ensures mutation != map[] ==>
              Located(z, old(buffer.data)) && buffer.data == Rewritten(z, old(buffer.data), mutation)
    ensures mutation == map[] ==> buffer.data == old(buffer.data)
  {
    hide Lawful, Spliced;
    if mutation != map[] {
      OffsetInRange(z, buffer.data);
      attachment.Apply(mutation);
      Splice(buffer, MESSAGE_SIZE, attachment.offset, z.encode(attachment.attachment));
    }
  }

  // ----- What a rewrite keeps -----

  /** The header up to the length, and the body up to the attachments, are what they were; the
      length field is the length of the body, in 32 bits. */
  lemma {:induction false} SpliceKeeps(b: seq<byte>, offset: nat, attachments: seq<byte>)
    requires MESSAGE_SIZE <= offset <= |b|
    ensures var r := Spliced(b, MESSAGE_SIZE, offset, attachments);
            && |r| == offset + |attachments|
            && r[..12] == b[..12]
            && r[MESSAGE_SIZE..offset] == b[MESSAGE_SIZE..offset]
            && r[offset..] == attachments
            && U32At(r, 12) == (|r| - MESSAGE_SIZE) % 0x1_0000_0000
  {
    hide PutU32, U32At;
    var n := (offset - MESSAGE_SIZE + |attachments|) % 0x1_0000_0000;
    var tail := b[MESSAGE_SIZE..offset] + attachments;
    assert Spliced(b, MESSAGE_SIZE, offset, attachments) == b[..12] + PutU32(n) + tail;
    PutAnywhere32(b[..12], n, tail);
  }

  /** The decoder reads the same type, id and status, and the new length, from the rewritten
      message exactly when the length written is within its limit; otherwise it rejects it. */
  lemma {:induction false} SpliceDecodes(b: seq<byte>, offset: nat, attachments: seq<byte>, rest: seq<byte>)
    requires MESSAGE_SIZE <= offset <= |b| && DecodeHeader(b).Decoded?
    ensures var n := (offset - MESSAGE_SIZE + |attachments|) % 0x1_0000_0000;
            DecodeHeader(Spliced(b, MESSAGE_SIZE, offset, attachments) + rest) ==
            if n <= MAX_BODY_SIZE then Decoded(DecodeHeader(b).header.(bodySize := n)) else Invalid
  {
    hide IsValidInfo, TypeOf, PutU32, PutU64, PutU16, U32At, U64At, Signed64, Unsigned64;
    var n := (offset - MESSAGE_SIZE + |attachments|) % 0x1_0000_0000;
    var h := b[..MESSAGE_SIZE];
    assert U16At(h, 0) == U16At(b, 0);
    HeaderStable(b, []);
    HeaderIsWritten(h);
    var id := Signed64(U64At(h, 4));
    var old_, new_ := HeaderOctets(h[2], h[3], id, U32At(h, 12)), HeaderOctets(h[2], h[3], id, n);
    assert new_ == old_[..12] + PutU32(n);
    var tail := b[MESSAGE_SIZE..offset] + attachments + rest;
    assert Spliced(b, MESSAGE_SIZE, offset, attachments) + rest == new_ + tail by {
      assert b[..12] == old_[..12];
    }
    HeaderReadsBack(h[2], h[3], id, n, tail);
    HeaderReadsBack(h[2], h[3], id, U32At(h, 12), []);
    assert old_ + [] == old_;
  }

  /** A whole message: the octets it holds are those its header announces. */
  predicate IsMessage(b: seq<byte>) {
    DecodeHeader(b).Decoded? && |b| == MESSAGE_SIZE + DecodeHeader(b).header.bodySize
  }

  /** After a rewrite the attachments begin where they did and are the old ones overridden. */
  lemma {:induction false} RewriteOverrides(z: Serializer, b: seq<byte>, m: Mutation)
    requires Lawful(z) && Located(z, b)
    ensures var r := Rewritten(z, b, m);
            && Located(z, r)
            && OffsetOf(z, r) == OffsetOf(z, b)
            && AttachmentsOf(z, r) == Override(AttachmentsOf(z, b), m)
            && r[..12] == b[..12]
            && r[MESSAGE_SIZE..OffsetOf(z, b)] == b[MESSAGE_SIZE..OffsetOf(z, b)]
  {
    hide PutU32, Override;
    var n := OffsetOf(z, b);
    if m == map[] {
      OverrideNothing(AttachmentsOf(z, b), m);
    } else {
      OffsetInRange(z, b);
      var e := z.encode(Override(AttachmentsOf(z, b), m));
      var r := Rewritten(z, b, m);
      var head := b[..12] + PutU32((n - MESSAGE_SIZE + |e|) % 0x1_0000_0000);
      assert r == head + b[MESSAGE_SIZE..n] + e;
      assert r[MESSAGE_SIZE..] == b[MESSAGE_SIZE..n] + e;
      var body := b[MESSAGE_SIZE..];
      assert Front(z, body) == b[MESSAGE_SIZE..n];
      assert z.locate(Front(z, body) + e) == z.locate(body);
      assert r[n..] == e;
    }
  }

  /** Two rewrites in a row are one with the merged mutation. */
  lemma {:induction false} RewriteTwice(z: Serializer, b: seq<byte>, m: Mutation, n: Mutation)
    requires Lawful(z) && Located(z, b)
    ensures Located(z, Rewritten(z, b, m))
    ensures Rewritten(z, Rewritten(z, b, m), n) == Rewritten(z, b, m + n)
  {
    hide Override, Lawful, OffsetOf, AttachmentsOf, PutU32;
    RewriteOverrides(z, b, m);
    OverrideTwice(AttachmentsOf(z, b), m, n);
    OffsetInRange(z, b);
    OffsetInRange(z, Rewritten(z, b, m));
    if m == map[] {
      assert m + n == n;
    } else if n == map[] {
      assert m + n == m;
    } else {
      assert m + n != map[] by { var k :| k in m; assert k in m + n; }
    }
  }

  /** A rewritten message is again one message, of the same type, id and status, if and only if its
      body is within the limit of the decoder. */
  lemma {:induction false} RewriteIsMessage(z: Serializer, b: seq<byte>, m: Mutation, rest: seq<byte>)
    requires Lawful(z) && IsMessage(b) && Located(z, b)
    ensures var r := Rewritten(z, b, m);
            && |r| >= MESSAGE_SIZE
            && (IsMessage(r) <==> |r| - MESSAGE_SIZE <= MAX_BODY_SIZE)
            && (IsMessage(r) ==> DecodeHeader(r) == Decoded(DecodeHeader(b).header.(bodySize := |r| - MESSAGE_SIZE)))
            && DecodeHeader(r + rest) == DecodeHeader(r)
  {
    hide DecodeHeader, Spliced, Lawful;
    ShortNeedsMore(b);
    RewriteOverrides(z, b, m);
    var r := Rewritten(z, b, m);
    var offset := OffsetOf(z, b);
    OffsetInRange(z, b);
    HeaderStable(r, rest);
    if m == map[] {
      BodyWithinLimit(b);
    } else {
      var e := z.encode(Override(AttachmentsOf(z, b), m));
      SplicedLength(b, offset, e);
      SpliceDecodes(b, offset, e, []);
      assert r + [] == r;
    }
  }

  lemma {:induction false} RewriteIsCut(z: Serializer, accepts: Deserializer,
                                        b: seq<byte>, m: Mutation, rest: seq<byte>)
    requires Lawful(z) && IsMessage(b) && Located(z, b) && !IsHeartbeat(DecodeHeader(b).header.messageType)
    ensures var r := Rewritten(z, b, m);
            && |r| >= MESSAGE_SIZE
            && var h := DecodeHeader(b).header.(bodySize := |r| - MESSAGE_SIZE);
            CutFrame(accepts, r + rest) == Whole(|r|, false)
            <==> |r| - MESSAGE_SIZE <= MAX_BODY_SIZE && AcceptsBody(accepts, h, r[MESSAGE_SIZE..])
  {
    hide DecodeHeader, AcceptsBody, Rewritten, Lawful;
    RewriteIsMessage(z, b, m, rest);
    var r := Rewritten(z, b, m);
    SliceOfFront(r, rest, MESSAGE_SIZE, |r|);
    assert r[MESSAGE_SIZE..|r|] == r[MESSAGE_SIZE..];
  }

  // ----- Requests -----

  predicate IsRequestType(t: MessageType) {
    t == Request || t == Oneway
  }

  /** Deciding on a request looks at nothing behind the start of its attachments. */
  ghost predicate ReadsRequestsUpTo(z: Serializer, accepts: Deserializer) {
    forall h: Header, b: seq<byte>, c: seq<byte> ::
      Accepted(accepts, h, b) && IsRequestType(h.messageType) && z.locate(b).Some? ==>
      Accepted(accepts, h, Front(z, b) + c)
  }

  predicate Accepted(accepts: Deserializer, h: Header, b: seq<byte>) {
    accepts(h.(bodySize := |b|), b)
  }

  /** A request that the decoder takes stays one frame under a rewrite if and only if the new body is
      within the limit of the decoder. */
  lemma {:induction false} RequestStaysFramed(z: Serializer, accepts: Deserializer,
                                              b: seq<byte>, m: Mutation, rest: seq<byte>)
    requires Lawful(z) && ReadsRequestsUpTo(z, accepts) && Located(z, b)
    requires CutFrame(accepts, b) == Whole(|b|, false) && IsRequestType(DecodeHeader(b).header.messageType)
    ensures CutFrame(accepts, Rewritten(z, b, m) + rest) == Whole(|Rewritten(z, b, m)|, false)
            <==> |Rewritten(z, b, m)| - MESSAGE_SIZE <= MAX_BODY_SIZE
  {
    hide DecodeHeader, Lawful;
    RewriteIsCut(z, accepts, b, m, rest);
    RewriteFront(z, b, m);
    var h, body, r := DecodeHeader(b).header, b[MESSAGE_SIZE..], Rewritten(z, b, m);
    assert b[MESSAGE_SIZE..|b|] == body;
    assert Accepted(accepts, h, body);
    if m != map[] {
      var e := z.encode(Override(AttachmentsOf(z, b), m));
      assert Accepted(accepts, h, Front(z, body) + e);
    }
  }

  lemma {:induction false} RewriteFront(z: Serializer, b: seq<byte>, m: Mutation)
    requires Lawful(z) && Located(z, b)
    ensures m != map[] ==>
              && |Rewritten(z, b, m)| >= MESSAGE_SIZE
              && Rewritten(z, b, m)[MESSAGE_SIZE..]
                 == Front(z, b[MESSAGE_SIZE..]) + z.encode(Override(AttachmentsOf(z, b), m))
  {
    hide PutU32, Override;
    if m != map[] {
      OffsetInRange(z, b);
      assert Front(z, b[MESSAGE_SIZE..]) == b[MESSAGE_SIZE..OffsetOf(z, b)];
    }
  }

  // ----- Responses -----

  /** Reads the type of a result, and how many octets it took. */
  type ResultReader = seq<byte> -> Option<(int, nat)>

  // Result types.
  const WITH_EXCEPTION := 0
  const WITH_NULL_VALUE := 2
  const EXCEPTION_WITH_ATTACHMENTS := 3
  const VALUE_WITH_ATTACHMENTS := 4
  const NULL_VALUE_WITH_ATTACHMENTS := 5

  predicate HasAttachments(code: int) {
    code in {WITH_NULL_VALUE, EXCEPTION_WITH_ATTACHMENTS, VALUE_WITH_ATTACHMENTS, NULL_VALUE_WITH_ATTACHMENTS}
  }

  /** The types behind which the deserializer wants nothing, although it reads attachments for two.
      Of those two only the one without a value is ever rewritten: the other is an exception. */
  predicate MustEndAtType(code: int) {
    code in {WITH_EXCEPTION, WITH_NULL_VALUE, EXCEPTION_WITH_ATTACHMENTS}
  }

  predicate AcceptsResult(read: ResultReader, body: seq<byte>) {
    match read(body)
    case None => false
    case Some((code, len)) =>
      && WITH_EXCEPTION <= code <= NULL_VALUE_WITH_ATTACHMENTS
      && len <= |body|
      && (MustEndAtType(code) ==> |body| == len)
  }

  /** The deserializer decides on results as above, and their type comes before their attachments. */
  ghost predicate ReadsResults(z: Serializer, accepts: Deserializer, read: ResultReader) {
    && (forall h: Header, b: seq<byte> :: h.messageType == Response && h.status == OK ==>
          (Accepted(accepts, h, b) <==> AcceptsResult(read, b)))
    && (forall b: seq<byte>, c: seq<byte> :: read(b).Some? && z.locate(b).Some? ==> read(Front(z, b) + c) == read(b))
    && (forall b: seq<byte> :: read(b).Some? && z.locate(b).Some? ==> read(b).value.1 <= z.locate(b).value)
  }

  /** A response with attachments that the decoder takes stays one frame under a rewrite if and only
      if the new body is within the limit and its type is one behind which something may follow. */
  lemma {:induction false} ResponseStaysFramed(z: Serializer, accepts: Deserializer, read: ResultReader,
                                               b: seq<byte>, m: Mutation, rest: seq<byte>)
    requires Lawful(z) && ReadsResults(z, accepts, read) && Located(z, b) && m != map[]
    requires CutFrame(accepts, b) == Whole(|b|, false)
    requires DecodeHeader(b).header.messageType == Response && DecodeHeader(b).header.status == OK
    requires read(b[MESSAGE_SIZE..]).Some? && HasAttachments(read(b[MESSAGE_SIZE..]).value.0)
    ensures CutFrame(accepts, Rewritten(z, b, m) + rest) == Whole(|Rewritten(z, b, m)|, false)
            <==> && |Rewritten(z, b, m)| - MESSAGE_SIZE <= MAX_BODY_SIZE
                 && read(b[MESSAGE_SIZE..]).value.0 in {VALUE_WITH_ATTACHMENTS, NULL_VALUE_WITH_ATTACHMENTS}
  {
    hide DecodeHeader, Spliced, Override, Rewritten;
    RewriteIsCut(z, accepts, b, m, rest);
    RewriteFront(z, b, m);
    var h, body, r := DecodeHeader(b).header, b[MESSAGE_SIZE..], Rewritten(z, b, m);
    assert b[MESSAGE_SIZE..|b|] == body;
    assert Accepted(accepts, h, body);
    var e := z.encode(Override(AttachmentsOf(z, b), m));
    assert Accepted(accepts, h, Front(z, body) + e) <==> AcceptsResult(read, Front(z, body) + e);
    assert read(Front(z, body) + e) == read(body);
    assert |Front(z, body) + e| > z.locate(body).value;
  }

  lemma BodyWithinLimit(b: seq<byte>)
    ensures DecodeHeader(b).Decoded? ==> DecodeHeader(b).header.bodySize <= MAX_BODY_SIZE
  {
  }

  lemma {:induction false} SplicedLength(b: seq<byte>, offset: nat, e: seq<byte>)
    requires MESSAGE_SIZE <= offset <= |b|
    ensures |Spliced(b, MESSAGE_SIZE, offset, e)| == offset + |e|
  {
    hide PutU32;
  }
}

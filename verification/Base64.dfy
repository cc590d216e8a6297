/** Base64 as used for peer metadata headers: a streaming encoder that carries leftover bits
    from octet to octet, and a streaming decoder that also checks the tail, against the
    definition in sections 4 and 3.5 of RFC 4648. */
module Base64 {

  type octet = bv8

  const PAD: octet := 61  // '='

  // ----- The alphabet -----

  /** Index to character code: A-Z, a-z, 0-9, + and /. */
  function Alphabet(i: bv8): (c: octet) {
    if i < 26 then i + 65
    else if i < 52 then i + 71
    else if i < 62 then i - 4
    else if i == 62 then 43
    else 47
  }

  /** Table 1 of RFC 4648. */
  lemma StandardAlphabet(i: bv8)
    ensures i < 26 ==> Alphabet(i) == 'A' as octet + i
    ensures 26 <= i < 52 ==> Alphabet(i) == 'a' as octet + (i - 26)
    ensures 52 <= i < 62 ==> Alphabet(i) == '0' as octet + (i - 52)
    ensures Alphabet(62) == '+' as octet && Alphabet(63) == '/' as octet && PAD == '=' as octet
  {
  }

  const INVALID: bv8 := 64

  function ReverseLookup(c: octet): (i: bv8)
    ensures i <= 64
  {
    if 65 <= c <= 90 then c - 65
    else if 97 <= c <= 122 then c - 71
    else if 48 <= c <= 57 then c + 4
    else if c == 43 then 62
    else if c == 47 then 63
    else INVALID
  }

  lemma LookupInvertsAlphabet(i: bv8)
    requires i < 64
    ensures ReverseLookup(Alphabet(i)) == i && Alphabet(i) != PAD
  {
  }

  lemma AlphabetInvertsLookup(c: octet)
    requires ReverseLookup(c) != INVALID
    ensures Alphabet(ReverseLookup(c)) == c && ReverseLookup(c) < 64
  {
  }

  // ----- The encoding, as RFC 4648 defines it -----

  /** Three octets joined into one 24-bit group. */
  function Group(a: octet, b: octet, c: octet): (g: bv24) {
    (a as bv24 << 16) | (b as bv24 << 8) | c as bv24
  }

  function Index0(g: bv24): (i: bv8) { ((g >> 18) & 0x3f) as bv8 }
  function Index1(g: bv24): (i: bv8) { ((g >> 12) & 0x3f) as bv8 }
  function Index2(g: bv24): (i: bv8) { ((g >> 6) & 0x3f) as bv8 }
  function Index3(g: bv24): (i: bv8) { (g & 0x3f) as bv8 }

  /** The 6-bit indices of a string: four to a full group; a last group of one or two octets
      is filled up with zero bits and has two or three. */
  function Indices(x: seq<octet>): (s: seq<bv8>) {
    if x == [] then []
    else if |x| == 1 then var g := Group(x[0], 0, 0); [Index0(g), Index1(g)]
    else if |x| == 2 then var g := Group(x[0], x[1], 0); [Index0(g), Index1(g), Index2(g)]
    else
      var g := Group(x[0], x[1], x[2]);
      [Index0(g), Index1(g), Index2(g), Index3(g)] + Indices(x[3..])
  }

  function Spell(s: seq<bv8>): (cs: seq<octet>)
    ensures |cs| == |s| && forall i | 0 <= i < |s| :: cs[i] == Alphabet(s[i])
  {
    seq(|s|, i requires 0 <= i < |s| => Alphabet(s[i]))
  }

  function Padding(n: nat): (cs: seq<octet>) {
    if n % 3 == 1 then [PAD, PAD] else if n % 3 == 2 then [PAD] else []
  }

  function Encoded(x: seq<octet>, addPadding: bool): (cs: seq<octet>) {
    Spell(Indices(x)) + if addPadding then Padding(|x|) else []
  }

  // ----- Bit facts -----

  // The pieces of an octet that the encoder and the decoder work with, named so that proofs about sequences
  // of indices need not look inside them.
  function Top6(a: octet): (r: bv8) { a >> 2 }
  function Low2(a: octet): (r: bv8) { (a & 0x03) << 4 }
  function Top4(a: octet): (r: bv8) { a >> 4 }
  function Low4(a: octet): (r: bv8) { (a & 0x0f) << 2 }
  function Top2(a: octet): (r: bv8) { a >> 6 }
  function Low6(a: octet): (r: bv8) { a & 0x3f }
  function Or(a: bv8, b: bv8): (r: bv8) { a | b }
  function Left2(a: octet): (r: bv8) { a << 2 }
  function Left4(a: octet): (r: bv8) { a << 4 }
  function Left6(a: octet): (r: bv8) { a << 6 }

  lemma GroupBits(a: octet, b: octet, c: octet)
    ensures Index0(Group(a, b, c)) == Top6(a)
    ensures Index1(Group(a, b, c)) == Or(Low2(a), Top4(b))
    ensures Index2(Group(a, b, c)) == Or(Low4(b), Top2(c))
    ensures Index3(Group(a, b, c)) == Low6(c)
  {
  }

  lemma ZeroFill(a: octet)
    ensures Or(Low2(a), Top4(0)) == Low2(a)
    ensures Or(Low4(a), Top2(0)) == Low4(a)
  {
  }

  lemma Small(a: octet, b: octet)
    ensures Top6(a) < 64 && Low6(a) < 64 && Low2(a) < 64 && Low4(a) < 64
    ensures Or(Low2(a), Top4(b)) < 64 && Or(Low4(a), Top2(b)) < 64
  {
  }

  lemma {:induction false} IndicesSmall(x: seq<octet>)
    ensures forall i | 0 <= i < |Indices(x)| :: Indices(x)[i] < 64
  {
    if |x| >= 3 {
      IndicesSmall(x[3..]);
    }
    if x != [] {
      var b := if |x| > 1 then x[1] else 0;
      var c := if |x| > 2 then x[2] else 0;
      GroupBits(x[0], b, c);
      Small(x[0], b);
      Small(b, c);
      Small(c, c);
    }
  }

  lemma {:induction false} IndicesLength(x: seq<octet>)
    ensures |Indices(x)| == |x| / 3 * 4 + (if |x| % 3 == 0 then 0 else |x| % 3 + 1)
  {
    if |x| >= 3 {
      IndicesLength(x[3..]);
    }
  }

  // ----- The streaming encoder -----

  lemma IndicesOne(a: octet)
    ensures Indices([a]) == [Top6(a), Low2(a)]
  {
    GroupBits(a, 0, 0);
    ZeroFill(a);
  }

  lemma IndicesTwo(a: octet, b: octet)
    ensures Indices([a, b]) == [Top6(a), Or(Low2(a), Top4(b)), Low4(b)]
  {
    GroupBits(a, b, 0);
    ZeroFill(b);
  }

  lemma IndicesThree(a: octet, b: octet, c: octet)
    ensures Indices([a, b, c]) == [Top6(a), Or(Low2(a), Top4(b)), Or(Low4(b), Top2(c)), Low6(c)]
  {
    GroupBits(a, b, c);
    assert [a, b, c][3..] == [];
  }

  lemma {:induction false} IndicesHead(x: seq<octet>)
    requires |x| >= 3
    ensures Indices(x) == Indices(x[..3]) + Indices(x[3..])
  {
    hide Group, Index0, Index1, Index2, Index3;
    assert x[..3][3..] == [];
    var y := x[..3];
    assert y[0] == x[0] && y[1] == x[1] && y[2] == x[2];
  }

  /** The indices that are complete once `x` has been read, and the bits left over from its
      last octet, already shifted into place for the next index. */
  function Complete(x: seq<octet>): (s: seq<bv8>) {
    if |x| % 3 == 0 || Indices(x) == [] then Indices(x) else Indices(x)[..|Indices(x)| - 1]
  }

  function Carry(x: seq<octet>): (c: bv8) {
    if |x| % 3 == 0 || Indices(x) == [] then 0 else Indices(x)[|Indices(x)| - 1]
  }

  lemma {:induction false} CompleteIsMost(x: seq<octet>)
    ensures Indices(x) == Complete(x) + if |x| % 3 == 0 then [] else [Carry(x)]
  {
    hide Indices;
    if |x| % 3 != 0 {
      IndicesNonempty(x);
      LastSplit(Indices(x));
    }
  }

  lemma IndicesNonempty(x: seq<octet>)
    requires x != []
    ensures Indices(x) != []
  {
  }

  lemma LastSplit(s: seq<bv8>)
    requires s != []
    ensures s == s[..|s| - 1] + [s[|s| - 1]]
  {
  }

  lemma {:induction false} CompleteHead(x: seq<octet>)
    requires |x| >= 3
    ensures Complete(x) == Indices(x[..3]) + Complete(x[3..]) && Carry(x) == Carry(x[3..])
  {
    hide Indices;
    IndicesHead(x);
    IndicesLength(x[3..]);
  }

  lemma {:induction false} CompleteOne(a: octet)
    ensures Complete([a]) == [Top6(a)] && Carry([a]) == Low2(a)
  {
    hide Indices, Top6, Low2, Top4, Low4, Top2, Low6, Or;
    IndicesOne(a);
  }

  lemma {:induction false} CompleteTwo(a: octet, b: octet)
    ensures Complete([a, b]) == [Top6(a), Or(Low2(a), Top4(b))] && Carry([a, b]) == Low4(b)
  {
    hide Indices, Top6, Low2, Top4, Low4, Top2, Low6, Or;
    IndicesTwo(a, b);
  }

  lemma {:induction false} CompleteThree(a: octet, b: octet, c: octet)
    ensures Complete([a, b, c]) == [Top6(a), Or(Low2(a), Top4(b)), Or(Low4(b), Top2(c)), Low6(c)]
    ensures Carry([a, b, c]) == 0
  {
    hide Indices, Top6, Low2, Top4, Low4, Top2, Low6, Or;
    IndicesThree(a, b, c);
  }

  lemma {:induction false} SmallSnoc(x: seq<octet>, a: octet)
    requires |x| < 3
    ensures Complete(x + [a]) == Complete(x) + NewIndices(|x|, Carry(x), a) && Carry(x + [a]) == NewCarry(|x|, a)
  {
    hide Complete, Carry, NewIndices, NewCarry;
    if |x| == 0 {
      SnocFirst(a);
      assert x == [] && x + [a] == [a];
    } else if |x| == 1 {
      SnocSecond(x[0], a);
      assert x == [x[0]] && x + [a] == [x[0], a];
    } else {
      SnocThird(x[0], x[1], a);
      assert x == [x[0], x[1]] && x + [a] == [x[0], x[1], a];
    }
  }

  lemma {:induction false} SnocFirst(a: octet)
    ensures Complete([a]) == Complete([]) + NewIndices(0, Carry([]), a) && Carry([a]) == NewCarry(0, a)
  {
    assert Complete([]) == [];
    hide Complete, Carry, Top6, Low2, Top4, Low4, Top2, Low6, Or;
    CompleteOne(a);
  }

  lemma {:induction false} SnocSecond(a: octet, b: octet)
    ensures Complete([a, b]) == Complete([a]) + NewIndices(1, Carry([a]), b) && Carry([a, b]) == NewCarry(1, b)
  {
    hide Complete, Carry, Top6, Low2, Top4, Low4, Top2, Low6, Or;
    CompleteOne(a);
    CompleteTwo(a, b);
  }

  lemma {:induction false} SnocThird(a: octet, b: octet, c: octet)
    ensures Complete([a, b, c]) == Complete([a, b]) + NewIndices(2, Carry([a, b]), c)
    ensures Carry([a, b, c]) == NewCarry(2, c)
  {
    hide Complete, Carry, Top6, Low2, Top4, Low4, Top2, Low6, Or;
    CompleteTwo(a, b);
    CompleteThree(a, b, c);
  }

  /** The indices that octet `a` at position `pos` completes, and the bits it leaves over. */
  function NewIndices(pos: nat, carry: bv8, a: octet): (s: seq<bv8>) {
    if pos % 3 == 0 then [Top6(a)]
    else if pos % 3 == 1 then [Or(carry, Top4(a))]
    else [Or(carry, Top2(a)), Low6(a)]
  }

  function NewCarry(pos: nat, a: octet): (c: bv8) {
    if pos % 3 == 0 then Low2(a) else if pos % 3 == 1 then Low4(a) else 0
  }

  lemma NextGroup(pos: nat, carry: bv8, a: octet)
    ensures NewIndices(pos + 3, carry, a) == NewIndices(pos, carry, a) && NewCarry(pos + 3, a) == NewCarry(pos, a)
  {
    assert (pos + 3) % 3 == pos % 3;
  }

  lemma {:induction false} CompleteSnoc(x: seq<octet>, a: octet)
    ensures Complete(x + [a]) == Complete(x) + NewIndices(|x|, Carry(x), a)
    ensures Carry(x + [a]) == NewCarry(|x|, a)
  {
    if |x| < 3 {
      SmallSnoc(x, a);
    } else {
      hide Indices, Complete, Carry, NewIndices, NewCarry;
      CompleteSnoc(x[3..], a);
      NextGroup(|x| - 3, Carry(x), a);
      CompleteHead(x);
      CompleteHead(x + [a]);
      assert (x + [a])[3..] == x[3..] + [a] && (x + [a])[..3] == x[..3];
    }
  }

  lemma SpellOne(i: bv8)
    ensures Spell([i]) == [Alphabet(i)]
  {
  }

  lemma SpellTwo(i: bv8, j: bv8)
    ensures Spell([i, j]) == [Alphabet(i), Alphabet(j)]
  {
  }

  /** One octet: appends what is complete and carries the leftover bits in `nextC`. */
  method EncodeBase(cur: octet, pos: nat, nextC: bv8, ret: seq<octet>) returns (nextC': bv8, ret': seq<octet>)
    ensures ret' == ret + Spell(NewIndices(pos, nextC, cur)) && nextC' == NewCarry(pos, cur)
  {
    hide Alphabet, Top6, Low2, Top4, Low4, Top2, Low6, Or;
    nextC', ret' := nextC, ret;
    if pos % 3 == 0 {
      ret' := ret' + [Alphabet(Top6(cur))];
      nextC' := Low2(cur);
      SpellOne(Top6(cur));
    } else if pos % 3 == 1 {
      ret' := ret' + [Alphabet(Or(nextC, Top4(cur)))];
      nextC' := Low4(cur);
      SpellOne(Or(nextC, Top4(cur)));
    } else {
      ret' := ret' + [Alphabet(Or(nextC, Top2(cur)))];
      ret' := ret' + [Alphabet(Low6(cur))];
      nextC' := 0;
      SpellTwo(Or(nextC, Top2(cur)), Low6(cur));
    }
  }

  method EncodeLast(pos: nat, lastChar: bv8, ret: seq<octet>, addPadding: bool) returns (ret': seq<octet>)
    ensures ret' == ret + (if pos % 3 == 0 then [] else [Alphabet(lastChar)]) +
                    (if addPadding then Padding(pos) else [])
  {
    ret' := ret;
    if pos % 3 == 1 {
      ret' := ret' + [Alphabet(lastChar)];
      if addPadding {
        ret' := ret' + [PAD];
        ret' := ret' + [PAD];
      }
    } else if pos % 3 == 2 {
      ret' := ret' + [Alphabet(lastChar)];
      if addPadding {
        ret' := ret' + [PAD];
      }
    }
  }

  lemma SpellConcat(s: seq<bv8>, t: seq<bv8>)
    ensures Spell(s + t) == Spell(s) + Spell(t)
  {
  }

  /** The streaming encoder computes the RFC's encoding. */
  method Encode(input: seq<octet>, addPadding: bool) returns (ret: seq<octet>)
    ensures ret == Encoded(input, addPadding)
  {
    hide Indices, Alphabet, NewIndices, NewCarry;
    ret := [];
    var pos, nextC: bv8 := 0, 0;
    assert Complete([]) == [] && Carry([]) == 0 by { CompleteIsMost([]); IndicesLength([]); }
    var i := 0;
    while i < |input|
      invariant 0 <= i <= |input| && pos == i
      invariant ret == Spell(Complete(input[..i])) && nextC == Carry(input[..i])
    {
      var x := input[..i];
      assert input[..i + 1] == x + [input[i]];
      CompleteSnoc(x, input[i]);
      SpellConcat(Complete(x), NewIndices(i, Carry(x), input[i]));
      nextC, ret := EncodeBase(input[i], pos, nextC, ret);
      pos := pos + 1;
      i := i + 1;
    }
    assert input[..|input|] == input;
    CompleteIsMost(input);
    SpellConcat(Complete(input), if |input| % 3 == 0 then [] else [Carry(input)]);
    ret := EncodeLast(pos, nextC, ret, addPadding);
  }

  /** Section 4: padded output is a whole number of 4-character groups. */
  lemma PaddedLength(x: seq<octet>)
    ensures |Encoded(x, true)| == (|x| + 2) / 3 * 4
  {
    IndicesLength(x);
  }

  // ----- Decoding -----

  /** The input without up to two trailing pad characters. */
  function Stripped(cs: seq<octet>): (r: seq<octet>) {
    if cs == [] || cs[|cs| - 1] != PAD then cs
    else
      var once := cs[..|cs| - 1];
      if once == [] || once[|once| - 1] != PAD then once else once[..|once| - 1]
  }

  /** What is stripped is pads, at most two, and all there are unless there are more than two. */
  lemma {:induction false} StrippedPads(cs: seq<octet>)
    ensures var s := Stripped(cs);
            && |cs| - 2 <= |s| <= |cs|
            && cs == s + seq(|cs| - |s|, _ => PAD)
            && (|s| == |cs| - 2 || s == [] || s[|s| - 1] != PAD)
  {
    if cs != [] && cs[|cs| - 1] == PAD {
      var once := cs[..|cs| - 1];
      assert cs == once + [PAD];
      if once != [] && once[|once| - 1] == PAD {
        assert once == Stripped(cs) + [PAD];
      }
    }
  }

  lemma DecodeBits(a: octet, c: bv8)
    requires c < 64
    ensures Top6(Left2(c)) == c && Low2(Left2(c)) == 0
    ensures Low2(a) == 0 ==> Top6(Or(a, Top4(c))) == Top6(a)
    ensures Low2(a) == 0 ==> Or(Low2(Or(a, Top4(c))), Top4(Left4(c))) == c && Low4(Left4(c)) == 0
    ensures Low2(a) == 0 && c & 0x0f == 0 ==> Low2(Or(a, Top4(c))) == c
    ensures Low4(a) == 0 ==> Top4(Or(a, Top6(c))) == Top4(a)
    ensures Low4(a) == 0 ==> Or(Low4(Or(a, Top6(c))), Top2(Left6(c))) == c && Low6(Left6(c)) == 0
    ensures Low4(a) == 0 && c & 0x03 == 0 ==> Low4(Or(a, Top6(c))) == c
    ensures Low6(a) == 0 ==> Top2(Or(a, c)) == Top2(a) && Low6(Or(a, c)) == c
  {
  }

  lemma TailBits(a: octet)
    ensures Low2(a) & 0x0f == 0 && Low4(a) & 0x03 == 0
  {
  }

  /** Equal indices come from equal octets. */
  lemma OctetBits(a: octet, b: octet, c: octet, d: octet)
    ensures Top6(a) == Top6(c) && Or(Low2(a), Top4(b)) == Or(Low2(c), Top4(d)) ==> a == c
    ensures Top6(a) == Top6(c) && Low2(a) == Low2(c) ==> a == c
    ensures Or(Low2(a), Top4(b)) == Or(Low2(c), Top4(d)) ==> Top4(b) == Top4(d)
    ensures Or(Low4(a), Top2(b)) == Or(Low4(c), Top2(d)) ==> Top2(b) == Top2(d)
    ensures Top4(a) == Top4(c) && Or(Low4(a), Top2(b)) == Or(Low4(c), Top2(d)) ==> a == c
    ensures Top4(a) == Top4(c) && Low4(a) == Low4(c) ==> a == c
    ensures Top2(a) == Top2(c) && Low6(a) == Low6(c) ==> a == c
  {
  }

  lemma {:induction false} IndicesSplit(full: seq<octet>, part: seq<octet>)
    requires |full| % 3 == 0
    ensures Indices(full + part) == Indices(full) + Indices(part)
  {
    hide Indices;
    if full == [] {
      assert full + part == part && Indices(full) == [] by { IndicesLength(full); }
    } else {
      IndicesHead(full);
      IndicesHead(full + part);
      assert (full + part)[..3] == full[..3] && (full + part)[3..] == full[3..] + part;
      IndicesSplit(full[3..], part);
    }
  }

  // ----- The last group while it is being filled -----

  /** The group after one more index `c`, and after a last one. */
  function Filled(part: seq<octet>, c: bv8): (r: seq<octet>)
    requires |part| <= 3
  {
    if |part| == 0 then [Left2(c)]
    else if |part| == 1 then [Or(part[0], Top4(c)), Left4(c)]
    else if |part| == 2 then [part[0], Or(part[1], Top6(c)), Left6(c)]
    else [part[0], part[1], Or(part[2], c)]
  }

  function Closed(part: seq<octet>, c: bv8): (r: seq<octet>)
    requires 1 <= |part| <= 3
  {
    if |part| == 1 then [Or(part[0], Top4(c))]
    else if |part| == 2 then [part[0], Or(part[1], Top6(c))]
    else [part[0], part[1], Or(part[2], c)]
  }

  predicate Canonical(n: nat, c: bv8) {
    if n == 1 then c & 0x0f == 0 else if n == 2 then c & 0x03 == 0 else n == 3
  }

  /** The group holds the indices `t`, with zero bits where more are to come. */
  ghost predicate Holds(part: seq<octet>, t: seq<bv8>) {
    |part| == |t| <= 3 && Indices(part) == t + if t == [] then [] else [0]
  }

  lemma {:induction false} FillEmpty(c: bv8)
    requires c < 64
    ensures Indices([Left2(c)]) == [c, 0]
  {
    hide Indices, Top6, Low2, Top4, Low4, Top2, Low6, Or, Left2, Left4, Left6;
    IndicesOne(Left2(c));
    DecodeBits(0, c);
  }

  lemma {:induction false} FillOne(a: octet, t: bv8, c: bv8)
    requires c < 64
    requires Indices([a]) == [t, 0]
    ensures Indices([Or(a, Top4(c)), Left4(c)]) == [t, c, 0]
    ensures c & 0x0f == 0 ==> Indices([Or(a, Top4(c))]) == [t, c]
  {
    hide Indices, Top6, Low2, Top4, Low4, Top2, Low6, Or, Left2, Left4, Left6;
    IndicesOne(a);
    DecodeBits(a, c);
    IndicesTwo(Or(a, Top4(c)), Left4(c));
    IndicesOne(Or(a, Top4(c)));
    assert [Top6(a), Low2(a)] == [t, 0];
  }

  lemma {:induction false} FillTwo(a: octet, b: octet, t: bv8, u: bv8, c: bv8)
    requires c < 64
    requires Indices([a, b]) == [t, u, 0]
    ensures Indices([a, Or(b, Top6(c)), Left6(c)]) == [t, u, c, 0]
    ensures c & 0x03 == 0 ==> Indices([a, Or(b, Top6(c))]) == [t, u, c]
  {
    hide Indices, Top6, Low2, Top4, Low4, Top2, Low6, Or, Left2, Left4, Left6;
    IndicesTwo(a, b);
    assert Top6(a) == t && Or(Low2(a), Top4(b)) == u && Low4(b) == 0 by {
      assert [Top6(a), Or(Low2(a), Top4(b)), Low4(b)] == [t, u, 0];
    }
    DecodeBits(b, c);
    IndicesThree(a, Or(b, Top6(c)), Left6(c));
    IndicesTwo(a, Or(b, Top6(c)));
  }

  lemma {:induction false} FillThree(a: octet, b: octet, d: octet, t: bv8, u: bv8, v: bv8, c: bv8)
    requires c < 64
    requires Indices([a, b, d]) == [t, u, v, 0]
    ensures Indices([a, b, Or(d, c)]) == [t, u, v, c]
  {
    hide Indices, Top6, Low2, Top4, Low4, Top2, Low6, Or, Left2, Left4, Left6;
    IndicesThree(a, b, d);
    assert Top6(a) == t && Or(Low2(a), Top4(b)) == u && Or(Low4(b), Top2(d)) == v && Low6(d) == 0 by {
      assert [Top6(a), Or(Low2(a), Top4(b)), Or(Low4(b), Top2(d)), Low6(d)] == [t, u, v, 0];
    }
    DecodeBits(d, c);
    IndicesThree(a, b, Or(d, c));
  }

  lemma {:induction false} PartFilled(part: seq<octet>, t: seq<bv8>, c: bv8)
    requires Holds(part, t) && c < 64
    ensures Indices(Filled(part, c)) == t + [c] + if |t| == 3 then [] else [0]
  {
    hide Indices, Top6, Low2, Top4, Low4, Top2, Low6, Or, Left2, Left4, Left6;
    if |part| == 0 {
      assert t + [c] + [0] == [c, 0];
      FillEmpty(c);
    } else if |part| == 1 {
      assert part == [part[0]] && t + [0] == [t[0], 0] && t + [c] + [0] == [t[0], c, 0];
      FillOne(part[0], t[0], c);
    } else if |part| == 2 {
      assert part == [part[0], part[1]] && t + [0] == [t[0], t[1], 0] && t + [c] + [0] == [t[0], t[1], c, 0];
      FillTwo(part[0], part[1], t[0], t[1], c);
    } else {
      assert part == [part[0], part[1], part[2]] && t + [0] == [t[0], t[1], t[2], 0];
      assert t + [c] + [] == [t[0], t[1], t[2], c];
      FillThree(part[0], part[1], part[2], t[0], t[1], t[2], c);
    }
  }

  lemma {:induction false} PartClosed(part: seq<octet>, t: seq<bv8>, c: bv8)
    requires Holds(part, t) && part != [] && c < 64 && Canonical(|part|, c)
    ensures Indices(Closed(part, c)) == t + [c]
  {
    hide Indices, Top6, Low2, Top4, Low4, Top2, Low6, Or, Left2, Left4, Left6;
    if |part| == 1 {
      assert part == [part[0]] && t + [0] == [t[0], 0] && t + [c] == [t[0], c];
      FillOne(part[0], t[0], c);
    } else if |part| == 2 {
      assert part == [part[0], part[1]] && t + [0] == [t[0], t[1], 0] && t + [c] == [t[0], t[1], c];
      FillTwo(part[0], part[1], t[0], t[1], c);
    } else {
      assert part == [part[0], part[1], part[2]] && t + [0] == [t[0], t[1], t[2], 0];
      assert t + [c] == [t[0], t[1], t[2], c];
      FillThree(part[0], part[1], part[2], t[0], t[1], t[2], c);
    }
  }

  /** What an unfinished decoding looks like after the indices `s`: full groups, then one group
      holding the rest. */
  ghost predicate Decodes(ret: seq<octet>, s: seq<bv8>) {
    var q := |s| / 4;
    && |ret| == q * 3 + |s| % 4
    && Indices(ret[..q * 3]) == s[..q * 4]
    && Holds(ret[q * 3..], s[q * 4..])
  }

  /** The output after index `c` at position `pos`, changed at its end only. */
  function Pushed(pos: nat, ret: seq<octet>, c: bv8): (r: seq<octet>)
    requires pos % 4 != 0 ==> ret != []
  {
    var k := |ret| - 1;
    if pos % 4 == 0 then ret + [Left2(c)]
    else if pos % 4 == 1 then ret[..k] + [Or(ret[k], Top4(c)), Left4(c)]
    else if pos % 4 == 2 then ret[..k] + [Or(ret[k], Top6(c)), Left6(c)]
    else ret[..k] + [Or(ret[k], c)]
  }

  function PushedLast(pos: nat, ret: seq<octet>, c: bv8): (r: seq<octet>)
    requires pos % 4 != 0 && ret != []
  {
    var k := |ret| - 1;
    if pos % 4 == 1 then ret[..k] + [Or(ret[k], Top4(c))]
    else if pos % 4 == 2 then ret[..k] + [Or(ret[k], Top6(c))]
    else ret[..k] + [Or(ret[k], c)]
  }

  lemma {:induction false} PushFills(full: seq<octet>, part: seq<octet>, pos: nat, c: bv8)
    requires |part| == pos % 4
    ensures Pushed(pos, full + part, c) == full + Filled(part, c)
    ensures part != [] ==> PushedLast(pos, full + part, c) == full + Closed(part, c)
  {
    hide Top6, Low2, Top4, Low4, Top2, Low6, Or, Left2, Left4, Left6;
    if part != [] {
      var k := |part| - 1;
      assert (full + part)[|full| + k] == part[k] && (full + part)[..|full| + k] == full + part[..k];
    }
  }

  lemma {:induction false} PushKeeps(ret: seq<octet>, s: seq<bv8>, c: bv8)
    requires Decodes(ret, s) && c < 64
    ensures Decodes(Pushed(|s|, ret, c), s + [c])
  {
    hide Indices, Filled, Pushed, Holds;
    var q := |s| / 4;
    var full, part, s0, t := ret[..q * 3], ret[q * 3..], s[..q * 4], s[q * 4..];
    assert ret == full + part && s == s0 + t;
    HoldsLength(part, t);
    PushFills(full, part, |s|, c);
    PartFilled(part, t, c);
    FilledLength(part, c);
    if |t| < 3 {
      GroupGrows(full, Filled(part, c), s0, t + [c], q);
      assert s0 + (t + [c]) == s + [c];
    } else {
      assert t + [c] + [] == t + [c];
      IndicesSplit(full, Filled(part, c));
      GroupCloses(full + Filled(part, c), s0 + (t + [c]), q + 1);
      assert s0 + (t + [c]) == s + [c];
    }
  }

  lemma HoldsLength(part: seq<octet>, t: seq<bv8>)
    requires Holds(part, t)
    ensures |part| == |t| <= 3
  {
  }

  lemma {:induction false} GroupGrows(full: seq<octet>, part: seq<octet>, s: seq<bv8>, t: seq<bv8>, q: nat)
    requires |full| == q * 3 && |s| == q * 4 && |part| == |t| <= 3 && t != []
    requires Indices(full) == s && Indices(part) == t + [0]
    ensures Decodes(full + part, s + t)
  {
    hide Indices;
    assert (full + part)[..q * 3] == full && (full + part)[q * 3..] == part;
    assert (s + t)[..q * 4] == s && (s + t)[q * 4..] == t;
    assert |s + t| / 4 == q && |s + t| % 4 == |t|;
  }

  lemma {:induction false} GroupCloses(full: seq<octet>, s: seq<bv8>, q: nat)
    requires |full| == q * 3 && |s| == q * 4 && Indices(full) == s
    ensures Decodes(full, s)
  {
    hide Indices;
    assert full[..q * 3] == full && full[q * 3..] == [] && s[..q * 4] == s && s[q * 4..] == [];
    IndicesLength([]);
  }

  lemma FilledLength(part: seq<octet>, c: bv8)
    requires |part| <= 3
    ensures |Filled(part, c)| == if |part| == 3 then 3 else |part| + 1
  {
  }

  lemma {:induction false} CloseCompletes(ret: seq<octet>, s: seq<bv8>, c: bv8)
    requires Decodes(ret, s) && c < 64 && |s| % 4 != 0 && Canonical(|s| % 4, c)
    ensures Indices(PushedLast(|s|, ret, c)) == s + [c]
  {
    hide Indices, Closed, PushedLast, Canonical;
    var q := |s| / 4;
    var full, part, s0, t := ret[..q * 3], ret[q * 3..], s[..q * 4], s[q * 4..];
    assert ret == full + part && s == s0 + t;
    PushFills(full, part, |s|, c);
    PartClosed(part, t, c);
    IndicesSplit(full, Closed(part, c));
    assert s0 + (t + [c]) == s + [c];
  }

  method DecodeBase(cur: octet, pos: nat, ret: seq<octet>) returns (ok: bool, ret': seq<octet>)
    requires pos % 4 != 0 ==> ret != []
    ensures ok == (ReverseLookup(cur) != INVALID)
    ensures ret' == if ok then Pushed(pos, ret, ReverseLookup(cur)) else ret
  {
    hide ReverseLookup, Top6, Low2, Top4, Low4, Top2, Low6, Or, Left2, Left4, Left6;
    ret' := ret;
    var c := ReverseLookup(cur);
    if c == 64 {
      return false, ret';
    }
    var k := |ret| - 1;
    if pos % 4 == 0 {
      ret' := ret' + [Left2(c)];
    } else if pos % 4 == 1 {
      ret' := ret'[k := Or(ret'[k], Top4(c))];
      ret' := ret' + [Left4(c)];
    } else if pos % 4 == 2 {
      ret' := ret'[k := Or(ret'[k], Top6(c))];
      ret' := ret' + [Left6(c)];
    } else {
      ret' := ret'[k := Or(ret'[k], c)];
    }
    ok := true;
  }

  method DecodeLast(cur: octet, pos: nat, ret: seq<octet>) returns (ok: bool, ret': seq<octet>)
    requires pos % 4 != 0 ==> ret != []
    ensures ok == (ReverseLookup(cur) != INVALID && pos % 4 != 0 && Canonical(pos % 4, ReverseLookup(cur)))
    ensures ok ==> ret' == PushedLast(pos, ret, ReverseLookup(cur))
  {
    hide ReverseLookup, Top6, Low2, Top4, Low4, Top2, Low6, Or, Left2, Left4, Left6;
    ret' := ret;
    var c := ReverseLookup(cur);
    if c == 64 {
      return false, ret';
    }
    var k := |ret| - 1;
    if pos % 4 == 0 {
      ok := false;
    } else if pos % 4 == 1 {
      ret' := ret'[k := Or(ret'[k], Top4(c))];
      ok := c & 0x0f == 0;
    } else if pos % 4 == 2 {
      ret' := ret'[k := Or(ret'[k], Top6(c))];
      ok := c & 0x03 == 0;
    } else {
      ret' := ret'[k := Or(ret'[k], c)];
      ok := true;
    }
  }

  // ----- What the decoder accepts -----

  function Lookups(cs: seq<octet>): (s: seq<bv8>)
    ensures |s| == |cs| && forall i | 0 <= i < |s| :: s[i] == ReverseLookup(cs[i])
  {
    seq(|cs|, i requires 0 <= i < |cs| => ReverseLookup(cs[i]))
  }

  lemma {:induction false} SpelledLookups(cs: seq<octet>)
    requires forall i | 0 <= i < |cs| :: ReverseLookup(cs[i]) != INVALID
    ensures Spell(Lookups(cs)) == cs
  {
    hide Alphabet, ReverseLookup;
    forall i | 0 <= i < |cs|
      ensures Spell(Lookups(cs))[i] == cs[i]
    {
      AlphabetInvertsLookup(cs[i]);
    }
  }

  /** An encoding uses only characters of the alphabet, and looking them up gives its indices. */
  lemma {:induction false} LookupsSpelled(x: seq<octet>, cs: seq<octet>)
    requires Encoded(x, false) == cs
    ensures forall i | 0 <= i < |cs| :: ReverseLookup(cs[i]) != INVALID
    ensures Lookups(cs) == Indices(x)
  {
    hide Alphabet, ReverseLookup, Indices;
    assert cs == Spell(Indices(x));
    IndicesSmall(x);
    forall i | 0 <= i < |cs|
      ensures ReverseLookup(cs[i]) == Indices(x)[i] < 64
    {
      LookupInvertsAlphabet(Indices(x)[i]);
    }
  }

  /** The last index of an encoding has zero bits where its octets have run out. */
  lemma {:induction false} TailIsCanonical(x: seq<octet>)
    requires x != []
    ensures var n := |Indices(x)|; n % 4 != 1 && n > 0 && (n % 4 == 0 || Canonical(n % 4 - 1, Indices(x)[n - 1]))
  {
    hide Indices;
    IndicesLength(x);
    var m := |x| / 3 * 3;
    var full, part := x[..m], x[m..];
    assert x == full + part;
    IndicesSplit(full, part);
    if |part| == 1 {
      assert part == [part[0]];
      IndicesOne(part[0]);
      TailBits(part[0]);
    } else if |part| == 2 {
      assert part == [part[0], part[1]];
      IndicesTwo(part[0], part[1]);
      TailBits(part[1]);
    }
  }

  lemma {:induction false} Unspellable(cs: seq<octet>)
    requires cs == [] || |cs| % 4 == 1 || (exists i :: 0 <= i < |cs| && ReverseLookup(cs[i]) == INVALID)
          || (|cs| % 4 != 0 && !Canonical(|cs| % 4 - 1, ReverseLookup(cs[|cs| - 1])))
    ensures forall x | x != [] :: Encoded(x, false) != cs
  {
    hide Alphabet, ReverseLookup, Indices, Encoded, Canonical;
    forall x | x != []
      ensures Encoded(x, false) != cs
    {
      if Encoded(x, false) == cs {
        LookupsSpelled(x, cs);
        TailIsCanonical(x);
        assert false;
      }
    }
  }

  /** The characters `p` have been read: all are of the alphabet and `ret` holds their bits. */
  ghost predicate Reading(ret: seq<octet>, p: seq<octet>) {
    && (forall i | 0 <= i < |p| :: ReverseLookup(p[i]) != INVALID)
    && Decodes(ret, Lookups(p))
  }

  lemma {:induction false} ReadingStarts()
    ensures Reading([], [])
  {
    hide Indices;
    IndicesLength([]);
    assert Lookups([]) == [];
  }

  lemma ReadingLength(ret: seq<octet>, p: seq<octet>)
    requires Reading(ret, p)
    ensures |ret| == |p| / 4 * 3 + |p| % 4
  {
  }

  lemma {:induction false} ReadingGoesOn(ret: seq<octet>, p: seq<octet>, ch: octet)
    requires Reading(ret, p) && ReverseLookup(ch) != INVALID
    requires |p| % 4 != 0 ==> ret != []
    ensures Reading(Pushed(|p|, ret, ReverseLookup(ch)), p + [ch])
  {
    hide ReverseLookup, Alphabet, Decodes, Pushed;
    AlphabetInvertsLookup(ch);
    assert Lookups(p + [ch]) == Lookups(p) + [ReverseLookup(ch)];
    PushKeeps(ret, Lookups(p), ReverseLookup(ch));
  }

  lemma {:induction false} ReadingEnds(ret: seq<octet>, p: seq<octet>, ch: octet)
    requires Reading(ret, p) && ReverseLookup(ch) != INVALID
    requires |p| % 4 != 0 && Canonical(|p| % 4, ReverseLookup(ch)) && ret != []
    ensures var r := PushedLast(|p|, ret, ReverseLookup(ch)); Encoded(r, false) == p + [ch] && r != []
  {
    hide ReverseLookup, Alphabet, Decodes, PushedLast, Indices, Canonical;
    var r := PushedLast(|p|, ret, ReverseLookup(ch));
    AlphabetInvertsLookup(ch);
    assert Lookups(p + [ch]) == Lookups(p) + [ReverseLookup(ch)];
    CloseCompletes(ret, Lookups(p), ReverseLookup(ch));
    SpelledLookups(p + [ch]);
    IndicesLength(r);
  }

  lemma PadIsInvalid()
    ensures ReverseLookup(PAD) == INVALID
  {
  }

  /** The output size computed in advance from the number of characters. */
  function MaxLength(n: nat): (m: int) {
    (n + 3) / 4 * 3 - (if n % 4 == 3 then 1 else 0) - (if n % 4 == 2 then 2 else 0)
  }

  lemma SizeIsMaxLength(x: seq<octet>)
    ensures |x| == MaxLength(|Encoded(x, false)|)
  {
    IndicesLength(x);
  }

  /** Decoding returns the one non-empty string whose unpadded encoding is the input less up to
      two trailing pads, and the empty string when there is none. */
  method Decode(input: seq<octet>) returns (ret: seq<octet>)
    ensures ret != [] ==> Encoded(ret, false) == Stripped(input)
    ensures ret == [] ==> forall x | x != [] :: Encoded(x, false) != Stripped(input)
  {
    hide Alphabet, ReverseLookup, Pushed, PushedLast, Canonical, Reading, Encoded, MaxLength;
    if input == [] {
      Unspellable([]);
      return [];
    }
    var n := |input|;
    if input[n - 1] == PAD {
      n := n - 1;
      if n > 0 && input[n - 1] == PAD {
        n := n - 1;
      }
    }
    ghost var cs := input[..n];
    assert cs == Stripped(input);
    hide Stripped;
    var last := if n == 0 then 0xffff_ffff_ffff_ffff else n - 1;
    var maxLength := MaxLength(n);
    PadIsInvalid();
    ReadingStarts();
    ret := [];
    var ok;
    var i := 0;
    while i < last
      invariant 0 <= i <= last && (n == 0 ==> i == 0)
      invariant Reading(ret, input[..i])
    {
      ghost var before := ret;
      ReadingLength(ret, input[..i]);
      ok, ret := DecodeBase(input[i], i, ret);
      if !ok {
        Rejected(cs, i);
        return [];
      }
      ReadingGoesOn(before, input[..i], input[i]);
      assert input[..i + 1] == input[..i] + [input[i]];
      i := i + 1;
    }
    assert cs == input[..last] + [input[last]];
    ghost var before := ret;
    ReadingLength(ret, input[..last]);
    ok, ret := DecodeLast(input[last], last, ret);
    if !ok {
      Rejected(cs, last);
      return [];
    }
    ReadingEnds(before, input[..last], input[last]);
    assert |ret| == maxLength by { SizeIsMaxLength(ret); }
  }

  lemma {:induction false} Rejected(cs: seq<octet>, i: nat)
    requires cs != [] ==> i < |cs|
    requires cs == [] || ReverseLookup(cs[i]) == INVALID
          || (i == |cs| - 1 && (i % 4 == 0 || !Canonical(i % 4, ReverseLookup(cs[i]))))
    ensures forall x | x != [] :: Encoded(x, false) != cs
  {
    hide ReverseLookup, Encoded, Alphabet;
    Unspellable(cs);
  }

  // ----- Round trip -----

  lemma {:induction false} IndicesInjective(x: seq<octet>, y: seq<octet>)
    requires Indices(x) == Indices(y)
    ensures x == y
  {
    hide Indices, Top6, Low2, Top4, Low4, Top2, Low6, Or;
    IndicesLength(x);
    IndicesLength(y);
    assert |x| == |y|;
    if |x| == 1 {
      assert x == [x[0]] && y == [y[0]];
      IndicesOne(x[0]);
      IndicesOne(y[0]);
      OctetBits(x[0], 0, y[0], 0);
    } else if |x| == 2 {
      assert x == [x[0], x[1]] && y == [y[0], y[1]];
      TwoInjective(x[0], x[1], y[0], y[1]);
    } else if |x| >= 3 {
      IndicesHead(x);
      IndicesHead(y);
      assert x[..3] == [x[0], x[1], x[2]] && y[..3] == [y[0], y[1], y[2]];
      IndicesThree(x[0], x[1], x[2]);
      IndicesThree(y[0], y[1], y[2]);
      assert Indices(x[..3]) == Indices(x)[..4] && Indices(y[..3]) == Indices(y)[..4];
      assert Indices(x[3..]) == Indices(x)[4..] && Indices(y[3..]) == Indices(y)[4..];
      ThreeInjective(x[0], x[1], x[2], y[0], y[1], y[2]);
      IndicesInjective(x[3..], y[3..]);
      assert x == x[..3] + x[3..] && y == y[..3] + y[3..];
    }
  }

  lemma {:induction false} TwoInjective(a: octet, b: octet, c: octet, d: octet)
    requires Indices([a, b]) == Indices([c, d])
    ensures a == c && b == d
  {
    hide Indices, Top6, Low2, Top4, Low4, Top2, Low6, Or;
    IndicesTwo(a, b);
    IndicesTwo(c, d);
    var s := Indices([a, b]);
    assert s[0] == Top6(a) == Top6(c) && s[1] == Or(Low2(a), Top4(b)) == Or(Low2(c), Top4(d));
    assert s[2] == Low4(b) == Low4(d);
    OctetBits(a, b, c, d);
    OctetBits(b, 0, d, 0);
  }

  lemma {:induction false} ThreeInjective(a: octet, b: octet, e: octet, c: octet, d: octet, f: octet)
    requires Indices([a, b, e]) == Indices([c, d, f])
    ensures a == c && b == d && e == f
  {
    hide Indices, Top6, Low2, Top4, Low4, Top2, Low6, Or;
    IndicesThree(a, b, e);
    IndicesThree(c, d, f);
    var s := Indices([a, b, e]);
    assert s[0] == Top6(a) == Top6(c) && s[1] == Or(Low2(a), Top4(b)) == Or(Low2(c), Top4(d));
    assert s[2] == Or(Low4(b), Top2(e)) == Or(Low4(d), Top2(f)) && s[3] == Low6(e) == Low6(f);
    OctetBits(a, b, c, d);
    OctetBits(b, e, d, f);
    OctetBits(e, 0, f, 0);
  }

  /** Different strings have different encodings, padded or not. */
  lemma {:induction false} EncodedInjective(x: seq<octet>, y: seq<octet>)
    requires Encoded(x, false) == Encoded(y, false)
    ensures x == y
  {
    hide Encoded, Indices;
    LookupsSpelled(x, Encoded(x, false));
    LookupsSpelled(y, Encoded(y, false));
    IndicesInjective(x, y);
  }

  /** Stripping undoes padding and takes nothing else away. */
  lemma {:induction false} StrippedEncoding(x: seq<octet>, addPadding: bool)
    ensures Stripped(Encoded(x, addPadding)) == Encoded(x, false)
  {
    hide Indices, Alphabet;
    var cs := Encoded(x, false);
    if cs != [] {
      IndicesSmall(x);
      LookupInvertsAlphabet(Indices(x)[|cs| - 1]);
    } else {
      IndicesLength(x);
    }
  }

  /** Decoding an encoding gives the string back, with either padding. */
  method RoundTrip(x: seq<octet>, addPadding: bool) returns (y: seq<octet>)
    ensures y == x
  {
    hide Encoded, Stripped;
    var cs := Encode(x, addPadding);
    y := Decode(cs);
    StrippedEncoding(x, addPadding);
    if y != [] {
      EncodedInjective(x, y);
    } else {
      assert x == [] || Encoded(x, false) != Stripped(cs);
    }
  }
}

/** Counting the parameters of a Dubbo method from its JVM type descriptors (section 4.3.2 of the
    Java Virtual Machine Specification), written one after another without separators. */
module Descriptors {

  datatype BaseType = Void | Boolean | Byte | Char | Double | Float | Int | Long | Short

  datatype Descriptor = Primitive(base: BaseType) | Object(name: string) | Array(element: Descriptor)

  function Letter(t: BaseType): (ch: char) {
    match t
    case Void => 'V'
    case Boolean => 'Z'
    case Byte => 'B'
    case Char => 'C'
    case Double => 'D'
    case Float => 'F'
    case Int => 'I'
    case Long => 'J'
    case Short => 'S'
  }

  predicate WellFormed(d: Descriptor) {
    match d
    case Primitive(_) => true
    case Object(name) => ';' !in name
    case Array(element) => WellFormed(element)
  }

  function Text(d: Descriptor): (s: string)
    ensures s != []
  {
    match d
    case Primitive(base) => [Letter(base)]
    case Object(name) => ['L'] + name + [';']
    case Array(element) => ['['] + Text(element)
  }

  predicate AllWellFormed(ds: seq<Descriptor>) {
    forall i | 0 <= i < |ds| :: WellFormed(ds[i])
  }

  function Texts(ds: seq<Descriptor>): (s: string) {
    if ds == [] then [] else Text(ds[0]) + Texts(ds[1..])
  }

  // ----- Unique readability -----

  lemma {:induction false} NameEnds(a: string, r: string, b: string, q: string)
    requires ';' !in a && ';' !in b
    requires a + [';'] + r == b + [';'] + q
    ensures a == b && r == q
  {
    var s := a + [';'] + r;
    assert s[|a|] == ';' && s[|b|] == ';';
    assert forall i | 0 <= i < |a| :: s[i] == a[i];
    assert forall i | 0 <= i < |b| :: s[i] == b[i];
    assert |a| == |b|;
    assert a == s[..|a|] && b == s[..|b|] && r == s[|a| + 1..] && q == s[|b| + 1..];
  }

  /** No descriptor is a proper prefix of another. */
  lemma {:induction false} TextIsPrefixCode(d: Descriptor, r: string, e: Descriptor, q: string)
    requires WellFormed(d) && WellFormed(e) && Text(d) + r == Text(e) + q
    ensures d == e && r == q
    decreases d
  {
    var s := Text(d) + r;
    assert s[0] == Text(d)[0] == Text(e)[0];
    assert s[1..] == Text(d)[1..] + r == Text(e)[1..] + q;
    match d {
      case Primitive(_) =>
        assert e.Primitive?;
      case Object(a) =>
        assert e.Object?;
        assert Text(d)[1..] == a + [';'] && Text(e)[1..] == e.name + [';'];
        NameEnds(a, r, e.name, q);
      case Array(x) =>
        assert e.Array?;
        assert Text(d)[1..] == Text(x) && Text(e)[1..] == Text(e.element);
        TextIsPrefixCode(x, r, e.element, q);
    }
  }

  /** A parameter string is the text of at most one list of descriptors. */
  lemma {:induction false} TextsInjective(ds: seq<Descriptor>, es: seq<Descriptor>)
    requires AllWellFormed(ds) && AllWellFormed(es) && Texts(ds) == Texts(es)
    ensures ds == es
  {
    if ds != [] && es != [] {
      TextIsPrefixCode(ds[0], Texts(ds[1..]), es[0], Texts(es[1..]));
      TextsInjective(ds[1..], es[1..]);
      assert ds == [ds[0]] + ds[1..] && es == [es[0]] + es[1..];
    }
  }

  // ----- The scanner -----

  predicate IsPrimitive(ch: char) {
    ch in "VZBCDFIJS"
  }

  datatype Scanner = Scanner(count: nat, next: bool)

  function Read(t: Scanner, ch: char): (r: Scanner) {
    if ch == '[' || (t.next && ch != ';') then t
    else if IsPrimitive(ch) then t.(count := t.count + 1)
    else if ch == 'L' then Scanner(t.count + 1, true)
    else if ch == ';' then t.(next := false)
    else t
  }

  function ReadAll(t: Scanner, s: string): (r: Scanner)
    decreases |s|
  {
    if s == [] then t else ReadAll(Read(t, s[0]), s[1..])
  }

  lemma {:induction false} ReadAllConcat(t: Scanner, a: string, b: string)
    ensures ReadAll(t, a + b) == ReadAll(ReadAll(t, a), b)
    decreases |a|
  {
    if a == [] {
      assert a + b == b;
    } else {
      assert (a + b)[1..] == a[1..] + b;
      ReadAllConcat(Read(t, a[0]), a[1..], b);
    }
  }

  lemma {:induction false} SkipsName(count: nat, name: string)
    requires ';' !in name
    ensures ReadAll(Scanner(count, true), name) == Scanner(count, true)
  {
    if name != [] {
      SkipsName(count, name[1..]);
    }
  }

  lemma {:induction false} CountsOne(t: Scanner, d: Descriptor)
    requires WellFormed(d) && !t.next
    ensures ReadAll(t, Text(d)) == Scanner(t.count + 1, false)
    decreases d
  {
    match d {
      case Primitive(base) =>
        var ch := Letter(base);
        assert ReadAll(t, [ch]) == Read(t, ch) by { assert [ch][1..] == []; }
      case Object(name) =>
        var open := Scanner(t.count + 1, true);
        assert Text(d)[1..] == name + [';'];
        ReadAllConcat(open, name, [';']);
        SkipsName(t.count + 1, name);
        assert ReadAll(open, [';']) == Read(open, ';') by { assert [';'][1..] == []; }
      case Array(x) =>
        assert Text(d)[1..] == Text(x);
        CountsOne(t, x);
    }
  }

  lemma {:induction false} CountsAll(t: Scanner, ds: seq<Descriptor>)
    requires AllWellFormed(ds) && !t.next
    ensures ReadAll(t, Texts(ds)) == Scanner(t.count + |ds|, false)
    decreases |ds|
  {
    if ds != [] {
      ReadAllConcat(t, Text(ds[0]), Texts(ds[1..]));
      CountsOne(t, ds[0]);
      CountsAll(Scanner(t.count + 1, false), ds[1..]);
    }
  }

  const TWO_32 := 0x1_0000_0000

  /** For every list of well-formed descriptors, the count is the length of the list (in 32 bits). Of
      any other string it is what the scanner counts. */
  method GetParametersNumber(parametersType: string) returns (count: nat)
    ensures count == ReadAll(Scanner(0, false), parametersType).count % TWO_32
    ensures forall ds | AllWellFormed(ds) && Texts(ds) == parametersType :: count == |ds| % TWO_32
  {
    hide IsPrimitive, Texts, AllWellFormed;
    ghost var start := Scanner(0, false);
    forall ds | AllWellFormed(ds) && Texts(ds) == parametersType
      ensures ReadAll(start, parametersType) == Scanner(|ds|, false)
    {
      CountsAll(start, ds);
    }
    if parametersType == [] {
      return 0;
    }
    count := 0;
    var next := false;
    ghost var seen := start;
    assert parametersType[0..] == parametersType;
    for i := 0 to |parametersType|
      invariant ReadAll(start, parametersType) == ReadAll(seen, parametersType[i..])
      invariant count == seen.count % TWO_32 && next == seen.next
    {
      var ch := parametersType[i];
      assert parametersType[i..][1..] == parametersType[i + 1..];
      seen := Read(seen, ch);
      if ch == '[' {
        continue;
      }
      if next && ch != ';' {
        continue;
      }
      if IsPrimitive(ch) {
        count := (count + 1) % TWO_32;
      } else if ch == 'L' {
        count := (count + 1) % TWO_32;
        next := true;
      } else if ch == ';' {
        next := false;
      }
    }
  }
}

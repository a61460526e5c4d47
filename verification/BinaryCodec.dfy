/** The 7-bit encoding of unsigned integers (src/include/Poco/BinaryWriter.h, BinaryReader.h). */
module SevenBit {
  import opened Basics

  type Byte = b: nat | b < 256

  /** Seven bits at a time, least significant first; the high bit says that more bytes follow. */
  function Encode(v: nat): (r: seq<Byte>)
    ensures r != []
  {
    if v < 128 then [v] else [v % 128 + 128] + Encode(v / 128)
  }

  function EncodeAll(vs: seq<nat>): seq<Byte> {
    if vs == [] then [] else Encode(vs[0]) + EncodeAll(vs[1..])
  }

  /** `x << 7 * groups`, before truncation to the type. */
  function Scale(x: nat, groups: nat): nat {
    if groups == 0 then x else 128 * Scale(x, groups - 1)
  }

  /** Undefined: the shift is as wide as the type or wider. */
  datatype Decoded = Undefined | Value(v: nat, rest: seq<Byte>)

  function Truncate(n: nat, bits: nat): nat {
    n % Pow2(bits)
  }

  /** Reads groups from number `groups` on into `value`. A read at the end of the stream yields a zero
      byte, which ends the number. */
  function DecodeFrom(bytes: seq<Byte>, bits: nat, groups: nat, value: nat): Decoded
    decreases |bytes|
  {
    var c: Byte, rest := if bytes == [] then 0 else bytes[0], if bytes == [] then [] else bytes[1..];
    if 7 * groups >= bits then Undefined
    else
      var next := Truncate(value + Truncate(Scale(c % 128, groups), bits), bits);
      if c < 128 then Value(next, rest) else DecodeFrom(rest, bits, groups + 1, next)
  }

  function Decode(bytes: seq<Byte>, bits: nat): Decoded {
    DecodeFrom(bytes, bits, 0, 0)
  }

  /** The number that groups of seven bits write down, least significant first. */
  function Groups(bytes: seq<Byte>): nat {
    if bytes == [] then 0 else bytes[0] % 128 + 128 * Groups(bytes[1..])
  }

  /** Every byte but the last says that more follow. */
  predicate Flagged(bytes: seq<Byte>) {
    bytes != [] && forall i :: 0 <= i < |bytes| ==> (bytes[i] >= 128 <==> i < |bytes| - 1)
  }

  /** What is written: the value's groups, with the flag on all but the last. */
  lemma {:induction false} EncodedBytes(v: nat)
    ensures Groups(Encode(v)) == v && Flagged(Encode(v))
  {
    if v < 128 {
      assert [v][1..] == [];
    } else {
      EncodedBytes(v / 128);
      assert Encode(v)[1..] == Encode(v / 128);
      assert forall i :: 0 < i < |Encode(v)| ==> Encode(v)[i] == Encode(v / 128)[i - 1];
    }
  }

  /** What is read from any groups, as long as no shift is too wide: their number, cut to the type. */
  lemma {:induction false} DecodedGroups(bytes: seq<Byte>, rest: seq<Byte>, bits: nat)
    requires Flagged(bytes)
    ensures Decode(bytes + rest, bits) ==
              if 7 * (|bytes| - 1) < bits then Value(Groups(bytes) % Pow2(bits), rest) else Undefined
  {
    DecodedFrom(bytes, rest, bits, 0, 0);
  }

  lemma {:induction false} DecodedFrom(bytes: seq<Byte>, rest: seq<Byte>, bits: nat, groups: nat, value: nat)
    requires Flagged(bytes) && value < Pow2(bits)
    ensures DecodeFrom(bytes + rest, bits, groups, value) ==
              if 7 * (groups + |bytes| - 1) >= bits then Undefined
              else Value(Truncate(value + Scale(Groups(bytes), groups), bits), rest)
    decreases |bytes|
  {
    hide Truncate, Pow2, Scale, DecodeFrom;
    var c, tail := bytes[0], bytes[1..];
    assert bytes + rest == [c] + (tail + rest);
    if 7 * groups < bits {
      DecodeStep(c, tail + rest, bits, groups, value);
      ScaleSplit(Groups(bytes), groups);
      var low := Scale(c % 128, groups);
      TruncateInside(value, low, bits);
      var next := Truncate(value + Truncate(low, bits), bits);
      if tail == [] {
        ScaleZero(groups + 1);
        assert tail + rest == rest && Groups(tail) == 0;
      } else {
        assert Flagged(tail);
        TruncatedFits(value + Truncate(low, bits), bits);
        DecodedFrom(tail, rest, bits, groups + 1, next);
        TruncateInside(Scale(Groups(tail), groups + 1), value + low, bits);
      }
    } else {
      DecodeTooWide(bytes + rest, bits, groups, value);
    }
  }

  lemma DecodeTooWide(bytes: seq<Byte>, bits: nat, groups: nat, value: nat)
    requires 7 * groups >= bits
    ensures DecodeFrom(bytes, bits, groups, value) == Undefined
  {
  }

  lemma TruncatedFits(n: nat, bits: nat)
    ensures Truncate(n, bits) < Pow2(bits)
  {
  }

  /** Cutting a summand first makes no difference. */
  lemma TruncateInside(a: nat, b: nat, bits: nat)
    ensures Truncate(a + Truncate(b, bits), bits) == Truncate(a + b, bits)
  {
    var m := Pow2(bits);
    hide Pow2;
    assert b == b / m * m + b % m;
    DropMultiple(a + b % m, b / m, m);
  }

  lemma {:induction false} DropMultiple(n: nat, q: nat, m: nat)
    requires m > 0
    ensures (n + q * m) % m == n % m
  {
    var x := n + q * m;
    assert x == x / m * m + x % m && n == n / m * m + n % m;
    assert (x / m - q - n / m) * m == n % m - x % m;
    OnlyZero(x / m - q - n / m, m);
  }

  lemma OnlyZero(k: int, m: int)
    requires m > 0 && -m < k * m < m
    ensures k == 0
  {
  }

  /** At the end of the stream a number that was to go on ends with what it had. */
  lemma {:induction false} EndOfStream(bytes: seq<Byte>, bits: nat)
    requires forall i :: 0 <= i < |bytes| ==> bytes[i] >= 128
    ensures Decode(bytes, bits) == Decode(bytes + [0], bits)
  {
    EndOfStreamFrom(bytes, bits, 0, 0);
  }

  lemma {:induction false} EndOfStreamFrom(bytes: seq<Byte>, bits: nat, groups: nat, value: nat)
    requires forall i :: 0 <= i < |bytes| ==> bytes[i] >= 128
    ensures DecodeFrom(bytes, bits, groups, value) == DecodeFrom(bytes + [0], bits, groups, value)
    decreases |bytes|
  {
    hide Truncate, Scale;
    if bytes != [] && 7 * groups < bits {
      var next := Truncate(value + Truncate(Scale(bytes[0] % 128, groups), bits), bits);
      assert (bytes + [0])[1..] == bytes[1..] + [0];
      EndOfStreamFrom(bytes[1..], bits, groups + 1, next);
    }
  }

  lemma {:induction false} ScaleOne(groups: nat)
    ensures Scale(1, groups) == Pow2(7 * groups)
  {
    if groups > 0 {
      ScaleOne(groups - 1);
      Doubling(7 * (groups - 1), 7);
    }
  }

  lemma {:induction false} Doubling(e: nat, n: nat)
    requires n <= 7
    ensures Pow2(e + n) == [1, 2, 4, 8, 16, 32, 64, 128][n] * Pow2(e)
  {
    if n > 0 {
      Doubling(e, n - 1);
    }
  }

  lemma {:induction false} ScaleMonotone(x: nat, y: nat, groups: nat)
    requires x <= y
    ensures Scale(x, groups) <= Scale(y, groups)
  {
    if groups > 0 {
      ScaleMonotone(x, y, groups - 1);
    }
  }

  /** One group more: the low seven bits now, the others one group higher. */
  lemma {:induction false} ScaleSplit(v: nat, groups: nat)
    ensures Scale(v, groups) == Scale(v % 128, groups) + Scale(v / 128, groups + 1)
  {
    if groups == 0 {
      assert Scale(v / 128, 1) == 128 * Scale(v / 128, 0);
    } else {
      ScaleSplit(v, groups - 1);
    }
  }

  lemma {:induction false} Pow2Monotone(a: nat, b: nat)
    requires a <= b
    ensures Pow2(a) <= Pow2(b)
  {
    if a < b {
      Pow2Monotone(a, b - 1);
    }
  }

  lemma SmallFits(n: nat, bits: nat)
    requires n < Pow2(bits)
    ensures Truncate(n, bits) == n
  {
    var m := Pow2(bits);
    hide Pow2;
    assert n == (n / m) * m + n % m;
    NoMultiple(n / m, m);
  }

  lemma NoMultiple(q: nat, m: nat)
    requires q * m < m
    ensures q == 0
  {
  }

  /** A value that fits the type never needs a shift as wide as the type. */
  lemma {:induction false} ShiftIsDefined(v: nat, bits: nat, groups: nat)
    requires v > 0 && Scale(v, groups) < Pow2(bits)
    ensures 7 * groups < bits
  {
    ScaleMonotone(1, v, groups);
    ScaleOne(groups);
    if 7 * groups >= bits {
      Pow2Monotone(bits, 7 * groups);
    }
  }

  /** Decoding goes on from any partial value without overflow or an undefined shift. */
  lemma {:induction false} DecodeEncoded(v: nat, rest: seq<Byte>, bits: nat, groups: nat, value: nat)
    requires value + Scale(v, groups) < Pow2(bits)
    requires (groups == 0 && bits > 0) || v > 0
    ensures DecodeFrom(Encode(v) + rest, bits, groups, value) == Value(value + Scale(v, groups), rest)
    decreases v
  {
    hide Truncate, Pow2, Scale, DecodeFrom;
    if v > 0 {
      ShiftIsDefined(v, bits, groups);
    }
    ScaleSplit(v, groups);
    var low := Scale(v % 128, groups);
    SmallFits(low, bits);
    SmallFits(value + low, bits);
    if v < 128 {
      ScaleZero(groups + 1);
      DecodeStep(v, rest, bits, groups, value);
      assert Encode(v) == [v];
    } else {
      var tail := Encode(v / 128) + rest;
      DecodeStep(v % 128 + 128, tail, bits, groups, value);
      assert Encode(v) + rest == [v % 128 + 128] + tail;
      hide Encode;
      DecodeEncoded(v / 128, rest, bits, groups + 1, value + low);
    }
  }

  lemma DecodeStep(c: Byte, rest: seq<Byte>, bits: nat, groups: nat, value: nat)
    requires 7 * groups < bits
    ensures var next := Truncate(value + Truncate(Scale(c % 128, groups), bits), bits);
            DecodeFrom([c] + rest, bits, groups, value) ==
              if c < 128 then Value(next, rest) else DecodeFrom(rest, bits, groups + 1, next)
  {
  }

  lemma {:induction false} ScaleZero(groups: nat)
    ensures Scale(0, groups) == 0
  {
    if groups > 0 {
      ScaleZero(groups - 1);
    }
  }

  /** Decoding an encoded value of the type gives it back and consumes exactly the bytes written. */
  lemma {:induction false} RoundTrip(v: nat, rest: seq<Byte>, bits: nat)
    requires bits > 0 && v < Pow2(bits)
    ensures Decode(Encode(v) + rest, bits) == Value(v, rest)
  {
    DecodeEncoded(v, rest, bits, 0, 0);
  }

  /** Values read one after the other. */
  function DecodeMany(bytes: seq<Byte>, bits: nat, count: nat): (seq<nat>, seq<Byte>)
    decreases count
  {
    if count == 0 then ([], bytes)
    else
      match Decode(bytes, bits)
      case Undefined => ([], bytes)
      case Value(v, rest) => var (vs, end) := DecodeMany(rest, bits, count - 1); ([v] + vs, end)
  }

  lemma {:induction false} RoundTripMany(vs: seq<nat>, rest: seq<Byte>, bits: nat)
    requires bits > 0 && forall i :: 0 <= i < |vs| ==> vs[i] < Pow2(bits)
    ensures DecodeMany(EncodeAll(vs) + rest, bits, |vs|) == (vs, rest)
  {
    hide Decode, Encode;
    if vs == [] {
      assert EncodeAll(vs) + rest == rest;
    } else {
      assert EncodeAll(vs) + rest == Encode(vs[0]) + (EncodeAll(vs[1..]) + rest);
      RoundTrip(vs[0], EncodeAll(vs[1..]) + rest, bits);
      RoundTripMany(vs[1..], rest, bits);
      assert [vs[0]] + vs[1..] == vs;
    }
  }

  /** No encoding is the beginning of another value's encoding. */
  lemma {:induction false} PrefixFree(a: nat, b: nat, rest: seq<Byte>)
    requires Encode(b) == Encode(a) + rest
    ensures a == b && rest == []
  {
    var bits := SomeWidth(if a < b then b else a);
    RoundTrip(a, rest, bits);
    RoundTrip(b, [], bits);
    assert Encode(b) + [] == Encode(b);
  }

  lemma {:induction false} SomeWidth(v: nat) returns (bits: nat)
    ensures bits > 0 && v < Pow2(bits)
  {
    if v == 0 {
      bits := 1;
    } else {
      var n := SomeWidth(v - 1);
      bits := n + 1;
      assert Pow2(bits) == 2 * Pow2(n);
    }
  }

  /** The number of bytes is the least that holds the value, and one for zero. */
  lemma {:induction false} EncodedLength(v: nat)
    ensures v < Pow2(7 * |Encode(v)|)
    ensures |Encode(v)| > 1 ==> v >= Pow2(7 * (|Encode(v)| - 1))
  {
    if v < 128 {
      Doubling(0, 7);
    } else {
      EncodedLength(v / 128);
      var n := |Encode(v / 128)|;
      Doubling(7 * n, 7);
      assert 7 * n + 7 == 7 * |Encode(v)|;
      if n > 1 {
        Doubling(7 * (n - 1), 7);
      } else {
        Doubling(0, 7);
      }
    }
  }

  class BinaryWriter {
    var bytes: seq<Byte>

    constructor ()
      ensures bytes == []
    {
      bytes := [];
    }

    /** The do-while loop of `write7BitEncoded`. */
    method Write7BitEncoded(v: nat)
      modifies this
      ensures bytes == old(bytes) + Encode(v)
    {
      var value, more := v, true;
      while more
        invariant more ==> bytes + Encode(value) == old(bytes) + Encode(v)
        invariant !more ==> bytes == old(bytes) + Encode(v)
        decreases more, value
      {
        var c: Byte := value % 128;
        ghost var before, from := bytes, value;
        value := value / 128;
        if value != 0 {
          c := c + 128;
        }
        bytes := bytes + [c];
        assert before + Encode(from) == if value == 0 then bytes else bytes + Encode(value);
        more := value != 0;
      }
    }
  }

  class BinaryReader {
    var bytes: seq<Byte>

    constructor (bytes: seq<Byte>)
      ensures this.bytes == bytes
    {
      this.bytes := bytes;
    }

    /** The do-while loop of `read7BitEncoded`; it stops where the language leaves the shift undefined. */
    method Read7BitEncoded(bits: nat) returns (defined: bool, value: nat)
      modifies this
      ensures defined <==> Decode(old(bytes), bits).Value?
      ensures defined ==> Decode(old(bytes), bits) == Value(value, bytes)
    {
      var groups, more := 0, true;
      value := 0;
      while more
        invariant more ==> DecodeFrom(bytes, bits, groups, value) == Decode(old(bytes), bits)
        invariant !more ==> Decode(old(bytes), bits) == Value(value, bytes)
        decreases more, |bytes|
      {
        if 7 * groups >= bits {
          return false, 0;
        }
        var c: Byte := 0;
        if bytes != [] {
          c := bytes[0];
          bytes := bytes[1..];
        }
        value := Truncate(value + Truncate(Scale(c % 128, groups), bits), bits);
        groups := groups + 1;
        more := c >= 128;
      }
      defined := true;
    }
  }
}

/** Length-prefixed vectors of 32-bit words, nested to any depth (the vector operators of
    src/include/Poco/BinaryWriter.h and BinaryReader.h). */
module Vectors {
  import opened Basics
  import opened SevenBit

  datatype Tree = Num(v: nat) | Vec(items: seq<Tree>)

  const WORD := 0x1_0000_0000

  /** A vector type of the given depth, its numbers within 32 bits and its sizes below 2^32. */
  ghost predicate Fits(t: Tree, depth: nat) {
    match t
    case Num(v) => depth == 0 && v < WORD
    case Vec(items) => depth > 0 && |items| < WORD && forall i :: 0 <= i < |items| ==> Fits(items[i], depth - 1)
  }

  // ----- Writing

  /** Four bytes in the writer's byte order. */
  function Word(v: nat, flip: bool): (r: seq<Byte>)
    ensures |r| == 4
  {
    var q := v / 256;
    var p := q / 256;
    var a: Byte, b: Byte, c: Byte, d: Byte := v % 256, q % 256, p % 256, p / 256 % 256;
    if flip then [d, c, b, a] else [a, b, c, d]
  }

  function ReadWord(bytes: seq<Byte>, flip: bool): Option<(nat, seq<Byte>)> {
    if |bytes| < 4 then None
    else
      var a: nat, b: nat, c: nat, d: nat := bytes[0], bytes[1], bytes[2], bytes[3];
      Some((if flip then d + 256 * (c + 256 * (b + 256 * a)) else a + 256 * (b + 256 * (c + 256 * d)), bytes[4..]))
  }

  lemma WordRoundTrip(v: nat, flip: bool, rest: seq<Byte>)
    requires v < WORD
    ensures ReadWord(Word(v, flip) + rest, flip) == Some((v, rest))
  {
    hide Word;
    var a, b, c, d := BytesOf(v);
    WordBytes(v, a, b, c, d);
    assert ([a, b, c, d] + rest)[4..] == rest && ([d, c, b, a] + rest)[4..] == rest;
  }

  lemma BytesOf(v: nat) returns (a: Byte, b: Byte, c: Byte, d: Byte)
    requires v < WORD
    ensures v == a + 0x100 * b + 0x1_0000 * c + 0x100_0000 * d
  {
    var q := v / 256;
    var p := q / 256;
    assert q < 0x100_0000 && p < 0x1_0000;
    a, b, c, d := v % 256, q % 256, p % 256, p / 256;
    assert v == 256 * q + a && q == 256 * p + b && p == 256 * d + c;
  }

  /** The least significant byte first, or last if the order is the other one. */
  lemma WordBytes(v: nat, a: Byte, b: Byte, c: Byte, d: Byte)
    requires v == a + 0x100 * b + 0x1_0000 * c + 0x100_0000 * d
    ensures Word(v, false) == [a, b, c, d] && Word(v, true) == [d, c, b, a]
  {
    var q, p := b + 0x100 * c + 0x1_0000 * d, c + 0x100 * d;
    assert v == a + 0x100 * q && q == b + 0x100 * p;
    assert v / 256 == q && q / 256 == p && p / 256 == d;
  }

  /** The size, cut to 32 bits, and the elements. */
  function Written(t: Tree, flip: bool): seq<Byte>
    decreases t, 1
  {
    match t
    case Num(v) => Word(v, flip)
    case Vec(items) => Word(|items| % WORD, flip) + WrittenItems(items, flip)
  }

  function WrittenItems(items: seq<Tree>, flip: bool): seq<Byte>
    decreases items, 0
  {
    if items == [] then [] else Written(items[0], flip) + WrittenItems(items[1..], flip)
  }

  /** A vector of two vectors, byte by byte. */
  lemma WrittenExample()
    ensures Written(Vec([Vec([Num(0x0102_0304)]), Vec([])]), false) == [2, 0, 0, 0, 1, 0, 0, 0, 4, 3, 2, 1, 0, 0, 0, 0]
    ensures Written(Vec([Vec([Num(0x0102_0304)]), Vec([])]), true) == [0, 0, 0, 2, 0, 0, 0, 1, 1, 2, 3, 4, 0, 0, 0, 0]
  {
    hide Word, Written, WrittenItems;
    WordBytes(0, 0, 0, 0, 0);
    WordBytes(1, 1, 0, 0, 0);
    WordBytes(2, 2, 0, 0, 0);
    WordBytes(0x0102_0304, 4, 3, 2, 1);
    ExampleInWords(0x0102_0304, false);
    ExampleInWords(0x0102_0304, true);
  }

  lemma ExampleInWords(v: nat, flip: bool)
    ensures Written(Vec([Vec([Num(v)]), Vec([])]), flip) ==
              Word(2, flip) + (Word(1, flip) + Word(v, flip) + Word(0, flip))
  {
    hide Word;
    var a, b := Vec([Num(v)]), Vec([]);
    assert a.items[1..] == [] && [a, b][1..] == [b] && [b][1..] == [];
    assert WrittenItems(a.items, flip) == Word(v, flip);
    assert Written(a, flip) == Word(1, flip) + Word(v, flip);
    assert Written(b, flip) == Word(0, flip);
    assert WrittenItems([b], flip) == Word(0, flip);
    assert WrittenItems([a, b], flip) == Word(1, flip) + Word(v, flip) + Word(0, flip);
  }

  // ----- Reading

  ghost predicate Shaped(t: Tree, depth: nat) {
    t.Num? <==> depth == 0
  }

  /** A default-constructed variable of the type. */
  function Default(depth: nat): (t: Tree)
    ensures Shaped(t, depth)
  {
    if depth == 0 then Num(0) else Vec([])
  }

  /** Reads into a variable that holds `into`. A number is overwritten, but a vector is appended to,
      and one element variable serves for all elements of a vector. None: the stream failed. */
  function ReadInto(depth: nat, into: Tree, bytes: seq<Byte>, flip: bool): (r: Option<(Tree, seq<Byte>)>)
    requires Shaped(into, depth)
    ensures r.Some? ==> Shaped(r.value.0, depth)
    decreases depth, 0
  {
    match ReadWord(bytes, flip)
    case None => None
    case Some((n, rest)) =>
      if depth == 0 then Some((Num(n), rest))
      else ReadItems(depth - 1, n, Default(depth - 1), into.items, rest, flip)
  }

  function ReadItems(depth: nat, n: nat, elem: Tree, value: seq<Tree>, bytes: seq<Byte>,
          flip: bool): (r: Option<(Tree, seq<Byte>)>)
    requires Shaped(elem, depth)
    ensures r.Some? ==> r.value.0.Vec?
    decreases depth, n + 1
  {
    if n == 0 then Some((Vec(value), bytes))
    else
      match ReadInto(depth, elem, bytes, flip)
      case None => None
      case Some((read, rest)) => ReadItems(depth, n - 1, read, value + [read], rest, flip)
  }

  // ----- What reading a written vector gives

  /** What a variable holds after reading `t` into it. */
  function Joined(into: Tree, t: Tree): Tree {
    match (into, t)
    case (Vec(a), Vec(b)) => Vec(a + b)
    case _ => t
  }

  /** What a fresh variable holds after reading what was written for `t`: inside nested vectors every
      element is preceded by all the elements read before it. */
  function Accumulated(t: Tree): (r: Tree)
    ensures r.Num? <==> t.Num?
    decreases t, 1
  {
    match t
    case Num(v) => t
    case Vec(items) => Vec(AccumulatedItems(items, Vec([])))
  }

  function AccumulatedItems(items: seq<Tree>, elem: Tree): (r: seq<Tree>)
    ensures |r| == |items|
    decreases items, 0
  {
    if items == [] then []
    else
      var read := Joined(elem, Accumulated(items[0]));
      [read] + AccumulatedItems(items[1..], read)
  }

  /** Reading what was written consumes exactly its bytes and yields the accumulated vectors, appended
      to what the variable held. */
  lemma {:induction false} ReadWritten(depth: nat, into: Tree, t: Tree, rest: seq<Byte>, flip: bool)
    requires Shaped(into, depth) && Fits(t, depth)
    ensures ReadInto(depth, into, Written(t, flip) + rest, flip) == Some((Joined(into, Accumulated(t)), rest))
    decreases t, 1
  {
    match t
    case Num(v) =>
      WordRoundTrip(v, flip, rest);
    case Vec(items) =>
      var tail := WrittenItems(items, flip) + rest;
      assert |items| % WORD == |items|;
      assert Written(t, flip) + rest == Word(|items|, flip) + tail;
      WordRoundTrip(|items|, flip, tail);
      ReadWrittenItems(depth - 1, items, Default(depth - 1), into.items, rest, flip);
      AccumulatedDefault(items, depth - 1);
  }

  /** A default number or vector as element variable makes no difference. */
  lemma AccumulatedDefault(items: seq<Tree>, depth: nat)
    requires forall i :: 0 <= i < |items| ==> Fits(items[i], depth)
    ensures AccumulatedItems(items, Default(depth)) == AccumulatedItems(items, Vec([]))
  {
  }

  lemma {:induction false} ReadWrittenItems(depth: nat, items: seq<Tree>, elem: Tree, value: seq<Tree>,
          rest: seq<Byte>, flip: bool)
    requires Shaped(elem, depth) && forall i :: 0 <= i < |items| ==> Fits(items[i], depth)
    ensures ReadItems(depth, |items|, elem, value, WrittenItems(items, flip) + rest, flip) ==
            Some((Vec(value + AccumulatedItems(items, elem)), rest))
    decreases items, 0
  {
    if items == [] {
      assert WrittenItems(items, flip) + rest == rest && value + [] == value;
    } else {
      var tail, read := WrittenItems(items[1..], flip) + rest, Joined(elem, Accumulated(items[0]));
      assert WrittenItems(items, flip) + rest == Written(items[0], flip) + tail;
      ReadWritten(depth, elem, items[0], tail, flip);
      ReadWrittenItems(depth, items[1..], read, value + [read], rest, flip);
      assert value + [read] + AccumulatedItems(items[1..], read) ==
          value + ([read] + AccumulatedItems(items[1..], read));
    }
  }

  // ----- When the round trip is faithful

  /** In every vector of vectors, at any depth, all elements but the last are empty. */
  ghost predicate OnlyLastFilled(t: Tree)
    decreases t, 1
  {
    match t
    case Num(_) => true
    case Vec(items) => OnlyLastItemFilled(items)
  }

  ghost predicate OnlyLastItemFilled(items: seq<Tree>)
    decreases items, 0
  {
    items == [] ||
    (if |items| == 1 then OnlyLastFilled(items[0])
     else (items[0].Num? || items[0].items == []) && OnlyLastItemFilled(items[1..]))
  }

  /** Vectors are read back as they were written if and only if only the last element of each nested
      vector is filled. Vectors of plain numbers always are. */
  lemma {:induction false} RoundTripIff(depth: nat, t: Tree, rest: seq<Byte>, flip: bool)
    requires Fits(t, depth)
    ensures ReadInto(depth, Default(depth), Written(t, flip) + rest, flip) == Some((t, rest)) <==> OnlyLastFilled(t)
  {
    ReadWritten(depth, Default(depth), t, rest, flip);
    FaithfulIff(depth, t);
    assert Joined(Default(depth), Accumulated(t)) == Accumulated(t) by {
      if t.Vec? {
        assert [] + Accumulated(t).items == Accumulated(t).items;
      }
    }
  }

  lemma {:induction false} FaithfulIff(depth: nat, t: Tree)
    requires Fits(t, depth)
    ensures Accumulated(t) == t <==> OnlyLastFilled(t)
    decreases t, 1
  {
    if t.Vec? {
      FaithfulItemsIff(depth - 1, t.items);
    }
  }

  lemma {:induction false} FaithfulItemsIff(depth: nat, items: seq<Tree>)
    requires forall i :: 0 <= i < |items| ==> Fits(items[i], depth)
    ensures AccumulatedItems(items, Vec([])) == items <==> OnlyLastItemFilled(items)
    decreases items, 0
  {
    if items != [] {
      FaithfulIff(depth, items[0]);
      FaithfulItemsIff(depth, items[1..]);
      var first := Accumulated(items[0]);
      assert Joined(Vec([]), first) == first by {
        if first.Vec? {
          assert [] + first.items == first.items;
        }
      }
      var others := AccumulatedItems(items[1..], first);
      assert AccumulatedItems(items, Vec([])) == [first] + others;
      assert items == [items[0]] + items[1..];
      if |items| > 1 {
        FirstOfOthers(items[1..], first);
        if items[0].Num? {
          NumbersDoNotJoin(items[1..], first);
        }
      }
    }
  }

  /** A filled element variable shows in the next element. */
  lemma {:induction false} FirstOfOthers(items: seq<Tree>, elem: Tree)
    requires items != []
    ensures elem.Vec? && elem.items != [] && items[0].Vec? ==> AccumulatedItems(items, elem) != items
    ensures elem == Vec([]) ==> AccumulatedItems(items, elem) == AccumulatedItems(items, Vec([]))
  {
  }

  lemma NumbersDoNotJoin(items: seq<Tree>, elem: Tree)
    requires items != [] && elem.Num?
    ensures AccumulatedItems(items, elem) == AccumulatedItems(items, Vec([]))
  {
    var first := Accumulated(items[0]);
    assert first.Vec? ==> [] + first.items == first.items;
  }

  /** Two filled inner vectors already come back wrong: the second one starts with the first. */
  lemma NestedVectorsMerge(flip: bool)
    ensures var t := Vec([Vec([Num(1)]), Vec([Num(2)])]);
            Fits(t, 2) && Accumulated(t) == Vec([Vec([Num(1)]), Vec([Num(1), Num(2)])]) &&
            ReadInto(2, Default(2), Written(t, flip), flip) == Some((Vec([Vec([Num(1)]), Vec([Num(1), Num(2)])]), []))
  {
    var a, b := Vec([Num(1)]), Vec([Num(2)]);
    var t := Vec([a, b]);
    assert Fits(a, 1) && Fits(b, 1);
    assert a.items[1..] == [] && b.items[1..] == [];
    assert Accumulated(a) == a && Accumulated(b) == b;
    assert [a, b][1..] == [b] && [b][1..] == [];
    var first := Joined(Vec([]), a);
    assert first == a;
    assert AccumulatedItems([b], a) == [Joined(a, b)];
    assert AccumulatedItems([a, b], Vec([])) == [a, Joined(a, b)];
    assert Joined(a, b) == Vec([Num(1), Num(2)]);
    ReadWritten(2, Default(2), t, [], flip);
    assert Written(t, flip) + [] == Written(t, flip);
    assert [] + Accumulated(t).items == Accumulated(t).items;
  }

  // ----- The operators

  /** `operator <<` */
  method Write(t: Tree, out: BinaryWriter, flip: bool)
    modifies out
    ensures out.bytes == old(out.bytes) + Written(t, flip)
    decreases t
  {
    hide Word;
    match t
    case Num(v) =>
      out.bytes := out.bytes + Word(v, flip);
    case Vec(items) =>
      out.bytes := out.bytes + Word(|items| % WORD, flip);
      var it := 0;
      while it < |items|
        invariant it <= |items|
        invariant out.bytes + WrittenItems(items[it..], flip) == old(out.bytes) + Written(t, flip)
      {
        assert items[it..][0] == items[it] && items[it..][1..] == items[it + 1..];
        Assoc(out.bytes, Written(items[it], flip), WrittenItems(items[it + 1..], flip));
        Write(items[it], out, flip);
        it := it + 1;
      }
  }

  /** `operator >>`: one element variable serves for the whole loop. */
  method Read(depth: nat, into: Tree, inp: BinaryReader, flip: bool) returns (good: bool, value: Tree)
    requires Shaped(into, depth)
    modifies inp
    ensures Shaped(value, depth)
    ensures good <==> ReadInto(depth, into, old(inp.bytes), flip).Some?
    ensures good ==> ReadInto(depth, into, old(inp.bytes), flip) == Some((value, inp.bytes))
    decreases depth
  {
    value := into;
    var word := ReadWord(inp.bytes, flip);
    if word.None? {
      return false, value;
    }
    inp.bytes := word.value.1;
    if depth == 0 {
      return true, Num(word.value.0);
    }
    var size, elem := word.value.0, Default(depth - 1);
    good := true;
    while good && size > 0
      invariant value.Vec? && Shaped(elem, depth - 1)
      invariant good ==>
        ReadItems(depth - 1, size, elem, value.items, inp.bytes, flip) == ReadInto(depth, into, old(inp.bytes), flip)
      invariant !good ==> ReadInto(depth, into, old(inp.bytes), flip).None?
      decreases good, size
    {
      size := size - 1;
      good, elem := Read(depth - 1, elem, inp, flip);
      value := Vec(value.items + [elem]);
    }
  }
}

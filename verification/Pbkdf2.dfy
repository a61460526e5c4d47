/** Keyed hashing and key derivation over any hash function (src/include/Poco/HMACEngine.h, PBKDF2Engine.h,
    DigestEngine.h), against RFC 2104 and RFC 2898. */
module KeyedHashing {
  import opened Basics

  newtype Byte = x: int | 0 <= x < 0x100

  /** Whether bit i of a byte is set. */
  predicate BitSet(x: Byte, i: nat)
    requires i < 8
  {
    x as int / [1, 2, 4, 8, 16, 32, 64, 128][i] % 2 == 1
  }

  /** Exactly those bits of r are set in which a and b differ. */
  predicate IsXor(a: Byte, b: Byte, r: Byte) {
    forall i :: 0 <= i < 8 ==> (BitSet(r, i) <==> BitSet(a, i) != BitSet(b, i))
  }

  /** The exclusive or of the n lowest bits. */
  function XorBits(a: nat, b: nat, n: nat): (r: nat)
    ensures r < Pow2(n)
  {
    if n == 0 then 0 else (if a % 2 != b % 2 then 1 else 0) + 2 * XorBits(a / 2, b / 2, n - 1)
  }

  function Xor8(a: Byte, b: Byte): Byte {
    assert Pow2(8) == 0x100;
    XorBits(a as int, b as int, 8) as Byte
  }

  /** Whether bit i is set, by halving. */
  predicate BitAt(x: nat, i: nat) {
    if i == 0 then x % 2 == 1 else BitAt(x / 2, i - 1)
  }

  lemma {:induction false} XorBitsAt(a: nat, b: nat, n: nat, i: nat)
    requires i < n
    ensures BitAt(XorBits(a, b, n), i) <==> BitAt(a, i) != BitAt(b, i)
  {
    var rest := XorBits(a / 2, b / 2, n - 1);
    var r := XorBits(a, b, n);
    assert r == (if a % 2 != b % 2 then 1 else 0) + 2 * rest;
    assert r / 2 == rest && r % 2 == if a % 2 != b % 2 then 1 else 0;
    if i > 0 {
      XorBitsAt(a / 2, b / 2, n - 1, i - 1);
    }
  }

  lemma {:induction false} BitsByHalving(x: nat, i: nat)
    requires i < 8
    ensures BitAt(x, i) <==> x / [1, 2, 4, 8, 16, 32, 64, 128][i] % 2 == 1
  {
    if i > 0 {
      BitsByHalving(x / 2, i - 1);
      HalvedFirst(x);
    }
  }

  lemma HalvedFirst(x: nat)
    ensures x / 4 == x / 2 / 2 && x / 8 == x / 2 / 4 && x / 16 == x / 2 / 8
    ensures x / 32 == x / 2 / 16 && x / 64 == x / 2 / 32 && x / 128 == x / 2 / 64
  {
  }

  lemma {:induction false} SameBits(a: nat, b: nat, n: nat)
    requires a < Pow2(n) && b < Pow2(n)
    requires forall i :: 0 <= i < n ==> BitAt(a, i) == BitAt(b, i)
    ensures a == b
  {
    if n > 0 {
      assert a % 2 == b % 2 by {
        assert BitAt(a, 0) == BitAt(b, 0);
      }
      forall i | 0 <= i < n - 1 ensures BitAt(a / 2, i) == BitAt(b / 2, i) {
        assert BitAt(a, i + 1) == BitAt(b, i + 1);
      }
      SameBits(a / 2, b / 2, n - 1);
    }
  }

  /** Bit for bit, the exclusive or has the bits in which the two bytes differ. */
  lemma {:induction false} XorIsBitwise(a: Byte, b: Byte)
    ensures IsXor(a, b, Xor8(a, b))
  {
    hide BitAt, XorBits;
    forall i | 0 <= i < 8 ensures BitSet(Xor8(a, b), i) <==> BitSet(a, i) != BitSet(b, i) {
      XorBitsAt(a as int, b as int, 8, i);
      BitsByHalving(a as int, i);
      BitsByHalving(b as int, i);
      BitsByHalving(Xor8(a, b) as int, i);
    }
  }

  lemma BitsDetermine(a: Byte, b: Byte)
    requires forall i :: 0 <= i < 8 ==> BitSet(a, i) == BitSet(b, i)
    ensures a == b
  {
    hide BitAt;
    var x: nat, y: nat := a as int, b as int;
    forall i | 0 <= i < 8 ensures BitAt(x, i) == BitAt(y, i) {
      BitsByHalving(x, i);
      BitsByHalving(y, i);
      assert BitSet(a, i) == BitSet(b, i);
    }
    assert Pow2(8) == 0x100;
    SameBits(x, y, 8);
  }

  /** A second mask takes the first one off again. */
  lemma {:induction false} XorTwice(a: Byte, b: Byte)
    ensures Xor8(Xor8(a, b), b) == a
  {
    hide Xor8, BitSet;
    XorIsBitwise(a, b);
    XorIsBitwise(Xor8(a, b), b);
    BitsDetermine(Xor8(Xor8(a, b), b), a);
  }

  /** A hash function with its block size and the size of its results. */
  datatype Hash = Hash(block: nat, size: nat, f: seq<Byte> -> seq<Byte>)

  /** The first n bytes, with zeros after the end. */
  function Fit(s: seq<Byte>, n: nat): (r: seq<Byte>)
    ensures |r| == n
    ensures forall i :: 0 <= i < n ==> r[i] == if i < |s| then s[i] else 0
  {
    seq(n, i requires 0 <= i < n => if i < |s| then s[i] else 0)
  }

  /** The hash of a message; fitting it to the size does nothing to a hash that keeps its size. */
  function Digest(h: Hash, message: seq<Byte>): (d: seq<Byte>)
    ensures |d| == h.size
  {
    Fit(h.f(message), h.size)
  }

  function Masked(s: seq<Byte>, mask: Byte): (r: seq<Byte>)
    ensures |r| == |s|
    ensures forall i :: 0 <= i < |s| ==> r[i] == Xor8(s[i], mask)
  {
    seq(|s|, i requires 0 <= i < |s| => Xor8(s[i], mask))
  }

  /** The key as one block: a key that is too long is hashed first, a short one filled up with zeros
      (section 2 of RFC 2104). */
  function KeyBlock(h: Hash, key: seq<Byte>): (r: seq<Byte>)
    ensures |r| == h.block
  {
    Fit(if |key| > h.block then Digest(h, key) else key, h.block)
  }

  function InnerPad(h: Hash, key: seq<Byte>): seq<Byte> {
    Masked(KeyBlock(h, key), 0x36)
  }

  function OuterPad(h: Hash, key: seq<Byte>): seq<Byte> {
    Masked(KeyBlock(h, key), 0x5c)
  }

  /** H(K XOR opad, H(K XOR ipad, text)), section 2 of RFC 2104. */
  function Mac(h: Hash, key: seq<Byte>, text: seq<Byte>): (r: seq<Byte>)
    ensures |r| == h.size
  {
    Digest(h, OuterPad(h, key) + Digest(h, InnerPad(h, key) + text))
  }

  /** A key longer than a block works as its hash does, one shorter than a block as if zeros followed it. */
  lemma {:induction false} KeyIsFitted(h: Hash, key: seq<Byte>, text: seq<Byte>)
    requires h.size <= h.block
    ensures |key| > h.block ==> Mac(h, key, text) == Mac(h, Digest(h, key), text)
    ensures |key| <= h.block ==> Mac(h, key, text) == Mac(h, Fit(key, h.block), text)
  {
    hide Digest;
    if |key| > h.block {
      assert KeyBlock(h, key) == KeyBlock(h, Digest(h, key));
    } else {
      assert KeyBlock(h, key) == KeyBlock(h, Fit(key, h.block));
    }
  }

  /** Byte j of a key of one block. */
  function KeyByte(h: Hash, key: seq<Byte>, j: nat): Byte
    requires |h.f(key)| == h.size
  {
    if |key| > h.block then if j < h.size then h.f(key)[j] else 0
    else if j < |key| then key[j] else 0
  }

  /** The code of section 2 of RFC 2104, with pads that differ from the key's block in the bits of 0x36
      and 0x5c. */
  lemma {:induction false} MacIsNestedHash(h: Hash, key: seq<Byte>, text: seq<Byte>, ipad: seq<Byte>, opad: seq<Byte>)
    requires forall m :: |h.f(m)| == h.size
    requires |ipad| == |opad| == h.block
    requires forall j :: 0 <= j < h.block ==> IsXor(KeyByte(h, key, j), 0x36, ipad[j])
    requires forall j :: 0 <= j < h.block ==> IsXor(KeyByte(h, key, j), 0x5c, opad[j])
    ensures Mac(h, key, text) == h.f(opad + h.f(ipad + text))
  {
    var k := KeyBlock(h, key);
    DigestIsHash(h, key);
    assert forall j :: 0 <= j < h.block ==> k[j] == KeyByte(h, key, j);
    hide IsXor, Xor8, Fit, Digest, KeyByte;
    MaskedIs(k, 0x36, ipad);
    MaskedIs(k, 0x5c, opad);
    DigestIsHash(h, ipad + text);
    DigestIsHash(h, opad + h.f(ipad + text));
  }

  lemma DigestIsHash(h: Hash, m: seq<Byte>)
    requires |h.f(m)| == h.size
    ensures Digest(h, m) == h.f(m)
  {
  }

  lemma MaskedIs(s: seq<Byte>, mask: Byte, pad: seq<Byte>)
    requires |pad| == |s| && forall j :: 0 <= j < |s| ==> IsXor(s[j], mask, pad[j])
    ensures Masked(s, mask) == pad
  {
    hide IsXor, Xor8;
    forall j | 0 <= j < |s| ensures Masked(s, mask)[j] == pad[j] {
      XorIsUnique(s[j], mask, pad[j]);
    }
  }

  lemma XorIsUnique(a: Byte, b: Byte, r: Byte)
    requires IsXor(a, b, r)
    ensures Xor8(a, b) == r
  {
    hide Xor8, BitSet;
    XorIsBitwise(a, b);
    BitsDetermine(Xor8(a, b), r);
  }

  // ----- Key derivation, section 5.2 of RFC 2898

  function Xor(a: seq<Byte>, b: seq<Byte>): (r: seq<Byte>)
    requires |a| == |b|
    ensures |r| == |a|
    ensures forall i :: 0 <= i < |a| ==> r[i] == Xor8(a[i], b[i])
  {
    seq(|a|, i requires 0 <= i < |a| => Xor8(a[i], b[i]))
  }

  /** Four bytes of a number, the most significant first. */
  function BigEndian(i: nat): (r: seq<Byte>)
    ensures |r| == 4
  {
    var a := i / 0x100;
    var b := a / 0x100;
    var c := b / 0x100;
    [(c % 0x100) as Byte, (b % 0x100) as Byte, (a % 0x100) as Byte, (i % 0x100) as Byte]
  }

  function FromBigEndian(b: seq<Byte>): nat
    requires |b| == 4
  {
    b[3] as int + 0x100 * b[2] as int + 0x1_0000 * b[1] as int + 0x100_0000 * b[0] as int
  }

  /** The four bytes of a block number tell it from all others. */
  lemma BigEndianReadBack(i: nat)
    requires i < 0x1_0000_0000
    ensures FromBigEndian(BigEndian(i)) == i
    ensures var b := BigEndian(i);
            i == b[0] as int * 0x100_0000 + b[1] as int * 0x1_0000 + b[2] as int * 0x100 + b[3] as int
  {
  }

  /** U_k of block i. */
  function U(h: Hash, p: seq<Byte>, salt: seq<Byte>, i: nat, k: nat): (r: seq<Byte>)
    requires k >= 1
    ensures |r| == h.size
  {
    Mac(h, p, if k == 1 then salt + BigEndian(i) else U(h, p, salt, i, k - 1))
  }

  /** U_1 XOR ... XOR U_c. */
  function T(h: Hash, p: seq<Byte>, salt: seq<Byte>, i: nat, c: nat): (r: seq<Byte>)
    requires c >= 1
    ensures |r| == h.size
  {
    if c == 1 then U(h, p, salt, i, 1) else Xor(T(h, p, salt, i, c - 1), U(h, p, salt, i, c))
  }

  lemma FirstIteration(h: Hash, p: seq<Byte>, salt: seq<Byte>, i: nat)
    ensures U(h, p, salt, i, 1) == T(h, p, salt, i, 1) == Mac(h, p, salt + BigEndian(i))
  {
  }

  lemma NextIteration(h: Hash, p: seq<Byte>, salt: seq<Byte>, i: nat, k: nat)
    requires k >= 1
    ensures U(h, p, salt, i, k + 1) == Mac(h, p, U(h, p, salt, i, k))
    ensures T(h, p, salt, i, k + 1) == Xor(T(h, p, salt, i, k), U(h, p, salt, i, k + 1))
  {
  }

  /** The first iteration is the code of the salt and the block number's four bytes, each later one that
      of the one before it. */
  lemma {:induction false} IterationsChain(h: Hash, p: seq<Byte>, salt: seq<Byte>, i: nat, b: seq<Byte>, k: nat)
    requires |b| == 4 && k >= 1
    requires i == b[0] as int * 0x100_0000 + b[1] as int * 0x1_0000 + b[2] as int * 0x100 + b[3] as int
    ensures U(h, p, salt, i, 1) == Mac(h, p, salt + b)
    ensures U(h, p, salt, i, k + 1) == Mac(h, p, U(h, p, salt, i, k))
  {
    FourBytes(i, b);
  }

  lemma FourBytes(i: nat, b: seq<Byte>)
    requires |b| == 4
    requires i == b[0] as int * 0x100_0000 + b[1] as int * 0x1_0000 + b[2] as int * 0x100 + b[3] as int
    ensures BigEndian(i) == b
  {
    var x := b[0] as int * 0x100 + b[1] as int;
    var y := x * 0x100 + b[2] as int;
    assert i == y * 0x100 + b[3] as int;
    assert i / 0x100 == y && y / 0x100 == x && x / 0x100 == b[0] as int;
  }

  /** The number of the first c iterations in which the bit is set. */
  function TimesSet(h: Hash, p: seq<Byte>, salt: seq<Byte>, i: nat, c: nat, j: nat, bit: nat): nat
    requires j < h.size && bit < 8
  {
    if c == 0 then 0
    else TimesSet(h, p, salt, i, c - 1, j, bit) + if BitSet(U(h, p, salt, i, c)[j], bit) then 1 else 0
  }

  /** A bit of a block is set if and only if it is set in an odd number of the iterations. */
  lemma {:induction false} BlockIsParity(h: Hash, p: seq<Byte>, salt: seq<Byte>, i: nat, c: nat, j: nat, bit: nat)
    requires c >= 1 && j < h.size && bit < 8
    ensures BitSet(T(h, p, salt, i, c)[j], bit) <==> TimesSet(h, p, salt, i, c, j, bit) % 2 == 1
  {
    hide BitSet, Xor8, Mac, BigEndian;
    if c == 1 {
      assert TimesSet(h, p, salt, i, 0, j, bit) == 0;
    } else {
      BlockIsParity(h, p, salt, i, c - 1, j, bit);
      XorIsBitwise(T(h, p, salt, i, c - 1)[j], U(h, p, salt, i, c)[j]);
    }
  }

  /** T_1 to T_l, one behind the other. */
  function Blocks(h: Hash, p: seq<Byte>, salt: seq<Byte>, c: nat, l: nat): (r: seq<Byte>)
    requires c >= 1
    ensures |r| == l * h.size
  {
    if l == 0 then [] else
      var r := Blocks(h, p, salt, c, l - 1) + T(h, p, salt, l, c);
      assert (l - 1) * h.size + h.size == l * h.size;
      r
  }

  /** The number of blocks that a key of the given length takes: its length over the hash's, rounded up. */
  function BlockCount(dkLen: nat, size: nat): (l: nat)
    requires size >= 1
    ensures dkLen <= l * size < dkLen + size
  {
    (dkLen + size - 1) / size
  }

  /** The derived key. */
  function Derived(h: Hash, p: seq<Byte>, salt: seq<Byte>, c: nat, dkLen: nat): (r: seq<Byte>)
    requires c >= 1 && h.size >= 1
    ensures |r| == dkLen
  {
    Blocks(h, p, salt, c, BlockCount(dkLen, h.size))[..dkLen]
  }

  /** Each byte of the derived key is that byte of the block it falls into. */
  lemma {:induction false} DerivedAt(h: Hash, p: seq<Byte>, salt: seq<Byte>, c: nat, dkLen: nat, j: nat, k: nat)
    requires c >= 1 && k < h.size && 0 <= j * h.size + k < dkLen
    ensures Derived(h, p, salt, c, dkLen)[j * h.size + k] == T(h, p, salt, j + 1, c)[k]
  {
    hide T, BlockCount, Blocks;
    BlocksAt(h, p, salt, c, BlockCount(dkLen, h.size), j, k);
  }

  lemma {:induction false} BlocksAt(h: Hash, p: seq<Byte>, salt: seq<Byte>, c: nat, l: nat, j: nat, k: nat)
    requires c >= 1 && k < h.size && 0 <= j * h.size + k < l * h.size
    ensures Blocks(h, p, salt, c, l)[j * h.size + k] == T(h, p, salt, j + 1, c)[k]
  {
    hide T, Blocks;
    LastBlock(h, p, salt, c, l);
    if j * h.size + k < (l - 1) * h.size {
      BlocksAt(h, p, salt, c, l - 1, j, k);
    } else {
      WithinBlock(j, l - 1, h.size, k);
    }
  }

  lemma LastBlock(h: Hash, p: seq<Byte>, salt: seq<Byte>, c: nat, l: nat)
    requires c >= 1 && l * h.size > 0
    ensures l >= 1 && (l - 1) * h.size + h.size == l * h.size
    ensures Blocks(h, p, salt, c, l) == Blocks(h, p, salt, c, l - 1) + T(h, p, salt, l, c)
  {
  }

  lemma WithinBlock(j: nat, l: nat, size: nat, k: nat)
    requires k < size && l * size <= j * size + k < l * size + size
    ensures j == l
  {
    FewerBlocks(l, j, size);
    if j > l {
      assert j * size == l * size + size + (j - l - 1) * size;
      Product(j - l - 1, size);
    }
  }

  lemma {:induction false} BlocksGrow(h: Hash, p: seq<Byte>, salt: seq<Byte>, c: nat, l: nat, m: nat)
    requires c >= 1 && l <= m
    ensures Blocks(h, p, salt, c, l) <= Blocks(h, p, salt, c, m)
  {
    hide T;
    if l < m {
      BlocksGrow(h, p, salt, c, l, m - 1);
    }
  }

  lemma FewerBlocks(l: nat, m: nat, size: nat)
    requires size >= 1 && l * size < m * size + size
    ensures l <= m
  {
    if l > m {
      assert l * size == m * size + size + (l - m - 1) * size;
      Product(l - m - 1, size);
      assert false;
    }
  }

  /** A shorter key is the start of a longer one. */
  lemma {:induction false} DerivedPrefix(h: Hash, p: seq<Byte>, salt: seq<Byte>, c: nat, n: nat, m: nat)
    requires c >= 1 && h.size >= 1 && n <= m
    ensures Derived(h, p, salt, c, n) <= Derived(h, p, salt, c, m)
  {
    hide Blocks, BlockCount;
    var a, b := BlockCount(n, h.size), BlockCount(m, h.size);
    FewerBlocks(a, b, h.size);
    BlocksGrow(h, p, salt, c, a, b);
  }

  // ----- The engine's states

  /** The passphrase so far and the result, which is empty until it has been computed. */
  datatype Engine = Engine(p: seq<Byte>, result: seq<Byte>)

  datatype Call = Update(data: seq<Byte>) | Finish | Reset

  function Step(h: Hash, salt: seq<Byte>, c: nat, dkLen: nat, e: Engine, call: Call): Engine
    requires h.size >= 1
  {
    match call
    case Update(data) => e.(p := e.p + data)
    case Finish => if e.result == [] then e.(result := Derived(h, e.p, salt, if c == 0 then 1 else c, dkLen)) else e
    case Reset => Engine([], [])
  }

  function Run(h: Hash, salt: seq<Byte>, c: nat, dkLen: nat, e: Engine, calls: seq<Call>): Engine
    requires h.size >= 1
    decreases |calls|
  {
    if calls == [] then e else Run(h, salt, c, dkLen, Step(h, salt, c, dkLen, e, calls[0]), calls[1..])
  }

  function Joined(chunks: seq<seq<Byte>>): seq<Byte> {
    if chunks == [] then [] else chunks[0] + Joined(chunks[1..])
  }

  function Updates(chunks: seq<seq<Byte>>): (r: seq<Call>)
    ensures |r| == |chunks| && forall i :: 0 <= i < |r| ==> r[i] == Update(chunks[i])
  {
    seq(|chunks|, i requires 0 <= i < |chunks| => Update(chunks[i]))
  }

  lemma {:induction false} RunUpdates(h: Hash, salt: seq<Byte>, c: nat, dkLen: nat, e: Engine,
          chunks: seq<seq<Byte>>, rest: seq<Call>)
    requires h.size >= 1
    ensures Run(h, salt, c, dkLen, e, Updates(chunks) + rest)
         == Run(h, salt, c, dkLen, e.(p := e.p + Joined(chunks)), rest)
    decreases |chunks|
  {
    hide Derived;
    var calls := Updates(chunks) + rest;
    if chunks == [] {
      assert calls == rest && e.p + [] == e.p;
    } else {
      assert calls[1..] == Updates(chunks[1..]) + rest;
      RunUpdates(h, salt, c, dkLen, e.(p := e.p + chunks[0]), chunks[1..], rest);
      assert e.p + chunks[0] + Joined(chunks[1..]) == e.p + Joined(chunks);
    }
  }

  lemma OneCall(h: Hash, salt: seq<Byte>, c: nat, dkLen: nat, e: Engine, call: Call)
    requires h.size >= 1
    ensures Run(h, salt, c, dkLen, e, [call]) == Step(h, salt, c, dkLen, e, call)
  {
  }

  /** After a reset the result depends on the passphrase, not on how it was cut into pieces; an iteration
      count of zero works as one. */
  lemma {:induction false} SplittingDoesNotMatter(h: Hash, salt: seq<Byte>, c: nat, dkLen: nat, e: Engine,
          chunks: seq<seq<Byte>>)
    requires h.size >= 1
    ensures Run(h, salt, c, dkLen, e, [Reset] + Updates(chunks) + [Finish]).result
         == Derived(h, Joined(chunks), salt, if c == 0 then 1 else c, dkLen)
  {
    hide Derived;
    var calls := [Reset] + Updates(chunks) + [Finish];
    assert calls[1..] == Updates(chunks) + [Finish];
    RunUpdates(h, salt, c, dkLen, Engine([], []), chunks, [Finish]);
    assert [] + Joined(chunks) == Joined(chunks);
    OneCall(h, salt, c, dkLen, Engine(Joined(chunks), []), Finish);
  }

  /** Without a reset a second result is the first one again, whatever was added to the passphrase. */
  lemma {:induction false} ResultStays(h: Hash, salt: seq<Byte>, c: nat, dkLen: nat, e: Engine, chunks: seq<seq<Byte>>)
    requires h.size >= 1 && dkLen > 0
    ensures
      var first := Run(h, salt, c, dkLen, e, [Finish]);
      Run(h, salt, c, dkLen, first, Updates(chunks) + [Finish]).result == first.result
  {
    hide Derived;
    var first := Run(h, salt, c, dkLen, e, [Finish]);
    OneCall(h, salt, c, dkLen, e, Finish);
    RunUpdates(h, salt, c, dkLen, first, chunks, [Finish]);
    var last := first.(p := first.p + Joined(chunks));
    OneCall(h, salt, c, dkLen, last, Finish);
  }
}

/** The engines as objects. */
module Engines {
  import opened KeyedHashing

  /** The hash engine underneath: it hashes what it has been fed since the last digest or reset. */
  class HashEngine {
    const h: Hash
    var fed: seq<Byte>

    constructor (h: Hash)
      ensures this.h == h && fed == []
    {
      this.h := h;
      fed := [];
    }

    method Reset()
      modifies this
      ensures fed == []
    {
      fed := [];
    }

    method Update(data: seq<Byte>)
      modifies this
      ensures fed == old(fed) + data
    {
      fed := fed + data;
    }

    method Finish() returns (d: seq<Byte>)
      modifies this
      ensures d == Digest(h, old(fed)) && fed == []
    {
      d := Digest(h, fed);
      fed := [];
    }
  }

  class HmacEngine {
    const engine: HashEngine
    const ipad: array<Byte>
    const opad: array<Byte>
    ghost const key: seq<Byte>
    ghost var text: seq<Byte>

    ghost predicate Padded()
      reads ipad, opad
    {
      ipad[..] == InnerPad(engine.h, key) && opad[..] == OuterPad(engine.h, key)
    }

    ghost predicate Valid()
      reads this, engine, ipad, opad
    {
      Padded() && engine.fed == InnerPad(engine.h, key) + text
    }

    constructor (h: Hash, passphrase: seq<Byte>)
      ensures Valid() && engine.h == h && key == passphrase && text == []
      ensures fresh(engine) && fresh(ipad) && fresh(opad)
    {
      hide InnerPad, OuterPad, KeyBlock, Digest;
      var e := new HashEngine(h);
      var i := new Byte[h.block];
      var o := new Byte[h.block];
      engine, ipad, opad := e, i, o;
      key, text := passphrase, [];
      new;
      var padded := KeyInto(passphrase);
      MaskPads(padded);
      PadsAre(h, passphrase);
      Reset();
    }

    /** Fills both pads with the key, or with its hash if it is too long; zeros follow. */
    method KeyInto(passphrase: seq<Byte>) returns (ghost padded: seq<Byte>)
      requires ipad != opad && ipad.Length == opad.Length == engine.h.block
      modifies ipad, opad, engine
      ensures padded == KeyBlock(engine.h, passphrase) && ipad[..] == padded && opad[..] == padded
    {
      hide Digest;
      padded := KeyBlock(engine.h, passphrase);
      var block := engine.h.block;
      Zero(ipad);
      Zero(opad);
      if |passphrase| > block {
        engine.Reset();
        engine.Update(passphrase);
        assert engine.fed == passphrase;
        var d := engine.Finish();
        CopyUpTo(d, block, ipad);
        CopyUpTo(d, block, opad);
      } else {
        CopyUpTo(passphrase, block, ipad);
        CopyUpTo(passphrase, block, opad);
      }
    }

    static method Zero(a: array<Byte>)
      modifies a
      ensures forall j :: 0 <= j < a.Length ==> a[j] == 0
    {
      var i := 0;
      while i < a.Length
        invariant 0 <= i <= a.Length
        invariant forall j :: 0 <= j < i ==> a[j] == 0
      {
        a[i] := 0;
        i := i + 1;
      }
    }

    /** Copies bytes until either the source or the block ends. */
    static method CopyUpTo(d: seq<Byte>, n: nat, a: array<Byte>)
      requires a.Length == n && forall j :: 0 <= j < n ==> a[j] == 0
      modifies a
      ensures a[..] == Fit(d, n)
    {
      var i := 0;
      while i < |d| && i < n
        invariant 0 <= i <= n && i <= |d|
        invariant forall j :: 0 <= j < i ==> a[j] == d[j]
        invariant forall j :: i <= j < n ==> a[j] == 0
      {
        a[i] := d[i];
        i := i + 1;
      }
    }

    method MaskPads(ghost padded: seq<Byte>)
      requires ipad != opad && ipad.Length == opad.Length == |padded|
      requires ipad[..] == padded && opad[..] == padded
      modifies ipad, opad
      ensures ipad[..] == Masked(padded, 0x36) && opad[..] == Masked(padded, 0x5c)
      ensures forall j :: 0 <= j < ipad.Length ==> IsXor(padded[j], 0x36, ipad[j]) && IsXor(padded[j], 0x5c, opad[j])
    {
      hide Xor8, IsXor;
      var i := 0;
      while i < ipad.Length
        invariant 0 <= i <= ipad.Length
        invariant forall j :: 0 <= j < i ==> ipad[j] == Xor8(padded[j], 0x36) && opad[j] == Xor8(padded[j], 0x5c)
        invariant forall j :: i <= j < ipad.Length ==> ipad[j] == padded[j] && opad[j] == padded[j]
      {
        ipad[i] := Xor8(ipad[i], 0x36);
        opad[i] := Xor8(opad[i], 0x5c);
        i := i + 1;
      }
      forall j | 0 <= j < ipad.Length ensures IsXor(padded[j], 0x36, ipad[j]) && IsXor(padded[j], 0x5c, opad[j]) {
        XorIsBitwise(padded[j], 0x36);
        XorIsBitwise(padded[j], 0x5c);
      }
    }

    method Reset()
      requires Padded()
      modifies this, engine
      ensures Valid() && text == []
    {
      engine.Reset();
      engine.Update(ipad[..]);
      text := [];
    }

    method Update(data: seq<Byte>)
      requires Valid()
      modifies this, engine
      ensures Valid() && text == old(text) + data
    {
      hide InnerPad, OuterPad;
      engine.Update(data);
      text := text + data;
      assert engine.fed == InnerPad(engine.h, key) + text;
    }

    method Finish() returns (result: seq<Byte>)
      requires Valid()
      modifies this, engine
      ensures Valid() && text == []
      ensures result == Mac(engine.h, key, old(text))
    {
      hide InnerPad, OuterPad, Digest;
      var d := engine.Finish();
      var db := d;
      engine.Reset();
      engine.Update(opad[..]);
      engine.Update(db);
      assert engine.fed == OuterPad(engine.h, key) + db;
      result := engine.Finish();
      Reset();
    }
  }

  lemma PadsAre(h: Hash, key: seq<Byte>)
    ensures InnerPad(h, key) == Masked(KeyBlock(h, key), 0x36)
    ensures OuterPad(h, key) == Masked(KeyBlock(h, key), 0x5c)
  {
  }

  class Pbkdf2Engine {
    const h: Hash
    const salt: seq<Byte>
    const c: nat
    const dkLen: nat
    var p: seq<Byte>
    var result: seq<Byte>

    ghost predicate Valid()
      reads this
    {
      h.size >= 1 && dkLen < 0x1_0000_0000 && (result == [] || |result| == dkLen)
    }

    function State(): Engine
      reads this
    {
      Engine(p, result)
    }

    constructor (h: Hash, salt: seq<Byte>, c: nat, dkLen: nat)
      requires h.size >= 1 && dkLen < 0x1_0000_0000
      ensures Valid() && State() == Engine([], [])
      ensures this.h == h && this.salt == salt && this.c == c && this.dkLen == dkLen
    {
      this.h, this.salt, this.c, this.dkLen := h, salt, c, dkLen;
      p, result := [], [];
    }

    method Reset()
      requires Valid()
      modifies this
      ensures Valid() && State() == Step(h, salt, c, dkLen, old(State()), Call.Reset)
      ensures p == [] && result == []
    {
      p := [];
      result := [];
    }

    method Update(data: seq<Byte>)
      requires Valid()
      modifies this
      ensures Valid() && State() == Step(h, salt, c, dkLen, old(State()), Call.Update(data))
      ensures p == old(p) + data && result == old(result)
    {
      p := p + data;
    }

    /** Appends block i; i is the block number as 32 bits hold it. */
    method F(i: nat)
      requires i < 0x1_0000_0000
      modifies this
      ensures p == old(p) && result == old(result) + T(h, p, salt, i, if c == 0 then 1 else c)
    {
      hide Mac, BigEndian, U, T, Xor, InnerPad, OuterPad;
      FirstIteration(h, p, salt, i);
      var prf := new HmacEngine(h, p);
      prf.Update(salt);
      prf.Update(BigEndian(i));
      assert prf.text == salt + BigEndian(i);
      var up := prf.Finish();
      var ux := new Byte[|up|](j requires 0 <= j < |up| => up[j]);
      assert ux[..] == up;
      var k := 1;
      while k < c
        invariant 1 <= k <= if c == 0 then 1 else c
        invariant prf.Valid() && prf.engine.h == h && prf.key == p == old(p)
        invariant fresh(prf) && fresh(prf.engine) && fresh(ux)
        invariant up == U(h, p, salt, i, k) && ux[..] == T(h, p, salt, i, k)
        invariant result == old(result)
      {
        var u := NextU(prf, up);
        XorInto(ux, u);
        NextIteration(h, p, salt, i, k);
        up, u := u, up;
        k := k + 1;
      }
      result := result + ux[..];
    }

    /** Feeds the last iteration's bytes to the function and takes what comes out. */
    static method NextU(prf: HmacEngine, up: seq<Byte>) returns (u: seq<Byte>)
      requires prf.Valid()
      modifies prf, prf.engine
      ensures prf.Valid() && u == Mac(prf.engine.h, prf.key, up)
    {
      hide Mac, InnerPad, OuterPad;
      prf.Reset();
      prf.Update(up);
      assert prf.text == up;
      u := prf.Finish();
    }

    static method XorInto(ux: array<Byte>, u: seq<Byte>)
      requires ux.Length == |u|
      modifies ux
      ensures ux[..] == Xor(old(ux[..]), u)
      ensures forall j :: 0 <= j < ux.Length ==> IsXor(old(ux[j]), u[j], ux[j])
    {
      hide Xor8, IsXor;
      var i := 0;
      while i < ux.Length
        invariant 0 <= i <= ux.Length
        invariant forall j :: 0 <= j < i ==> ux[j] == Xor8(old(ux[j]), u[j])
        invariant forall j :: i <= j < ux.Length ==> ux[j] == old(ux[j])
      {
        ux[i] := Xor8(ux[i], u[i]);
        i := i + 1;
      }
      forall j | 0 <= j < ux.Length ensures IsXor(old(ux[j]), u[j], ux[j]) {
        XorIsBitwise(old(ux[j]), u[j]);
      }
    }

    /** Computes the blocks that are missing; there is no more to do once there is a result. The block
        number never leaves 32 bits. */
    method Finish() returns (d: seq<Byte>)
      requires Valid()
      modifies this
      ensures Valid() && State() == Step(h, salt, c, dkLen, old(State()), Call.Finish)
      ensures d == result && p == old(p)
      ensures d == if old(result) != [] then old(result) else Derived(h, p, salt, if c == 0 then 1 else c, dkLen)
    {
      hide T, BlockCount, Blocks;
      ghost var start := result;
      var i := 1;
      NoBlocks(h, p, salt, if c == 0 then 1 else c);
      while |result| < dkLen
        invariant p == old(p) && 1 <= i <= |result| + 1
        invariant start != [] ==> result == start && i == 1
        invariant start == [] ==> result == Blocks(h, p, salt, if c == 0 then 1 else c, i - 1)
        invariant start == [] ==> |result| < dkLen + h.size
        decreases dkLen - |result|
      {
        NextBlock(h, p, salt, if c == 0 then 1 else c, i);
        F(i);
        i := i + 1;
      }
      if start == [] {
        EnoughBlocks(i - 1, dkLen, h.size);
      }
      result := result[..dkLen];
      d := result;
    }
  }

  lemma NoBlocks(h: Hash, p: seq<Byte>, salt: seq<Byte>, c: nat)
    requires c >= 1
    ensures Blocks(h, p, salt, c, 0) == []
  {
  }

  lemma NextBlock(h: Hash, p: seq<Byte>, salt: seq<Byte>, c: nat, l: nat)
    requires c >= 1 && l >= 1
    ensures Blocks(h, p, salt, c, l) == Blocks(h, p, salt, c, l - 1) + T(h, p, salt, l, c)
    ensures |T(h, p, salt, l, c)| == h.size
  {
  }

  lemma EnoughBlocks(l: nat, dkLen: nat, size: nat)
    requires size >= 1 && dkLen <= l * size < dkLen + size
    ensures l == BlockCount(dkLen, size)
  {
    hide BlockCount;
    FewerBlocks(l, BlockCount(dkLen, size), size);
    FewerBlocks(BlockCount(dkLen, size), l, size);
  }
}

/**
 SipHash-2-4: the streaming hasher and its two unrolled forms.
 */
module SipHash {
  import opened Numbers

  const M64 := 0x1_0000_0000_0000_0000
  type U64 = x: nat | x < M64
  type Byte = x: nat | x < 256

  lemma Pow64()
    ensures Pow2(64) == M64 && Pow2(8) == 256 && Pow2(56) == 0x100_0000_0000_0000
  {
    assert Pow2(8) == 256;
    Pow2Add(8, 8);
    Pow2Add(16, 16);
    Pow2Add(32, 32);
    Pow2Add(8, 16);
    Pow2Add(32, 24);
  }

  // ------------------------------------------------------------------- 64-bit operations

  function Xor(x: U64, y: U64): U64 {
    Pow64();
    BitXorBound(x, y, 64);
    BitXor(x, y)
  }

  function Or(x: U64, y: U64): U64 {
    Pow64();
    BitOrBound(x, y, 64);
    BitOr(x, y)
  }

  function Plus(x: U64, y: U64): U64 {
    (x + y) % M64
  }

  function Shl(x: U64, n: nat): U64 {
    x * Pow2(n) % M64
  }

  function Shr(x: U64, n: nat): U64 {
    DivNonNegative(x, Pow2(n));
    DivAtMost(x, Pow2(n));
    x / Pow2(n)
  }

  function Rotl(x: U64, b: nat): U64
    requires b <= 64
  {
    Or(Shl(x, b), Shr(x, 64 - b))
  }

  datatype State = State(v0: U64, v1: U64, v2: U64, v3: U64)

  /** SIPROUND */
  function Round(s: State): State {
    var v0 := Plus(s.v0, s.v1);
    var v1 := Xor(Rotl(s.v1, 13), v0);
    var v0 := Rotl(v0, 32);
    var v2 := Plus(s.v2, s.v3);
    var v3 := Xor(Rotl(s.v3, 16), v2);
    var v0 := Plus(v0, v3);
    var v3 := Xor(Rotl(v3, 21), v0);
    var v2 := Plus(v2, v1);
    var v1 := Xor(Rotl(v1, 17), v2);
    var v2 := Rotl(v2, 32);
    State(v0, v1, v2, v3)
  }

  // -------------------------------------------------------------------- the hash of a message

  function Init(k0: U64, k1: U64): State {
    State(Xor(0x736f6d6570736575, k0), Xor(0x646f72616e646f6d, k1),
          Xor(0x6c7967656e657261, k0), Xor(0x7465646279746573, k1))
  }

  /** One message word. */
  function Absorb(s: State, d: U64): State {
    var s := s.(v3 := Xor(s.v3, d));
    var s := Round(Round(s));
    s.(v0 := Xor(s.v0, d))
  }

  function Last(s: State): U64 {
    var s := s.(v2 := Xor(s.v2, 0xFF));
    var s := Round(Round(Round(Round(s))));
    Xor(Xor(Xor(s.v0, s.v1), s.v2), s.v3)
  }

  /** The number a byte string is in little-endian order. */
  function LE(b: seq<Byte>): (r: nat) {
    if b == [] then 0 else b[0] + 256 * LE(b[1..])
  }

  lemma {:induction false} LEBound(b: seq<Byte>)
    ensures LE(b) < Pow2(8 * |b|)
  {
    if b != [] {
      LEBound(b[1..]);
      Pow2Add(8, 8 * (|b| - 1));
      Pow64();
    }
  }

  lemma {:induction false} LEAppend(b: seq<Byte>, x: Byte)
    ensures LE(b + [x]) == LE(b) + x * Pow2(8 * |b|)
  {
    hide Pow2;
    if b == [] {
      assert b + [x] == [x] && [x][1..] == [] && Pow2(0) == 1 by {
        PowZero();
      }
    } else {
      LEAppend(b[1..], x);
      assert (b + [x])[1..] == b[1..] + [x];
      Pow2Add(8, 8 * (|b| - 1));
      Pow64();
      var p := Pow2(8 * (|b| - 1));
      assert 256 * (x * p) == x * (256 * p);
    }
  }

  lemma PowZero()
    ensures Pow2(0) == 1
  {
  }

  /** The little-endian bytes of a number. */
  function Bytes(n: nat, k: nat): (r: seq<Byte>)
    ensures |r| == k
  {
    if k == 0 then [] else [n % 256] + Bytes(n / 256, k - 1)
  }

  lemma {:induction false} LEOfBytes(n: nat, k: nat)
    requires n < Pow2(8 * k)
    ensures LE(Bytes(n, k)) == n
  {
    if k > 0 {
      Pow2Add(8, 8 * (k - 1));
      Pow64();
      LEOfBytes(n / 256, k - 1);
      assert Bytes(n, k)[1..] == Bytes(n / 256, k - 1);
    }
  }

  ghost function WordOf(b: seq<Byte>): U64
    requires |b| <= 8
  {
    LEBound(b);
    Pow2Monotone(8 * |b|, 64);
    Pow64();
    LE(b)
  }

  /** The complete eight-byte words of a message, absorbed in order. */
  ghost function Absorbed(s: State, b: seq<Byte>): State
    requires |b| % 8 == 0
  {
    if b == [] then s else Absorb(Absorbed(s, b[..|b| - 8]), WordOf(b[|b| - 8..]))
  }

  function Whole(b: seq<Byte>): (r: seq<Byte>)
    ensures |r| % 8 == 0
  {
    b[..|b| - |b| % 8]
  }

  function Tail(b: seq<Byte>): (r: seq<Byte>)
    ensures |r| == |b| % 8
  {
    b[|b| - |b| % 8..]
  }

  /** SipHash-2-4 of a message: its words, then its last bytes with its length in the top byte. */
  ghost function Hash(k0: U64, k1: U64, b: seq<Byte>): U64 {
    Last(Absorb(Absorbed(Init(k0, k1), Whole(b)), LastWord(b)))
  }

  ghost function LastWord(b: seq<Byte>): U64 {
    LEBound(Tail(b));
    Pow2Monotone(8 * |Tail(b)|, 56);
    Pow64();
    LE(Tail(b)) + |b| % 256 * 0x100_0000_0000_0000
  }

  /** One more byte either completes a word or joins the last bytes. */
  lemma OneMoreByte(s: State, b: seq<Byte>, x: Byte)
    ensures |b| % 8 < 7 ==> Whole(b + [x]) == Whole(b) && Tail(b + [x]) == Tail(b) + [x]
    ensures |b| % 8 == 7 ==> Tail(b + [x]) == []
                             && Absorbed(s, Whole(b + [x])) == Absorb(Absorbed(s, Whole(b)), WordOf(Tail(b) + [x]))
  {
    hide Absorb, WordOf;
    var c := b + [x];
    if |b| % 8 == 7 {
      assert |c| % 8 == 0 && Whole(c) == c;
      assert c[..|c| - 8] == Whole(b) && c[|c| - 8..] == Tail(b) + [x];
    } else {
      assert |c| % 8 == |b| % 8 + 1;
      assert Whole(c) == Whole(b) && Tail(c) == Tail(b) + [x];
    }
  }

  /** A byte shifted past those already there adds up. */
  lemma OrByte(b: seq<Byte>, x: Byte)
    requires |b| < 8
    ensures Or(WordOf(b), Shl(x, 8 * |b|)) == WordOf(b + [x])
  {
    hide Pow2, BitOr;
    var p := Pow2(8 * |b|);
    LEBound(b);
    LEAppend(b, x);
    LEBound(b + [x]);
    BitOrIsSum(x, LE(b), 8 * |b|);
    Pow2Monotone(8 * |b + [x]|, 64);
    Pow64();
    MulMonotone(0, x, p);
    DivModUnique(x * p, M64, 0, x * p);
  }

  class SipHasher {
    var v: State
    var count: nat
    var tmp: U64

    ghost const k0: U64
    ghost const k1: U64
    /** All bytes written so far. */
    ghost var input: seq<Byte>

    ghost predicate Valid()
      reads this
    {
      v == Absorbed(Init(k0, k1), Whole(input)) && tmp == WordOf(Tail(input)) && count == |input|
    }

    constructor (k0: U64, k1: U64)
      ensures Valid() && input == [] && this.k0 == k0 && this.k1 == k1
    {
      hide Init, Xor, WordOf, Absorbed, Whole, Tail;
      Started(Init(k0, k1));
      v := Init(k0, k1);
      count := 0;
      tmp := 0;
      this.k0 := k0;
      this.k1 := k1;
      input := [];
    }

    /** Writing bytes extends the message, however it is cut into writes. */
    method Write(data: seq<Byte>)
      requires Valid()
      modifies this
      ensures Valid() && input == old(input) + data
    {
      hide Absorb, Absorbed, WordOf, Or, Shl, Init, Whole, Tail;
      var s, t, c := v, tmp, count;
      assert input + data[..0] == input;
      for i := 0 to |data|
        modifies {}
        invariant s == Absorbed(Init(k0, k1), Whole(input + data[..i])) && t == WordOf(Tail(input + data[..i])) && c == |input| + i
      {
        ghost var b := input + data[..i];
        assert input + data[..i + 1] == b + [data[i]];
        OneMoreByte(Init(k0, k1), b, data[i]);
        OrByte(Tail(b), data[i]);
        t := Or(t, Shl(data[i], 8 * (c % 8)));
        c := c + 1;
        if c % 8 == 0 {
          s := Absorb(s, t);
          t := 0;
          NoBytes();
        }
      }
      assert data[..|data|] == data;
      v, count, tmp := s, c, t;
      input := input + data;
    }

    /** Writing a word is writing its eight bytes, the lowest first. */
    method WriteU64(data: U64)
      requires Valid() && count % 8 == 0
      modifies this
      ensures Valid() && input == old(input) + Bytes(data, 8)
    {
      hide Absorb, WordOf, Init;
      WholeWord(Init(k0, k1), input, data);
      v := Absorb(v, data);
      count := count + 8;
      input := input + Bytes(data, 8);
    }

    method Finalize() returns (r: U64)
      requires Valid()
      ensures r == Hash(k0, k1, input)
    {
      hide Absorb, Absorbed, Init, Last, Or, Shl, Whole, WordOf, LastWord;
      LengthByte(input);
      var t := Or(tmp, Shl(count % M64, 56));
      r := Last(Absorb(v, t));
    }
  }

  lemma Started(s: State)
    ensures Absorbed(s, Whole([])) == s && WordOf(Tail([])) == 0
  {
  }

  lemma NoBytes()
    ensures WordOf([]) == 0
  {
  }

  lemma WholeWord(s: State, b: seq<Byte>, d: U64)
    requires |b| % 8 == 0
    ensures var c := b + Bytes(d, 8); Tail(c) == Tail(b) == [] && Absorbed(s, Whole(c)) == Absorb(Absorbed(s, Whole(b)), d)
  {
    hide Absorb;
    var c := b + Bytes(d, 8);
    Pow64();
    LEOfBytes(d, 8);
    assert Whole(c) == c && Whole(b) == b;
    assert c[..|c| - 8] == b && c[|c| - 8..] == Bytes(d, 8);
  }

  /** Only the lowest byte of the length survives the shift. */
  lemma LengthShift(n: nat)
    ensures Shl(n % M64, 56) == n % 256 * 0x100_0000_0000_0000
  {
    hide Pow2;
    Pow64();
    var a := n % M64;
    assert a % 256 == n % 256;
    assert a == a / 256 * 256 + a % 256;
    DivModUnique(a * 0x100_0000_0000_0000, M64, a / 256, a % 256 * 0x100_0000_0000_0000);
  }

  lemma TailBound(b: seq<Byte>)
    ensures LE(Tail(b)) < Pow2(56) && WordOf(Tail(b)) == LE(Tail(b))
  {
    hide Pow2;
    LEBound(Tail(b));
    Pow2Monotone(8 * |Tail(b)|, 56);
  }

  lemma LengthByte(b: seq<Byte>)
    ensures Or(WordOf(Tail(b)), Shl(|b| % M64, 56)) == LastWord(b)
    ensures Or(Shl(|b| % M64, 56), WordOf(Tail(b))) == LastWord(b)
  {
    hide Pow2, BitOr, Shl, WordOf, LE, Tail;
    TailBound(b);
    Pow64();
    LengthShift(|b|);
    BitOrIsSum(|b| % 256, LE(Tail(b)), 56);
  }

  // --------------------------------------------------------------------- the unrolled forms

  lemma AbsorbWord(s: State, b: seq<Byte>, w: seq<Byte>)
    requires |b| % 8 == 0 && |w| == 8
    ensures Absorbed(s, b + w) == Absorb(Absorbed(s, b), WordOf(w))
  {
    hide Absorb, WordOf;
    assert (b + w)[..|b|] == b && (b + w)[|b|..] == w;
  }

  lemma Ends(val: seq<Byte>, more: seq<Byte>)
    requires |val| == 32 && |more| < 8
    ensures Whole(val + more) == val && Tail(val + more) == more
  {
  }

  /** `uint256::GetUint64` */
  function GetUint64(val: seq<Byte>, i: nat): U64
    requires |val| == 32 && i < 4
  {
    LEBound(val[8 * i..8 * i + 8]);
    Pow64();
    LE(val[8 * i..8 * i + 8])
  }

  /** The part both forms share: the key and the four words of the value. */
  method AbsorbUint256(k0: U64, k1: U64, val: seq<Byte>) returns (s: State)
    requires |val| == 32
    ensures s == Absorbed(Init(k0, k1), val)
  {
    hide Round, Xor, LE, Pow2, Absorbed;
    ghost var start := Init(k0, k1);
    assert val[..16] == val[0..8] + val[8..16] && val[..24] == val[..16] + val[16..24] && val == val[..24] + val[24..32];
    assert [] + val[0..8] == val[0..8];
    NothingAbsorbed(start);
    AbsorbWord(start, [], val[0..8]);
    AbsorbWord(start, val[0..8], val[8..16]);
    AbsorbWord(start, val[..16], val[16..24]);
    AbsorbWord(start, val[..24], val[24..32]);
    var d := GetUint64(val, 0);
    var v0 := Xor(0x736f6d6570736575, k0);
    var v1 := Xor(0x646f72616e646f6d, k1);
    var v2 := Xor(0x6c7967656e657261, k0);
    var v3 := Xor(Xor(0x7465646279746573, k1), d);
    s := State(v0, v1, v2, v3);
    s := Round(s);
    s := Round(s);
    s := s.(v0 := Xor(s.v0, d));
    d := GetUint64(val, 1);
    s := s.(v3 := Xor(s.v3, d));
    s := Round(s);
    s := Round(s);
    s := s.(v0 := Xor(s.v0, d));
    d := GetUint64(val, 2);
    s := s.(v3 := Xor(s.v3, d));
    s := Round(s);
    s := Round(s);
    s := s.(v0 := Xor(s.v0, d));
    d := GetUint64(val, 3);
    s := s.(v3 := Xor(s.v3, d));
    s := Round(s);
    s := Round(s);
    s := s.(v0 := Xor(s.v0, d));
  }

  lemma NothingAbsorbed(s: State)
    ensures Absorbed(s, []) == s
  {
  }

  method SipHashUint256(k0: U64, k1: U64, val: seq<Byte>) returns (r: U64)
    requires |val| == 32
    ensures r == Hash(k0, k1, val)
  {
    hide Round, Xor, Or, Shl, LE, Pow2, Absorbed, Init, Whole, Tail, WordOf, LastWord;
    Ends(val, []);
    assert val + [] == val;
    LengthByte(val);
    LengthWord(32);
    NoBytes();
    var s := AbsorbUint256(k0, k1, val);
    s := s.(v3 := Xor(s.v3, Shl(4, 59)));
    s := Round(s);
    s := Round(s);
    s := s.(v0 := Xor(s.v0, Shl(4, 59)));
    s := s.(v2 := Xor(s.v2, 0xFF));
    s := Round(s);
    s := Round(s);
    s := Round(s);
    s := Round(s);
    return Xor(Xor(Xor(s.v0, s.v1), s.v2), s.v3);
  }

  lemma LengthWord(n: nat)
    ensures n == 32 ==> Or(0, Shl(n, 56)) == Shl(4, 59)
  {
    hide BitOr, Pow2;
    Pow64();
    Pow2Add(56, 3);
    assert Pow2(3) == 8 by {
      PowThree();
    }
    BitOrZero(Shl(4, 59));
  }

  lemma PowThree()
    ensures Pow2(3) == 8
  {
  }

  method SipHashUint256Extra(k0: U64, k1: U64, val: seq<Byte>, extra: nat) returns (r: U64)
    requires |val| == 32 && extra < 0x1_0000_0000
    ensures r == Hash(k0, k1, val + Bytes(extra, 4))
  {
    hide Round, Xor, Or, Shl, LE, Pow2, Bytes, Absorbed, Init, Whole, Tail, WordOf, LastWord;
    ghost var more := Bytes(extra, 4);
    Ends(val, more);
    LengthByte(val + more);
    ExtraWord(extra);
    var s := AbsorbUint256(k0, k1, val);
    var d := Or(Shl(36, 56), extra);
    s := s.(v3 := Xor(s.v3, d));
    s := Round(s);
    s := Round(s);
    s := s.(v0 := Xor(s.v0, d));
    s := s.(v2 := Xor(s.v2, 0xFF));
    s := Round(s);
    s := Round(s);
    s := Round(s);
    s := Round(s);
    return Xor(Xor(Xor(s.v0, s.v1), s.v2), s.v3);
  }

  lemma ExtraWord(extra: nat)
    requires extra < 0x1_0000_0000
    ensures WordOf(Bytes(extra, 4)) == extra
  {
    hide Pow2;
    Pow64();
    Pow2Add(16, 16);
    Pow2Add(8, 8);
    LEOfBytes(extra, 4);
  }

  /** Cutting a message into writes makes no difference to its hash. */
  method HashInPieces(k0: U64, k1: U64, a: seq<Byte>, b: seq<Byte>) returns (r: U64)
    ensures r == Hash(k0, k1, a + b)
  {
    hide Hash, Absorbed, WordOf;
    var h := new SipHasher(k0, k1);
    h.Write(a);
    h.Write(b);
    assert [] + a + b == a + b;
    r := h.Finalize();
  }
}

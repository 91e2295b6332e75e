/**
 Request and response padding (src/protocol.rs). The `tokenish` method emits characters until
 their HPACK Huffman encoding (section 5.2 and Appendix B of RFC 7541) reaches the wanted length;
 the receiver measures the same encoding. Both sides are modelled here, and the generator is shown
 to hit every length exactly before its buffer capacity runs out.
 */
module Padding {
  import opened Basics

  /** An ASCII code. */
  type Octet = nat

  /** The alphabet: digits, capitals, small letters. */
  function Letter(place: nat): Octet
    requires place < 62
  {
    if place < 10 then 48 + place else if place < 36 then 65 + (place - 10) else 97 + (place - 36)
  }

  /**
   Bits of the Huffman code of a letter or digit, Appendix B of RFC 7541: 5 for 0-2 and a c e i o s t,
   6 for 3-9, A and b d f g h l m n p r u, 8 for X and Z, and 7 for the others.
   */
  function CodeLength(c: Octet): (bits: nat)
    ensures 5 <= bits <= 8
  {
    if 48 <= c <= 50 || c == 97 || c == 99 || c == 101 || c == 105 || c == 111 || c == 115 || c == 116 then 5
    else if 51 <= c <= 57 || c == 65 || c == 98 || c == 100 || 102 <= c <= 104 || 108 <= c <= 110 then 6
    else if c == 112 || c == 114 || c == 117 then 6
    else if c == 88 || c == 90 then 8
    else 7
  }

  function CodeBits(s: seq<Octet>): nat {
    if s == [] then 0 else CodeBits(s[..|s| - 1]) + CodeLength(s[|s| - 1])
  }

  /** Octets of the encoding, the last one filled up. */
  function HuffmanLength(s: seq<Octet>): nat {
    (CodeBits(s) + 7) / 8
  }

  function Symbol(length: nat, index: nat): Octet {
    Letter((index * 37 + length * 17) % 62)
  }

  /** The first `n` symbols the generator pushes. */
  function Symbols(length: nat, n: nat): (s: seq<Octet>)
    ensures |s| == n
  {
    if n == 0 then [] else Symbols(length, n - 1) + [Symbol(length, n - 1)]
  }

  // ---------------------------------------------------------------- 62 symbols in a row use the whole alphabet

  function PlaceBits(a: nat): nat {
    CodeLength(Letter(a % 62))
  }

  /** Code bits of `n` symbols, 37 places apart in the alphabet, from place `a` on. */
  function Stride(a: nat, n: nat): nat
    decreases n, a
  {
    if n == 0 then 0 else Stride(a, n - 1) + PlaceBits(a + 37 * (n - 1))
  }

  lemma {:induction false} StrideFront(a: nat, n: nat)
    ensures Stride(a, n + 1) == PlaceBits(a) + Stride(a + 37, n)
  {
    hide PlaceBits;
    if n > 0 {
      StrideFront(a, n - 1);
      assert a + 37 * n == a + 37 + 37 * (n - 1);
    }
  }

  lemma FullTurn(a: nat)
    ensures Stride(a + 37, 62) == Stride(a, 62)
  {
    hide Stride, Letter, CodeLength;
    StrideFront(a, 62);
    StrideLast(a, 62);
    assert (a + 37 * 62) % 62 == a % 62;
  }

  lemma StrideLast(a: nat, n: nat)
    ensures Stride(a, n + 1) == Stride(a, n) + PlaceBits(a + 37 * n)
  {
  }

  lemma {:induction false} ManyTurns(a: nat, k: nat)
    ensures Stride(a + 37 * k, 62) == Stride(a, 62)
  {
    hide Stride;
    if k > 0 {
      ManyTurns(a, k - 1);
      FullTurn(a + 37 * (k - 1));
    }
  }

  lemma WholeTurns(a: nat, m: nat)
    ensures (a + 62 * m) % 62 == a % 62
  {
  }

  lemma {:induction false} StrideShift(a: nat, m: nat, n: nat)
    ensures Stride(a + 62 * m, n) == Stride(a, n)
  {
    hide PlaceBits;
    if n > 0 {
      StrideShift(a, m, n - 1);
      var place := a + 37 * (n - 1);
      assert a + 62 * m + 37 * (n - 1) == place + 62 * m;
      SamePlace(place, m);
    }
  }

  lemma SamePlace(a: nat, m: nat)
    ensures PlaceBits(a + 62 * m) == PlaceBits(a)
  {
    hide Letter, CodeLength;
    WholeTurns(a, m);
  }

  lemma StrideEight(n: nat)
    ensures Stride(0, n + 8) == Stride(0, n)
                                + PlaceBits(37 * n) + PlaceBits(37 * n + 37)
                                + PlaceBits(37 * n + 74) + PlaceBits(37 * n + 111)
                                + PlaceBits(37 * n + 148) + PlaceBits(37 * n + 185)
                                + PlaceBits(37 * n + 222) + PlaceBits(37 * n + 259)
  {
    hide Stride, PlaceBits;
    StrideLast(0, n);
    StrideLast(0, n + 1);
    StrideLast(0, n + 2);
    StrideLast(0, n + 3);
    StrideLast(0, n + 4);
    StrideLast(0, n + 5);
    StrideLast(0, n + 6);
    StrideLast(0, n + 7);
  }

  lemma Upto8()
    ensures Stride(0, 8) == 50
  {
    hide Stride;
    StrideEmpty();
    StrideEight(0);
  }

  lemma Upto16()
    ensures Stride(0, 16) == 104
  {
    hide Stride;
    Upto8();
    StrideEight(8);
  }

  lemma Upto24()
    ensures Stride(0, 24) == 159
  {
    hide Stride;
    Upto16();
    StrideEight(16);
  }

  lemma Upto32()
    ensures Stride(0, 32) == 211
  {
    hide Stride;
    Upto24();
    StrideEight(24);
  }

  lemma Upto40()
    ensures Stride(0, 40) == 261
  {
    hide Stride;
    Upto32();
    StrideEight(32);
  }

  lemma Upto48()
    ensures Stride(0, 48) == 311
  {
    hide Stride;
    Upto40();
    StrideEight(40);
  }

  lemma Upto56()
    ensures Stride(0, 56) == 361
  {
    hide Stride;
    Upto48();
    StrideEight(48);
  }

  lemma Upto64()
    ensures Stride(0, 64) == 408
  {
    hide Stride;
    Upto56();
    StrideEight(56);
  }

  lemma WholeAlphabet()
    ensures Stride(0, 62) == 397
  {
    hide Stride;
    Upto64();
    StrideLast(0, 62);
    StrideLast(0, 63);
  }

  lemma StrideEmpty()
    ensures Stride(0, 0) == 0
  {
  }

  /** 37 is invertible modulo 62, so wherever they start 62 symbols have 397 code bits. */
  lemma AnyWindow(a: nat)
    ensures Stride(a, 62) == 397
  {
    hide Stride;
    ManyTurns(0, 57 * a);
    assert 37 * (57 * a) == a + 62 * (34 * a);
    StrideShift(a, 34 * a, 62);
    WholeAlphabet();
  }

  /** Any 62 symbols in a row hold every letter of the alphabet. */
  lemma WindowHoldsAlphabet(length: nat, from: nat, place: nat)
    requires place < 62
    ensures exists index: nat :: from <= index < from + 62 && Symbol(length, index) == Letter(place)
  {
    hide Letter;
    var start := from * 37 + length * 17;
    var k := (57 * (place - start)) % 62;
    StrideReaches(start, place);
    assert (from + k) * 37 + length * 17 == start + 37 * k;
    assert Symbol(length, from + k) == Letter(place);
  }

  lemma StrideReaches(start: nat, place: nat)
    requires place < 62
    ensures (start + 37 * ((57 * (place - start)) % 62)) % 62 == place
  {
    var d := place - start;
    var q := (57 * d) / 62;
    assert 57 * d == 62 * q + (57 * d) % 62;
    assert start + 37 * ((57 * d) % 62) == place + 62 * (34 * d - 37 * q);
    TurnsBack(place, 34 * d - 37 * q);
  }

  lemma TurnsBack(place: nat, t: int)
    requires place < 62
    ensures (place + 62 * t) % 62 == place
  {
  }

  // ---------------------------------------------------------------- how long n symbols are

  lemma {:induction false} StrideSplit(a: nat, m: nat, n: nat)
    ensures Stride(a, m + n) == Stride(a, m) + Stride(a + 37 * m, n)
  {
    hide PlaceBits;
    if n > 0 {
      StrideSplit(a, m, n - 1);
      assert a + 37 * (m + n - 1) == a + 37 * m + 37 * (n - 1);
    }
  }

  lemma {:induction false} AtLeastFive(a: nat, n: nat)
    ensures Stride(a, n) >= 5 * n
  {
    hide Letter, CodeLength;
    if n > 0 { AtLeastFive(a, n - 1); }
  }

  lemma {:induction false} StrideAtLeast(a: nat, n: nat)
    ensures Stride(a, n) >= 397 * (n / 62) + 5 * (n % 62)
    decreases n
  {
    hide Stride;
    if n < 62 {
      AtLeastFive(a, n);
    } else {
      StrideSplit(a, 62, n - 62);
      AnyWindow(a);
      StrideAtLeast(a + 37 * 62, n - 62);
      assert n / 62 == (n - 62) / 62 + 1 && n % 62 == (n - 62) % 62;
    }
  }

  lemma SymbolPlace(length: nat, index: nat)
    ensures CodeLength(Symbol(length, index)) == PlaceBits(length * 17 + 37 * index)
  {
    hide Letter, CodeLength;
    assert index * 37 + length * 17 == length * 17 + 37 * index;
  }

  lemma {:induction false} SymbolBits(length: nat, n: nat)
    ensures CodeBits(Symbols(length, n)) == Stride(length * 17, n)
  {
    hide CodeLength, PlaceBits, Symbol;
    if n > 0 {
      SymbolBits(length, n - 1);
      var s := Symbols(length, n);
      assert s[..|s| - 1] == Symbols(length, n - 1);
      SymbolPlace(length, n - 1);
    }
  }

  /** Half as many symbols again, and eight, are always enough. */
  lemma CapacitySuffices(length: nat, capacity: nat)
    requires capacity >= length + length / 2 + 8
    ensures HuffmanLength(Symbols(length, capacity)) >= length
  {
    hide Stride, Symbols, CodeBits;
    SymbolBits(length, capacity);
    StrideAtLeast(length * 17, capacity);
    var q, r := capacity / 62, capacity % 62;
    assert capacity == 62 * q + r;
    assert 3 * (397 * q + 5 * r) >= 16 * (62 * q + r) - 141;
  }

  /** One more symbol adds at most one octet. */
  lemma OneSymbolOneOctet(length: nat, n: nat)
    ensures HuffmanLength(Symbols(length, n + 1)) <= HuffmanLength(Symbols(length, n)) + 1
  {
    hide Letter, CodeLength;
    var s := Symbols(length, n + 1);
    assert s[..|s| - 1] == Symbols(length, n);
  }

  // ---------------------------------------------------------------- both sides

  /** The octet `X`. */
  const X: Octet := 88

  /** Plain padding repeats `X`; token-like padding has exactly the wanted encoded length, at least one octet. */
  ghost predicate Generated(tokenish: bool, length: nat, value: seq<Octet>) {
    if tokenish then HuffmanLength(value) == Max(length, 1)
    else |value| == length && forall i :: 0 <= i < length ==> value[i] == X
  }

  /** The check of `valid_padding`. */
  predicate Accepts(tokenish: bool, min: nat, max: nat, value: seq<Octet>) {
    var length := if tokenish then HuffmanLength(value) else |value|;
    length + 2 >= min && length <= max + 2
  }

  /** `padding_value`. The vector's capacity is at least what was asked for. */
  method PaddingValue(tokenish: bool, length: nat, capacity: nat) returns (value: seq<Octet>)
    requires capacity >= length + length / 2 + 8
    ensures Generated(tokenish, length, value)
    ensures tokenish ==> |value| <= capacity && value == Symbols(length, |value|)
    ensures forall min: nat, max: nat :: min <= length <= max ==> Accepts(tokenish, min, max, value)
  {
    hide Symbol, CodeLength, Letter;
    if !tokenish {
      value := seq(length, _ => X);
      return;
    }
    value := [];
    var index, done := 0, false;
    assert HuffmanLength(Symbols(length, 0)) == 0;
    while index < capacity && !done
      invariant 0 <= index <= capacity && value == Symbols(length, index)
      invariant !done && index > 0 ==> HuffmanLength(value) < length
      invariant done ==> HuffmanLength(value) == Max(length, 1)
      decreases capacity - index
    {
      OneSymbolOneOctet(length, index);
      value := value + [Symbol(length, index)];
      index := index + 1;
      SomeOctet(length, index);
      if HuffmanLength(value) >= length {
        done := true;
      }
    }
    CapacitySuffices(length, capacity);
  }

  lemma SomeOctet(length: nat, n: nat)
    requires n > 0
    ensures HuffmanLength(Symbols(length, n)) >= 1
  {
    hide Symbol, CodeLength;
    var s := Symbols(length, n);
    assert CodeBits(s) >= CodeLength(s[|s| - 1]);
  }
}

/**
 The cursor over a binary rule-set payload (`Reader`, src/srs.rs): variable-length integers,
 64-bit words and the succinct key section, with the encoder each of them inverts.
 */
module SrsReader {
  import opened Basics
  import opened Octets
  import opened SuccinctTrie
  import opened SuccinctEncoding

  /** A value read from the data and the position behind it. */
  datatype Read<+T> = Read(value: T, end: nat)

  // ---------------------------------------------------------------- variable-length integers

  const VARINT_BYTES := 10

  const U64_RANGE := 0x1_0000_0000_0000_0000

  /** `uvarint` from its `i`-th byte on: seven bits per byte, low bits first, at most 64 bits. */
  function Uvarint(data: seq<byte>, pos: nat, i: nat): (r: Result<Read<nat>>)
    requires i <= VARINT_BYTES
    ensures r.Ok? ==> pos < r.value.end <= |data| && r.value.value < Range(i)
    decreases VARINT_BYTES - i
  {
    if i == VARINT_BYTES || pos >= |data| then Err
    else
      var b := data[pos] as int;
      if b < 0x80 then
        (if i == VARINT_BYTES - 1 && b > 1 then Err else RangeLarge(i); Ok(Read(b, pos + 1)))
      else
        match Uvarint(data, pos + 1, i + 1)
        case Err => Err
        case Ok(rest) => Ok(Read(b - 0x80 + 0x80 * rest.value, rest.end))
  }

  /** The bound on what the bytes from the `i`-th on can hold: 2^64 in all. */
  function Range(i: nat): nat
    requires i <= VARINT_BYTES
    decreases VARINT_BYTES - i
  {
    if i >= VARINT_BYTES - 1 then 2 else 0x80 * Range(i + 1)
  }

  lemma RangeLarge(i: nat)
    requires i < VARINT_BYTES
    ensures i < VARINT_BYTES - 1 ==> Range(i) >= 0x80
    decreases VARINT_BYTES - i
  {
    if i < VARINT_BYTES - 1 {
      RangeLarge(i + 1);
    }
  }

  lemma RangeIs64Bits()
    ensures Range(0) == U64_RANGE
  {
    assert Range(9) == 2 && Range(8) == 0x100 && Range(7) == 0x8000 && Range(6) == 0x40_0000 && Range(5) == 0x2000_0000;
  }

  function EncodeUvarint(n: nat): (e: seq<byte>)
    ensures |e| > 0
  {
    if n < 0x80 then [n as byte] else [(n % 0x80 + 0x80) as byte] + EncodeUvarint(n / 0x80)
  }

  /** A value that fits the bytes from the `i`-th on is read back from its encoding. */
  lemma {:induction false} UvarintReadBack(data: seq<byte>, pos: nat, i: nat, n: nat)
    requires i < VARINT_BYTES && n < Range(i) && Holds(data, pos, EncodeUvarint(n))
    ensures Uvarint(data, pos, i) == Ok(Read(n, pos + |EncodeUvarint(n)|))
    decreases n
  {
    var e := EncodeUvarint(n);
    assert data[pos] == e[0];
    if n >= 0x80 {
      HoldsSplit(data, pos, [e[0]], EncodeUvarint(n / 0x80));
      UvarintReadBack(data, pos + 1, i + 1, n / 0x80);
    }
  }

  /** Every 64-bit value is read back from its encoding, wherever it stands. */
  lemma UvarintRoundTrip(data: seq<byte>, pos: nat, n: nat)
    requires n < U64_RANGE && Holds(data, pos, EncodeUvarint(n))
    ensures Uvarint(data, pos, 0) == Ok(Read(n, pos + |EncodeUvarint(n)|))
  {
    RangeIs64Bits();
    UvarintReadBack(data, pos, 0, n);
  }

  // ---------------------------------------------------------------- big-endian words

  function BeValue(b: seq<byte>): nat {
    if b == [] then 0 else 256 * BeValue(b[..|b| - 1]) + b[|b| - 1] as int
  }

  function BeBytes(v: nat, n: nat): (b: seq<byte>)
    ensures |b| == n
  {
    if n == 0 then [] else BeBytes(v / 256, n - 1) + [(v % 256) as byte]
  }

  function Pow256(n: nat): nat {
    if n == 0 then 1 else 256 * Pow256(n - 1)
  }

  lemma {:induction false} BeRoundTrip(v: nat, n: nat)
    requires v < Pow256(n)
    ensures BeValue(BeBytes(v, n)) == v
    decreases n
  {
    if n > 0 {
      BeRoundTrip(v / 256, n - 1);
      var b := BeBytes(v, n);
      assert b[..n - 1] == BeBytes(v / 256, n - 1);
    }
  }

  /** A word that `Pack` builds fits in 64 bits. */
  lemma {:induction false} ToWordBound(bits: seq<bool>, n: nat)
    requires |bits| <= 8 * n
    ensures ToWord(bits) < Pow256(n)
    decreases n
  {
    hide ToWord, Pow2;
    ToWordEmpty();
    if n > 0 {
      var low := bits[..Min(8, |bits|)];
      var high := bits[|low|..];
      ToWordBound(high, n - 1);
      ToWordByte(low);
      if |low| < 8 {
        assert low == bits;
      } else {
        ToWordSplit(low, high);
        assert low + high == bits;
        assert ToWord(bits) == ToWord(low) + 256 * ToWord(high);
      }
    }
  }

  lemma ToWordEmpty()
    ensures ToWord([]) == 0
  {
  }

  lemma {:induction false} ToWordSplit(low: seq<bool>, high: seq<bool>)
    ensures ToWord(low + high) == ToWord(low) + Pow2(|low|) * ToWord(high)
    decreases |low|
  {
    if low == [] {
      assert low + high == high;
    } else {
      assert (low + high)[1..] == low[1..] + high;
      ToWordSplit(low[1..], high);
      TwiceProduct(Pow2(|low| - 1), ToWord(high));
    }
  }

  lemma TwiceProduct(a: nat, b: nat)
    ensures (2 * a) * b == 2 * (a * b)
  {
  }

  lemma {:induction false} ToWordByte(low: seq<bool>)
    ensures ToWord(low) < Pow2(|low|)
    ensures |low| <= 8 ==> Pow2(|low|) <= 256
    ensures |low| == 8 ==> Pow2(|low|) == 256
    decreases |low|
  {
    if low != [] {
      ToWordByte(low[1..]);
    }
    assert Pow2(8) == 256 && Pow2(7) == 128 && Pow2(6) == 64 && Pow2(5) == 32
        && Pow2(4) == 16 && Pow2(3) == 8 && Pow2(2) == 4 && Pow2(1) == 2;
  }

  /** `count` words of eight octets each. */
  function Words(data: seq<byte>, pos: nat, count: nat): (r: Result<Read<seq<nat>>>)
    ensures r.Ok? ==> |r.value.value| == count && r.value.end == pos + 8 * count
    ensures r.Ok? && count > 0 ==> r.value.end <= |data|
    decreases count
  {
    if count == 0 then Ok(Read([], pos))
    else if pos + 8 > |data| then Err
    else
      match Words(data, pos + 8, count - 1)
      case Err => Err
      case Ok(rest) => Ok(Read([BeValue(data[pos..pos + 8])] + rest.value, rest.end))
  }

  /** `u64s`. */
  function U64s(data: seq<byte>, pos: nat): Result<Read<seq<nat>>> {
    match Uvarint(data, pos, 0)
    case Err => Err
    case Ok(count) => Words(data, count.end, count.value)
  }

  function EncodeWords(words: seq<nat>): seq<byte> {
    if words == [] then [] else BeBytes(words[0], 8) + EncodeWords(words[1..])
  }

  function EncodeU64s(words: seq<nat>): seq<byte> {
    EncodeUvarint(|words|) + EncodeWords(words)
  }

  /** Each word fits in eight octets. */
  predicate Fit(words: seq<nat>) {
    forall k :: 0 <= k < |words| ==> words[k] < Pow256(8)
  }

  lemma {:induction false} WordsRoundTrip(data: seq<byte>, pos: nat, words: seq<nat>)
    requires Holds(data, pos, EncodeWords(words)) && Fit(words)
    ensures Words(data, pos, |words|) == Ok(Read(words, pos + |EncodeWords(words)|))
    decreases |words|
  {
    hide BeBytes, BeValue, Pow256;
    if words != [] {
      HoldsSplit(data, pos, BeBytes(words[0], 8), EncodeWords(words[1..]));
      BeRoundTrip(words[0], 8);
      WordsRoundTrip(data, pos + 8, words[1..]);
      assert words == [words[0]] + words[1..];
    }
  }

  lemma U64sRoundTrip(data: seq<byte>, pos: nat, words: seq<nat>)
    requires Holds(data, pos, EncodeU64s(words)) && |words| < U64_RANGE && Fit(words)
    ensures U64s(data, pos) == Ok(Read(words, pos + |EncodeU64s(words)|))
  {
    hide EncodeUvarint, EncodeWords, Uvarint, Words, Pow256;
    HoldsSplit(data, pos, EncodeUvarint(|words|), EncodeWords(words));
    UvarintRoundTrip(data, pos, |words|);
    WordsRoundTrip(data, pos + |EncodeUvarint(|words|)|, words);
  }

  lemma {:induction false} PackFits(bits: seq<bool>)
    ensures Fit(Pack(bits))
    decreases |bits|
  {
    hide Pow256, ToWord;
    if 0 < |bits| <= WORD {
      ToWordBound(bits, 8);
    } else if |bits| > WORD {
      ToWordBound(bits[..WORD], 8);
      PackFits(bits[WORD..]);
    }
  }

  // ---------------------------------------------------------------- the key section

  /** `succinct_keys`: a reserved octet, leaf words, bitmap words, labels. */
  function SuccinctKeys(data: seq<byte>, pos: nat): Result<Read<seq<seq<byte>>>> {
    if pos >= |data| then Err
    else
      match U64s(data, pos + 1)
      case Err => Err
      case Ok(leaves) =>
        match U64s(data, leaves.end)
        case Err => Err
        case Ok(bitmap) =>
          match Uvarint(data, bitmap.end, 0)
          case Err => Err
          case Ok(length) =>
            if length.end + length.value > |data| then Err
            else
              var labels := data[length.end..length.end + length.value];
              match DecodeTree(bitmap.value, labels)
              case Err => Err
              case Ok(tree) =>
                AcceptedIsTree(bitmap.value, labels);
                Ok(Read(Collect(tree, leaves.value, 0, []), length.end + length.value))
  }

  function EncodeSection(leaves: seq<bool>, bitmap: seq<bool>, labels: seq<byte>): seq<byte> {
    [0] + (EncodeU64s(Pack(leaves)) + (EncodeU64s(Pack(bitmap)) + (EncodeUvarint(|labels|) + labels)))
  }

  function EncodeTrie(t: Trie): seq<byte> {
    var nodes := Bfs([t]);
    EncodeSection(Leaves(nodes), Bitmap(nodes, |nodes|), Labels(nodes, |nodes|))
  }

  /** Reading an encoded section gives back its three parts. */
  lemma SectionRoundTrip(data: seq<byte>, pos: nat, leaves: seq<bool>, bitmap: seq<bool>, labels: seq<byte>)
    requires Holds(data, pos, EncodeSection(leaves, bitmap, labels))
    requires |leaves| < U64_RANGE && |bitmap| < U64_RANGE && |labels| < U64_RANGE
    ensures
      var p1 := pos + 1;
      var p2 := p1 + |EncodeU64s(Pack(leaves))|;
      var p3 := p2 + |EncodeU64s(Pack(bitmap))|;
      var p4 := p3 + |EncodeUvarint(|labels|)|;
      && pos < |data| && p4 + |labels| == pos + |EncodeSection(leaves, bitmap, labels)| <= |data|
      && U64s(data, p1) == Ok(Read(Pack(leaves), p2))
      && U64s(data, p2) == Ok(Read(Pack(bitmap), p3))
      && Uvarint(data, p3, 0) == Ok(Read(|labels|, p4))
      && data[p4..p4 + |labels|] == labels
  {
    hide Pack, EncodeU64s, EncodeUvarint, U64s, Uvarint, Range;
    var a, b, c := EncodeU64s(Pack(leaves)), EncodeU64s(Pack(bitmap)), EncodeUvarint(|labels|);
    HoldsSplit(data, pos, [0], a + (b + (c + labels)));
    HoldsSplit(data, pos + 1, a, b + (c + labels));
    HoldsSplit(data, pos + 1 + |a|, b, c + labels);
    HoldsSplit(data, pos + 1 + |a| + |b|, c, labels);
    PackFits(leaves);
    PackFits(bitmap);
    U64sRoundTrip(data, pos + 1, Pack(leaves));
    U64sRoundTrip(data, pos + 1 + |a|, Pack(bitmap));
    UvarintRoundTrip(data, pos + 1 + |a| + |b|, |labels|);
  }

  /** A section holding an encoded trie is read as the keys of the trie, to its last octet. */
  lemma SuccinctKeysRoundTrip(data: seq<byte>, pos: nat, t: Trie)
    requires Holds(data, pos, EncodeTrie(t)) && 2 * |Bfs([t])| < U64_RANGE
    ensures SuccinctKeys(data, pos) == Ok(Read(Keys(t, []), pos + |EncodeTrie(t)|))
  {
    hide Pack, EncodeU64s, EncodeUvarint, U64s, Uvarint, Range, Bfs, DecodeTree, Collect, Keys;
    var nodes := Bfs([t]);
    BfsInOrder([t]);
    SectionRoundTrip(data, pos, Leaves(nodes), Bitmap(nodes, |nodes|), Labels(nodes, |nodes|));
    DecodeTrie(t);
  }

  /** Wherever the section of the trie stands, it is read as the keys, each once, to its last octet. */
  ghost predicate ReadsAs(t: Trie, keys: set<seq<byte>>) {
    && multiset(Keys(t, [])) == multiset(keys)
    && forall data, pos: nat :: Holds(data, pos, EncodeTrie(t)) && 2 * |Bfs([t])| < U64_RANGE ==>
         SuccinctKeys(data, pos) == Ok(Read(Keys(t, []), pos + |EncodeTrie(t)|))
  }

  /** Every finite key set has a section, as long as its sizes can be written in 64 bits. */
  lemma KeySetRoundTrip(keys: set<seq<byte>>)
    ensures exists t: Trie :: ReadsAs(t, keys)
  {
    var t := TrieOfKeySet(keys);
    forall data, pos: nat | Holds(data, pos, EncodeTrie(t)) && 2 * |Bfs([t])| < U64_RANGE
      ensures SuccinctKeys(data, pos) == Ok(Read(Keys(t, []), pos + |EncodeTrie(t)|))
    {
      SuccinctKeysRoundTrip(data, pos, t);
    }
    assert ReadsAs(t, keys);
  }

  // ---------------------------------------------------------------- the cursor

  /** `Reader`: the payload and a cursor that every successful read advances. */
  class Reader {
    const data: seq<byte>
    var pos: nat

    constructor (data: seq<byte>)
      ensures this.data == data && pos == 0
    {
      this.data := data;
      pos := 0;
    }

    method ReadUvarint() returns (r: Result<nat>)
      modifies this
      ensures
        match Uvarint(data, old(pos), 0)
        case Err => r == Err
        case Ok(read) => r == Ok(read.value) && pos == read.end
    {
      hide Uvarint, Scaled, Range, Shifted;
      ScaledUnit(Uvarint(data, pos, 0));
      var value, factor, i := 0, 1, 0;
      while i < VARINT_BYTES
        invariant 0 <= i <= VARINT_BYTES && value >= 0 && factor >= 1
        invariant Uvarint(data, old(pos), 0) == Scaled(value, factor, Uvarint(data, pos, i))
      {
        UvarintStep(data, pos, i, value, factor);
        if pos >= |data| {
          return Err;
        }
        var b := data[pos] as int;
        pos := pos + 1;
        if b < 0x80 {
          if i == VARINT_BYTES - 1 && b > 1 {
            return Err;
          }
          return Ok(value + Shifted(b, factor));
        }
        value, factor, i := value + Shifted(b - 0x80, factor), 0x80 * factor, i + 1;
      }
      UvarintEnds(data, pos, value, factor);
      return Err;
    }

    method ReadU64s() returns (r: Result<seq<nat>>)
      modifies this
      ensures
        match U64s(data, old(pos))
        case Err => r == Err
        case Ok(read) => r == Ok(read.value) && pos == read.end
    {
      hide Uvarint, Words, After, BeValue;
      var count := ReadUvarint();
      if count.Err? {
        return Err;
      }
      var words: seq<nat> := [];
      ghost var start := pos;
      WordsAfter(words, Words(data, start, count.value));
      for k := 0 to count.value
        invariant Words(data, start, count.value) == After(words, Words(data, pos, count.value - k))
      {
        WordsStep(data, words, pos, count.value - k);
        if pos + 8 > |data| {
          return Err;
        }
        words := words + [BeValue(data[pos..pos + 8])];
        pos := pos + 8;
      }
      WordsEnd(data, words, pos);
      return Ok(words);
    }

    method ReadSuccinctKeys() returns (r: Result<seq<seq<byte>>>)
      modifies this
      ensures
        match SuccinctKeys(data, old(pos))
        case Err => r == Err
        case Ok(read) => r == Ok(read.value) && pos == read.end
    {
      hide Uvarint, U64s, Collect, DecodeTree;
      if pos >= |data| {
        return Err;
      }
      pos := pos + 1;
      var leaves := ReadU64s();
      if leaves.Err? {
        return Err;
      }
      var bitmap := ReadU64s();
      if bitmap.Err? {
        return Err;
      }
      var length := ReadUvarint();
      if length.Err? || pos + length.value > |data| {
        return Err;
      }
      var labels := data[pos..pos + length.value];
      pos := pos + length.value;
      var tree := DecodeLoop(bitmap.value, labels);
      if tree.Err? {
        return Err;
      }
      AcceptedIsTree(bitmap.value, labels);
      var collector := new KeyCollector();
      collector.CollectKeys(tree.value, leaves.value, 0);
      assert [] + Collect(tree.value, leaves.value, 0, []) == Collect(tree.value, leaves.value, 0, []);
      return Ok(collector.result);
    }
  }

  /** Bits shifted left, as a product with a power of two. */
  function Shifted(bits: nat, factor: nat): nat {
    factor * bits
  }

  /** The result once the low bits read so far are put below it. */
  ghost function Scaled(value: nat, factor: nat, r: Result<Read<nat>>): Result<Read<nat>> {
    match r
    case Err => Err
    case Ok(read) => Ok(Read(value + factor * read.value, read.end))
  }

  /** One turn of the loop in `uvarint`. */
  lemma UvarintStep(data: seq<byte>, pos: nat, i: nat, value: nat, factor: nat)
    requires i < VARINT_BYTES
    ensures
      Scaled(value, factor, Uvarint(data, pos, i)) ==
      if pos >= |data| then Err
      else if data[pos] as int < 0x80 then
        if i == VARINT_BYTES - 1 && data[pos] as int > 1 then Err
        else Ok(Read(value + Shifted(data[pos] as int, factor), pos + 1))
      else Scaled(value + Shifted(data[pos] as int - 0x80, factor), 0x80 * factor, Uvarint(data, pos + 1, i + 1))
  {
    var rest := Uvarint(data, pos + 1, i + 1);
    if pos < |data| && data[pos] as int >= 0x80 && rest.Ok? {
      SplitFactor(value, factor, data[pos] as int - 0x80, rest.value.value);
    }
  }

  lemma UvarintEnds(data: seq<byte>, pos: nat, value: nat, factor: nat)
    ensures Scaled(value, factor, Uvarint(data, pos, VARINT_BYTES)) == Err
  {
  }

  lemma ScaledUnit(r: Result<Read<nat>>)
    ensures Scaled(0, 1, r) == r
  {
  }

  ghost function After(words: seq<nat>, r: Result<Read<seq<nat>>>): Result<Read<seq<nat>>> {
    match r
    case Err => Err
    case Ok(read) => Ok(Read(words + read.value, read.end))
  }

  lemma WordsStep(data: seq<byte>, words: seq<nat>, pos: nat, count: nat)
    requires count > 0
    ensures
      After(words, Words(data, pos, count)) ==
      if pos + 8 > |data| then Err
      else After(words + [BeValue(data[pos..pos + 8])], Words(data, pos + 8, count - 1))
  {
    hide BeValue;
    if pos + 8 <= |data| {
      var word, rest := BeValue(data[pos..pos + 8]), Words(data, pos + 8, count - 1);
      if rest.Ok? { assert words + ([word] + rest.value.value) == words + [word] + rest.value.value; }
    }
  }

  lemma WordsEnd(data: seq<byte>, words: seq<nat>, pos: nat)
    ensures After(words, Words(data, pos, 0)) == Ok(Read(words, pos))
  {
    assert words + [] == words;
  }

  lemma WordsAfter(words: seq<nat>, r: Result<Read<seq<nat>>>)
    requires words == []
    ensures After(words, r) == r
  {
    if r.Ok? {
      assert words + r.value.value == r.value.value;
    }
  }

  lemma SplitFactor(value: nat, factor: nat, low: nat, rest: nat)
    ensures value + factor * (low + 0x80 * rest) == (value + factor * low) + (0x80 * factor) * rest
  {
  }
}

/** Pages of booleans, which are slices of a bit array at any bit offset. */
module BooleanPages {
  import opened Sequences

  type Byte = b: nat | b < 256

  /** Bit `k` of a byte, the lowest first: what a shift right by `k` leaves at the bottom. */
  function Bit(b: Byte, k: nat): bool
    requires k < 8
  {
    if k == 0 then b % 2 == 1 else Bit(b / 2, k - 1)
  }

  datatype BooleanPage = BooleanPage(bits: seq<Byte>, offset: nat, numValues: nat)

  function ByteCount(bits: nat): nat {
    (bits + 7) / 8
  }

  /** The page's bits are in the first bytes of the array, and none of these is spare. */
  predicate Valid(page: BooleanPage) {
    page.offset < 8 && |page.bits| == ByteCount(page.offset + page.numValues)
  }

  function ValueAt(page: BooleanPage, i: nat): bool
    requires Valid(page) && i < page.numValues
  {
    Bit(page.bits[(page.offset + i) / 8], (page.offset + i) % 8)
  }

  function Values(page: BooleanPage): (vs: seq<bool>)
    requires Valid(page)
    ensures |vs| == page.numValues
  {
    seq(page.numValues, i requires 0 <= i < page.numValues => ValueAt(page, i))
  }

  function Slice(page: BooleanPage, i: nat, j: nat): (slice: BooleanPage)
    requires Valid(page) && i <= j <= page.numValues
    ensures Valid(slice) && slice.numValues == j - i
  {
    var low, high := i + page.offset, j + page.offset;
    var off := low / 8;
    var end := if high % 8 != 0 then high / 8 + 1 else high / 8;
    BooleanPage(page.bits[off..end], low % 8, j - i)
  }

  // ----- bits and bytes as numbers -----

  ghost function Pow2(k: nat): (p: nat)
    ensures p > 0
  {
    if k == 0 then 1 else 2 * Pow2(k - 1)
  }

  function Digit(b: bool): nat {
    if b then 1 else 0
  }

  /** The number with the given binary digits, the lowest first. */
  ghost function NumberOf(digits: seq<bool>): nat {
    if digits == [] then 0 else Digit(digits[0]) + 2 * NumberOf(digits[1..])
  }

  /** The byte with the given bits: the first counts 1, the last 128. */
  ghost function ByteOf(bits: seq<bool>): (b: Byte)
    requires |bits| == 8
    ensures b == Digit(bits[0]) + 2 * Digit(bits[1]) + 4 * Digit(bits[2]) + 8 * Digit(bits[3])
      + 16 * Digit(bits[4]) + 32 * Digit(bits[5]) + 64 * Digit(bits[6]) + 128 * Digit(bits[7])
  {
    Spelled(bits);
    NumberOf(bits)
  }

  lemma Spelled(bits: seq<bool>)
    requires |bits| == 8
    ensures NumberOf(bits) == Digit(bits[0]) + 2 * Digit(bits[1]) + 4 * Digit(bits[2]) + 8 * Digit(bits[3])
      + 16 * Digit(bits[4]) + 32 * Digit(bits[5]) + 64 * Digit(bits[6]) + 128 * Digit(bits[7])
    ensures NumberOf(bits) < 256
  {
    assert bits[0..] == bits && bits[8..] == [];
    assert NumberOf(bits[8..]) == 0;
    hide NumberOf;
    FourDigits(bits, 0);
    FourDigits(bits, 4);
  }

  lemma FourDigits(digits: seq<bool>, i: nat)
    requires i + 4 <= |digits|
    ensures NumberOf(digits[i..]) == Digit(digits[i]) + 2 * Digit(digits[i + 1]) + 4 * Digit(digits[i + 2])
      + 8 * Digit(digits[i + 3]) + 16 * NumberOf(digits[i + 4..])
  {
    hide NumberOf;
    NextDigit(digits, i);
    NextDigit(digits, i + 1);
    NextDigit(digits, i + 2);
    NextDigit(digits, i + 3);
  }

  lemma NextDigit(digits: seq<bool>, i: nat)
    requires i < |digits|
    ensures NumberOf(digits[i..]) == Digit(digits[i]) + 2 * NumberOf(digits[i + 1..])
  {
    assert digits[i..][1..] == digits[i + 1..];
  }

  /** Bit `k` of a number of binary digits is digit `k`. */
  lemma {:induction false} BitIsDigit(digits: seq<bool>, k: nat)
    requires k < |digits| && k < 8 && NumberOf(digits) < 256
    ensures Bit(NumberOf(digits), k) == digits[k]
    decreases k
  {
    if k > 0 {
      BitIsDigit(digits[1..], k - 1);
    }
  }

  /** Bit `k` of a byte is what is left at the bottom when the byte is shifted right by `k`. */
  lemma {:induction false} BitIsShifted(b: Byte, k: nat)
    requires k < 8
    ensures Bit(b, k) <==> (b / Pow2(k)) % 2 == 1
    decreases k
  {
    if k > 0 {
      BitIsShifted(b / 2, k - 1);
      HalfAgain(b, Pow2(k - 1));
    }
  }

  lemma HalfAgain(b: nat, p: nat)
    requires p > 0
    ensures b / (2 * p) == b / 2 / p
  {
    var q, r := b / 2 / p, b / 2 % p;
    assert b == 2 * (q * p + r) + b % 2 == q * (2 * p) + (2 * r + b % 2);
    Quotient(b, 2 * p, q, 2 * r + b % 2);
  }

  lemma Quotient(b: nat, d: nat, q: nat, r: nat)
    requires d > 0 && b == q * d + r && r < d
    ensures b / d == q
  {
    var q', r' := b / d, b % d;
    Divided(b, d);
    Multiples(q' - q, d);
    Spread(q, q', d, r, r');
  }

  lemma Divided(b: nat, d: nat)
    requires d > 0
    ensures b == b / d * d + b % d && b % d < d
  {
  }

  lemma Multiples(x: int, d: nat)
    ensures x >= 1 ==> x * d >= d
    ensures x <= -1 ==> x * d + d <= 0
  {
  }

  lemma Spread(q: int, q': int, d: nat, r: nat, r': nat)
    requires q * d + r == q' * d + r'
    ensures (q' - q) * d == r - r'
  {
  }

  // ----- packing -----

  /** The value whose bit is at position `p` of a packed page; positions before and after the values hold none. */
  ghost function PackedBit(vs: seq<bool>, offset: nat, p: nat): bool {
    offset <= p < offset + |vs| && vs[p - offset]
  }

  ghost function PackedBits(vs: seq<bool>, offset: nat, j: nat): (bits: seq<bool>)
    ensures |bits| == 8
  {
    seq(8, k requires 0 <= k < 8 => PackedBit(vs, offset, 8 * j + k))
  }

  /** A page of the values: value `i` counts 2^k in byte `j` where 8 * j + k is the offset plus `i`. */
  ghost function Packed(vs: seq<bool>, offset: nat): BooleanPage {
    BooleanPage(seq(ByteCount(offset + |vs|), j requires 0 <= j < ByteCount(offset + |vs|) => ByteOf(PackedBits(vs, offset, j))),
      offset, |vs|)
  }

  /** Values read back from a page that they have been packed into, at any bit offset. */
  lemma PackedRoundTrip(vs: seq<bool>, offset: nat)
    requires offset < 8
    ensures Valid(Packed(vs, offset)) && Values(Packed(vs, offset)) == vs
  {
    hide ValueAt, ByteOf;
    var page := Packed(vs, offset);
    forall i: nat | i < |vs| ensures ValueAt(page, i) == vs[i] {
      PackedValue(vs, offset, i);
    }
  }

  lemma PackedValue(vs: seq<bool>, offset: nat, i: nat)
    requires offset < 8 && i < |vs| && Valid(Packed(vs, offset))
    ensures ValueAt(Packed(vs, offset), i) == vs[i]
  {
    var p := offset + i;
    ByteOfValue(Packed(vs, offset), i);
    Position(p);
    hide Bit;
    BitOfByte(vs, offset, p / 8, p % 8);
    assert Packed(vs, offset).bits[p / 8] == ByteOf(PackedBits(vs, offset, p / 8));
  }

  lemma BitOfByte(vs: seq<bool>, offset: nat, j: nat, k: nat)
    requires k < 8
    ensures Bit(ByteOf(PackedBits(vs, offset, j)), k) == PackedBit(vs, offset, 8 * j + k)
  {
    hide NumberOf, Bit, PackedBit;
    Spelled(PackedBits(vs, offset, j));
    BitIsDigit(PackedBits(vs, offset, j), k);
  }

  lemma Position(p: nat)
    ensures 8 * (p / 8) + p % 8 == p
  {
  }

  /** A value is the bit that shifting its byte right leaves at the bottom. */
  lemma ValueIsShifted(page: BooleanPage, i: nat)
    requires Valid(page) && i < page.numValues
    ensures
      var p := page.offset + i;
      p / 8 < |page.bits| && (Values(page)[i] <==> (page.bits[p / 8] / Pow2(p % 8)) % 2 == 1)
  {
    ByteOfValue(page, i);
    BitIsShifted(page.bits[(page.offset + i) / 8], (page.offset + i) % 8);
  }

  // ----- slices -----

  /** Counting bits from the byte that bit `low` is in. */
  lemma FromByte(low: nat, k: nat)
    ensures (low % 8 + k) / 8 + low / 8 == (low + k) / 8 && (low % 8 + k) % 8 == (low + k) % 8
    ensures ByteCount(low % 8 + k) + low / 8 == ByteCount(low + k)
  {
  }

  lemma SliceBytes(page: BooleanPage, i: nat, j: nat)
    requires Valid(page) && i <= j <= page.numValues
    ensures (i + page.offset) / 8 <= ByteCount(j + page.offset) <= |page.bits|
    ensures Slice(page, i, j)
      == BooleanPage(page.bits[(i + page.offset) / 8..ByteCount(j + page.offset)], (i + page.offset) % 8, j - i)
  {
  }

  /** A slice holds values i to j - 1 of the page, wherever they begin in a byte. */
  lemma SliceIsValues(page: BooleanPage, i: nat, j: nat)
    requires Valid(page) && i <= j <= page.numValues
    ensures Values(Slice(page, i, j)) == Values(page)[i..j]
  {
    hide Bit, Slice, ByteCount, Values;
    SliceBytes(page, i, j);
    SameValues(Slice(page, i, j), page, i);
  }

  lemma SameValues(slice: BooleanPage, page: BooleanPage, i: nat)
    requires Valid(page) && Valid(slice) && i + slice.numValues <= page.numValues
    requires slice.offset == (i + page.offset) % 8
    requires var off := (i + page.offset) / 8;
      off + |slice.bits| <= |page.bits| && slice.bits == page.bits[off..off + |slice.bits|]
    ensures Values(slice) == Values(page)[i..i + slice.numValues]
  {
    hide Bit, ByteCount;
    forall k: nat | k < slice.numValues ensures ValueAt(slice, k) == ValueAt(page, i + k) {
      ByteOfValue(slice, k);
      FromByte(i + page.offset, k);
    }
  }

  lemma ByteOfValue(page: BooleanPage, i: nat)
    requires Valid(page) && i < page.numValues
    ensures (page.offset + i) / 8 < |page.bits|
  {
  }

  /** A slice of a slice is a slice of the page. */
  lemma SlicesCompose(page: BooleanPage, a: nat, b: nat, c: nat, d: nat)
    requires Valid(page) && a <= b <= page.numValues && c <= d <= b - a
    ensures Slice(Slice(page, a, b), c, d) == Slice(page, a + c, a + d)
  {
    hide Slice, ByteCount;
    var low := a + page.offset;
    SliceBytes(page, a, b);
    SliceBytes(Slice(page, a, b), c, d);
    SliceBytes(page, a + c, a + d);
    FromByte(low, c);
    FromByte(low, d);
    ComposedBytes(page.bits, low, b + page.offset, c, d);
  }

  lemma ComposedBytes(bits: seq<Byte>, low: nat, high: nat, c: nat, d: nat)
    requires low / 8 <= ByteCount(high) <= |bits|
    requires (c + low % 8) / 8 <= ByteCount(d + low % 8) <= ByteCount(high) - low / 8
    ensures bits[low / 8..ByteCount(high)][(c + low % 8) / 8..ByteCount(d + low % 8)]
      == bits[low / 8 + (c + low % 8) / 8..low / 8 + ByteCount(d + low % 8)]
  {
    hide ByteCount;
    SliceOfSlice(bits, low / 8, ByteCount(high), (c + low % 8) / 8, ByteCount(d + low % 8));
  }

  class BooleanPageValues {
    const page: BooleanPage
    var offset: nat

    constructor (page: BooleanPage)
      requires Valid(page)
      ensures this.page == page && offset == 0
    {
      this.page, offset := page, 0;
    }

    /** Fills the buffer with the next values, as many as there are. */
    method ReadBooleans(buffer: array<bool>) returns (n: nat, eof: bool)
      requires Valid(page) && offset <= page.numValues
      modifies this, buffer
      ensures offset == old(offset) + n <= page.numValues && n <= buffer.Length
      ensures n == buffer.Length || offset == page.numValues
      ensures buffer[..n] == Values(page)[old(offset)..offset] && buffer[n..] == old(buffer[n..])
      ensures eof <==> offset == page.numValues
    {
      n := 0;
      while n < buffer.Length && offset < page.numValues
        invariant offset == old(offset) + n <= page.numValues && n <= buffer.Length
        invariant forall k :: 0 <= k < n ==> buffer[k] == Values(page)[old(offset) + k]
        invariant forall k :: n <= k < buffer.Length ==> buffer[k] == old(buffer[k])
      {
        buffer[n] := ValueAt(page, offset);
        offset := offset + 1;
        n := n + 1;
      }
      eof := offset == page.numValues;
    }
  }
}

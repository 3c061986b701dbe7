/** Unbounded integers as two's-complement bytes. */
module DecimalBytes {
  import opened BigEndian

  /** The integer that bytes stand for in two's complement; no bytes are zero. */
  ghost function Decoded(bs: seq<Byte>): int {
    if bs != [] && bs[0] >= 128 then Number(bs) - Pow256(|bs|) else Number(bs)
  }

  /** The sign bit is set exactly for numbers in the upper half. */
  lemma SignBit(bs: seq<Byte>)
    requires bs != []
    ensures bs[0] >= 128 <==> Number(bs) >= 128 * Pow256(|bs| - 1)
  {
    hide Number, Pow256;
    FirstByte(bs);
    var p := Pow256(|bs| - 1);
    if bs[0] >= 128 {
      MulAtMost(128, bs[0], p);
    } else {
      MulAtMost(bs[0], 127, p);
    }
  }

  lemma LeadingZero(bs: seq<Byte>)
    ensures Number([0] + bs) == Number(bs)
  {
    FirstByte([0] + bs);
    assert ([0] + bs)[1..] == bs;
  }

  ghost function Inverted(bs: seq<Byte>): (r: seq<Byte>)
    ensures |r| == |bs|
  {
    seq(|bs|, i requires 0 <= i < |bs| => 255 - bs[i])
  }

  lemma {:induction false} InvertedNumber(bs: seq<Byte>)
    ensures Number(bs) + Number(Inverted(bs)) == Pow256(|bs|) - 1
  {
    if bs != [] {
      var n := |bs| - 1;
      InvertedNumber(bs[..n]);
      assert Inverted(bs)[..n] == Inverted(bs[..n]);
    }
  }

  /** Inverting the bytes of a positive number below the sign bit and adding one negates it. */
  lemma Negates(bs: seq<Byte>, sum: seq<Byte>, carry: nat)
    requires bs != [] && bs[0] < 128 && Number(bs) > 0 && |sum| == |bs| && carry <= 1
    requires Number(sum) + carry * Pow256(|bs|) == Number(Inverted(bs)) + 1
    ensures Decoded(sum) == 0 - Number(bs)
  {
    hide Number;
    InvertedNumber(bs);
    SignBit(bs);
    SignBit(sum);
    assert Pow256(|bs|) == 256 * Pow256(|bs| - 1);
  }

  lemma Positive(bs: seq<Byte>)
    requires bs == [] || bs[0] < 128
    ensures Decoded(bs) == Number(bs)
    ensures bs == [] ==> Number(bs) == 0
  {
  }

  /** The bytes of an integer in two's complement, as few as its absolute value and a sign bit take. */
  method BigIntToByteArray(i: int) returns (b: array<Byte>)
    ensures fresh(b) && Decoded(b[..]) == i
    ensures b.Length <= |Bytes(if i < 0 then -i else i)| + 1
  {
    hide Number, Pow256, Decoded;
    var magnitude := Bytes(if i < 0 then -i else i);
    var bytes := magnitude;
    LeadingZero(magnitude);
    if |bytes| > 0 && bytes[0] >= 128 {
      bytes := [0] + bytes;
    }
    b := new Byte[|bytes|](k requires 0 <= k < |bytes| => bytes[k]);
    assert b[..] == bytes;
    if i >= 0 {
      Positive(bytes);
      return;
    }
    Positive(bytes);
    for j := 0 to b.Length
      invariant forall k :: 0 <= k < j ==> b[k] == 255 - bytes[k]
      invariant forall k :: j <= k < b.Length ==> b[k] == bytes[k]
    {
      b[j] := 255 - b[j];
    }
    assert b[..] == Inverted(bytes) && b[..b.Length] == b[..];
    var carry := Increment(b, b.Length);
    assert b[..b.Length] == b[..];
    Negates(bytes, b[..], carry);
  }

  /** Pads with copies of the sign to a fixed length. */
  method PadToFixedLen(b: array<Byte>, length: nat, negative: bool) returns (result: array<Byte>)
    requires b.Length <= length && (negative <==> Decoded(b[..]) < 0)
    ensures result.Length == length && Decoded(result[..]) == Decoded(b[..])
  {
    if b.Length == length {
      return b;
    }
    var padByte: Byte := if negative then 255 else 0;
    result := new Byte[length](_ => 0);
    var padding := length - b.Length;
    for i := 0 to padding
      invariant forall k :: 0 <= k < i ==> result[k] == padByte
    {
      result[i] := padByte;
    }
    for i := 0 to b.Length
      invariant forall k :: 0 <= k < padding ==> result[k] == padByte
      invariant forall k :: 0 <= k < i ==> result[padding + k] == b[k]
    {
      result[padding + i] := b[i];
    }
    assert result[..] == seq(padding, _ => padByte) + b[..];
    PaddingKeeps(b[..], padding, padByte);
  }

  /** Copies of the sign in front do not change the integer. */
  lemma {:induction false} PaddingKeeps(bs: seq<Byte>, padding: nat, padByte: Byte)
    requires padByte == if Decoded(bs) < 0 then 255 else 0
    ensures Decoded(seq(padding, _ => padByte) + bs) == Decoded(bs)
  {
    if padding == 0 {
      assert seq(padding, _ => padByte) + bs == bs;
    } else {
      var before := seq(padding - 1, _ => padByte) + bs;
      PaddingKeeps(bs, padding - 1, padByte);
      assert seq(padding, _ => padByte) + bs == [padByte] + before;
      FirstByte([padByte] + before);
      assert ([padByte] + before)[1..] == before;
      NegativeHasSign(before);
    }
  }

  lemma NegativeHasSign(bs: seq<Byte>)
    ensures Decoded(bs) < 0 <==> bs != [] && bs[0] >= 128
  {
  }
}

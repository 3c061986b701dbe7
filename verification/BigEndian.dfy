/** Big-endian byte strings: their numbers, and their order as strings. */
module BigEndian {

  type Byte = b: nat | b < 256

  function Pow256(n: nat): (p: nat)
    ensures p > 0
  {
    if n == 0 then 1 else 256 * Pow256(n - 1)
  }

  /** The number that bytes stand for, the most significant first. */
  ghost function Number(bs: seq<Byte>): (v: nat)
    ensures v < Pow256(|bs|)
  {
    if bs == [] then 0 else Number(bs[..|bs| - 1]) * 256 + bs[|bs| - 1]
  }

  /** The shortest bytes of a number. */
  function Bytes(v: nat): (bs: seq<Byte>)
    ensures Number(bs) == v
    ensures bs != [] ==> bs[0] != 0
    ensures bs == [] <==> v == 0
  {
    if v == 0 then []
    else
      var high := Bytes(v / 256);
      assert (high + [v % 256])[..|high|] == high;
      high + [v % 256]
  }

  lemma {:induction false} FirstByte(bs: seq<Byte>)
    requires bs != []
    ensures Number(bs) == bs[0] * Pow256(|bs| - 1) + Number(bs[1..])
  {
    var n := |bs| - 1;
    if n > 0 {
      FirstByte(bs[..n]);
      LastByte(bs);
      LastByte(bs[1..]);
      hide Number, Pow256;
      assert bs[..n][1..] == bs[1..][..n - 1];
      Shifted(bs[0], Pow256(n - 1), Number(bs[..n][1..]), bs[n]);
      NextPower(n);
    }
  }

  lemma LastByte(bs: seq<Byte>)
    requires bs != []
    ensures Number(bs) == Number(bs[..|bs| - 1]) * 256 + bs[|bs| - 1]
  {
  }

  lemma NextPower(n: nat)
    requires n > 0
    ensures Pow256(n) == 256 * Pow256(n - 1)
  {
  }

  lemma Shifted(first: nat, power: nat, rest: nat, last: nat)
    ensures (first * power + rest) * 256 + last == first * (256 * power) + (rest * 256 + last)
  {
  }

  lemma MulAtMost(x: nat, y: nat, p: nat)
    requires x <= y
    ensures x * p <= y * p
  {
  }

  lemma Heavier(x: int, power: nat)
    ensures x * (256 * power) == x * power * 256
  {
  }

  /** Changing byte `j` changes the number by its weight. */
  lemma {:induction false} NumberUpdate(bs: seq<Byte>, j: nat, b: Byte)
    requires j < |bs|
    ensures Number(bs[j := b]) == Number(bs) + (b - bs[j]) * Pow256(|bs| - 1 - j)
  {
    var n := |bs| - 1;
    LastByte(bs);
    LastByte(bs[j := b]);
    if j < n {
      NumberUpdate(bs[..n], j, b);
      NextPower(n - j);
      hide Number, Pow256;
      assert bs[j := b][..n] == bs[..n][j := b];
      Heavier(b - bs[j], Pow256(n - 1 - j));
    } else {
      assert bs[j := b][..n] == bs[..n] && Pow256(0) == 1;
      hide Number, Pow256;
    }
  }

  // ----- order as strings -----

  /** Byte by byte, a proper prefix first. */
  ghost function Compare(a: seq<Byte>, b: seq<Byte>): int {
    if a == [] && b == [] then 0
    else if a == [] then -1
    else if b == [] then 1
    else if a[0] != b[0] then a[0] - b[0]
    else Compare(a[1..], b[1..])
  }

  lemma {:induction false} PrefixAtMost(a: seq<Byte>, n: nat)
    requires n <= |a|
    ensures Compare(a[..n], a) <= 0
    ensures n < |a| ==> Compare(a[..n], a) < 0
  {
    if n > 0 {
      assert a[..n][1..] == a[1..][..n - 1];
      PrefixAtMost(a[1..], n - 1);
    }
  }

  /** Of bytes of one length, the greater number is the greater string, whatever follows the smaller. */
  lemma {:induction false} GreaterNumber(a: seq<Byte>, b: seq<Byte>, more: seq<Byte>)
    requires |a| == |b| && Number(a) < Number(b)
    ensures Compare(a + more, b) < 0
  {
    hide Number, Pow256;
    if a != [] {
      FirstByte(a);
      FirstByte(b);
      assert (a + more)[0] == a[0];
      if a[0] > b[0] {
        MulAtMost(b[0] + 1, a[0], Pow256(|a| - 1));
      } else if a[0] == b[0] {
        assert (a + more)[1..] == a[1..] + more;
        GreaterNumber(a[1..], b[1..], more);
      }
    }
  }

  // ----- adding one -----

  predicate AllOnes(bs: seq<Byte>) {
    forall i :: 0 <= i < |bs| ==> bs[i] == 255
  }

  /** After the bytes from `j` on have been increased by one, `carry` still to be added to byte `j - 1`. */
  ghost predicate Carrying(before: seq<Byte>, bs: seq<Byte>, j: nat, carry: nat) {
    && |bs| == |before| && j <= |bs| && carry <= 1
    && bs[..j] == before[..j]
    && Number(bs) + carry * Pow256(|bs| - j) == Number(before) + 1
    && (carry == 1 ==> forall i :: j <= i < |bs| ==> before[i] == 255)
  }

  lemma CarryStep(before: seq<Byte>, bs: seq<Byte>, j: nat)
    requires Carrying(before, bs, j, 1) && j > 0
    ensures var b: Byte := if bs[j - 1] == 255 then 0 else bs[j - 1] + 1;
      Carrying(before, bs[j - 1 := b], j - 1, if b != 0 then 0 else 1)
  {
    hide Number;
    var b: Byte := if bs[j - 1] == 255 then 0 else bs[j - 1] + 1;
    NumberUpdate(bs, j - 1, b);
    assert Pow256(|bs| - j + 1) == 256 * Pow256(|bs| - j);
  }

  /** Adds one to the number, in place; `carry` is 1 when there is no room for it. */
  method Increment(value: array<Byte>, length: nat) returns (carry: nat)
    requires length <= value.Length
    modifies value
    ensures carry == if AllOnes(old(value[..length])) then 1 else 0
    ensures Number(value[..length]) + carry * Pow256(length) == Number(old(value[..length])) + 1
    ensures value[length..] == old(value[length..])
  {
    hide Number, Pow256;
    ghost var before := value[..length];
    assert Carrying(before, value[..length], length, 1) by { NothingAdded(before); }
    carry := 1;
    var j := length;
    while j > 0 && carry > 0
      invariant 0 <= j <= length && Carrying(before, value[..length], j, carry)
      invariant value[length..] == old(value[length..])
    {
      CarryStep(before, value[..length], j);
      ghost var bs := value[..length];
      j := j - 1;
      value[j] := if value[j] == 255 then 0 else value[j] + 1;
      assert value[..length] == bs[j := value[j]];
      if value[j] != 0 {
        carry := 0;
      }
    }
    CarryDone(before, value[..length], j, carry);
  }

  lemma NothingAdded(bs: seq<Byte>)
    ensures Carrying(bs, bs, |bs|, 1)
  {
  }

  lemma CarryDone(before: seq<Byte>, bs: seq<Byte>, j: nat, carry: nat)
    requires Carrying(before, bs, j, carry) && (j == 0 || carry == 0)
    ensures carry == if AllOnes(before) then 1 else 0
    ensures Number(bs) + carry * Pow256(|bs|) == Number(before) + 1
  {
    hide Pow256, Number;
    if AllOnes(before) {
      AllOnesIsLargest(before);
    }
  }

  lemma {:induction false} AllOnesIsLargest(bs: seq<Byte>)
    requires AllOnes(bs)
    ensures Number(bs) + 1 == Pow256(|bs|)
  {
    if bs != [] {
      AllOnesIsLargest(bs[..|bs| - 1]);
    }
  }
}

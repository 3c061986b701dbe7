/** Bounds of byte strings that are cut to a size limit. */
module TruncatedBounds {
  import opened BigEndian

  function TruncateLargeMin(value: seq<Byte>, sizeLimit: nat): (bound: seq<Byte>)
    ensures Compare(bound, value) <= 0
    ensures bound <= value && |bound| == if |value| < sizeLimit then |value| else sizeLimit
  {
    PrefixAtMost(value, if |value| > sizeLimit then sizeLimit else |value|);
    assert value[..|value|] == value;
    if |value| > sizeLimit then value[..sizeLimit] else value
  }

  /** Increments a byte string in place; if it cannot be, it is left as large as its length allows. */
  method IncrementByteArrayInplace(value: array<Byte>, length: nat)
    requires length <= value.Length
    modifies value
    ensures AllOnes(old(value[..length])) ==> value[..length] == old(value[..length])
    ensures !AllOnes(old(value[..length])) ==> Number(value[..length]) == Number(old(value[..length])) + 1
    ensures value[length..] == old(value[length..])
  {
    var carry := Increment(value, length);
    if carry == 0 {
      return;
    }
    for i := 0 to length
      invariant forall k :: 0 <= k < i ==> value[k] == 255
      invariant value[length..] == old(value[length..])
    {
      value[i] := 255;
    }
  }

  /**
   * Cuts a largest value to the size limit and increments what is kept, in place. The result exceeds the value exactly
   * when it was cut and some byte kept can still grow.
   */
  method TruncateLargeMax(value: array<Byte>, sizeLimit: nat) returns (length: nat)
    modifies value
    ensures length == if value.Length > sizeLimit then sizeLimit else value.Length
    ensures value.Length <= sizeLimit ==> value[..] == old(value[..])
    ensures value.Length > sizeLimit ==>
      (Compare(old(value[..]), value[..length]) < 0 <==> !AllOnes(old(value[..sizeLimit])))
    ensures value.Length > sizeLimit && AllOnes(old(value[..sizeLimit])) ==>
      value[..length] == old(value[..sizeLimit]) && Compare(value[..length], old(value[..])) < 0
    ensures value.Length > sizeLimit && !AllOnes(old(value[..sizeLimit])) ==>
      Number(value[..length]) == Number(old(value[..sizeLimit])) + 1
    ensures value[length..] == old(value[..])[length..]
  {
    length := value.Length;
    if length > sizeLimit {
      ghost var before := value[..];
      length := sizeLimit;
      IncrementByteArrayInplace(value, length);
      assert before[..sizeLimit] + before[sizeLimit..] == before;
      if AllOnes(before[..sizeLimit]) {
        PrefixAtMost(before, sizeLimit);
        Opposite(before[..sizeLimit], before);
      } else {
        GreaterNumber(before[..sizeLimit], value[..length], before[sizeLimit..]);
      }
    }
  }

  lemma {:induction false} Opposite(a: seq<Byte>, b: seq<Byte>)
    ensures Compare(a, b) < 0 <==> Compare(b, a) > 0
  {
    if a != [] && b != [] {
      Opposite(a[1..], b[1..]);
    }
  }
}

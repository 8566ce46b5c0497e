/** P4Runtime's representation of numbers: big-endian bytes, padded to the width. */
module Bytestrings {
  import opened Wrappers
  import opened BigInt

  type Byte = b: nat | b < 256
  type Bytes = seq<Byte>

  function BytesFor(width: nat): nat {
    (width + 7) / 8
  }

  function BigEndian(v: nat, n: nat): (r: Bytes)
    ensures |r| == n
  {
    if n == 0 then [] else BigEndian(v / 256, n - 1) + [v % 256]
  }

  /** What a receiver reads. */
  function Decode(bytes: Bytes): nat {
    if bytes == [] then 0 else 256 * Decode(bytes[..|bytes| - 1]) + bytes[|bytes| - 1]
  }

  /** `stringReprConstant`; negative values are an error. */
  function StringRepr(value: int, width: nat): Option<Bytes> {
    if value < 0 then None else Some(BigEndian(value, BytesFor(width)))
  }

  lemma {:induction false} DecodeInvertsBigEndian(v: nat, n: nat)
    requires v < Pow2(8 * n)
    ensures Decode(BigEndian(v, n)) == v
  {
    if n > 0 {
      Pow2Sum(8, 8 * (n - 1));
      assert Pow2(8) == 256;
      DecodeInvertsBigEndian(v / 256, n - 1);
      assert BigEndian(v, n)[..n - 1] == BigEndian(v / 256, n - 1);
    }
  }

  /** Bytes of full length are the encoding of what they decode to. */
  lemma {:induction false} BigEndianInvertsDecode(bytes: Bytes)
    ensures BigEndian(Decode(bytes), |bytes|) == bytes
  {
    if bytes != [] {
      BigEndianInvertsDecode(bytes[..|bytes| - 1]);
      assert bytes == bytes[..|bytes| - 1] + [bytes[|bytes| - 1]];
    }
  }

  /** Section 8.3 of the P4Runtime Specification: a value that fits its width can be read back. */
  lemma StringReprRoundTrip(value: nat, width: nat)
    requires value < Pow2(width)
    ensures StringRepr(value, width).Some? && Decode(StringRepr(value, width).value) == value
  {
    Pow2Grows(width, 8 * BytesFor(width));
    DecodeInvertsBigEndian(value, BytesFor(width));
  }

  lemma DivDiv(v: nat, a: nat, b: nat)
    requires a > 0 && b > 0
    ensures a * b > 0 && v / a / b == v / (a * b)
  {
    var q, low := v / a / b, v / a % b;
    assert v == (q * b + low) * a + v % a;
    assert (q * b + low) * a == q * (a * b) + low * a;
    TimesMonotone(low, b - 1, a);
    assert (b - 1) * a == a * b - a;
    QuotientIs(v, a * b, q, low * a + v % a);
  }

  lemma {:induction false} BigEndianAt(v: nat, n: nat, i: nat)
    requires i < n
    ensures BigEndian(v, n)[i] == v / Pow2(8 * (n - 1 - i)) % 256
  {
    if i < n - 1 {
      BigEndianAt(v / 256, n - 1, i);
      assert Pow2(8) == 256;
      Pow2Sum(8, 8 * (n - 2 - i));
      DivDiv(v, 256, Pow2(8 * (n - 2 - i)));
    } else {
      assert v / 1 == v;
    }
  }

  method StringReprConstant(value: int, width: nat) returns (r: Option<Bytes>)
    requires value < 0 || (0 < width && value < Pow2(width))
    ensures r == StringRepr(value, width)
    ensures r.Some? ==> width <= 8 * |r.value| < width + 8 && Decode(r.value) == value
  {
    if value >= 0 { StringReprRoundTrip(value, width); }
    if value < 0 { return None; }
    var log := FloorLog2(value);
    assert log + 1 <= width by {
      if log >= width { Pow2Grows(width, log); }
    }
    var bytes := BytesFor(width);
    var data := new Byte[bytes];
    for i := 0 to data.Length
      invariant bytes == data.Length - i
      invariant forall j | 0 <= j < i :: data[j] == BigEndian(value, data.Length)[j]
    {
      bytes := bytes - 1;
      BigEndianAt(value, data.Length, i);
      data[i] := value / Pow2(8 * bytes) % 256;
    }
    assert data[..] == BigEndian(value, data.Length);
    r := Some(data[..]);
  }
}

/** Script numbers, src/script/ScriptNum.hpp: sign and magnitude in as few bytes as possible. */
module ScriptNum {
  import opened ByteTypes
  import opened Power

  const INT64_MAX := 0x7fff_ffff_ffff_ffff
  const INT64_MIN := -0x8000_0000_0000_0000

  type int64 = v: int | INT64_MIN <= v <= INT64_MAX

  datatype Result<T> = Ok(value: T) | Thrown(what: string)

  // ---------------------------------------------------------------- the encoding

  /** Little-endian bytes of a magnitude; zero has none. */
  function Bytes(a: nat): (r: seq<octet>) {
    if a == 0 then [] else [a % 256] + Bytes(a / 256)
  }

  function Magnitude(b: seq<octet>): (r: nat) {
    if b == [] then 0 else b[0] + 256 * Magnitude(b[1..])
  }

  /** The sign goes into the top bit of the last byte, or into a byte of its own when that bit is taken. */
  function Encode(v: int): (r: seq<octet>) {
    if v == 0 then []
    else
      var b := Bytes(if v < 0 then -v else v);
      BytesNonEmpty(if v < 0 then -v else v);
      var last := b[|b| - 1];
      if last >= 128 then b + [if v < 0 then 128 else 0]
      else if v < 0 then b[..|b| - 1] + [last + 128]
      else b
  }

  /** b with the sign bit of its last byte cleared. */
  function Unsigned(b: seq<octet>): (r: seq<octet>)
    requires b != []
  {
    b[..|b| - 1] + [b[|b| - 1] % 128]
  }

  function Decode(b: seq<octet>): (r: int) {
    if b == [] then 0
    else if b[|b| - 1] >= 128 then 0 - Magnitude(Unsigned(b))
    else Magnitude(Unsigned(b))
  }

  /** The last byte holds more than the sign, unless the byte before it needs its top bit. */
  predicate Minimal(b: seq<octet>) {
    b == [] || b[|b| - 1] % 128 != 0 || (|b| > 1 && b[|b| - 2] >= 128)
  }

  lemma {:induction false} BytesNonEmpty(a: nat)
    requires a > 0
    ensures var b := Bytes(a); b != [] && b[|b| - 1] != 0
  {
    if a >= 256 {
      BytesNonEmpty(a / 256);
    } else {
      assert Bytes(a / 256) == [];
    }
  }

  lemma {:induction false} MagnitudeOfBytes(a: nat)
    ensures Magnitude(Bytes(a)) == a
  {
    if a > 0 {
      assert Bytes(a)[1..] == Bytes(a / 256);
      MagnitudeOfBytes(a / 256);
    }
  }

  lemma {:induction false} BytesOfMagnitude(b: seq<octet>)
    requires b != [] ==> b[|b| - 1] != 0
    ensures Bytes(Magnitude(b)) == b
    ensures b != [] ==> Magnitude(b) > 0
  {
    if b != [] {
      BytesOfMagnitude(b[1..]);
      var m := Magnitude(b[1..]);
      assert b[1..] == [] ==> m == 0;
      assert b == [b[0]] + b[1..];
      assert (b[0] + 256 * m) % 256 == b[0] && (b[0] + 256 * m) / 256 == m;
    }
  }

  lemma MagnitudeStep(b: seq<octet>)
    ensures Magnitude(b) == if b == [] then 0 else b[0] + 256 * Magnitude(b[1..])
  {
  }

  lemma {:induction false} MagnitudeAppend(b: seq<octet>, x: octet)
    ensures Magnitude(b + [x]) == Magnitude(b) + x * Pow(256, |b|)
  {
    if b == [] {
      assert b + [x] == [x];
      assert [x][1..] == [];
    } else {
      assert (b + [x])[1..] == b[1..] + [x];
      MagnitudeAppend(b[1..], x);
      Scale(x, Pow(256, |b| - 1));
    }
  }

  lemma Scale(x: nat, p: nat)
    ensures 256 * (x * p) == x * (256 * p)
  {
  }

  /** set_vch inverts serialize. */
  lemma DecodeEncode(v: int)
    ensures Decode(Encode(v)) == v
  {
    if v == 0 {
      assert Encode(v) == [];
    } else {
      hide Encode, Decode, Bytes, Magnitude;
      var a := if v < 0 then -v else v;
      BytesNonEmpty(a);
      MagnitudeOfBytes(a);
      SignPlaced(v, a);
      var b := Bytes(a);
      if b[|b| - 1] >= 128 {
        SignByteRead(b, v < 0);
      } else {
        SignBitRead(b, v < 0);
      }
    }
  }

  lemma SignByteRead(b: seq<octet>, neg: bool)
    ensures Decode(b + [if neg then 128 else 0]) == if neg then 0 - Magnitude(b) else Magnitude(b)
  {
    hide Magnitude;
    assert Unsigned(b + [if neg then 128 else 0]) == b + [0];
    MagnitudeAppend(b, 0);
  }

  lemma SignBitRead(b: seq<octet>, neg: bool)
    requires b != [] && b[|b| - 1] < 128
    ensures Decode(if neg then b[|b| - 1 := b[|b| - 1] + 128] else b) == if neg then 0 - Magnitude(b) else Magnitude(b)
  {
    hide Magnitude, Unsigned;
    var read := if neg then b[|b| - 1 := b[|b| - 1] + 128] else b;
    UnsignedIs(read);
    assert Unsigned(read) == b;
  }

  lemma EncodeNotZero(v: int)
    requires v != 0
    ensures Magnitude(Encode(v)) != 0
  {
    DecodeEncode(v);
    var b := Encode(v);
    if b != [] {
      SignBit(b);
    }
  }

  /** serialize always passes the minimality test. */
  lemma EncodeMinimal(v: int)
    ensures Minimal(Encode(v))
  {
    if v != 0 {
      BytesNonEmpty(if v < 0 then -v else v);
    }
  }

  /** Every vector that passes the test is the encoding of the number it stands for. */
  lemma EncodeDecode(b: seq<octet>)
    requires Minimal(b)
    ensures Encode(Decode(b)) == b
  {
    hide Encode, Decode;
    if b == [] {
      NothingEncoded();
    } else if b[|b| - 1] % 128 != 0 {
      SignBitInLast(b);
    } else {
      assert b == b[..|b| - 1] + [b[|b| - 1]];
      SignByte(b[..|b| - 1], b[|b| - 1]);
    }
  }

  lemma NothingEncoded()
    ensures Encode(Decode([])) == []
  {
  }

  /** A last byte that holds some of the magnitude. */
  lemma SignBitInLast(b: seq<octet>)
    requires b != [] && b[|b| - 1] % 128 != 0
    ensures Encode(Decode(b)) == b
  {
    hide Bytes, Magnitude;
    BytesOfMagnitude(Unsigned(b));
  }

  /** A last byte that holds nothing but the sign. */
  lemma SignByte(b: seq<octet>, sign: octet)
    requires b != [] && b[|b| - 1] >= 128 && sign % 128 == 0
    ensures Encode(Decode(b + [sign])) == b + [sign]
  {
    hide Bytes, Magnitude;
    assert Unsigned(b + [sign]) == b + [0];
    MagnitudeAppend(b, 0);
    BytesOfMagnitude(b);
    assert Bytes(Magnitude(b + [0])) == b;
  }

  /** So the test is exact: it accepts the encodings and nothing else. */
  lemma MinimalIffEncoding(b: seq<octet>)
    ensures Minimal(b) <==> exists v :: Encode(v) == b
  {
    if Minimal(b) {
      EncodeDecode(b);
    }
    if v :| Encode(v) == b {
      EncodeMinimal(v);
    }
  }

  // ---------------------------------------------------------------- how long the encoding is

  lemma {:induction false} MagnitudeBounds(b: seq<octet>)
    requires b != []
    ensures var n, last := |b|, b[|b| - 1];
      last * Pow(256, n - 1) <= Magnitude(b) < (last + 1) * Pow(256, n - 1)
  {
    var n, last: int := |b|, b[|b| - 1];
    if n == 1 {
      assert b[1..] == [];
    } else {
      MagnitudeBounds(b[1..]);
      var p, m := Pow(256, n - 2), Magnitude(b[1..]);
      Scale(last, p);
      Scale(last + 1, p);
      assert Pow(256, n - 1) == 256 * p;
    }
  }

  /** The bytes of a magnitude and what its last one says about it. */
  lemma Leading(a: nat) returns (k: nat, p: nat)
    requires a > 0
    ensures k == |Bytes(a)| && k > 0 && p == Pow(256, k - 1) && p > 0
    ensures if Bytes(a)[k - 1] >= 128 then 128 * p <= a < 256 * p else p <= a < 128 * p
  {
    var b := Bytes(a);
    BytesNonEmpty(a);
    MagnitudeOfBytes(a);
    MagnitudeBounds(b);
    k := |b|;
    p := Pow(256, k - 1);
    PowMonoExp(256, 0, k - 1);
    var last: int := b[k - 1];
    if last >= 128 {
      MulMono(128, last, p, p);
      MulMono(last + 1, 256, p, p);
    } else {
      MulMono(last + 1, 128, p, p);
      MulMono(1, last, p, p);
    }
  }

  lemma EncodedLength(v: int)
    requires v != 0
    ensures var b := Bytes(if v < 0 then -v else v);
      b != [] && |Encode(v)| == if b[|b| - 1] >= 128 then |b| + 1 else |b|
  {
    BytesNonEmpty(if v < 0 then -v else v);
  }

  /** n bytes hold exactly the numbers of magnitude below 2^(8n-1). */
  lemma EncodedSize(v: int, n: nat)
    requires n > 0
    ensures |Encode(v)| <= n <==> -128 * Pow(256, n - 1) < v < 128 * Pow(256, n - 1)
  {
    hide Encode, Pow, Bytes;
    PowMonoExp(256, 0, n - 1);
    if v == 0 {
      assert Encode(v) == [] by { EncodeZero(); }
    } else {
      var a := if v < 0 then -v else v;
      EncodedLength(v);
      var k, p := Leading(a);
      PowStep(k - 1);
      PowStep(n - 1);
      if Bytes(a)[k - 1] >= 128 {
        if k < n { PowMonoExp(256, k, n - 1); } else { PowMonoExp(256, n - 1, k - 1); }
      } else {
        if k <= n { PowMonoExp(256, k - 1, n - 1); } else { PowMonoExp(256, n, k - 1); }
      }
    }
  }

  lemma EncodeZero()
    ensures Encode(0) == []
  {
  }

  lemma PowStep(n: nat)
    ensures Pow(256, n + 1) == 256 * Pow(256, n)
  {
  }

  /** Four bytes: exactly -2^31 + 1 to 2^31 - 1. */
  lemma OperandRange(v: int)
    ensures |Encode(v)| <= 4 <==> -0x8000_0000 < v < 0x8000_0000
  {
    EncodedSize(v, 4);
    assert Pow(256, 3) == 0x100_0000 by {
      assert Pow(256, 1) == 256 && Pow(256, 2) == 0x1_0000;
    }
  }

  /** Eight bytes: exactly the numbers below 2^63 in magnitude. */
  lemma ResultRange(v: int)
    ensures |Encode(v)| <= 8 <==> INT64_MIN < v <= INT64_MAX
  {
    EncodedSize(v, 8);
    PowAdd(256, 4, 3);
    assert Pow(256, 4) == 0x1_0000_0000 && Pow(256, 3) == 0x100_0000 by {
      assert Pow(256, 1) == 256 && Pow(256, 2) == 0x1_0000;
    }
  }

  // ---------------------------------------------------------------- the code

  /** uint64_t absvalue shifted out byte by byte; a value of -2^63 cannot be negated. */
  method Serialize(value: int64) returns (result: seq<octet>)
    requires value != INT64_MIN
    ensures result == Encode(value)
  {
    hide Encode, Bytes;
    result := [];
    if value == 0 {
      EncodeZero();
      return;
    }
    var neg := value < 0;
    var absvalue := if neg then -value else value;
    result := ShiftOut(absvalue);
    BytesNonEmpty(absvalue);
    SignPlaced(value, absvalue);
    if result[|result| - 1] >= 128 {
      result := result + [if neg then 128 else 0];
    } else if neg {
      result := result[|result| - 1 := result[|result| - 1] + 128];
    }
  }

  /** while (absvalue) push_back(absvalue & 0xff), absvalue >>= 8. */
  method ShiftOut(a: nat) returns (result: seq<octet>)
    ensures result == Bytes(a)
  {
    hide Bytes;
    result := [];
    var absvalue := a;
    while absvalue != 0
      invariant result + Bytes(absvalue) == Bytes(a)
      decreases absvalue
    {
      BytesStep(absvalue);
      result := result + [absvalue % 256];
      absvalue := absvalue / 256;
    }
    BytesStep(0);
  }

  lemma BytesStep(a: nat)
    ensures Bytes(a) == if a == 0 then [] else [a % 256] + Bytes(a / 256)
  {
  }

  lemma SignPlaced(v: int, a: nat)
    requires v != 0 && a == if v < 0 then -v else v
    requires Bytes(a) != []
    ensures var b := Bytes(a); var last := b[|b| - 1];
      Encode(v) == if last >= 128 then b + [if v < 0 then 128 else 0] else if v < 0 then b[|b| - 1 := last + 128] else b
  {
    hide Bytes;
  }

  /** result |= vch[i] << 8 * i; then the bit that was the sign is taken out again. */
  method SetVch(vch: seq<octet>) returns (r: int64)
    requires |vch| <= 8
    ensures r == Decode(vch)
  {
    if vch == [] {
      return 0;
    }
    hide Encode, Pow;
    var result: nat, i := 0, 0;
    while i != |vch|
      invariant 0 <= i <= |vch|
      invariant result == Magnitude(vch[..i])
    {
      MagnitudeAppend(vch[..i], vch[i]);
      assert vch[..i] + [vch[i]] == vch[..i + 1];
      result := result + vch[i] * Pow(256, i);
      i := i + 1;
    }
    assert vch[..i] == vch;
    SignBit(vch);
    DecodeRange(vch);
    if vch[|vch| - 1] >= 128 {
      return -(result - 128 * Pow(256, |vch| - 1));
    }
    return result;
  }

  lemma SignBit(b: seq<octet>)
    requires b != []
    ensures Magnitude(Unsigned(b)) == if b[|b| - 1] >= 128 then Magnitude(b) - 128 * Pow(256, |b| - 1) else Magnitude(b)
  {
    hide Pow, Magnitude, Unsigned;
    var u, last := b[..|b| - 1], b[|b| - 1];
    assert b == u + [last];
    UnsignedIs(b);
    if last >= 128 {
      HighBit(u, last);
    }
  }

  lemma UnsignedIs(b: seq<octet>)
    requires b != []
    ensures Unsigned(b) == if b[|b| - 1] >= 128 then b[..|b| - 1] + [b[|b| - 1] - 128] else b
  {
  }

  lemma HighBit(u: seq<octet>, last: octet)
    requires last >= 128
    ensures Magnitude(u + [last - 128]) == Magnitude(u + [last]) - 128 * Pow(256, |u|)
  {
    hide Pow, Magnitude;
    MagnitudeAppend(u, last);
    MagnitudeAppend(u, last - 128);
    Subtract(last, Pow(256, |u|));
  }

  lemma Subtract(x: nat, p: nat)
    requires x >= 128
    ensures (x - 128) * p == x * p - 128 * p
  {
  }

  lemma DecodeRange(b: seq<octet>)
    requires b != [] && |b| <= 8
    ensures -INT64_MAX <= Decode(b) <= INT64_MAX
  {
    hide Decode;
    DecodeBound(b, 8);
    PowAdd(256, 4, 3);
    assert Pow(256, 4) == 0x1_0000_0000 && Pow(256, 3) == 0x100_0000 by {
      assert Pow(256, 1) == 256 && Pow(256, 2) == 0x1_0000;
    }
  }

  /** What n bytes hold is below 2^(8n-1) in magnitude, minimal or not. */
  lemma DecodeBound(b: seq<octet>, n: nat)
    requires |b| <= n && n > 0
    ensures -128 * Pow(256, n - 1) < Decode(b) < 128 * Pow(256, n - 1)
  {
    hide Pow;
    PowMonoExp(256, 0, n - 1);
    assert Pow(256, 0) == 1 by { PowZero(); }
    if b != [] {
      var u, p := Unsigned(b), Pow(256, |b| - 1);
      MagnitudeBounds(u);
      MulMono(u[|u| - 1] as int + 1, 128, p, p);
      PowMonoExp(256, |b| - 1, n - 1);
    }
  }

  lemma FourBytes(b: seq<octet>)
    requires |b| <= 4
    ensures -0x8000_0000 < Decode(b) < 0x8000_0000
  {
    hide Decode;
    DecodeBound(b, 4);
    assert Pow(256, 3) == 0x100_0000 by {
      assert Pow(256, 1) == 256 && Pow(256, 2) == 0x1_0000;
    }
  }

  lemma PowZero()
    ensures Pow(256, 0) == 1
  {
  }

  /** The constructor from bytes: too long, or asked to be minimal and not, is thrown out. */
  method FromBytes(vch: seq<octet>, requireMinimal: bool, maxSize: nat) returns (r: Result<int64>)
    requires |vch| <= maxSize && (requireMinimal ==> Minimal(vch)) ==> |vch| <= 8
    ensures r.Ok? <==> |vch| <= maxSize && (requireMinimal ==> Minimal(vch))
    ensures r.Ok? ==> r.value == Decode(vch)
  {
    if |vch| > maxSize {
      return Thrown("script number overflow");
    }
    if requireMinimal && vch != [] {
      if vch[|vch| - 1] % 128 == 0 {
        if |vch| <= 1 || vch[|vch| - 2] < 128 {
          return Thrown("non-minimally encoded script number");
        }
      }
    }
    var value := SetVch(vch);
    return Ok(value);
  }

  class ScriptNum {
    var value: int64

    constructor (n: int64)
      ensures value == n
    {
      value := n;
    }

    /** operator+=: exactly the sums that fit 64 bits; otherwise nothing changes. */
    method AddAssign(rhs: int64) returns (ok: bool)
      modifies this
      ensures ok <==> INT64_MIN <= old(value) + rhs <= INT64_MAX
      ensures value == if ok then old(value) + rhs else old(value)
    {
      if rhs > 0 && value > INT64_MAX - rhs {
        return false;
      }
      if rhs < 0 && value < INT64_MIN - rhs {
        return false;
      }
      value := value + rhs;
      return true;
    }

    method SubAssign(rhs: int64) returns (ok: bool)
      modifies this
      ensures ok <==> INT64_MIN <= old(value) - rhs <= INT64_MAX
      ensures value == if ok then old(value) - rhs else old(value)
    {
      if rhs > 0 && value < INT64_MIN + rhs {
        return false;
      }
      if rhs < 0 && value > INT64_MAX + rhs {
        return false;
      }
      value := value - rhs;
      return true;
    }
  }
}

/** The Base58 codec: in-place conversion between base 256 and base 58. */
module Base58 {
  import opened ByteTypes
  import opened Wrappers
  import opened Power
  import opened Radix

  const NUL := '\0'

  /** The alphabet table, run by run: every alphanumeric character except 0, I, O and l. */
  function Alphabet(d: nat): (c: char)
    requires d < 58
    ensures c != NUL && !IsSpace(c) && Map(c) == d && (c == '1' <==> d == 0)
  {
    if d < 9 then '1' + d as char
    else if d < 17 then 'A' + (d - 9) as char
    else if d < 22 then 'J' + (d - 17) as char
    else if d < 33 then 'P' + (d - 22) as char
    else if d < 44 then 'a' + (d - 33) as char
    else 'm' + (d - 44) as char
  }

  /** The 256-entry digit table, run by run; -1 marks a character outside the alphabet. */
  function Map(c: char): (d: int)
    ensures -1 <= d < 58
  {
    if '1' <= c <= '9' then c as int - '1' as int
    else if 'A' <= c <= 'H' then c as int - 'A' as int + 9
    else if 'J' <= c <= 'N' then c as int - 'J' as int + 17
    else if 'P' <= c <= 'Z' then c as int - 'P' as int + 22
    else if 'a' <= c <= 'k' then c as int - 'a' as int + 33
    else if 'm' <= c <= 'z' then c as int - 'm' as int + 44
    else -1
  }

  lemma AlphabetInvertsMap(c: char)
    requires Map(c) != -1
    ensures Alphabet(Map(c)) == c
  {
  }

  /** The digits count up with the character codes, over exactly the letters and digits of ASCII
      other than 0, I, O and l: there is only one such table. */
  lemma AlphabetCountsUp(d: nat, e: nat)
    requires d < e < 58
    ensures Alphabet(d) < Alphabet(e)
  {
  }

  lemma InMap(c: char)
    ensures Map(c) != -1 <==>
      ('0' <= c <= '9' || 'A' <= c <= 'Z' || 'a' <= c <= 'z') && c !in {'0', 'I', 'O', 'l'}
  {
  }

  /** Written out, it is the table of the code. */
  lemma AlphabetIs(d: nat)
    requires d < 58
    ensures Alphabet(d) == ("123456789" + "ABCDEFGH" + "JKLMN" + "PQRSTUVWXYZ" + "abcdefghijk" + "mnopqrstuvwxyz")[d]
  {
  }

  lemma OneIsZero()
    ensures forall c :: (Map(c) == 0 <==> c == '1')
    ensures !IsSpace('1') && !IsSpace(NUL)
  {
  }

  /** isspace in the C locale. */
  predicate IsSpace(c: char) {
    c == ' ' || 9 <= c as int <= 13
  }

  // ---------------------------------------------------------------- specification

  function Text(ds: seq<nat>): (s: string)
    requires forall i | 0 <= i < |ds| :: ds[i] < 58
    ensures |s| == |ds| && forall i | 0 <= i < |s| :: s[i] == Alphabet(ds[i])
  {
    seq(|ds|, i requires 0 <= i < |ds| => Alphabet(ds[i]))
  }

  predicate InAlphabet(s: string) {
    forall i | 0 <= i < |s| :: Map(s[i]) != -1
  }

  predicate AllSpaces(s: string) {
    forall i | 0 <= i < |s| :: IsSpace(s[i])
  }

  function Values(s: string): (ds: seq<nat>)
    requires InAlphabet(s)
    ensures |ds| == |s| && forall i | 0 <= i < |s| :: ds[i] == Map(s[i])
  {
    seq(|s|, i requires 0 <= i < |s| => Map(s[i]))
  }

  ghost function Encoded(data: seq<octet>): (r: string) {
    Text(Rebase(data, 256, 58))
  }

  /** The characters before the first NUL. */
  function CString(s: string): (t: string)
    ensures |t| <= |s| && t == s[..|t|] && (|t| < |s| ==> s[|t|] == NUL)
    ensures forall i | 0 <= i < |t| :: t[i] != NUL
  {
    if s == [] || s[0] == NUL then [] else [s[0]] + CString(s[1..])
  }

  function SpacePrefix(s: string): (n: nat)
    ensures n <= |s| && (n < |s| ==> !IsSpace(s[n])) && forall i | 0 <= i < n :: IsSpace(s[i])
  {
    if s == [] || !IsSpace(s[0]) then 0 else 1 + SpacePrefix(s[1..])
  }

  function WordPrefix(s: string): (n: nat)
    ensures n <= |s| && (n < |s| ==> IsSpace(s[n])) && forall i | 0 <= i < n :: !IsSpace(s[i])
  {
    if s == [] || IsSpace(s[0]) then 0 else 1 + WordPrefix(s[1..])
  }

  /** A text decodes when, read up to its first NUL, it is one word over the alphabet with
      nothing but spaces around it. */
  ghost function Decoded(str: string): (r: Option<seq<nat>>) {
    var c := CString(str);
    var p := SpacePrefix(c);
    var q := p + WordPrefix(c[p..]);
    if InAlphabet(c[p..q]) && AllSpaces(c[q..])
    then Some(Rebase(Values(c[p..q]), 58, 256))
    else None
  }

  // ---------------------------------------------------------------- buffer sizes

  /** Digits allocated for n bytes: 138/100 stands for the ratio of the logarithms of 256 and 58. */
  function EncodeSize(n: nat): (r: nat) {
    n * 136566 / 100000 + 1
  }

  /** Bytes allocated for n digits: 733/1000 stands for the inverse ratio. */
  function DecodeSize(n: nat): (r: nat) {
    n * 73322 / 100000 + 1
  }

  /** A number of n bytes fits in the digits EncodeBase58 allocates. */
  lemma EncodeBufferFits(n: nat)
    ensures Pow(256, n) <= Pow(58, EncodeSize(n))
  {
    var size := EncodeSize(n);
    EncodeRatio();
    Fits(256, 629, 58, 859, n, size, 859 * n, 629 * size);
  }

  /** A number of n base-58 digits fits in the bytes DecodeBase58 allocates. */
  lemma DecodeBufferFits(n: nat)
    ensures Pow(58, n) <= Pow(256, DecodeSize(n))
  {
    var size := DecodeSize(n);
    DecodeRatio();
    Fits(58, 71, 256, 52, n, size, 52 * n, 71 * size);
  }

  /** The value of one more digit still fits in a buffer that holds every value of that length. */
  lemma OneMoreDigit(s: seq<nat>, k: nat, mul: nat, base: nat, size: nat)
    requires mul > 0 && k < |s| && DigitsBelow(s, mul)
    requires Pow(mul, |s|) <= Pow(base, size)
    ensures Val(s[..k + 1], mul) == mul * Val(s[..k], mul) + s[k] < Pow(base, size)
  {
    assert s[..k + 1] == s[..k] + [s[k]];
    ValSnoc(s[..k], s[k], mul);
    Commute(mul, Val(s[..k], mul));
    ValBound(s[..k + 1], mul);
    PowMonoExp(mul, k + 1, |s|);
  }

  lemma ZeroBuffer(b: seq<nat>, base: nat)
    requires forall k | 0 <= k < |b| :: b[k] == 0
    ensures Val(b, base) == 0
  {
    ValLeadingZeros(b, |b|, base);
  }

  /** What is left of a buffer once its leading zeroes are skipped are the digits of its value. */
  lemma Significant(b: seq<nat>, it: nat, base: nat)
    requires base > 1 && DigitsBelow(b, base)
    requires it <= |b| && (it < |b| ==> b[it] != 0) && forall k | 0 <= k < it :: b[k] == 0
    ensures Digits(Val(b, base), base) == b[it..]
  {
    ValLeadingZeros(b, it, base);
    DigitsVal(b[it..], base);
  }

  // ---------------------------------------------------------------- the carry loop

  /** The state of a carry loop that has handled the last i digits of was. */
  ghost predicate Carried(b: seq<nat>, was: seq<nat>, i: nat, carry: nat, base: nat, mul: nat, add: nat) {
    && |b| == |was| && i <= |b|
    && b[..|b| - i] == was[..|b| - i]
    && Val(b[|b| - i..], base) + carry * Pow(base, i) == mul * Val(was[|b| - i..], base) + add
  }

  lemma CarryStart(b: seq<nat>, base: nat, mul: nat, add: nat)
    ensures Carried(b, b, 0, add, base, mul, add)
  {
    PowOne(base);
    assert b[|b|..] == [];
  }

  lemma CarryStep(b: seq<nat>, was: seq<nat>, i: nat, carry: nat, base: nat, mul: nat, add: nat, sum: nat)
    requires Carried(b, was, i, carry, base, mul, add) && i < |b| && base > 0
    requires sum == carry + mul * b[|b| - 1 - i]
    ensures Carried(b[|b| - 1 - i := sum % base], was, i + 1, sum / base, base, mul, add)
  {
    var p := |b| - 1 - i;
    var d := was[p];
    assert b[..|b| - i][p] == b[p] && was[..|b| - i][p] == d;
    var b' := b[p := sum % base];
    assert b'[p..] == [sum % base] + b[p + 1..];
    assert was[p..] == [d] + was[p + 1..];
    ValFront(sum % base, b[p + 1..], base);
    ValFront(d, was[p + 1..], base);
    assert b'[..p] == was[..p] by {
      assert b'[..p] == b[..|b| - i][..p];
      assert was[..p] == was[..|b| - i][..p];
    }
    CarryArithmetic(sum / base, sum % base, base, Pow(base, i), carry, mul, d, sum);
    MulSplit(mul, d, Pow(base, i), Val(was[p + 1..], base));
  }

  lemma CarryArithmetic(q: nat, r: nat, base: nat, p: nat, carry: nat, mul: nat, d: nat, sum: nat)
    requires sum == base * q + r && sum == carry + mul * d
    ensures r * p + q * (base * p) == carry * p + mul * (d * p)
  {
    assert q * (base * p) == base * q * p;
    assert (base * q + r) * p == base * q * p + r * p;
    assert (carry + mul * d) * p == carry * p + mul * d * p;
    assert mul * d * p == mul * (d * p);
  }

  lemma MulSplit(mul: nat, d: nat, p: nat, v: nat)
    ensures mul * (d * p + v) == mul * (d * p) + mul * v
  {
  }

  /** When a carry loop stops, a carry that fits in the buffer has been absorbed. */
  lemma CarryDone(b: seq<nat>, was: seq<nat>, i: nat, carry: nat, base: nat, mul: nat, add: nat, length: nat)
    requires base > 0 && Carried(b, was, i, carry, base, mul, add)
    requires length <= |b| && forall k | 0 <= k < |b| - length :: was[k] == 0
    requires !((carry != 0 || i < length) && i < |b|)
    requires mul * Val(was, base) + add < Pow(base, |b|)
    ensures carry == 0 && Val(b, base) == mul * Val(was, base) + add
    ensures forall k | 0 <= k < |b| - i :: b[k] == 0
  {
    if i == |b| {
      assert b[0..] == b && was[0..] == was;
      if carry > 0 {
        MulMono(1, carry, Pow(base, i), Pow(base, i));
        assert false;
      }
    } else {
      forall k | 0 <= k < |b| - i ensures b[k] == 0 && was[k] == 0 {
        assert b[k] == b[..|b| - i][k] && was[k] == was[..|b| - i][k];
      }
      ValLeadingZeros(b, |b| - i, base);
      ValLeadingZeros(was, |b| - i, base);
    }
  }

  /** The loop of both conversions that skips the leading zeroes of the result. */
  method SkipZeroes(b: array<nat>, from: nat, ghost base: nat) returns (it: nat)
    requires base > 1 && DigitsBelow(b[..], base)
    requires from <= b.Length && forall k | 0 <= k < from :: b[k] == 0
    ensures from <= it <= b.Length && b[it..] == Digits(Val(b[..], base), base)
  {
    hide Val, Digits;
    it := from;
    while it < b.Length && b[it] == 0
      invariant from <= it <= b.Length && forall k | 0 <= k < it :: b[k] == 0
    {
      it := it + 1;
    }
    Significant(b[..], it, base);
    assert b[..][it..] == b[it..];
  }

  // ---------------------------------------------------------------- encoding

  /** The inner loop of EncodeBase58: b58 = b58 * 256 + ch in place. */
  method AppendByte(b58: array<nat>, ch: octet, length: nat) returns (newLength: nat)
    requires DigitsBelow(b58[..], 58)
    requires length <= b58.Length && forall k | 0 <= k < b58.Length - length :: b58[k] == 0
    requires 256 * Val(b58[..], 58) + ch < Pow(58, b58.Length)
    modifies b58
    ensures DigitsBelow(b58[..], 58) && Val(b58[..], 58) == 256 * old(Val(b58[..], 58)) + ch
    ensures newLength <= b58.Length && forall k | 0 <= k < b58.Length - newLength :: b58[k] == 0
  {
    hide Pow, Val, Carried;
    ghost var was := b58[..];
    var carry: nat, i := ch, 0;
    CarryStart(was, 58, 256, ch);
    while (carry != 0 || i < length) && i < b58.Length
      invariant i <= b58.Length && carry < 256
      invariant forall k | 0 <= k < b58.Length :: b58[k] < 58
      invariant Carried(b58[..], was, i, carry, 58, 256, ch)
    {
      var it := b58.Length - 1 - i;
      CarryStep(b58[..], was, i, carry, 58, 256, ch, carry + b58[it] * 256);
      carry := carry + b58[it] * 256;
      assert carry < 0x1_0000_0000;
      b58[it] := carry % 58;
      carry := carry / 58;
      i := i + 1;
    }
    CarryDone(b58[..], was, i, carry, 58, 256, ch, length);
    assert carry == 0;
    newLength := i;
  }

  method EncodeBase58(data: seq<octet>) returns (str: string)
    ensures str == Encoded(data)
  {
    hide Pow, Val, Digits, EncodeSize;
    var cur, zeroes := 0, 0;
    while cur < |data| && data[cur] == 0
      invariant cur == zeroes <= |data| && forall k | 0 <= k < zeroes :: data[k] == 0
    {
      cur, zeroes := cur + 1, zeroes + 1;
    }
    LeadingZerosUnique(data, zeroes);

    // EncodeBufferFits: no carry can fall off this buffer
    var size := EncodeSize(|data| - cur);
    var b58 := new nat[size](_ => 0);
    var length := 0;
    ghost var rest: seq<nat> := data[zeroes..];
    EncodeBufferFits(|rest|);
    ZeroBuffer(b58[..], 58);
    assert rest[..0] == [];
    ZeroBuffer(rest[..0], 256);
    while cur < |data|
      invariant zeroes <= cur <= |data| && b58.Length == size
      invariant DigitsBelow(b58[..], 58) && Val(b58[..], 58) == Val(rest[..cur - zeroes], 256)
      invariant length <= size && forall k | 0 <= k < size - length :: b58[k] == 0
    {
      OneMoreDigit(rest, cur - zeroes, 256, 58, size);
      length := AppendByte(b58, data[cur], length);
      cur := cur + 1;
    }
    assert rest[..|rest|] == rest;

    var it := SkipZeroes(b58, size - length, 58);

    str := Translate(zeroes, b58, it);
  }

  /** The closing loop of EncodeBase58: one '1' per leading zero byte, then the digits from it on. */
  method Translate(zeroes: nat, b58: array<nat>, from: nat) returns (str: string)
    requires from <= b58.Length && DigitsBelow(b58[..], 58)
    ensures str == Text(Zeros(zeroes) + b58[from..])
  {
    str := seq(zeroes, _ => '1');
    var it := from;
    while it < b58.Length
      invariant from <= it <= b58.Length && str == Text(Zeros(zeroes) + b58[from..it])
    {
      assert b58[from..it + 1] == b58[from..it] + [b58[it]];
      str := str + [Alphabet(b58[it])];
      it := it + 1;
    }
    assert b58[from..it] == b58[from..];
  }

  // ---------------------------------------------------------------- decoding

  /** The inner loop of DecodeBase58: b256 = b256 * 58 + digit in place. */
  method AppendDigit(b256: array<nat>, digit: nat, length: nat) returns (newLength: nat)
    requires digit < 58 && DigitsBelow(b256[..], 256)
    requires length <= b256.Length && forall k | 0 <= k < b256.Length - length :: b256[k] == 0
    requires 58 * Val(b256[..], 256) + digit < Pow(256, b256.Length)
    modifies b256
    ensures DigitsBelow(b256[..], 256) && Val(b256[..], 256) == 58 * old(Val(b256[..], 256)) + digit
    ensures newLength <= b256.Length && forall k | 0 <= k < b256.Length - newLength :: b256[k] == 0
  {
    hide Pow, Val, Carried;
    ghost var was := b256[..];
    var carry: nat, i := digit, 0;
    CarryStart(was, 256, 58, digit);
    while (carry != 0 || i < length) && i < b256.Length
      invariant i <= b256.Length && carry < 58
      invariant forall k | 0 <= k < b256.Length :: b256[k] < 256
      invariant Carried(b256[..], was, i, carry, 256, 58, digit)
    {
      var it := b256.Length - 1 - i;
      CarryStep(b256[..], was, i, carry, 256, 58, digit, carry + 58 * b256[it]);
      carry := carry + 58 * b256[it];
      assert carry < 0x1_0000_0000;
      b256[it] := carry % 256;
      carry := carry / 256;
      i := i + 1;
    }
    CarryDone(b256[..], was, i, carry, 256, 58, digit, length);
    assert carry == 0;
    newLength := i;
  }

  /** *psz of a NUL-terminated text. */
  function At(str: string, psz: nat): (r: char) {
    if psz < |str| then str[psz] else NUL
  }

  /** The loops that skip spaces; a NUL is not a space and stops them. */
  method SkipSpaces(str: string, from: nat) returns (psz: nat)
    requires from <= |CString(str)|
    ensures from <= psz <= |CString(str)|
    ensures AllSpaces(CString(str)[from..psz])
    ensures psz < |CString(str)| ==> !IsSpace(CString(str)[psz])
  {
    hide CString;
    psz := from;
    while At(str, psz) != NUL && IsSpace(At(str, psz))
      invariant from <= psz <= |CString(str)|
      invariant AllSpaces(CString(str)[from..psz])
      decreases |str| - psz
    {
      ghost var c := CString(str);
      assert c[from..psz + 1] == c[from..psz] + [c[psz]];
      psz := psz + 1;
    }
  }

  /** The loop that reads digits into b256, from the first one after the leading '1's. */
  method ReadDigits(str: string, from: nat, b256: array<nat>) returns (ok: bool, psz: nat, length: nat)
    requires from <= |CString(str)| && b256.Length == DecodeSize(|str| - from)
    requires forall k | 0 <= k < b256.Length :: b256[k] == 0
    modifies b256
    ensures from <= psz <= |CString(str)|
    ensures InAlphabet(CString(str)[from..psz]) && forall k | from <= k < psz :: !IsSpace(CString(str)[k])
    ensures !ok ==> psz < |CString(str)| && !IsSpace(CString(str)[psz]) && Map(CString(str)[psz]) == -1
    ensures ok ==> psz < |CString(str)| ==> IsSpace(CString(str)[psz])
    ensures DigitsBelow(b256[..], 256) && length <= b256.Length
    ensures forall k | 0 <= k < b256.Length - length :: b256[k] == 0
    ensures Val(b256[..], 256) == Val(Values(CString(str)[from..psz]), 58)
  {
    hide Pow, Val, DecodeSize, CString, IsSpace, Map;
    ghost var c := CString(str);
    psz, length := from, 0;
    DecodeBufferFits(|str| - from);
    ZeroBuffer(b256[..], 256);
    ZeroBuffer(Values(c[from..from]), 58);
    while At(str, psz) != NUL && !IsSpace(At(str, psz))
      invariant from <= psz <= |c|
      invariant InAlphabet(c[from..psz]) && forall k | from <= k < psz :: !IsSpace(c[k])
      invariant DigitsBelow(b256[..], 256) && length <= b256.Length
      invariant forall k | 0 <= k < b256.Length - length :: b256[k] == 0
      invariant Val(b256[..], 256) == Val(Values(c[from..psz]), 58)
      decreases |str| - psz
    {
      var carry := Map(At(str, psz));
      if carry == -1 {
        return false, psz, length;
      }
      assert carry == Map(c[psz]);
      NextDigit(c, from, psz, |str| - from, b256.Length);
      length := AppendDigit(b256, carry, length);
      psz := psz + 1;
    }
    ok := true;
  }

  lemma NextDigit(c: string, from: nat, psz: nat, room: nat, size: nat)
    requires from <= psz < |c| && psz - from < room && Pow(58, room) <= Pow(256, size)
    requires InAlphabet(c[from..psz]) && Map(c[psz]) != -1
    ensures InAlphabet(c[from..psz + 1])
    ensures Val(Values(c[from..psz + 1]), 58) == 58 * Val(Values(c[from..psz]), 58) + Map(c[psz]) < Pow(256, size)
  {
    hide Map, Pow, Val, Values, InAlphabet;
    OneMoreLetter(c, from, psz);
    var seen := Values(c[from..psz + 1]);
    PowMonoExp(58, psz + 1 - from, room);
    assert seen[..psz - from] == Values(c[from..psz]) && seen[..psz + 1 - from] == seen;
    OneMoreDigit(seen, psz - from, 58, 256, size);
  }

  lemma OneMoreLetter(c: string, from: nat, psz: nat)
    requires from <= psz < |c| && InAlphabet(c[from..psz]) && Map(c[psz]) != -1
    ensures InAlphabet(c[from..psz + 1])
    ensures Values(c[from..psz + 1]) == Values(c[from..psz]) + [Map(c[psz])]
  {
    hide Map;
    assert c[from..psz + 1] == c[from..psz] + [c[psz]];
  }

  lemma WholeWord(w: string, zeroes: nat)
    requires zeroes <= |w| && InAlphabet(w) && InAlphabet(w[zeroes..])
    requires (zeroes < |w| ==> w[zeroes] != '1') && forall k | 0 <= k < zeroes :: w[k] == '1'
    ensures Rebase(Values(w), 58, 256) == Zeros(zeroes) + Digits(Val(Values(w[zeroes..]), 58), 256)
  {
    OneIsZero();
    LeadingZerosUnique(Values(w), zeroes);
    assert Values(w)[zeroes..] == Values(w[zeroes..]);
  }

  lemma PrefixesAre(c: string, p: nat, first: nat, q: nat)
    requires p <= first <= q <= |c|
    requires AllSpaces(c[0..p])
    requires forall k | p <= k < first :: c[k] == '1'
    requires forall k | first <= k < q :: !IsSpace(c[k])
    requires p < |c| ==> !IsSpace(c[p])
    ensures SpacePrefix(c) == p
    ensures WordPrefix(c[p..]) >= q - p
    ensures q < |c| && !IsSpace(c[q]) ==> WordPrefix(c[p..]) > q - p
    ensures q == |c| || IsSpace(c[q]) ==> WordPrefix(c[p..]) == q - p
  {
    hide SpacePrefix, WordPrefix, IsSpace, Map;
    OneIsZero();
    var n := WordPrefix(c[p..]);
    assert forall k | 0 <= k < p :: c[k] == c[0..p][k];
    assert !(SpacePrefix(c) < p) && !(p < SpacePrefix(c));
    if q - p < n {
      assert !IsSpace(c[p..][q - p]);
    }
  }

  lemma OnesAreAlphabet(c: string, p: nat, first: nat, q: nat)
    requires p <= first <= q <= |c| && InAlphabet(c[first..q])
    requires forall k | p <= k < first :: c[k] == '1'
    ensures InAlphabet(c[p..q]) && c[p..q][first - p..] == c[first..q]
  {
    hide Map;
    OneIsZero();
    forall i | 0 <= i < q - p ensures Map(c[p..q][i]) != -1 {
      if first - p <= i {
        assert c[p..q][i] == c[first..q][i - (first - p)];
      }
    }
  }

  lemma NotAllAlphabet(c: string, p: nat, q: nat)
    requires p <= q < |c| && Map(c[q]) == -1
    ensures forall r | q < r <= |c| :: !InAlphabet(c[p..r])
  {
    forall r | q < r <= |c| ensures !InAlphabet(c[p..r]) {
      assert c[p..r][q - p] == c[q];
    }
  }

  /** What the decoder knows after reading digits: leading spaces up to p, ones up to first, digits up to q. */
  ghost predicate WordRead(c: string, p: nat, first: nat, q: nat) {
    && p <= first <= q <= |c|
    && AllSpaces(c[0..p]) && (p < |c| ==> !IsSpace(c[p]))
    && (forall k | p <= k < first :: c[k] == '1') && (first < |c| ==> c[first] != '1')
    && InAlphabet(c[first..q]) && forall k | first <= k < q :: !IsSpace(c[k])
  }

  lemma Refused(str: string, p: nat, first: nat, q: nat, end: nat)
    requires var c := CString(str); WordRead(c, p, first, q) && q <= end < |c| && !IsSpace(c[end])
    requires var c := CString(str); if q == end then Map(c[q]) == -1 else IsSpace(c[q])
    ensures Decoded(str) == None
  {
    hide CString, SpacePrefix, WordPrefix, IsSpace, Map;
    var c := CString(str);
    PrefixesAre(c, p, first, q);
    if q == end {
      NotAllAlphabet(c, p, q);
    } else {
      assert !IsSpace(c[q..][end - q]);
    }
  }

  lemma Accepted(str: string, p: nat, first: nat, q: nat)
    requires var c := CString(str); WordRead(c, p, first, q) && AllSpaces(c[q..]) && (q < |c| ==> IsSpace(c[q]))
    ensures Decoded(str) == Some(Zeros(first - p) + Digits(Val(Values(CString(str)[first..q]), 58), 256))
  {
    hide CString, SpacePrefix, WordPrefix, IsSpace, Map, Val, Digits, Rebase, Values, InAlphabet, AllSpaces;
    var c := CString(str);
    PrefixesAre(c, p, first, q);
    OnesAreAlphabet(c, p, first, q);
    assert Decoded(str) == Some(Rebase(Values(c[p..q]), 58, 256));
    WordAfterOnes(c, p, first, q);
  }

  lemma WordAfterOnes(c: string, p: nat, first: nat, q: nat)
    requires p <= first <= q <= |c| && InAlphabet(c[first..q]) && InAlphabet(c[p..q])
    requires (forall k | p <= k < first :: c[k] == '1') && (first < |c| ==> c[first] != '1')
    ensures Rebase(Values(c[p..q]), 58, 256) == Zeros(first - p) + Digits(Val(Values(c[first..q]), 58), 256)
  {
    hide Val, Digits, Rebase, Values, InAlphabet, Map;
    var w := c[p..q];
    assert w[first - p..] == c[first..q];
    assert first < q ==> w[first - p] == c[first];
    WholeWord(w, first - p);
  }

  /** vch keeps its contents when the text is refused. */
  method DecodeBase58(str: string, vch: seq<nat>) returns (ok: bool, out: seq<nat>)
    ensures ok == Decoded(str).Some?
    ensures out == if ok then Decoded(str).value else vch
  {
    hide Pow, Val, Digits, Decoded, DecodeSize, CString, IsSpace, Map;
    ghost var c := CString(str);
    OneIsZero();
    var psz := SkipSpaces(str, 0);
    ghost var start := psz;

    var zeroes := 0;
    while At(str, psz) == '1'
      invariant psz == start + zeroes <= |c| && forall k | start <= k < psz :: c[k] == '1'
      decreases |str| - psz
    {
      zeroes := zeroes + 1;
      psz := psz + 1;
    }
    ghost var first := psz;

    // DecodeBufferFits: no carry can fall off this buffer
    var size := DecodeSize(|str| - psz);
    var b256 := new nat[size](_ => 0);

    var read, length;
    read, psz, length := ReadDigits(str, psz, b256);
    ghost var end := psz;
    assert WordRead(c, start, first, end);
    if !read {
      Refused(str, start, first, end, psz);
      return false, vch;
    }

    psz := SkipSpaces(str, psz);

    if At(str, psz) != NUL {
      Refused(str, start, first, end, psz);
      return false, vch;
    }

    var it := SkipZeroes(b256, size - length, 256);

    assert psz == |c| && c[end..psz] == c[end..];
    assert end < psz ==> c[end..][0] == c[end];
    Accepted(str, start, first, end);
    return true, seq(zeroes, _ => 0) + b256[it..];
  }

  // ---------------------------------------------------------------- round trips

  /** A word over the alphabet decodes to its change of base. */
  lemma DecodedWord(s: string)
    requires InAlphabet(s)
    ensures Decoded(s) == Some(Rebase(Values(s), 58, 256))
  {
    forall i | 0 <= i < |s| ensures s[i] != NUL && !IsSpace(s[i]) {
      AlphabetInvertsMap(s[i]);
    }
    assert CString(s) == s;
    assert SpacePrefix(s) == 0;
    assert s[0..] == s;
    assert WordPrefix(s) == |s|;
    assert s[0..|s|] == s;
  }

  /** Decoding an encoded byte sequence gives that sequence, leading zeros included. */
  lemma DecodeInvertsEncode(data: seq<octet>)
    ensures InAlphabet(Encoded(data)) && Decoded(Encoded(data)) == Some(data)
  {
    var ds := Rebase(data, 256, 58);
    assert Values(Text(ds)) == ds;
    DecodedWord(Encoded(data));
    RebaseInverse(data, 256, 58);
  }

  /** Two zero bytes and the number 0x287fb4cd. */
  lemma KnownText()
    ensures Encoded([0, 0, 0x28, 0x7f, 0xb4, 0xcd]) == "11233QC4"
  {
    hide Val, Digits;
    var data: seq<nat> := [0, 0, 0x28, 0x7f, 0xb4, 0xcd];
    LeadingZerosUnique(data, 2);
    assert data[2..] == [0x28, 0x7f, 0xb4, 0xcd];
    KnownValue();
    KnownDigits();
    var digits: seq<nat> := [0, 0, 1, 2, 2, 23, 11, 3];
    assert Rebase(data, 256, 58) == digits;
    assert Text(digits) == "11233QC4" by {
      AlphabetIs(0);
      AlphabetIs(1);
      AlphabetIs(2);
      AlphabetIs(23);
      AlphabetIs(11);
      AlphabetIs(3);
    }
  }

  lemma KnownValue()
    ensures Val([0x28, 0x7f, 0xb4, 0xcd], 256) == 0x287fb4cd
  {
    hide Val;
    var none: seq<nat> := [];
    var a: seq<nat>, b: seq<nat>, c: seq<nat> := [0x28], [0x28, 0x7f], [0x28, 0x7f, 0xb4];
    assert a == none + [0x28] && b == a + [0x7f] && c == b + [0xb4] && [0x28, 0x7f, 0xb4, 0xcd] == c + [0xcd];
    ValNothing();
    ValSnoc(none, 0x28, 256);
    ValSnoc(a, 0x7f, 256);
    ValSnoc(b, 0xb4, 256);
    ValSnoc(c, 0xcd, 256);
  }

  lemma ValNothing()
    ensures Val([], 256) == 0
  {
  }

  lemma KnownDigits()
    ensures Digits(0x287fb4cd, 58) == [1, 2, 2, 23, 11, 3]
  {
    hide Digits;
    DigitStep(0);
    DigitStep(679457997);
    DigitStep(11714793);
    DigitStep(201979);
    DigitStep(3482);
    DigitStep(60);
    DigitStep(1);
  }

  lemma DigitStep(n: nat)
    ensures Digits(n, 58) == if n == 0 then [] else Digits(n / 58, 58) + [n % 58]
  {
    if n > 0 {
      var q, r := LastDigit(n, 58);
    }
  }

  /** Encoding what a text over the alphabet decodes to gives the text back. */
  lemma EncodeInvertsDecode(s: string)
    requires InAlphabet(s)
    ensures Decoded(s).Some? && DigitsBelow(Decoded(s).value, 256)
    ensures Encoded(Decoded(s).value) == s
  {
    DecodedWord(s);
    RebaseInverse(Values(s), 58, 256);
    forall i | 0 <= i < |s| ensures Text(Values(s))[i] == s[i] {
      AlphabetInvertsMap(s[i]);
    }
    assert Text(Values(s)) == s;
  }
}

/** Positional notation, most significant digit first, and the change of base that Base58 is:
    leading zero digits are carried over one for one, the rest is rewritten as a number. */
module Radix {
  import opened Power

  function Val(s: seq<nat>, b: nat): (r: nat) {
    if s == [] then 0 else Val(s[..|s| - 1], b) * b + s[|s| - 1]
  }

  ghost predicate DigitsBelow(s: seq<nat>, b: nat) {
    forall i | 0 <= i < |s| :: s[i] < b
  }

  /** The digits of n without a leading zero; no digits at all for zero. */
  function Digits(n: nat, b: nat): (s: seq<nat>)
    requires b > 1
    ensures DigitsBelow(s, b)
    ensures s != [] ==> s[0] != 0
    decreases n
  {
    if n == 0 then [] else
    DivSmaller(n, b);
    Digits(n / b, b) + [n % b]
  }

  lemma DivSmaller(n: nat, b: nat)
    requires n > 0 && b > 1
    ensures n / b < n && (n < b ==> n / b == 0)
  {
    var q, r := n / b, n % b;
    assert n == b * q + r;
    MulMono(2, b, q, q);
  }

  /** n splits into quotient and last digit, and so does its digit string. */
  lemma LastDigit(n: nat, b: nat) returns (q: nat, r: nat)
    requires n > 0 && b > 1
    ensures q < n && r < b && n == q * b + r && Digits(n, b) == Digits(q, b) + [r]
  {
    DivSmaller(n, b);
    q, r := n / b, n % b;
    assert n == b * q + r;
    Commute(b, q);
  }

  lemma {:induction false} ValDigits(n: nat, b: nat)
    requires b > 1
    ensures Val(Digits(n, b), b) == n
    decreases n
  {
    if n > 0 {
      var q, r := LastDigit(n, b);
      ValDigits(q, b);
      ValSnoc(Digits(q, b), r, b);
    }
  }

  lemma ValSnoc(s: seq<nat>, d: nat, b: nat)
    ensures Val(s + [d], b) == Val(s, b) * b + d
  {
    assert (s + [d])[..|s|] == s;
  }

  lemma {:induction false} ValPositive(s: seq<nat>, b: nat)
    requires b > 0 && s != [] && s[0] != 0
    ensures Val(s, b) > 0
  {
    if |s| > 1 {
      ValPositive(s[..|s| - 1], b);
      assert Val(s[..|s| - 1], b) * b > 0;
    } else {
      assert s[..0] == [];
    }
  }

  lemma {:induction false} DigitsVal(s: seq<nat>, b: nat)
    requires b > 1 && DigitsBelow(s, b)
    requires s != [] ==> s[0] != 0
    ensures Digits(Val(s, b), b) == s
  {
    if s != [] {
      var t, d := s[..|s| - 1], s[|s| - 1];
      DigitsVal(t, b);
      ValPositive(s, b);
      DivModUnique(Val(t, b), d, b);
      assert s == t + [d];
    }
  }

  lemma DivModUnique(q: nat, d: nat, b: nat)
    requires d < b
    ensures (q * b + d) / b == q && (q * b + d) % b == d
  {
    var n := q * b + d;
    var u, r := n / b, n % b;
    assert n == b * u + r;
    if u < q {
      MulMono(b, b, u + 1, q);
    } else if q < u {
      MulMono(b, b, q + 1, u);
    }
  }

  lemma {:induction false} ValBound(s: seq<nat>, b: nat)
    requires b > 0 && DigitsBelow(s, b)
    ensures Val(s, b) < Pow(b, |s|)
  {
    if s != [] {
      ValBound(s[..|s| - 1], b);
      MulMono(Val(s[..|s| - 1], b) + 1, Pow(b, |s| - 1), b, b);
      assert (Val(s[..|s| - 1], b) + 1) * b == Val(s[..|s| - 1], b) * b + b;
      Commute(Pow(b, |s| - 1), b);
    } else {
      assert Pow(b, 0) == 1;
    }
  }

  /** A digit put in front counts b^length. */
  lemma {:induction false} ValFront(d: nat, s: seq<nat>, b: nat)
    ensures Val([d] + s, b) == d * Pow(b, |s|) + Val(s, b)
  {
    var ds := [d] + s;
    if s == [] {
      assert ds[..0] == [];
      PowOne(b);
    } else {
      var t := s[..|s| - 1];
      assert ds[..|ds| - 1] == [d] + t;
      ValFront(d, t, b);
      var p := Pow(b, |t|);
      assert (d * p + Val(t, b)) * b == d * (b * p) + Val(t, b) * b;
    }
  }

  /** Leading zeros do not change the value. */
  lemma {:induction false} ValLeadingZeros(s: seq<nat>, k: nat, b: nat)
    requires k <= |s| && forall i | 0 <= i < k :: s[i] == 0
    ensures Val(s, b) == Val(s[k..], b)
  {
    if k > 0 {
      ValLeadingZeros(s, k - 1, b);
      assert s[k - 1..] == [0] + s[k..];
      ValFront(0, s[k..], b);
    } else {
      assert s[0..] == s;
    }
  }

  function Zeros(n: nat): (s: seq<nat>)
    ensures |s| == n && forall i | 0 <= i < n :: s[i] == 0
  {
    seq(n, _ => 0)
  }

  function LeadingZeros(s: seq<nat>): (n: nat)
    ensures n <= |s| && (n < |s| ==> s[n] != 0)
    ensures forall i | 0 <= i < n :: s[i] == 0
  {
    if s == [] || s[0] != 0 then 0 else 1 + LeadingZeros(s[1..])
  }

  lemma LeadingZerosUnique(s: seq<nat>, n: nat)
    requires n <= |s| && (n < |s| ==> s[n] != 0) && forall i | 0 <= i < n :: s[i] == 0
    ensures LeadingZeros(s) == n
  {
    var m := LeadingZeros(s);
    assert !(m < n) && !(n < m);
  }

  /** Change of base from b to c. */
  function Rebase(s: seq<nat>, b: nat, c: nat): (r: seq<nat>)
    requires c > 1
    ensures DigitsBelow(r, c)
  {
    var z := LeadingZeros(s);
    Zeros(z) + Digits(Val(s[z..], b), c)
  }

  /** Changing base and back is the identity: nothing is lost, leading zeros included. */
  lemma RebaseInverse(s: seq<nat>, b: nat, c: nat)
    requires b > 1 && c > 1 && DigitsBelow(s, b)
    ensures Rebase(Rebase(s, b, c), c, b) == s
  {
    hide Val, Digits, LeadingZeros;
    var z := LeadingZeros(s);
    var n := Val(s[z..], b);
    var ds := Digits(n, c);
    var r := Zeros(z) + ds;
    LeadingZerosUnique(r, z);
    assert r[z..] == ds;
    ValDigits(n, c);
    DigitsVal(s[z..], b);
    assert s == Zeros(z) + s[z..];
  }
}

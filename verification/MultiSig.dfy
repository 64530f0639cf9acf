/** CHECKMULTISIG of src/script/Interpreter.cpp: signatures matched to keys in order, greedily. */
module MultiSig {
  import opened ByteTypes
  import opened Wrappers
  import opened S = Script
  import N = ScriptNum
  import opened Conditionals

  const MAX_PUBKEYS_PER_MULTISIG := 20

  // ---------------------------------------------------------------- matching

  /** Every signature has a key it checks with, the keys in the order of the signatures. */
  ghost predicate Assigns(a: seq<nat>, sigs: seq<seq<octet>>, keys: seq<seq<octet>>,
      check: (seq<octet>, seq<octet>) -> bool) {
    && |a| == |sigs|
    && (forall i | 0 <= i < |a| :: a[i] < |keys| && check(sigs[i], keys[a[i]]))
    && (forall i, j | 0 <= i < j < |a| :: a[i] < a[j])
  }

  ghost predicate Assignable(sigs: seq<seq<octet>>, keys: seq<seq<octet>>, check: (seq<octet>, seq<octet>) -> bool) {
    exists a :: Assigns(a, sigs, keys, check)
  }

  /** The first signature either takes the first key, or no key before its own. */
  lemma FirstKey(sigs: seq<seq<octet>>, keys: seq<seq<octet>>, check: (seq<octet>, seq<octet>) -> bool)
    requires sigs != [] && keys != []
    ensures Assignable(sigs, keys, check) <==>
      Assignable(if check(sigs[0], keys[0]) then sigs[1..] else sigs, keys[1..], check)
  {
    hide Assigns;
    var sigs' := if check(sigs[0], keys[0]) then sigs[1..] else sigs;
    if Assignable(sigs, keys, check) {
      var a :| Assigns(a, sigs, keys, check);
      var c := Behind(a, sigs, keys, check);
      assert Assigns(c, sigs', keys[1..], check);
    }
    if Assignable(sigs', keys[1..], check) {
      var c :| Assigns(c, sigs', keys[1..], check);
      var a := InFront(c, sigs, keys, check);
      assert Assigns(a, sigs, keys, check);
    }
  }

  /** Without the first key. It belongs to the first signature, or checks with none that needs it. */
  lemma Behind(a: seq<nat>, sigs: seq<seq<octet>>, keys: seq<seq<octet>>, check: (seq<octet>, seq<octet>) -> bool)
      returns (c: seq<nat>)
    requires sigs != [] && keys != [] && Assigns(a, sigs, keys, check)
    ensures Assigns(c, if check(sigs[0], keys[0]) then sigs[1..] else sigs, keys[1..], check)
  {
    hide Assigns;
    if check(sigs[0], keys[0]) {
      var b := WithoutSignature(a, sigs, keys, check);
      c := WithoutKey(b, sigs[1..], keys, check);
    } else {
      FirstIsPositive(a, sigs, keys, check);
      c := WithoutKey(a, sigs, keys, check);
    }
  }

  lemma FirstIsPositive(a: seq<nat>, sigs: seq<seq<octet>>, keys: seq<seq<octet>>,
      check: (seq<octet>, seq<octet>) -> bool)
    requires sigs != [] && keys != [] && Assigns(a, sigs, keys, check) && !check(sigs[0], keys[0])
    ensures |a| == |sigs| && forall i | 0 <= i < |a| :: a[i] > 0
  {
    assert a[0] != 0;
    forall i | 0 <= i < |a| ensures a[i] > 0 {
      assert i > 0 ==> a[0] < a[i];
    }
  }

  lemma WithoutSignature(a: seq<nat>, sigs: seq<seq<octet>>, keys: seq<seq<octet>>,
      check: (seq<octet>, seq<octet>) -> bool) returns (b: seq<nat>)
    requires sigs != [] && Assigns(a, sigs, keys, check)
    ensures Assigns(b, sigs[1..], keys, check) && |b| == |sigs| - 1 && forall i | 0 <= i < |b| :: b[i] > 0
  {
    b := a[1..];
    forall i | 0 <= i < |b| ensures b[i] > 0 && b[i] < |keys| && check(sigs[1..][i], keys[b[i]]) {
      assert b[i] == a[i + 1] && sigs[1..][i] == sigs[i + 1];
      assert a[0] < a[i + 1];
    }
  }

  lemma WithoutKey(b: seq<nat>, sigs: seq<seq<octet>>, keys: seq<seq<octet>>,
      check: (seq<octet>, seq<octet>) -> bool) returns (c: seq<nat>)
    requires keys != [] && Assigns(b, sigs, keys, check) && forall i | 0 <= i < |b| :: b[i] > 0
    ensures Assigns(c, sigs, keys[1..], check)
  {
    c := seq(|b|, i requires 0 <= i < |b| => b[i] - 1);
    forall i | 0 <= i < |c| ensures c[i] < |keys[1..]| && check(sigs[i], keys[1..][c[i]]) {
      assert keys[1..][c[i]] == keys[b[i]];
    }
  }

  lemma InFront(c: seq<nat>, sigs: seq<seq<octet>>, keys: seq<seq<octet>>, check: (seq<octet>, seq<octet>) -> bool)
      returns (a: seq<nat>)
    requires sigs != [] && keys != []
    requires Assigns(c, if check(sigs[0], keys[0]) then sigs[1..] else sigs, keys[1..], check)
    ensures Assigns(a, sigs, keys, check)
  {
    hide Assigns;
    if check(sigs[0], keys[0]) {
      a := WithSignature(c, sigs, keys, check);
    } else {
      a := WithKey(c, sigs, keys, check);
    }
  }

  lemma WithSignature(c: seq<nat>, sigs: seq<seq<octet>>, keys: seq<seq<octet>>,
      check: (seq<octet>, seq<octet>) -> bool) returns (a: seq<nat>)
    requires sigs != [] && keys != [] && check(sigs[0], keys[0]) && Assigns(c, sigs[1..], keys[1..], check)
    ensures Assigns(a, sigs, keys, check)
  {
    a := seq(|sigs|, i requires 0 <= i < |sigs| => if i == 0 then 0 else c[i - 1] + 1);
    forall i | 0 <= i < |a| ensures a[i] < |keys| && check(sigs[i], keys[a[i]]) {
      assert i > 0 ==> sigs[i] == sigs[1..][i - 1] && keys[a[i]] == keys[1..][c[i - 1]];
    }
  }

  lemma WithKey(c: seq<nat>, sigs: seq<seq<octet>>, keys: seq<seq<octet>>,
      check: (seq<octet>, seq<octet>) -> bool) returns (a: seq<nat>)
    requires keys != [] && Assigns(c, sigs, keys[1..], check)
    ensures Assigns(a, sigs, keys, check)
  {
    a := seq(|sigs|, i requires 0 <= i < |sigs| => c[i] + 1);
    forall i | 0 <= i < |a| ensures a[i] < |keys| && check(sigs[i], keys[a[i]]) {
      assert keys[a[i]] == keys[1..][c[i]];
    }
  }

  lemma NoSignatures(keys: seq<seq<octet>>, check: (seq<octet>, seq<octet>) -> bool)
    ensures Assignable([], keys, check)
  {
    assert Assigns([], [], keys, check);
  }

  /** There are never fewer keys than signatures. */
  lemma {:induction false} EnoughKeys(sigs: seq<seq<octet>>, keys: seq<seq<octet>>,
      check: (seq<octet>, seq<octet>) -> bool)
    requires Assignable(sigs, keys, check)
    ensures |sigs| <= |keys|
    decreases |keys|
  {
    if sigs != [] {
      var a :| Assigns(a, sigs, keys, check);
      assert a[0] < |keys|;
      FirstKey(sigs, keys, check);
      EnoughKeys(if check(sigs[0], keys[0]) then sigs[1..] else sigs, keys[1..], check);
    }
  }

  /** The loop: each key is tried once, and the early exit loses no solution. */
  method MatchSignatures(sigs: seq<seq<octet>>, keys: seq<seq<octet>>, check: (seq<octet>, seq<octet>) -> bool)
      returns (success: bool)
    requires |sigs| <= |keys|
    ensures success <==> Assignable(sigs, keys, check)
  {
    hide Assignable;
    success := true;
    var sigIndex, keyIndex := 0, 0;
    assert sigs[0..] == sigs && keys[0..] == keys;
    var sigsCount, keysCount := |sigs|, |keys|;
    while success && sigsCount > 0
      invariant 0 <= sigIndex <= |sigs| && sigsCount == |sigs| - sigIndex
      invariant 0 <= keyIndex <= |keys| && keysCount == |keys| - keyIndex
      invariant success <==> sigsCount <= keysCount
      invariant Assignable(sigs, keys, check) <==> Assignable(sigs[sigIndex..], keys[keyIndex..], check)
      decreases success, keysCount
    {
      FirstKey(sigs[sigIndex..], keys[keyIndex..], check);
      assert sigs[sigIndex..][1..] == sigs[sigIndex + 1..] && keys[keyIndex..][1..] == keys[keyIndex + 1..];
      var ok := check(sigs[sigIndex], keys[keyIndex]);
      if ok {
        sigIndex := sigIndex + 1;
        sigsCount := sigsCount - 1;
      }
      keyIndex := keyIndex + 1;
      keysCount := keysCount - 1;
      if sigsCount > keysCount {
        success := false;
      }
    }
    if success {
      NoSignatures(keys[keyIndex..], check);
      assert sigs[sigIndex..] == [];
    } else if Assignable(sigs[sigIndex..], keys[keyIndex..], check) {
      EnoughKeys(sigs[sigIndex..], keys[keyIndex..], check);
    }
  }

  // ---------------------------------------------------------------- the whole operation

  /** The verification flags that matter here, whether the signature version is BASE, and the
      signature checker. */
  datatype Settings = Settings(minimalData: bool, base: bool, constScriptCode: bool, nullDummy: bool,
                               checkSig: (seq<octet>, seq<octet>, seq<octet>) -> bool)

  /** asNumber(minimalData).getint(): at most four bytes, or a number cut to 32 bits. */
  function IntOf(f: Frame, minimal: bool): (r: Option<int>) {
    match f
    case Number(v) => Some(if v >= 0x7fff_ffff then 0x7fff_ffff else if v <= -0x8000_0000 then -0x8000_0000 else v)
    case Data(b) => if |b| > 4 || (minimal && !N.Minimal(b)) then None else Some(N.Decode(b))
  }

  /** A number that fits 32 bits is itself, any other is the nearest that does. */
  lemma IntOfNumber(v: int, minimal: bool)
    ensures var r := IntOf(Number(v), minimal);
      && r.Some? && -0x8000_0000 <= r.value <= 0x7fff_ffff
      && (-0x8000_0000 <= v <= 0x7fff_ffff ==> r.value == v)
      && (v > 0x7fff_ffff ==> r.value == 0x7fff_ffff) && (v < -0x8000_0000 ==> r.value == -0x8000_0000)
  {
  }

  /** Data converts when it has at most four bytes and, where that is asked for, is some number's
      encoding; it never has to be cut. */
  lemma IntOfData(b: seq<octet>, minimal: bool)
    ensures IntOf(Data(b), minimal).Some? <==> |b| <= 4 && (minimal ==> exists v :: N.Encode(v) == b)
    ensures IntOf(Data(b), minimal).Some? ==>
      IntOf(Data(b), minimal).value == N.Decode(b) && -0x8000_0000 < N.Decode(b) < 0x8000_0000
  {
    hide N.Decode, N.Encode, N.Minimal;
    N.MinimalIffEncoding(b);
    if |b| <= 4 {
      N.FourBytes(b);
    }
  }

  /** A number and its serialisation are the same count exactly when four bytes hold it. */
  lemma IntOfEither(v: int, minimal: bool)
    ensures IntOf(Data(N.Encode(v)), minimal) == IntOf(Number(v), minimal) <==> -0x8000_0000 < v < 0x8000_0000
  {
    hide N.Decode, N.Encode, N.Minimal;
    N.DecodeEncode(v);
    N.EncodeMinimal(v);
    N.OperandRange(v);
  }

  function DataOf(f: Frame): (r: seq<octet>) {
    match f
    case Number(v) => N.Encode(v)
    case Data(b) => b
  }

  function AllData(fs: seq<Frame>): (r: seq<seq<octet>>)
    ensures |r| == |fs|
  {
    seq(|fs|, i requires 0 <= i < |fs| => DataOf(fs[i]))
  }

  /** The script without the pushes of the signatures, and whether any was found. */
  function Stripped(code: seq<octet>, sigs: seq<seq<octet>>): (r: (seq<octet>, bool))
    decreases |sigs|
  {
    if sigs == [] then (code, false)
    else
      EmitNonEmpty(Push(sigs[0]));
      var p := Pieces(code, Emit(Push(sigs[0])));
      var (rest, found) := Stripped(Remains(p), sigs[1..]);
      (rest, Cuts(p) > 0 || found)
  }

  function Count(stack: seq<Frame>, at: nat, minimal: bool): (r: int) {
    if at < |stack| && IntOf(stack[at], minimal).Some? then IntOf(stack[at], minimal).value else -1
  }

  /** A count in front of as many frames, not over the limit or the operations left. */
  predicate Counted(stack: seq<Frame>, opCount: nat, limit: int, minimal: bool) {
    var n := Count(stack, 0, minimal);
    0 <= n <= limit && opCount + n <= MAX_OPS_PER_SCRIPT && |stack| >= n + 1
  }

  /** The stack holds the number of keys, the keys, the number of signatures and the signatures, and
      the numbers are in range. */
  predicate Laid(with: Settings, stack: seq<Frame>, opCount: nat) {
    var n := Count(stack, 0, with.minimalData);
    && 0 <= n <= MAX_PUBKEYS_PER_MULTISIG && opCount + n <= MAX_OPS_PER_SCRIPT
    && var k := Count(stack, n + 1, with.minimalData);
    && 0 <= k <= n && opCount + n + k <= MAX_OPS_PER_SCRIPT
    && |stack| >= n + k + 2
  }

  /** Below that there is one frame more, and the flags have nothing against what there is. */
  predicate Ready(with: Settings, stack: seq<Frame>, opCount: nat, code: seq<octet>) {
    && Laid(with, stack, opCount)
    && var n := Count(stack, 0, with.minimalData);
    var k := Count(stack, n + 1, with.minimalData);
    && |stack| >= n + k + 3
    && (with.base && with.constScriptCode ==> !Stripped(code, AllData(stack[n + 2..n + 2 + k])).1)
    && (with.nullDummy ==> DataOf(stack[n + k + 2]) == [])
  }

  function Frames(data: seq<seq<octet>>): (r: seq<Frame>) {
    seq(|data|, i requires 0 <= i < |data| => Data(data[i]))
  }

  /** A number on the stack, as a number or as its serialisation. */
  predicate Means(f: Frame, n: nat) {
    f == Number(n) || f == Data(N.Encode(n))
  }

  /** A number, that many keys, a second number and that many signatures, whatever is below, are laid
      out exactly when there are no more than twenty keys, no more signatures than keys, and no more
      than 201 operations with both; and then these keys and signatures are what is read. */
  lemma StackedIsLaid(with: Settings, f: Frame, keys: seq<seq<octet>>, g: Frame, sigs: seq<seq<octet>>,
      below: seq<Frame>, opCount: nat)
    requires Means(f, |keys|) && Means(g, |sigs|) && |keys| < 0x8000_0000 && |sigs| < 0x8000_0000
    ensures var st := [f] + Frames(keys) + [g] + Frames(sigs) + below;
      var n, k := |keys|, |sigs|;
      && Count(st, 0, with.minimalData) == n && Count(st, n + 1, with.minimalData) == k
      && AllData(st[1..n + 1]) == keys && AllData(st[n + 2..n + 2 + k]) == sigs && st[n + k + 2..] == below
      && (Laid(with, st, opCount) <==> k <= n <= 20 && opCount + n + k <= 201)
  {
    hide N.Encode, IntOf;
    var n, k := |keys|, |sigs|;
    var st := [f] + Frames(keys) + [g] + Frames(sigs) + below;
    assert st[0] == f && st[n + 1] == g;
    MeansInt(f, n, with.minimalData);
    MeansInt(g, k, with.minimalData);
    assert st[1..n + 1] == Frames(keys) && st[n + 2..n + 2 + k] == Frames(sigs);
    assert AllData(Frames(keys)) == keys && AllData(Frames(sigs)) == sigs;
  }

  lemma MeansInt(f: Frame, n: nat, minimal: bool)
    requires Means(f, n) && n < 0x8000_0000
    ensures IntOf(f, minimal) == Some(n)
  {
    hide N.Encode;
    IntOfEither(n, minimal);
  }

  class SigMachine {
    const with: Settings
    /** The top of the stack comes first. */
    var stack: seq<Frame>
    var opCount: nat

    constructor (with: Settings, stack: seq<Frame>, opCount: nat)
      ensures this.with == with && this.stack == stack && this.opCount == opCount
    {
      this.with, this.stack, this.opCount := with, stack, opCount;
    }

    /** _stack.take().asNumber(...).getint(): there must be a frame, and it must convert. */
    method TakeInt() returns (s: Status, n: int)
      modifies this`stack
      ensures s == Success <==> old(stack) != [] && IntOf(old(stack[0]), with.minimalData).Some?
      ensures s == Success ==> n == IntOf(old(stack[0]), with.minimalData).value && stack == old(stack[1..])
    {
      n := 0;
      if stack == [] {
        return Assertion, 0;
      }
      var frame := stack[0];
      stack := stack[1..];
      var value;
      match frame {
        case Number(v) => value := v;
        case Data(b) =>
          var r := N.FromBytes(b, with.minimalData, 4);
          if r.Thrown? {
            return Threw(Other(0)), 0;
          }
          value := r.value;
          IntOfData(b, with.minimalData);
      }
      if value >= 0x7fff_ffff {
        n := 0x7fff_ffff;
      } else if value <= -0x8000_0000 {
        n := -0x8000_0000;
      } else {
        n := value;
      }
      s := Success;
    }

    /** The frames' data, the top one first. */
    method TakeData(n: nat) returns (data: seq<seq<octet>>)
      requires n <= |stack|
      modifies this`stack
      ensures data == AllData(old(stack[..n])) && stack == old(stack[n..])
    {
      data := [];
      ghost var was := stack;
      for i := 0 to n
        invariant stack == was[i..] && data == AllData(was[..i])
      {
        assert was[..i + 1] == was[..i] + [was[i]];
        data := data + [DataOf(stack[0])];
        stack := stack[1..];
      }
    }

    /** Every signature's push is deleted from the script that is signed. */
    method StripSignatures(code: Script, sigs: seq<seq<octet>>) returns (s: Status)
      modifies code
      ensures var (rest, found) := Stripped(old(code.bytes), sigs);
        (s == Success <==> !(with.constScriptCode && found)) && (s == Success ==> code.bytes == rest)
    {
      hide Pieces, Remains, Cuts, Emit;
      ghost var any := false;
      for i := 0 to |sigs|
        invariant !(with.constScriptCode && any)
        invariant var (rest, found) := Stripped(code.bytes, sigs[i..]);
          Stripped(old(code.bytes), sigs) == (rest, any || found)
      {
        EmitNonEmpty(Push(sigs[i]));
        var found := FindAndDelete(code, Emit(Push(sigs[i])));
        any := any || found > 0;
        if found > 0 && with.constScriptCode {
          return Threw(Other(1));
        }
      }
      return Success;
    }

    /** A number, at most `limit`, and as many frames of data; they count as operations. */
    method TakeCounted(limit: int, tooMany: Error) returns (s: Status, data: seq<seq<octet>>)
      modifies this
      ensures s == Success <==> Counted(old(stack), old(opCount), limit, with.minimalData)
      ensures s == Success ==>
        var st := old(stack);
        var n := Count(st, 0, with.minimalData);
        data == AllData(st[1..n + 1]) && opCount == old(opCount) + n && stack == st[n + 1..]
    {
      hide IntOf, DataOf, AllData;
      data := [];
      ghost var st := stack;
      var n;
      s, n := TakeInt();
      if s != Success { return; }
      if n < 0 || n > limit {
        return Threw(tooMany), [];
      }
      opCount := opCount + n;
      if opCount > MAX_OPS_PER_SCRIPT {
        return Threw(OpCount), [];
      }
      if |stack| < n {
        return Threw(Other(2)), [];
      }
      data := TakeData(n);
      assert st[1..][..n] == st[1..n + 1] && stack == st[n + 1..];
    }

    /** Keys and signatures from the stack. */
    method TakeKeysAndSignatures() returns (s: Status, keys: seq<seq<octet>>, sigs: seq<seq<octet>>)
      modifies this
      ensures s == Success <==> Laid(with, old(stack), old(opCount))
      ensures s == Success ==>
        var st := old(stack);
        var n := Count(st, 0, with.minimalData);
        var k := Count(st, n + 1, with.minimalData);
        && keys == AllData(st[1..n + 1]) && sigs == AllData(st[n + 2..n + 2 + k])
        && opCount == old(opCount) + n + k && stack == st[n + k + 2..]
    {
      hide IntOf, DataOf, AllData;
      keys, sigs := [], [];
      if |stack| < 1 {
        return Threw(Other(2)), [], [];
      }
      ghost var st := stack;
      s, keys := TakeCounted(MAX_PUBKEYS_PER_MULTISIG, Other(3));
      if s != Success { return; }
      ghost var below := stack;
      s, sigs := TakeCounted(|keys|, Other(4));
      if s == Success {
        ghost var n, k := |keys|, |sigs|;
        assert below[1..k + 1] == st[n + 2..n + 2 + k] && below[k + 1..] == st[n + k + 2..];
      }
    }

    /** Signatures, their number, keys and their number are taken, with no encoding flags set:
        the operation pushes a number exactly when the stack is ready, and the number tells whether the signatures
        can be assigned to the keys. */
    method CheckMultiSig(script: seq<octet>, separator: nat) returns (s: Status)
      requires separator <= |script|
      modifies this
      ensures s == Success <==> Ready(with, old(stack), old(opCount), script[separator..])
      ensures s == Success ==>
        var st := old(stack);
        var n := Count(st, 0, with.minimalData);
        var k := Count(st, n + 1, with.minimalData);
        var keys, sigs := AllData(st[1..n + 1]), AllData(st[n + 2..n + 2 + k]);
        var code := if with.base then Stripped(script[separator..], sigs).0 else script[separator..];
        && opCount == old(opCount) + n + k
        && stack == [Number(if Assignable(sigs, keys, (sig, key) => with.checkSig(sig, key, code)) then 1 else 0)] +
          st[n + k + 3..]
    {
      hide Assignable, Stripped, IntOf, DataOf, Count;
      var keys, sigs;
      s, keys, sigs := TakeKeysAndSignatures();
      if s != Success { return; }
      var code := new Script();
      code.bytes := script[separator..];
      if with.base {
        s := StripSignatures(code, sigs);
        if s != Success { return; }
      }
      var signed := code.bytes;
      var success := MatchSignatures(sigs, keys, (sig, key) => with.checkSig(sig, key, signed));
      if |stack| < 1 {
        return Threw(Other(2));
      }
      if with.nullDummy && DataOf(stack[0]) != [] {
        return Threw(Other(5));
      }
      stack := stack[1..];
      stack := [Number(if success then 1 else 0)] + stack;
      s := Success;
    }
  }
}

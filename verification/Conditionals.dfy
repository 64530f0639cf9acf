/** Nested conditionals of the script machine, src/script/Interpreter.cpp: what one instruction does,
    a run over flat code with a vector of flags, and a run over trees of branches. */
module Conditionals {
  import opened ByteTypes
  import opened Wrappers
  import opened S = Script
  import N = ScriptNum

  const OP_16 := 0x60
  const OP_IF := 0x63
  const OP_NOTIF := 0x64
  const OP_VERIF := 0x65
  const OP_VERNOTIF := 0x66
  const OP_ELSE := 0x67
  const OP_ENDIF := 0x68

  const MAX_SCRIPT_SIZE := 10000
  const MAX_SCRIPT_ELEMENT_SIZE := 520
  const MAX_OPS_PER_SCRIPT := 201
  const MAX_STACK_SIZE := 1000

  datatype Error =
    | BadOpcode
    | PushSize
    | OpCount
    | StackSize
    | ScriptSize
    | UnbalancedConditional
    | MinimalIf
    | Other(code: nat)

  /** How the code ends: normally, with an exception, or in a failed assertion. */
  datatype Status = Success | Threw(error: Error) | Assertion

  datatype Frame = Data(bytes: seq<octet>) | Number(value: int)

  /** What the instructions work on; the top of each stack comes first. */
  datatype Machine = Machine(stack: seq<Frame>, alt: seq<Frame>, opCount: nat, separator: nat)

  /** One instruction, with the position after it. */
  datatype Instr = Instr(opcode: octet, data: seq<octet>, after: nat)

  /** A run goes on, or throws, or fails an assertion. */
  datatype Outcome = Go(m: Machine) | Failed(error: Error, at: Machine) | Aborted

  /** What is the same throughout a run: the instructions that are not conditionals, and whether
      minimal conditions are asked for. */
  datatype Env = Env(exec: (Instr, Machine) -> Outcome, minimalIf: bool)

  // ---------------------------------------------------------------- one instruction

  predicate CastToBool(f: Frame) {
    match f
    case Number(v) => v != 0
    case Data(b) => exists k | 0 <= k < |b| :: b[k] != 0
  }

  /** The condition is longer than it must be. */
  predicate NotMinimal(f: Frame) {
    match f
    case Data(b) => |b| > 1 || (|b| == 1 && b[0] != 1)
    case Number(v) => v > 0xff
  }

  /** Data holds when the number its bytes make up, the sign bit included, is not zero. */
  lemma TruthOfData(b: seq<octet>)
    ensures CastToBool(Data(b)) <==> N.Magnitude(b) != 0
  {
    AnyByte(b);
  }

  lemma {:induction false} AnyByte(b: seq<octet>)
    ensures N.Magnitude(b) != 0 <==> exists k :: 0 <= k < |b| && b[k] != 0
  {
    if b != [] {
      AnyByte(b[1..]);
      if b[0] == 0 {
        assert forall k | 0 < k < |b| :: b[k] == b[1..][k - 1];
        assert forall k | 0 <= k < |b| - 1 :: b[1..][k] == b[k + 1];
      }
    }
  }

  /** A number holds exactly when it is not zero, and exactly when its serialisation does. */
  lemma TruthOfNumber(v: int)
    ensures CastToBool(Number(v)) <==> v != 0
    ensures CastToBool(Number(v)) <==> CastToBool(Data(N.Encode(v)))
  {
    TruthOfData(N.Encode(v));
    if v == 0 {
      assert N.Encode(v) == [];
    } else {
      N.EncodeNotZero(v);
    }
  }

  /** Zero with a sign. */
  predicate NegativeZero(b: seq<octet>) {
    b != [] && b[|b| - 1] == 128 && forall k | 0 <= k < |b| - 1 :: b[k] == 0
  }

  /** Data and the number read from it are both true or both false, except for a negative zero,
      which is true as data and zero as a number. */
  lemma TruthAndValue(b: seq<octet>)
    ensures (CastToBool(Data(b)) <==> N.Decode(b) != 0) <==> !NegativeZero(b)
  {
    hide N.Magnitude, N.Unsigned, CastToBool;
    TruthOfData(b);
    if b == [] {
      NothingIsZero();
    } else {
      N.SignBit(b);
      SignedZero(b);
    }
  }

  lemma NothingIsZero()
    ensures N.Magnitude([]) == 0
  {
  }

  lemma SignedZero(b: seq<octet>)
    requires b != []
    ensures b[|b| - 1] >= 128 ==> (NegativeZero(b) <==> N.Magnitude(N.Unsigned(b)) == 0) && N.Magnitude(b) != 0
  {
    hide N.Magnitude;
    AnyByte(b);
    var u := N.Unsigned(b);
    AnyByte(u);
    assert u[|b| - 1] == b[|b| - 1] % 128;
    assert forall k | 0 <= k < |b| - 1 :: u[k] == b[k];
  }

  /** Of data, only nothing and a single one are minimal. A number up to 255 passes whatever its
      serialisation, so the two agree exactly for zero, one and what is above 255. */
  lemma MinimalConditions(b: seq<octet>, v: int)
    ensures !NotMinimal(Data(b)) <==> b == [] || b == [1]
    ensures (NotMinimal(Number(v)) <==> NotMinimal(Data(N.Encode(v)))) <==> v == 0 || v == 1 || v > 255
  {
    N.DecodeEncode(v);
    OneEncoded();
    if N.Encode(v) == [1] {
      assert v == 1;
    }
  }

  lemma OneEncoded()
    ensures N.Encode(0) == [] && N.Encode(1) == [1] && N.Decode([]) == 0 && N.Decode([1]) == 1
  {
    assert N.Bytes(0) == [];
  }

  predicate Conditional(opcode: octet) {
    opcode == OP_IF || opcode == OP_NOTIF || opcode == OP_ELSE || opcode == OP_ENDIF
  }

  /** Before any instruction: the size of its data, and the count of those above OP_16. */
  function Before(i: Instr, m: Machine): (r: Outcome) {
    if |i.data| > MAX_SCRIPT_ELEMENT_SIZE then Failed(PushSize, m)
    else if i.opcode > OP_16 then
      var m1 := m.(opCount := m.opCount + 1);
      if m1.opCount > MAX_OPS_PER_SCRIPT then Failed(OpCount, m1) else Go(m1)
    else Go(m)
  }

  /** After it: the sizes of the stacks. */
  function After(m: Machine): (r: Outcome) {
    if |m.stack| + |m.alt| > MAX_STACK_SIZE then Failed(StackSize, m) else Go(m)
  }

  /** IF and NOTIF where code is executed: the flag, and the machine without the condition. */
  datatype Choice = Chosen(flag: bool, m: Machine) | NotChosen(error: Error, m: Machine)

  function Choose(env: Env, opcode: octet, m: Machine): (r: Choice) {
    if m.stack == [] then NotChosen(UnbalancedConditional, m)
    else
      var top, m1 := m.stack[0], m.(stack := m.stack[1..]);
      if env.minimalIf && NotMinimal(top) then NotChosen(MinimalIf, m1)
      else Chosen(if opcode == OP_NOTIF then !CastToBool(top) else CastToBool(top), m1)
  }

  /** An instruction that is not a conditional, where code is executed. A direct push leaves the
      loop's body before the sizes of the stacks are looked at; the two opcodes between NOTIF and
      ELSE do nothing. */
  function Execute(env: Env, i: Instr, m: Machine): (r: Outcome) {
    if i.opcode == OP_VERIF || i.opcode == OP_VERNOTIF then After(m)
    else
      var o := env.exec(i, m);
      if o.Go? && i.opcode >= OP_PUSHDATA1 then After(o.m) else o
  }

  // ---------------------------------------------------------------- flat code

  /** All flags are set: instructions are executed. */
  predicate MustExecute(flags: seq<bool>) {
    forall k | 0 <= k < |flags| :: flags[k]
  }

  datatype Flat = Flat(outcome: Outcome, flags: seq<bool>)

  /** One round of the loop; the innermost flag comes first. */
  function Step(env: Env, i: Instr, flags: seq<bool>, m: Machine): (r: Flat) {
    var o := Before(i, m);
    if !o.Go? then Flat(o, flags)
    else if i.opcode == OP_IF || i.opcode == OP_NOTIF then
      if !MustExecute(flags) then Flat(After(o.m), [false] + flags)
      else
        match Choose(env, i.opcode, o.m)
        case NotChosen(e, m1) => Flat(Failed(e, m1), flags)
        case Chosen(flag, m1) => Flat(After(m1), [flag] + flags)
    else if i.opcode == OP_ELSE then
      if flags == [] then Flat(Failed(UnbalancedConditional, o.m), flags)
        else Flat(After(o.m), [!flags[0]] + flags[1..])
    else if i.opcode == OP_ENDIF then
      if flags == [] then Flat(Failed(UnbalancedConditional, o.m), flags) else Flat(After(o.m), flags[1..])
    else if MustExecute(flags) then Flat(Execute(env, i, o.m), flags)
    else Flat(After(o.m), flags)
  }

  function RunFlat(env: Env, code: seq<Instr>, flags: seq<bool>, m: Machine): (r: Flat)
    decreases |code|
  {
    if code == [] then Flat(Go(m), flags)
    else
      var s := Step(env, code[0], flags, m);
      if s.outcome.Go? then RunFlat(env, code[1..], s.flags, s.outcome.m) else s
  }

  /** Flags that are left over at the end are an error. */
  function Ended(s: Flat): (r: Flat) {
    if s.outcome.Go? && s.flags != [] then Flat(Failed(UnbalancedConditional, s.outcome.m), s.flags) else s
  }

  // ---------------------------------------------------------------- structured code

  /** A sequence of instructions and conditionals. */
  datatype Block =
    | End
    | Plain(i: Instr, next: Block)
    | Cond(open: Instr, branches: Branches, close: Instr, next: Block)

  /** The branches of one conditional, with the ELSE between each two: there may be any number. */
  datatype Branches = Last(body: Block) | Else(body: Block, els: Instr, more: Branches)

  predicate WellFormed(b: Block) {
    match b
    case End => true
    case Plain(i, next) => !Conditional(i.opcode) && WellFormed(next)
    case Cond(open, branches, close, next) =>
      (open.opcode == OP_IF || open.opcode == OP_NOTIF) && WellFormedBranches(branches) &&
        close.opcode == OP_ENDIF && WellFormed(next)
  }

  predicate WellFormedBranches(bs: Branches) {
    match bs
    case Last(body) => WellFormed(body)
    case Else(body, els, more) => WellFormed(body) && els.opcode == OP_ELSE && WellFormedBranches(more)
  }

  function Flatten(b: Block): (r: seq<Instr>) {
    match b
    case End => []
    case Plain(i, next) => [i] + Flatten(next)
    case Cond(open, branches, close, next) => [open] + FlattenBranches(branches) + [close] + Flatten(next)
  }

  function FlattenBranches(bs: Branches): (r: seq<Instr>) {
    match bs
    case Last(body) => Flatten(body)
    case Else(body, els, more) => Flatten(body) + [els] + FlattenBranches(more)
  }

  /** An instruction that is read but not executed. */
  function Pass(i: Instr, m: Machine): (r: Outcome) {
    var o := Before(i, m);
    if o.Go? then After(o.m) else o
  }

  /** What IF or NOTIF does: the decision about the first branch, and the machine to go on with. */
  function Enter(env: Env, open: Instr, live: bool, m: Machine): (r: (bool, Outcome)) {
    var o := Before(open, m);
    if !live then (false, Pass(open, m))
    else if !o.Go? then (false, o)
    else
      match Choose(env, open.opcode, o.m)
      case NotChosen(e, m1) => (false, Failed(e, m1))
      case Chosen(flag, m1) => (flag, After(m1))
  }

  function RunPlain(env: Env, i: Instr, m: Machine): (r: Outcome) {
    var o := Before(i, m);
    if o.Go? then Execute(env, i, o.m) else o
  }

  /** The meaning of a block: executed, or only read past. */
  function Run(env: Env, b: Block, live: bool, m: Machine): (r: Outcome) {
    match b
    case End => Go(m)
    case Plain(i, next) =>
      var o := if live then RunPlain(env, i, m) else Pass(i, m);
      if o.Go? then Run(env, next, live, o.m) else o
    case Cond(open, branches, close, next) =>
      var (flag, e) := Enter(env, open, live, m);
      if !e.Go? then e
      else
        var o := RunBranches(env, branches, live, flag, e.m);
        if !o.Go? then o
        else
          var c := Pass(close, o.m);
          if c.Go? then Run(env, next, live, c.m) else c
  }

  /** A branch is executed when its conditional is and the decision is for it; every ELSE turns the
      decision round. */
  function RunBranches(env: Env, bs: Branches, live: bool, flag: bool, m: Machine): (r: Outcome) {
    var o := Run(env, bs.body, live && flag, m);
    if !o.Go? || bs.Last? then o
    else
      var p := Pass(bs.els, o.m);
      if p.Go? then RunBranches(env, bs.more, live, !flag, p.m) else p
  }

  // ---------------------------------------------------------------- flat code means the same

  lemma Innermost(flag: bool, flags: seq<bool>)
    ensures MustExecute([flag] + flags) == (flag && MustExecute(flags))
  {
    var f := [flag] + flags;
    assert f[0] == flag && f[1..] == flags;
    if MustExecute(f) {
      forall k | 0 <= k < |flags| ensures flags[k] {
        assert f[k + 1];
      }
    }
  }

  lemma RunOn(env: Env, i: Instr, rest: seq<Instr>, flags: seq<bool>, m: Machine)
    ensures var s := Step(env, i, flags, m);
      RunFlat(env, [i] + rest, flags, m) == if s.outcome.Go? then RunFlat(env, rest, s.flags, s.outcome.m) else s
  {
    hide Step;
    assert ([i] + rest)[1..] == rest;
  }

  /** Running the flat form of a block has its meaning, and leaves the flags as they were. */
  lemma {:induction false} FlatBlock(env: Env, b: Block, rest: seq<Instr>, flags: seq<bool>, m: Machine)
    requires WellFormed(b)
    ensures var f, o := RunFlat(env, Flatten(b) + rest, flags, m), Run(env, b, MustExecute(flags), m);
      if o.Go? then f == RunFlat(env, rest, flags, o.m) else f.outcome == o
    decreases b
  {
    hide Before, After, Choose, Execute, MustExecute, RunFlat;
    match b
    case End =>
      assert Flatten(b) + rest == rest;
    case Plain(i, next) =>
      assert Flatten(b) + rest == [i] + (Flatten(next) + rest);
      RunOn(env, i, Flatten(next) + rest, flags, m);
      var o := if MustExecute(flags) then RunPlain(env, i, m) else Pass(i, m);
      if o.Go? {
        FlatBlock(env, next, rest, flags, o.m);
      }
    case Cond(open, branches, close, next) =>
      var inner := FlattenBranches(branches) + ([close] + (Flatten(next) + rest));
      assert Flatten(b) + rest == [open] + inner;
      RunOn(env, open, inner, flags, m);
      var (flag, e) := Enter(env, open, MustExecute(flags), m);
      if e.Go? {
        FlatBranches(env, branches, close, Flatten(next) + rest, flags, flag, e.m);
        var o := RunBranches(env, branches, MustExecute(flags), flag, e.m);
        if o.Go? && Pass(close, o.m).Go? {
          FlatBlock(env, next, rest, flags, Pass(close, o.m).m);
        }
      }
  }

  /** The same for the branches of a conditional, up to and with its ENDIF. */
  lemma {:induction false} FlatBranches(env: Env, bs: Branches, close: Instr, rest: seq<Instr>, flags: seq<bool>,
      flag: bool, m: Machine)
    requires WellFormedBranches(bs) && close.opcode == OP_ENDIF
    ensures var f := RunFlat(env, FlattenBranches(bs) + ([close] + rest), [flag] + flags, m);
      var o := RunBranches(env, bs, MustExecute(flags), flag, m);
      if !o.Go? then f.outcome == o
      else if Pass(close, o.m).Go? then f == RunFlat(env, rest, flags, Pass(close, o.m).m)
      else f.outcome == Pass(close, o.m)
    decreases bs
  {
    hide Before, After, Choose, Execute, MustExecute, RunFlat;
    Innermost(flag, flags);
    assert ([flag] + flags)[1..] == flags;
    var live := MustExecute(flags);
    var o := Run(env, bs.body, live && flag, m);
    match bs
    case Last(body) =>
      FlatBlock(env, body, [close] + rest, [flag] + flags, m);
      if o.Go? {
        RunOn(env, close, rest, [flag] + flags, o.m);
      }
    case Else(body, els, more) =>
      var tail := FlattenBranches(more) + ([close] + rest);
      assert FlattenBranches(bs) + ([close] + rest) == Flatten(body) + ([els] + tail);
      FlatBlock(env, body, [els] + tail, [flag] + flags, m);
      if o.Go? {
        RunOn(env, els, tail, [flag] + flags, o.m);
        var p := Pass(els, o.m);
        if p.Go? {
          FlatBranches(env, more, close, rest, flags, !flag, p.m);
        }
      }
  }

  // ---------------------------------------------------------------- balance

  /** Every ELSE and ENDIF belongs to a conditional, and every conditional is ended; depth of them are
      open at the start. */
  predicate Balanced(code: seq<Instr>, depth: nat)
    decreases |code|
  {
    if code == [] then depth == 0
    else
      var op := code[0].opcode;
      if op == OP_IF || op == OP_NOTIF then Balanced(code[1..], depth + 1)
      else if op == OP_ELSE then depth > 0 && Balanced(code[1..], depth)
      else if op == OP_ENDIF then depth > 0 && Balanced(code[1..], depth - 1)
      else Balanced(code[1..], depth)
  }

  /** Only balanced code can succeed. */
  lemma {:induction false} SuccessIsBalanced(env: Env, code: seq<Instr>, flags: seq<bool>, m: Machine)
    requires Ended(RunFlat(env, code, flags, m)).outcome.Go?
    ensures Balanced(code, |flags|)
    decreases |code|
  {
    hide Before, After, Choose, Execute;
    if code != [] {
      var s := Step(env, code[0], flags, m);
      SuccessIsBalanced(env, code[1..], s.flags, s.outcome.m);
    }
  }

  /** Reads a block as far as it goes: to the end, to an ELSE or ENDIF of the conditional around it,
      or to a conditional that is not ended. */
  function ParseBlock(code: seq<Instr>): (r: (Block, seq<Instr>))
    ensures |r.1| <= |code|
    decreases |code|, 0
  {
    if code == [] || code[0].opcode == OP_ELSE || code[0].opcode == OP_ENDIF then (End, code)
    else if Conditional(code[0].opcode) then
      match ParseBranches(code[1..])
      case None => (End, code)
      case Some((branches, close, after)) =>
        var (next, rest) := ParseBlock(after);
        (Cond(code[0], branches, close, next), rest)
    else
      var (next, rest) := ParseBlock(code[1..]);
      (Plain(code[0], next), rest)
  }

  function ParseBranches(code: seq<Instr>): (r: Option<(Branches, Instr, seq<Instr>)>)
    ensures r.Some? ==> |r.value.2| < |code|
    decreases |code|, 1
  {
    var (body, rest) := ParseBlock(code);
    if rest == [] then None
    else if rest[0].opcode == OP_ENDIF then Some((Last(body), rest[0], rest[1..]))
    else if rest[0].opcode == OP_ELSE then
      match ParseBranches(rest[1..])
      case None => None
      case Some((more, close, after)) => Some((Else(body, rest[0], more), close, after))
    else None
  }

  lemma BalancedStep(i: Instr, rest: seq<Instr>, depth: nat)
    ensures Balanced([i] + rest, depth) ==
      if i.opcode == OP_IF || i.opcode == OP_NOTIF then Balanced(rest, depth + 1)
      else if i.opcode == OP_ELSE then depth > 0 && Balanced(rest, depth)
      else if i.opcode == OP_ENDIF then depth > 0 && Balanced(rest, depth - 1)
      else Balanced(rest, depth)
  {
    assert ([i] + rest)[1..] == rest;
  }

  /** The flat form of a block changes nothing about the balance. */
  lemma {:induction false} BlockIsBalanced(b: Block, rest: seq<Instr>, depth: nat)
    requires WellFormed(b)
    ensures Balanced(Flatten(b) + rest, depth) == Balanced(rest, depth)
    decreases b
  {
    hide Balanced;
    match b
    case End =>
      assert Flatten(b) + rest == rest;
    case Plain(i, next) =>
      assert Flatten(b) + rest == [i] + (Flatten(next) + rest);
      BalancedStep(i, Flatten(next) + rest, depth);
      BlockIsBalanced(next, rest, depth);
    case Cond(open, branches, close, next) =>
      var after := Flatten(next) + rest;
      assert Flatten(b) + rest == [open] + (FlattenBranches(branches) + ([close] + after));
      BalancedStep(open, FlattenBranches(branches) + ([close] + after), depth);
      BranchesAreBalanced(branches, [close] + after, depth + 1);
      BalancedStep(close, after, depth + 1);
      BlockIsBalanced(next, rest, depth);
  }

  lemma {:induction false} BranchesAreBalanced(bs: Branches, rest: seq<Instr>, depth: nat)
    requires WellFormedBranches(bs) && depth > 0
    ensures Balanced(FlattenBranches(bs) + rest, depth) == Balanced(rest, depth)
    decreases bs
  {
    hide Balanced;
    match bs
    case Last(body) => BlockIsBalanced(body, rest, depth);
    case Else(body, els, more) =>
      assert FlattenBranches(bs) + rest == Flatten(body) + ([els] + (FlattenBranches(more) + rest));
      BlockIsBalanced(body, [els] + (FlattenBranches(more) + rest), depth);
      BalancedStep(els, FlattenBranches(more) + rest, depth);
      BranchesAreBalanced(more, rest, depth);
  }

  /** What was parsed is the code; in balanced code parsing stops only at an ELSE or ENDIF, or at the end. */
  lemma {:induction false} ParseBlockIs(code: seq<Instr>, depth: nat)
    ensures var (b, rest) := ParseBlock(code);
      && WellFormed(b) && code == Flatten(b) + rest
      && (Balanced(code, depth) ==> rest == [] || rest[0].opcode == OP_ELSE || rest[0].opcode == OP_ENDIF)
    decreases |code|, 0
  {
    hide Balanced, Flatten, FlattenBranches;
    FlattenFirst();
    if code != [] && code[0].opcode != OP_ELSE && code[0].opcode != OP_ENDIF {
      var op := code[0].opcode;
      assert code == [code[0]] + code[1..];
      BalancedStep(code[0], code[1..], depth);
      if Conditional(op) {
        ParseBranchesIs(code[1..], depth + 1);
        match ParseBranches(code[1..])
        case None =>
        case Some((branches, close, after)) =>
          ParseBlockIs(after, depth);
          var (next, rest) := ParseBlock(after);
          CondIs(code[0], branches, close, next, rest, depth);
      } else {
        ParseBlockIs(code[1..], depth);
      }
    }
  }

  lemma CondIs(open: Instr, branches: Branches, close: Instr, next: Block, rest: seq<Instr>, depth: nat)
    requires (open.opcode == OP_IF || open.opcode == OP_NOTIF) && WellFormedBranches(branches) &&
      close.opcode == OP_ENDIF
    ensures var after := Flatten(next) + rest;
      var code := [open] + (FlattenBranches(branches) + ([close] + after));
      code == Flatten(Cond(open, branches, close, next)) + rest && Balanced(code, depth) == Balanced(after, depth)
  {
    hide Balanced, WellFormedBranches, Flatten, FlattenBranches;
    var after := Flatten(next) + rest;
    FlattenCond(open, branches, close, next);
    BalancedStep(open, FlattenBranches(branches) + ([close] + after), depth);
    BranchesAreBalanced(branches, [close] + after, depth + 1);
    BalancedStep(close, after, depth + 1);
  }

  lemma FlattenFirst()
    ensures Flatten(End) == []
    ensures forall i, next :: Flatten(Plain(i, next)) == [i] + Flatten(next)
  {
  }

  lemma FlattenCond(open: Instr, branches: Branches, close: Instr, next: Block)
    ensures Flatten(Cond(open, branches, close, next)) == [open] + FlattenBranches(branches) + [close] + Flatten(next)
  {
  }

  lemma {:induction false} ParseBranchesIs(code: seq<Instr>, depth: nat)
    requires depth > 0
    ensures match ParseBranches(code)
      case None => !Balanced(code, depth)
      case Some((bs, close, after)) =>
        WellFormedBranches(bs) && close.opcode == OP_ENDIF && code == FlattenBranches(bs) + ([close] + after)
    decreases |code|, 1
  {
    hide Balanced, Flatten, FlattenBranches;
    ParseBlockIs(code, depth);
    var (body, rest) := ParseBlock(code);
    BlockIsBalanced(body, rest, depth);
    if rest == [] {
      NothingIsUnbalanced(depth);
    } else if rest[0].opcode == OP_ENDIF {
      assert rest == [rest[0]] + rest[1..];
      LastBranch(body, rest);
    } else if rest[0].opcode == OP_ELSE {
      assert rest == [rest[0]] + rest[1..];
      BalancedStep(rest[0], rest[1..], depth);
      ParseBranchesIs(rest[1..], depth);
      match ParseBranches(rest[1..])
      case None =>
      case Some((more, close, after)) => ElseBranch(body, rest[0], more, [close] + after);
    }
  }

  lemma LastBranch(body: Block, rest: seq<Instr>)
    ensures Flatten(body) + rest == FlattenBranches(Last(body)) + rest
  {
  }

  lemma ElseBranch(body: Block, els: Instr, more: Branches, rest: seq<Instr>)
    ensures Flatten(body) + ([els] + (FlattenBranches(more) + rest)) == FlattenBranches(Else(body, els, more)) + rest
  {
    hide Flatten;
  }

  lemma NothingIsUnbalanced(depth: nat)
    ensures Balanced([], depth) <==> depth == 0
  {
  }

  /** The tree of balanced code. */
  function Tree(code: seq<Instr>): (r: Block) {
    ParseBlock(code).0
  }

  lemma TreeOfBalanced(code: seq<Instr>)
    requires Balanced(code, 0)
    ensures WellFormed(Tree(code)) && Flatten(Tree(code)) == code
  {
    ParseBlockIs(code, 0);
    var (b, rest) := ParseBlock(code);
    BlockIsBalanced(b, rest, 0);
    assert rest == [];
  }

  /** Running flat code with a vector of flags is running its tree: the same machine and the same
      failure. Code that has no tree does not succeed. */
  lemma FlatIsStructured(env: Env, code: seq<Instr>, m: Machine)
    ensures var o := Ended(RunFlat(env, code, [], m)).outcome;
      if Balanced(code, 0) then o == Run(env, Tree(code), true, m) else !o.Go?
  {
    hide Before, After, Choose, Execute;
    if Balanced(code, 0) {
      TreeOfBalanced(code);
      assert code + [] == code;
      FlatBlock(env, Tree(code), [], [], m);
    } else if Ended(RunFlat(env, code, [], m)).outcome.Go? {
      SuccessIsBalanced(env, code, [], m);
    }
  }
}

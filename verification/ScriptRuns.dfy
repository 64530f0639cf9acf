/** What the limits of src/script/Script.hpp mean for a whole run, and two short runs in full. */
module ScriptRuns {
  import opened ByteTypes
  import opened S = Script
  import opened Conditionals
  import opened Interpreter

  // ---------------------------------------------------------------- limits

  /** How many of the instructions count as operations: those above OP_16. */
  function Operations(code: seq<Instr>): (n: nat) {
    if code == [] then 0 else Operations(code[1..]) + if code[0].opcode > 0x60 then 1 else 0
  }

  /** What is executed leaves the count of operations alone, and has errors of its own. */
  ghost predicate Neutral(env: Env) {
    && (forall i, m | env.exec(i, m).Go? :: env.exec(i, m).m.opCount == m.opCount)
    && (forall i, m | env.exec(i, m).Failed? :: env.exec(i, m).error.Other?)
  }

  /** A run that goes through has no more than 201 operations and no data of more than 520 bytes, and
      it is stopped for one of the two only when it has more. It is stopped for the sizes of the
      stacks only when they hold more than 1000 values. */
  lemma {:induction false} RunLimits(env: Env, code: seq<Instr>, flags: seq<bool>, m: Machine)
    requires Neutral(env)
    ensures var o := RunFlat(env, code, flags, m).outcome;
      && (o.Go? ==> (forall i | i in code :: |i.data| <= 520) && o.m.opCount == m.opCount + Operations(code))
      && (o.Go? && Operations(code) > 0 ==> o.m.opCount <= 201)
      && (o.Failed? && o.error == PushSize ==> exists i :: i in code && |i.data| > 520)
      && (o.Failed? && o.error == OpCount ==> m.opCount + Operations(code) > 201)
      && (o.Failed? && o.error == StackSize ==> |o.at.stack| + |o.at.alt| > 1000)
    decreases |code|
  {
    hide Step;
    if code != [] {
      var s := Step(env, code[0], flags, m);
      StepLimits(env, code[0], flags, m);
      assert code[0] in code;
      if s.outcome.Go? {
        RunLimits(env, code[1..], s.flags, s.outcome.m);
        assert forall i | i in code :: i == code[0] || i in code[1..];
      }
    }
  }

  lemma StepLimits(env: Env, i: Instr, flags: seq<bool>, m: Machine)
    requires Neutral(env)
    ensures var o, n := Step(env, i, flags, m).outcome, if i.opcode > 0x60 then 1 else 0;
      && (o.Go? ==> |i.data| <= 520 && o.m.opCount == m.opCount + n && (n > 0 ==> o.m.opCount <= 201))
      && (o.Failed? && o.error == PushSize ==> |i.data| > 520)
      && (o.Failed? && o.error == OpCount ==> m.opCount + n > 201)
      && (o.Failed? && o.error == StackSize ==> |o.at.stack| + |o.at.alt| > 1000)
      && (o.Failed? ==> o.error != ScriptSize)
  {
    hide MustExecute, CastToBool, NotMinimal;
  }

  /** A script is refused for its size exactly when it has more than 10000 bytes. */
  lemma SizeLimit(env: Env, script: seq<octet>, flags: seq<bool>, m: Machine)
    requires Neutral(env)
    ensures var o := Meaning(env, script, flags, m);
      o.Failed? && o.error == ScriptSize <==> |script| > 10000
  {
    NoSizeError(env, Decode(script, 0).0, flags, m.(opCount := 0, separator := 0));
  }

  lemma {:induction false} NoSizeError(env: Env, code: seq<Instr>, flags: seq<bool>, m: Machine)
    requires Neutral(env)
    ensures var o := RunFlat(env, code, flags, m).outcome; o.Failed? ==> o.error != ScriptSize
    decreases |code|
  {
    hide Step;
    if code != [] {
      var s := Step(env, code[0], flags, m);
      StepLimits(env, code[0], flags, m);
      if s.outcome.Go? {
        NoSizeError(env, code[1..], s.flags, s.outcome.m);
      }
    }
  }

  // ---------------------------------------------------------------- opcodes that are not executed

  /** From IF to ENDIF, the two opcodes after NOTIF among them, no instruction is handed on: what it
      does does not depend on what is executed otherwise. The two only count as operations. */
  lemma NotHandedOn(env: Env, other: Env, i: Instr, flags: seq<bool>, m: Machine)
    requires 0x63 <= i.opcode <= 0x68 && env.minimalIf == other.minimalIf
    ensures Step(env, i, flags, m) == Step(other, i, flags, m)
    ensures var f := Step(env, i, flags, m);
      (i.opcode == 0x65 || i.opcode == 0x66) && f.outcome.Go? ==>
        f.flags == flags && f.outcome.m == m.(opCount := m.opCount + 1)
  {
    hide MustExecute, CastToBool, NotMinimal;
  }

  // ---------------------------------------------------------------- two short runs

  /** OP_1 pushes the number one, everything else pushes its data. */
  function Pushes(): (env: Env) {
    Env((i: Instr, m: Machine) => Go(m.(stack := [if i.opcode == 0x51 then Number(1) else Data(i.data)] + m.stack)),
        false)
  }

  /** OP_1 IF OP_1 ELSE OP_0 ENDIF leaves one, and with NOTIF in the place of IF it leaves nothing;
      both count three operations. */
  lemma ShortRuns(open: octet, m: Machine)
    requires (open == 0x63 || open == 0x64) && m == Machine([], [], 0, 0)
    ensures Meaning(Pushes(), [0x51, open, 0x51, 0x67, 0x00, 0x68], [], m) ==
      Go(Machine([if open == 0x63 then Number(1) else Data([])], [], 3, 0))
  {
    hide Complete, Step;
    var env, one, first := Pushes(), [Number(1)], open == 0x63;
    var kept := if first then one else [];
    var end := if first then one else [Data([])];
    Steps(env, open);
    assert [0x51] + [open, 0x51, 0x67, 0x00, 0x68] == [0x51, open, 0x51, 0x67, 0x00, 0x68];
    assert [open] + [0x51, 0x67, 0x00, 0x68] == [open, 0x51, 0x67, 0x00, 0x68];
    assert [0x51] + [0x67, 0x00, 0x68] == [0x51, 0x67, 0x00, 0x68] && [0x67] + [0x00, 0x68] == [0x67, 0x00, 0x68];
    assert [0x00] + [0x68] == [0x00, 0x68] && [0x68] + [] == [0x68];
    OneByte(env, 0x51, [open, 0x51, 0x67, 0x00, 0x68], 0, [], m);
    OneByte(env, open, [0x51, 0x67, 0x00, 0x68], 1, [], Machine(one, [], 0, 0));
    OneByte(env, 0x51, [0x67, 0x00, 0x68], 2, [first], Machine([], [], 1, 0));
    OneByte(env, 0x67, [0x00, 0x68], 3, [first], Machine(kept, [], 1, 0));
    OneByte(env, 0x00, [0x68], 4, [!first], Machine(kept, [], 2, 0));
    OneByte(env, 0x68, [], 5, [!first], Machine(end, [], 2, 0));
    CompleteStep(env, [], 6, [], Machine(end, [], 3, 0));
  }

  lemma Steps(env: Env, open: octet)
    requires (open == 0x63 || open == 0x64) && env == Pushes()
    ensures var first := open == 0x63;
      var kept, end := if first then [Number(1)] else [], if first then [Number(1)] else [Data([])];
      && Step(env, Instr(0x51, [], 1), [], Machine([], [], 0, 0)) == Flat(Go(Machine([Number(1)], [], 0, 0)), [])
      && Step(env, Instr(open, [], 2), [], Machine([Number(1)], [], 0, 0)) == Flat(Go(Machine([], [], 1, 0)), [first])
      && Step(env, Instr(0x51, [], 3), [first], Machine([], [], 1, 0)) == Flat(Go(Machine(kept, [], 1, 0)), [first])
      && Step(env, Instr(0x67, [], 4), [first], Machine(kept, [], 1, 0)) == Flat(Go(Machine(kept, [], 2, 0)), [!first])
      && Step(env, Instr(0, [], 5), [!first], Machine(kept, [], 2, 0)) == Flat(Go(Machine(end, [], 2, 0)), [!first])
      && Step(env, Instr(0x68, [], 6), [!first], Machine(end, [], 2, 0)) == Flat(Go(Machine(end, [], 3, 0)), [])
  {
    hide MustExecute;
    var first := open == 0x63;
    Innermost(first, []);
    Innermost(!first, []);
    assert [first] + [] == [first] && [!first] + [] == [!first] && [first][1..] == [] && [!first][1..] == [];
    NoFlags();
    assert [Number(1)] + [] == [Number(1)] && [Data([])] + [] == [Data([])];
    assert CastToBool(Number(1)) by { TruthOfNumber(1); }
  }

  lemma NoFlags()
    ensures MustExecute([])
  {
  }

  /** One instruction of a single byte, a push of nothing or an opcode. */
  lemma OneByte(env: Env, opcode: octet, rest: seq<octet>, pos: nat, flags: seq<bool>, m: Machine)
    requires |rest| < 10 && (opcode == 0 || opcode > OP_PUSHDATA4)
    ensures Complete(env, [opcode] + rest, pos, flags, m) ==
      var f := Step(env, Instr(opcode, [], pos + 1), flags, m);
      if f.outcome.Go? then Complete(env, rest, pos + 1, f.flags, f.outcome.m) else f.outcome
  {
    hide Complete, Step;
    var s := [opcode] + rest;
    assert s[1..] == rest && rest[..0] == [] && rest[0..] == rest;
    CompleteStep(env, s, pos, flags, m);
  }
}

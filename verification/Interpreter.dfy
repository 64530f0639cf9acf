/** The script machine's main loop, src/script/Interpreter.cpp, over the bytes of a script. */
module Interpreter {
  import opened ByteTypes
  import opened S = Script
  import opened Conditionals

  // ---------------------------------------------------------------- a whole script

  /** The instructions of s, which starts at position pos, and whether all of it could be read. */
  function Decode(s: seq<octet>, pos: nat): (r: (seq<Instr>, bool))
    decreases |s|
  {
    match Next(s)
    case Refused => ([], s == [])
    case Read(opcode, data, rest) =>
      var after := pos + (|s| - |rest|);
      var (code, whole) := Decode(rest, after);
      ([Instr(opcode, data, after)] + code, whole)
  }

  /** Running what can be read; then either nothing may be left, or no conditional open. */
  function Complete(env: Env, s: seq<octet>, pos: nat, flags: seq<bool>, m: Machine): (r: Outcome) {
    var (code, whole) := Decode(s, pos);
    var f := RunFlat(env, code, flags, m);
    if !f.outcome.Go? then f.outcome
    else if !whole then Failed(BadOpcode, f.outcome.m)
    else if f.flags != [] then Failed(UnbalancedConditional, f.outcome.m)
    else f.outcome
  }

  lemma CompleteStep(env: Env, s: seq<octet>, pos: nat, flags: seq<bool>, m: Machine)
    ensures var r := Next(s);
      Complete(env, s, pos, flags, m) ==
        if r.Refused? then
          if s != [] then Failed(BadOpcode, m) else if flags != [] then Failed(UnbalancedConditional, m) else Go(m)
        else
          var after := pos + (|s| - |r.rest|);
          var f := Step(env, Instr(r.opcode, r.data, after), flags, m);
          if f.outcome.Go? then Complete(env, r.rest, after, f.flags, f.outcome.m) else f.outcome
  {
    hide Next, Step;
    var r := Next(s);
    if r.Read? {
      var after := pos + (|s| - |r.rest|);
      var i := Instr(r.opcode, r.data, after);
      RunOn(env, i, Decode(r.rest, after).0, flags, m);
    }
  }

  /** What a script does to the machine it is given. */
  function Meaning(env: Env, script: seq<octet>, flags: seq<bool>, m: Machine): (r: Outcome) {
    var start := m.(opCount := 0, separator := 0);
    if |script| > MAX_SCRIPT_SIZE then Failed(ScriptSize, start) else Complete(env, script, 0, flags, start)
  }

  /** Started without open conditionals, a script that fits and can be read does what its tree does,
      and it succeeds only if it has one. */
  lemma MeaningIsStructured(env: Env, script: seq<octet>, m: Machine)
    ensures var o, (code, whole) := Meaning(env, script, [], m), Decode(script, 0);
      && (o.Go? ==> |script| <= MAX_SCRIPT_SIZE && whole && Balanced(code, 0))
      && (|script| <= MAX_SCRIPT_SIZE && whole && Balanced(code, 0) ==>
            o == Run(env, Tree(code), true, m.(opCount := 0, separator := 0)))
  {
    hide Balanced, Tree, RunFlat, Run;
    FlatIsStructured(env, Decode(script, 0).0, m.(opCount := 0, separator := 0));
  }

  // ---------------------------------------------------------------- the code

  class Interpreter {
    const env: Env
    /** The top of each stack, and the innermost flag, come first. */
    var stack: seq<Frame>
    var altStack: seq<Frame>
    var opCount: nat
    var separator: nat
    var flags: seq<bool>

    constructor (env: Env)
      ensures this.env == env && State() == Machine([], [], 0, 0) && flags == []
    {
      this.env := env;
      stack, altStack, opCount, separator, flags := [], [], 0, 0, [];
    }

    function State(): (r: Machine)
      reads this
    {
      Machine(stack, altStack, opCount, separator)
    }

    method Reset()
      modifies this
      ensures State() == Machine([], [], 0, 0) && flags == []
    {
      stack, altStack, opCount, separator, flags := [], [], 0, 0, [];
    }

    /** How a status and the state tell an outcome. */
    ghost predicate Tells(s: Status, o: Outcome)
      reads this
    {
      match o
      case Go(m) => s == Success && State() == m
      case Failed(e, at) => s == Threw(e) && State() == at
      case Aborted => s == Assertion
    }

    /** CastToBool: a number that is not zero, or data with a byte that is not. */
    method IsTrue(frame: Frame) returns (r: bool)
      ensures r <==> CastToBool(frame)
    {
      match frame
      case Number(v) => return v != 0;
      case Data(b) =>
        for k := 0 to |b|
          invariant forall j | 0 <= j < k :: b[j] == 0
        {
          if b[k] != 0 { return true; }
        }
        return false;
    }

    /** IF or NOTIF in code that is executed. */
    method TakeCondition(opcode: octet) returns (s: Status)
      modifies this
      ensures var c := Choose(env, opcode, old(State()));
        if c.Chosen? then s == Success && State() == c.m && flags == [c.flag] + old(flags)
        else s == Threw(c.error) && State() == c.m && flags == old(flags)
    {
      hide CastToBool;
      if stack == [] {
        return Threw(UnbalancedConditional);
      }
      var frame := stack[0];
      stack := stack[1..];
      if env.minimalIf {
        match frame
        case Data(b) =>
          if |b| > 1 || (|b| == 1 && b[0] != 1) {
            return Threw(MinimalIf);
          }
        case Number(v) =>
          if v > 0xff {
            return Threw(MinimalIf);
          }
      }
      var flag := IsTrue(frame);
      if opcode == OP_NOTIF {
        flag := !flag;
      }
      flags := [flag] + flags;
      return Success;
    }

    /** Everything else in code that is executed; the caller is told whether to look at the sizes. */
    method Dispatch(i: Instr) returns (s: Status, check: bool)
      modifies this
      ensures flags == old(flags)
      ensures var o := if i.opcode == OP_VERIF || i.opcode == OP_VERNOTIF then Go(old(State()))
        else env.exec(i, old(State()));
        Tells(s, o) && (check <==> i.opcode >= OP_PUSHDATA1)
    {
      check := i.opcode >= OP_PUSHDATA1;
      s := Success;
      if i.opcode != OP_VERIF && i.opcode != OP_VERNOTIF {
        var o := env.exec(i, State());
        match o
        case Go(m) => Restore(m);
        case Failed(e, m) => Restore(m); s := Threw(e);
        case Aborted => s := Assertion;
      }
    }

    method Restore(m: Machine)
      modifies this
      ensures State() == m && flags == old(flags)
    {
      stack, altStack, opCount, separator := m.stack, m.alt, m.opCount, m.separator;
    }

    /** One round of the loop, past the reading of the instruction. */
    method DoInstruction(i: Instr) returns (s: Status)
      modifies this
      ensures var f := Step(env, i, old(flags), old(State()));
        Tells(s, f.outcome) && (f.outcome.Go? ==> flags == f.flags)
    {
      hide MustExecute, Choose;
      var mustExecuted := MustExecute(flags);
      if |i.data| > MAX_SCRIPT_ELEMENT_SIZE {
        return Threw(PushSize);
      }
      if i.opcode > OP_16 {
        opCount := opCount + 1;
        if opCount > MAX_OPS_PER_SCRIPT {
          return Threw(OpCount);
        }
      }
      if i.opcode == OP_IF || i.opcode == OP_NOTIF {
        if !mustExecuted {
          flags := [false] + flags;
        } else {
          s := TakeCondition(i.opcode);
          if s != Success { return; }
        }
      } else if i.opcode == OP_ELSE {
        if flags == [] {
          return Threw(UnbalancedConditional);
        }
        flags := [!flags[0]] + flags[1..];
      } else if i.opcode == OP_ENDIF {
        if flags == [] {
          return Threw(UnbalancedConditional);
        }
        flags := flags[1..];
      } else if mustExecuted {
        var check;
        s, check := Dispatch(i);
        if s != Success || !check { return; }
      }
      if |stack| + |altStack| > MAX_STACK_SIZE {
        return Threw(StackSize);
      }
      return Success;
    }

    /** The flags are those of an earlier run that failed, unless Reset was called. */
    method Execute(script: Script) returns (s: Status)
      modifies this
      ensures Tells(s, Meaning(env, script.bytes, old(flags), old(State())))
      ensures s == Success ==> flags == []
    {
      hide Step, Complete;
      separator, opCount := 0, 0;
      if |script.bytes| > MAX_SCRIPT_SIZE {
        return Threw(ScriptSize);
      }
      var pc := 0;
      ghost var b := script.bytes;
      assert b[0..] == b;
      while pc < |script.bytes|
        invariant 0 <= pc <= |b| && script.bytes == b
        invariant Complete(env, b[pc..], pc, flags, State()) == Meaning(env, b, old(flags), old(State()))
        decreases |b| - pc
      {
        CompleteStep(env, b[pc..], pc, flags, State());
        var ok, next, opcode, data := script.GetOp(pc);
        if !ok {
          return Threw(BadOpcode);
        }
        pc := next;
        s := DoInstruction(Instr(opcode, data, pc));
        if s != Success { return; }
      }
      assert b[pc..] == [];
      NextOfNothing();
      CompleteStep(env, [], pc, flags, State());
      if flags != [] {
        return Threw(UnbalancedConditional);
      }
      return Success;
    }

    /** A run from scratch succeeds exactly when the script fits, can be read, has a tree, and running
        the tree succeeds. */
    method ResetAndExecute(script: Script) returns (s: Status)
      modifies this
      ensures var (code, whole) := Decode(script.bytes, 0);
        s == Success <==>
          |script.bytes| <= MAX_SCRIPT_SIZE && whole && Balanced(code, 0) &&
            Run(env, Tree(code), true, Machine([], [], 0, 0)).Go?
      ensures s == Success ==>
        flags == [] && Run(env, Tree(Decode(script.bytes, 0).0), true, Machine([], [], 0, 0)) == Go(State())
    {
      hide Decode, Balanced, Tree, Run, Meaning;
      Reset();
      MeaningIsStructured(env, script.bytes, State());
      s := Execute(script);
    }
  }
}

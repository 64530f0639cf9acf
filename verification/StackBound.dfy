/** How many values the stacks can hold when a script ends, src/script/Interpreter.cpp. */
module StackBound {
  import opened ByteTypes
  import opened S = Script
  import opened Conditionals
  import opened Interpreter

  function Size(m: Machine): (n: nat) {
    |m.stack| + |m.alt|
  }

  /** A push whose size is in the opcode leaves the loop's body before the sizes are looked at. */
  predicate Direct(i: Instr) {
    i.opcode < OP_PUSHDATA1
  }

  ghost predicate AllDirect(code: seq<Instr>) {
    forall i | i in code :: Direct(i)
  }

  /** Running code in two parts. */
  lemma {:induction false} RunParts(env: Env, a: seq<Instr>, b: seq<Instr>, flags: seq<bool>, m: Machine)
    ensures var f := RunFlat(env, a, flags, m);
      RunFlat(env, a + b, flags, m) == if f.outcome.Go? then RunFlat(env, b, f.flags, f.outcome.m) else f
    decreases |a|
  {
    hide Step;
    if a == [] {
      assert a + b == b;
    } else {
      assert (a + b)[1..] == a[1..] + b;
      var s := Step(env, a[0], flags, m);
      if s.outcome.Go? {
        RunParts(env, a[1..], b, s.flags, s.outcome.m);
      }
    }
  }

  /** Every instruction but a direct push is followed by the check. */
  lemma CheckedStep(env: Env, i: Instr, flags: seq<bool>, m: Machine)
    requires Step(env, i, flags, m).outcome.Go? && (!Direct(i) || !MustExecute(flags))
    ensures Size(Step(env, i, flags, m).outcome.m) <= MAX_STACK_SIZE
  {
    hide Before, Choose, MustExecute;
  }

  /** A run that ends with anything but a direct push leaves at most 1000 values. */
  lemma CheckedEnd(env: Env, code: seq<Instr>, flags: seq<bool>, m: Machine)
    requires code != [] && !Direct(code[|code| - 1])
    requires RunFlat(env, code, flags, m).outcome.Go?
    ensures Size(RunFlat(env, code, flags, m).outcome.m) <= MAX_STACK_SIZE
  {
    hide Step;
    var n := |code| - 1;
    var f := RunFlat(env, code[..n], flags, m);
    assert code == code[..n] + [code[n]];
    RunParts(env, code[..n], [code[n]], flags, m);
    RunOn(env, code[n], [], f.flags, f.outcome.m);
    CheckedStep(env, code[n], f.flags, f.outcome.m);
  }

  /** A direct push that is executed puts one value on the stacks. */
  ghost predicate PushesOne(env: Env) {
    forall i, m | Direct(i) && env.exec(i, m).Go? :: Size(env.exec(i, m).m) == Size(m) + 1
  }

  /** Direct pushes add one value each where code is executed, and none where it is not. */
  lemma {:induction false} PushesAdd(env: Env, code: seq<Instr>, flags: seq<bool>, m: Machine)
    requires PushesOne(env) && AllDirect(code) && RunFlat(env, code, flags, m).outcome.Go?
    ensures var f := RunFlat(env, code, flags, m);
      f.flags == flags && Size(f.outcome.m) == Size(m) + if MustExecute(flags) then |code| else 0
    decreases |code|
  {
    hide MustExecute;
    if code != [] {
      var s := Step(env, code[0], flags, m);
      assert code[0] in code && Direct(code[0]);
      PushesAdd(env, code[1..], s.flags, s.outcome.m);
    }
  }

  /** A successful run leaves at most 1000 values exactly when those at the last instruction that is
      checked, plus the direct pushes behind it, are no more. The values at that instruction always
      are no more. */
  lemma BoundIff(env: Env, checked: seq<Instr>, pushes: seq<Instr>, m: Machine)
    requires PushesOne(env) && AllDirect(pushes) && (checked != [] ==> !Direct(checked[|checked| - 1]))
    requires Ended(RunFlat(env, checked + pushes, [], m)).outcome.Go?
    ensures var mid, end := RunFlat(env, checked, [], m).outcome, RunFlat(env, checked + pushes, [], m).outcome;
      && mid.Go? && Size(end.m) == Size(mid.m) + |pushes|
      && (Size(end.m) <= MAX_STACK_SIZE <==> Size(mid.m) + |pushes| <= MAX_STACK_SIZE)
      && (checked != [] ==> Size(mid.m) <= MAX_STACK_SIZE && Size(end.m) <= MAX_STACK_SIZE + |pushes|)
  {
    RunParts(env, checked, pushes, [], m);
    var f := RunFlat(env, checked, [], m);
    PushesAdd(env, pushes, f.flags, f.outcome.m);
    if checked != [] {
      CheckedEnd(env, checked, [], m);
    }
  }

  // ---------------------------------------------------------------- a script that exceeds the bound

  /** A machine whose instructions push their data. */
  function Pusher(): (env: Env) {
    Env((i: Instr, m: Machine) => Go(m.(stack := [Data(i.data)] + m.stack)), false)
  }

  /** n bytes OP_0, each of which pushes an empty value. */
  function Empties(n: nat): (s: seq<octet>) {
    seq(n, i => 0)
  }

  lemma NextEmpty(n: nat)
    requires n > 0
    ensures Next(Empties(n)) == Read(0, [], Empties(n - 1))
  {
    assert Empties(n)[1..] == Empties(n - 1);
    assert Empties(n - 1)[..0] == [] && Empties(n - 1)[0..] == Empties(n - 1);
  }

  lemma {:induction false} RunEmpties(n: nat, pos: nat, m: Machine)
    ensures var o := Complete(Pusher(), Empties(n), pos, [], m); o.Go? && Size(o.m) == Size(m) + n
  {
    CompleteStep(Pusher(), Empties(n), pos, [], m);
    if n > 0 {
      NextEmpty(n);
      RunEmpties(n - 1, pos + 1, m.(stack := [Data([])] + m.stack));
    }
  }

  /** A script of 1001 bytes that succeeds and leaves 1001 values. */
  lemma BoundExceeded()
    ensures var o := Meaning(Pusher(), Empties(1001), [], Machine([], [], 0, 0));
      o.Go? && Size(o.m) == 1001 == MAX_STACK_SIZE + 1
  {
    RunEmpties(1001, 0, Machine([], [], 0, 0));
  }
}

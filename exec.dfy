/** The interpreter of src/exec.rs: a program counter walks the instruction
    vector, each instruction reads and writes the value store, and the run
    stops when the counter leaves the program. `StepInstr` is what one
    instruction does, `Run` is a whole run, and `Exec` is the interpreter's
    loop over the mutable store. The standard output is modelled as a trace
    of `Emit` items appended in order. */
module Exec {
  import opened Ir
  import opened VarMap

  /** What the interpreter writes: a string literal verbatim, a number, the
      end of a line, or the `time:` line with the processor clock. */
  datatype Emit = Text(text: string) | Number(n: i32) | Newline | Elapsed

  /** The new store, the next program counter and the output of one step. */
  datatype Effect = Effect(store: Store, pc: nat, out: seq<Emit>)

  /** The output of `print` on one token: its value for an identifier or a
      number literal (which reads the store), its text for a string literal. */
  function Show(s: Store, tok: Token): (r: Result<(seq<Emit>, Store)>)
    ensures r.Err? <==> tok.kind.Symbol?
    ensures r.Err? ==> r.error == CannotPrint
    ensures tok.kind.StrLiteral? ==> r == Ok(([Text(tok.text)], s))
    ensures tok.kind.Ident? || tok.kind.NumLiteral? ==> r == Ok(([Number(s.Get(tok).value.0)], s.Get(tok).value.1))
  {
    if tok.kind.Ident? || tok.kind.NumLiteral? then
      var g := s.Get(tok).value;
      Ok(([Number(g.0)], g.1))
    else if tok.kind.StrLiteral? then Ok(([Text(tok.text)], s))
    else Err(CannotPrint)
  }

  /** `dst = src`. */
  function StepCopy(dst: Token, src: Token, pc: nat, s: Store): Result<Effect> {
    var g :- s.Get(src);
    Ok(Effect(g.1.Set(dst, g.0), pc + 1, []))
  }

  /** `dst = lhs op rhs`: `lhs` is read before `rhs`, and `dst` is written
      only when the checked operation succeeds. */
  function StepBinary(op: Instr, pc: nat, s: Store): Result<Effect>
    requires IsBinary(op)
  {
    var l :- s.Get(op.lhs);
    var r :- l.1.Get(op.rhs);
    var v :- Apply(OpOf(op), l.0, r.0);
    Ok(Effect(r.1.Set(op.dst, v), pc + 1, []))
  }

  /** `print` and `println`. */
  function StepShow(tok: Token, newline: bool, pc: nat, s: Store): Result<Effect> {
    var e :- Show(s, tok);
    Ok(Effect(e.1, pc + 1, if newline then e.0 + [Newline] else e.0))
  }

  /** `goto`: the counter becomes the label's line, not advanced. */
  function StepGoto(target: Token, s: Store): Result<Effect> {
    var line :- s.LabelGet(target);
    Ok(Effect(s, AsUsize(line), []))
  }

  /** `if cond goto target`: a jump when the condition reads nonzero. */
  function StepIfGoto(cond: Token, target: Token, pc: nat, s: Store): Result<Effect> {
    var c :- s.Get(cond);
    if c.0 != 0 then
      var line :- c.1.LabelGet(target);
      Ok(Effect(c.1, AsUsize(line), []))
    else Ok(Effect(c.1, pc + 1, []))
  }

  /** `name = new [size]`: a negative size is a request for 2^64 - k elements,
      which fails with a capacity overflow. */
  function StepArrayNew(name: Token, size: Token, pc: nat, s: Store): Result<Effect> {
    var n :- s.Get(size);
    if n.0 < 0 then Err(CapacityOverflow)
    else Ok(Effect(n.1.ArrayInit(name, n.0 as nat), pc + 1, []))
  }

  /** `dst = name[index]`. */
  function StepArrayGet(dst: Token, name: Token, index: Token, pc: nat, s: Store): Result<Effect> {
    var i :- s.Get(index);
    var v :- i.1.ArrayGet(name, AsUsize(i.0));
    Ok(Effect(i.1.Set(dst, v), pc + 1, []))
  }

  /** `name[index] = value`: the index is read before the value. */
  function StepArraySet(name: Token, index: Token, value: Token, pc: nat, s: Store): Result<Effect> {
    var i :- s.Get(index);
    var v :- i.1.Get(value);
    var t :- v.1.ArraySet(name, AsUsize(i.0), v.0);
    Ok(Effect(t, pc + 1, []))
  }

  /** One instruction at `pc`, reading operands in the order the source
      does. Arithmetic is checked i32 arithmetic, a zero divisor is fatal
      before `dst` is written, a jump goes to the label's line without
      advancing, and a negative size or index becomes a huge `usize`. */
  function StepInstr(op: Instr, pc: nat, s: Store): Result<Effect> {
    match op
    case Copy(dst, src) => StepCopy(dst, src, pc, s)
    case Print(tok) => StepShow(tok, false, pc, s)
    case Println(tok) => StepShow(tok, true, pc, s)
    case Goto(target) => StepGoto(target, s)
    case IfGoto(cond, target) => StepIfGoto(cond, target, pc, s)
    case Time => Ok(Effect(s, pc + 1, [Elapsed]))
    case ArrayNew(name, size) => StepArrayNew(name, size, pc, s)
    case ArrayGet(dst, name, index) => StepArrayGet(dst, name, index, pc, s)
    case ArraySet(name, index, value) => StepArraySet(name, index, value, pc, s)
    case Nop => Ok(Effect(s, pc + 1, []))
    case _ => StepBinary(op, pc, s)
  }

  /** What every step keeps: the label table is never written, only a jump
      moves the counter anywhere but `pc + 1`, only the print instructions
      and `time` produce output, and a `goto` lands on its label's line or
      fails because the label is undefined. */
  lemma StepFacts(op: Instr, pc: nat, s: Store)
    ensures var r := StepInstr(op, pc, s);
      && (r.Ok? ==> r.value.store.labels == s.labels)
      && (r.Ok? && !op.Goto? && !op.IfGoto? ==> r.value.pc == pc + 1)
      && (r.Ok? && !op.Print? && !op.Println? && !op.Time? ==> r.value.out == [])
      && (op.Goto? ==> (r.Ok? <==> op.target.text in s.labels))
      && (op.Goto? && r.Ok? ==> r.value == Effect(s, AsUsize(s.labels[op.target.text]), []))
      && (op.Goto? && r.Err? ==> r.error == UndefinedLabel)
  {
  }

  /** A division whose divisor reads as 0 is fatal, and `dst` is not written. */
  lemma DivByZero(op: Instr, pc: nat, s: Store)
    requires op.Div? && s.Get(op.lhs).Ok? && s.Get(op.lhs).value.1.Get(op.rhs).Ok?
    requires s.Get(op.lhs).value.1.Get(op.rhs).value.0 == 0
    ensures StepInstr(op, pc, s) == Err(ZeroDivision)
  {
  }

  datatype Outcome = Halted | Faulted(error: Error) | OutOfFuel

  /** Where a run stops: its outcome, the store, the program counter and the
      whole output. */
  datatype Final = Final(outcome: Outcome, store: Store, pc: nat, out: seq<Emit>)

  /** A run from `pc` with at most `fuel` steps, whose output is appended to
      `out`. It halts exactly when the counter is at or past the end; a fault
      ends it with the store as it was before the faulting instruction. */
  function Run(code: seq<Instr>, s: Store, pc: nat, fuel: nat, out: seq<Emit>): (f: Final)
    ensures f.outcome.Halted? <==> f.pc >= |code|
    decreases fuel
  {
    if pc >= |code| then Final(Halted, s, pc, out)
    else if fuel == 0 then Final(OutOfFuel, s, pc, out)
    else
      var r := StepInstr(code[pc], pc, s);
      if r.Err? then Final(Faulted(r.error), s, pc, out)
      else Run(code, r.value.store, r.value.pc, fuel - 1, out + r.value.out)
  }

  /** No run writes the label table. */
  lemma {:induction false} RunKeepsLabels(code: seq<Instr>, s: Store, pc: nat, fuel: nat, out: seq<Emit>)
    ensures Run(code, s, pc, fuel, out).store.labels == s.labels
    decreases fuel
  {
    if pc < |code| && fuel > 0 && StepInstr(code[pc], pc, s).Ok? {
      var e := StepInstr(code[pc], pc, s).value;
      StepFacts(code[pc], pc, s);
      RunKeepsLabels(code, e.store, e.pc, fuel - 1, out + e.out);
    }
  }

  /** Unfolds `Run` by one step. */
  lemma RunStep(code: seq<Instr>, s: Store, pc: nat, fuel: nat, out: seq<Emit>)
    requires pc < |code| && fuel > 0 && StepInstr(code[pc], pc, s).Ok?
    ensures var e := StepInstr(code[pc], pc, s).value;
      Run(code, s, pc, fuel, out) == Run(code, e.store, e.pc, fuel - 1, out + e.out)
  {
  }

  /** The instructions that only print, wait or do nothing leave every array,
      every label and every scalar in place, and add no scalar except an
      unknown identifier that the print read, which now reads as 0. */
  lemma QuietStep(op: Instr, pc: nat, s: Store)
    requires op.Print? || op.Println? || op.Time? || op.Nop?
    requires StepInstr(op, pc, s).Ok?
    ensures var t := StepInstr(op, pc, s).value.store;
      && t.arrays == s.arrays && t.labels == s.labels
      && (forall k :: k in s.scalars ==> k in t.scalars && t.scalars[k] == s.scalars[k])
      && (forall k :: k in t.scalars && k !in s.scalars ==> op.operand.text == k && t.scalars[k] == 0)
  {
  }

  /** `IfGoto` jumps to the label's line when its condition reads nonzero
      and falls through to `pc + 1` when it reads 0. */
  lemma IfGotoStep(op: Instr, pc: nat, s: Store)
    requires op.IfGoto? && s.Get(op.cond).Ok?
    ensures var c := s.Get(op.cond).value;
      && (c.0 == 0 ==> StepInstr(op, pc, s) == Ok(Effect(c.1, pc + 1, [])))
      && (c.0 != 0 && op.target.text in s.labels ==>
            StepInstr(op, pc, s) == Ok(Effect(c.1, AsUsize(s.labels[op.target.text]), [])))
      && (c.0 != 0 && op.target.text !in s.labels ==> StepInstr(op, pc, s) == Err(UndefinedLabel))
  {
  }

  /** The mutable store did what the step function `e` says: the same
      error, or the same next counter and output with the store now `now`. */
  predicate Follows(r: Result<(nat, seq<Emit>)>, e: Result<Effect>, now: Store) {
    && (e.Err? ==> r.Err? && r.error == e.error)
    && (e.Ok? ==> r == Ok((e.value.pc, e.value.out)) && now == e.value.store)
  }

  /** One step of the interpreter's loop on the mutable store: the dispatch
      over the instruction at `pc`. */
  method ExecStep(code: seq<Instr>, pc: nat, vm: VariableMap) returns (r: Result<(nat, seq<Emit>)>)
    requires pc < |code|
    modifies vm
    ensures Follows(r, StepInstr(code[pc], pc, old(vm.Value())), vm.Value())
  {
    var op := code[pc];
    if op.Copy? {
      r := ExecCopy(op, pc, vm);
    } else if IsBinary(op) {
      r := ExecBinary(op, pc, vm);
    } else if op.Print? || op.Println? {
      r := ExecShow(op, pc, vm);
    } else if op.Goto? {
      r := ExecGoto(op, pc, vm);
    } else if op.IfGoto? {
      r := ExecIfGoto(op, pc, vm);
    } else if op.Time? {
      r := Ok((pc + 1, [Elapsed]));
    } else if op.ArrayNew? {
      r := ExecArrayNew(op, pc, vm);
    } else if op.ArrayGet? {
      r := ExecArrayGet(op, pc, vm);
    } else if op.ArraySet? {
      r := ExecArraySet(op, pc, vm);
    } else {
      r := Ok((pc + 1, []));
    }
  }

  method ExecCopy(op: Instr, pc: nat, vm: VariableMap) returns (r: Result<(nat, seq<Emit>)>)
    requires op.Copy?
    modifies vm
    ensures Follows(r, StepInstr(op, pc, old(vm.Value())), vm.Value())
  {
    var val :- vm.Get(op.src);
    vm.Set(op.dst, val);
    r := Ok((pc + 1, []));
  }

  method ExecBinary(op: Instr, pc: nat, vm: VariableMap) returns (r: Result<(nat, seq<Emit>)>)
    requires IsBinary(op)
    modifies vm
    ensures Follows(r, StepInstr(op, pc, old(vm.Value())), vm.Value())
  {
    var lhsVal :- vm.Get(op.lhs);
    var rhsVal :- vm.Get(op.rhs);
    var val :- Apply(OpOf(op), lhsVal, rhsVal);
    vm.Set(op.dst, val);
    r := Ok((pc + 1, []));
  }

  method ExecShow(op: Instr, pc: nat, vm: VariableMap) returns (r: Result<(nat, seq<Emit>)>)
    requires op.Print? || op.Println?
    modifies vm
    ensures Follows(r, StepInstr(op, pc, old(vm.Value())), vm.Value())
  {
    var tok := op.operand;
    var shown: seq<Emit>;
    match tok.kind {
      case Ident =>
        var val := vm.Get(tok);
        shown := [Number(val.value)];
      case NumLiteral(_) =>
        var val := vm.Get(tok);
        shown := [Number(val.value)];
      case StrLiteral =>
        shown := [Text(tok.text)];
      case Symbol =>
        return Err(CannotPrint);
    }
    r := Ok((pc + 1, if op.Println? then shown + [Newline] else shown));
  }

  method ExecGoto(op: Instr, pc: nat, vm: VariableMap) returns (r: Result<(nat, seq<Emit>)>)
    requires op.Goto?
    ensures Follows(r, StepInstr(op, pc, old(vm.Value())), vm.Value())
  {
    var line :- vm.LabelGet(op.target);
    r := Ok((AsUsize(line), []));
  }

  method ExecIfGoto(op: Instr, pc: nat, vm: VariableMap) returns (r: Result<(nat, seq<Emit>)>)
    requires op.IfGoto?
    modifies vm
    ensures Follows(r, StepInstr(op, pc, old(vm.Value())), vm.Value())
  {
    var c :- vm.Get(op.cond);
    if c != 0 {
      var line :- vm.LabelGet(op.target);
      return Ok((AsUsize(line), []));
    }
    r := Ok((pc + 1, []));
  }

  method ExecArrayNew(op: Instr, pc: nat, vm: VariableMap) returns (r: Result<(nat, seq<Emit>)>)
    requires op.ArrayNew?
    modifies vm
    ensures Follows(r, StepInstr(op, pc, old(vm.Value())), vm.Value())
  {
    var size :- vm.Get(op.size);
    if size < 0 {
      return Err(CapacityOverflow);
    }
    vm.ArrayInit(op.name, size as nat);
    r := Ok((pc + 1, []));
  }

  method ExecArrayGet(op: Instr, pc: nat, vm: VariableMap) returns (r: Result<(nat, seq<Emit>)>)
    requires op.ArrayGet?
    modifies vm
    ensures Follows(r, StepInstr(op, pc, old(vm.Value())), vm.Value())
  {
    var index :- vm.Get(op.index);
    var val :- vm.ArrayGet(op.name, AsUsize(index));
    vm.Set(op.dst, val);
    r := Ok((pc + 1, []));
  }

  method ExecArraySet(op: Instr, pc: nat, vm: VariableMap) returns (r: Result<(nat, seq<Emit>)>)
    requires op.ArraySet?
    modifies vm
    ensures Follows(r, StepInstr(op, pc, old(vm.Value())), vm.Value())
  {
    var index :- vm.Get(op.index);
    var val :- vm.Get(op.value);
    var done :- vm.ArraySet(op.name, AsUsize(index), val);
    r := Ok((pc + 1, []));
  }

  /** `Parser::exec`: run the program from line 0 on the store `vm` for at
      most `fuel` steps. The final counter, output and outcome are those of
      `Run`, and so is the store unless an instruction faulted (the store of
      a faulted run is not observable: the process exits). */
  method Exec(p: Parser, vm: VariableMap, fuel: nat) returns (outcome: Outcome, out: seq<Emit>)
    modifies vm
    ensures var f := Run(p.internalCode, old(vm.Value()), 0, fuel, []);
      outcome == f.outcome && out == f.out && (!outcome.Faulted? ==> vm.Value() == f.store)
  {
    var code := p.internalCode;
    ghost var goal := Run(code, vm.Value(), 0, fuel, []);
    var pc: nat := 0;
    var left := fuel;
    out := [];
    while pc < |code| && left > 0
      invariant Run(code, vm.Value(), pc, left, out) == goal
      decreases left
    {
      ghost var before := vm.Value();
      var step := ExecStep(code, pc, vm);
      if step.Err? {
        return Faulted(step.error), out;
      }
      RunStep(code, before, pc, left, out);
      pc, out := step.value.0, out + step.value.1;
      left := left - 1;
    }
    outcome := if pc >= |code| then Halted else OutOfFuel;
  }

  /** `a = 100 + 200; b = a - 50; println b` prints 250 and a newline and
      halts with `a` = 300 and `b` = 250. */
  lemma SmallProgram()
    ensures var a, b := Token("a", Ident), Token("b", Ident);
      var code := [Add(a, Token("100", NumLiteral(100)), Token("200", NumLiteral(200))),
                   Sub(b, a, Token("50", NumLiteral(50))),
                   Println(b)];
      Run(code, EmptyStore, 0, 3, []) == Final(Halted, Store(map["a" := 300, "b" := 250], map[], map[]), 3, [Number(250), Newline])
  {
    var a, b := Token("a", Ident), Token("b", Ident);
    var code := [Add(a, Token("100", NumLiteral(100)), Token("200", NumLiteral(200))),
                 Sub(b, a, Token("50", NumLiteral(50))),
                 Println(b)];
    var s1 := Store(map["a" := 300], map[], map[]);
    var s2 := Store(map["a" := 300, "b" := 250], map[], map[]);
    assert StepInstr(code[0], 0, EmptyStore) == Ok(Effect(s1, 1, []));
    assert StepInstr(code[1], 1, s1) == Ok(Effect(s2, 2, []));
    assert Show(s2, b) == Ok(([Number(250)], s2));
    assert [Number(250)] + [Newline] == [Number(250), Newline];
    assert StepInstr(code[2], 2, s2) == Ok(Effect(s2, 3, [Number(250), Newline]));
  }

  /** `x = 7 / 0` is fatal: the run faults with the store untouched. */
  lemma DivisionByZeroFaults()
    ensures var code := [Div(Token("x", Ident), Token("7", NumLiteral(7)), Token("0", NumLiteral(0)))];
      Run(code, EmptyStore, 0, 1, []) == Final(Faulted(ZeroDivision), EmptyStore, 0, [])
  {
  }
}

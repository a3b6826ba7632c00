/** The constant-propagation analysis of src/optimize/constant.rs. For every
    instruction it computes the constants its execution leaves behind (its
    OUT map): a variable maps to `Const(c)` when it holds `c`, to `NotConst`
    when several definitions with different values reach it, and is absent
    when no definition reaches it. The IN map of a node merges the OUT maps
    of its predecessors, the transfer function of its instruction turns IN
    into OUT, and a worklist repeats this until nothing changes. */
module Constant {
  import opened Ir
  import opened VarMap
  import opened ControlFlow
  import opened Exec

  /** One variable's entry: `Some(c)` and `None` of the source's
      `Option<i32>`. */
  datatype Fact = Const(value: i32) | NotConst

  /** `ConstMap::outs`. */
  type ConstMap = map<string, Fact>

  /** `get_constant_var`: a literal's value, an identifier's constant, or
      `None` for an identifier that is absent or not constant; any other
      token kind panics. */
  function GetConstantVar(ins: ConstMap, tok: Token): (r: Result<Option<i32>>)
    ensures r.Err? <==> !tok.kind.Ident? && !tok.kind.NumLiteral?
    ensures r.Err? ==> r.error == OperandKind
    ensures tok.kind.NumLiteral? ==> r == Ok(Some(tok.kind.value))
    ensures tok.kind.Ident? ==> (r == Ok(None) <==> tok.text !in ins || ins[tok.text].NotConst?)
    ensures tok.kind.Ident? && tok.text in ins && ins[tok.text].Const? ==> r == Ok(Some(ins[tok.text].value))
  {
    match tok.kind
    case NumLiteral(n) => Ok(Some(n))
    case Ident =>
      if tok.text in ins && ins[tok.text].Const? then Ok(Some(ins[tok.text].value)) else Ok(None)
    case _ => Err(OperandKind)
  }

  /** `is_constant`: true for a literal and for an identifier whose IN entry
      is a constant; it agrees with `GetConstantVar` on every token. */
  function IsConstant(ins: ConstMap, tok: Token): (r: Result<bool>)
    ensures r.Err? <==> GetConstantVar(ins, tok).Err?
    ensures r.Ok? ==> (r.value <==> GetConstantVar(ins, tok).value.Some?)
  {
    match tok.kind
    case NumLiteral(_) => Ok(true)
    case Ident => Ok(tok.text in ins && ins[tok.text].Const?)
    case _ => Err(OperandKind)
  }

  /** The folding of src/optimize/constant.rs:126-165 as written: `Sub` and
      `Mul` are folded with `+`. */
  function FoldAsWritten(o: BinOp, a: i32, b: i32): Result<i32> {
    if o.SubOp? || o.MulOp? then Apply(AddOp, a, b) else Apply(o, a, b)
  }

  /** The written folding of `x = 2 - 1` yields 3, while the interpreter
      stores 1; likewise `2 * 3` folds to 5 instead of 6. */
  lemma FoldAsWrittenDisagrees()
    ensures FoldAsWritten(SubOp, 2, 1) == Ok(3) && Apply(SubOp, 2, 1) == Ok(1)
    ensures FoldAsWritten(MulOp, 2, 3) == Ok(5) && Apply(MulOp, 2, 3) == Ok(6)
  {
  }

  /** The transfer function: the IN map of a node turned into its OUT map.
      `Copy` makes `dst` the operand's constant or `NotConst`; a binary
      instruction makes `dst` the folded value when both operands are
      constant and `NotConst` otherwise, after reading `dst` itself (a
      non-variable `dst` panics); every other instruction passes IN through.
      Folding uses the interpreter's operators, so a constant zero divisor
      or an overflow stops the analysis. */
  function Transfer(op: Instr, ins: ConstMap): Result<ConstMap> {
    if op.Copy? then TransferCopy(op, ins)
    else if IsBinary(op) then TransferBinary(op, ins)
    else Ok(ins)
  }

  /** `x = a`. */
  function TransferCopy(op: Instr, ins: ConstMap): Result<ConstMap>
    requires op.Copy?
  {
    var v :- GetConstantVar(ins, op.src);
    var c := IsConstant(ins, op.src).value;
    if c then Ok(ins[op.dst.text := Const(v.value)])
    else Ok(ins[op.dst.text := NotConst])
  }

  /** `x = a op b`. */
  function TransferBinary(op: Instr, ins: ConstMap): Result<ConstMap>
    requires IsBinary(op)
  {
    var d :- GetConstantVar(ins, op.dst);
    var a :- GetConstantVar(ins, op.lhs);
    var b :- GetConstantVar(ins, op.rhs);
    var ca := IsConstant(ins, op.lhs).value;
    var cb := IsConstant(ins, op.rhs).value;
    if ca && cb then
      var v :- Apply(OpOf(op), a.value, b.value);
      Ok(ins[op.dst.text := Const(v)])
    else Ok(ins[op.dst.text := NotConst])
  }

  /** The binary transfer of src/optimize/constant.rs:114-170 as written:
      `TransferBinary` with `FoldAsWritten` in place of the interpreter's
      operators. The analysis proved below uses `TransferBinary`. */
  function TransferBinaryAsWritten(op: Instr, ins: ConstMap): Result<ConstMap>
    requires IsBinary(op)
  {
    var d :- GetConstantVar(ins, op.dst);
    var a :- GetConstantVar(ins, op.lhs);
    var b :- GetConstantVar(ins, op.rhs);
    var ca := IsConstant(ins, op.lhs).value;
    var cb := IsConstant(ins, op.rhs).value;
    if ca && cb then
      var v :- FoldAsWritten(OpOf(op), a.value, b.value);
      Ok(ins[op.dst.text := Const(v)])
    else Ok(ins[op.dst.text := NotConst])
  }

  /** The transfer as written records `x = 2 - 1` as the constant 3 where the
      corrected one records 1, and stops the analysis with an overflow on
      `x = 2147483647 - 1`, which the corrected one folds to 2147483646. */
  lemma TransferAsWrittenDisagrees()
    ensures var x := Token("x", Ident);
      var one, two := Token("1", NumLiteral(1)), Token("2", NumLiteral(2));
      && TransferBinaryAsWritten(Sub(x, two, one), map[]) == Ok(map["x" := Const(3)])
      && TransferBinary(Sub(x, two, one), map[]) == Ok(map["x" := Const(1)])
    ensures var x := Token("x", Ident);
      var one, max := Token("1", NumLiteral(1)), Token("2147483647", NumLiteral(0x7fff_ffff));
      && TransferBinaryAsWritten(Sub(x, max, one), map[]) == Err(Overflow)
      && TransferBinary(Sub(x, max, one), map[]) == Ok(map["x" := Const(0x7fff_fffe)])
  {
  }

  /** What the transfer function promises: only `dst` of a `Copy` or binary
      instruction changes, to a constant exactly when every operand is
      constant; every other instruction leaves IN as it is. */
  lemma TransferShape(op: Instr, ins: ConstMap)
    requires Transfer(op, ins).Ok?
    ensures var out := Transfer(op, ins).value;
      && (!op.Copy? && !IsBinary(op) ==> out == ins)
      && (op.Copy? || IsBinary(op) ==>
            && out.Keys == ins.Keys + {op.dst.text}
            && (forall k :: k in ins && k != op.dst.text ==> out[k] == ins[k]))
      && (op.Copy? ==> (out[op.dst.text].Const? <==> GetConstantVar(ins, op.src).value.Some?))
      && (IsBinary(op) ==> (out[op.dst.text].Const? <==>
            GetConstantVar(ins, op.lhs).value.Some? && GetConstantVar(ins, op.rhs).value.Some?))
  {
  }

  /** A binary instruction with a constant zero divisor stops the analysis. */
  lemma ConstantZeroDivision(op: Instr, ins: ConstMap)
    requires op.Div? && GetConstantVar(ins, op.dst).Ok?
    requires GetConstantVar(ins, op.lhs).Ok? && GetConstantVar(ins, op.lhs).value.Some?
    requires GetConstantVar(ins, op.rhs) == Ok(Some(0))
    ensures Transfer(op, ins) == Err(ZeroDivision)
  {
  }

  // ---------------------------------------------------------------------
  // Merging the OUT maps of the predecessors.

  /** One `(k, v)` of a predecessor's OUT merged into the entry `k` of IN:
      a fresh key takes `v`, a `NotConst` entry stays, and a constant entry
      stays only when `v` is the same constant. */
  function JoinInto(ins: ConstMap, k: string, v: Fact): Fact {
    if k !in ins then v
    else if ins[k].Const? && v == ins[k] then ins[k]
    else NotConst
  }

  /** IN extended with every entry of one predecessor's OUT map. */
  function MergeStep(ins: ConstMap, m: ConstMap): ConstMap {
    map k | k in ins.Keys + m.Keys :: if k in m then JoinInto(ins, k, m[k]) else ins[k]
  }

  /** IN for the predecessor OUT maps `outs`, merged in order. */
  function MergeOuts(outs: seq<ConstMap>): ConstMap {
    if outs == [] then map[] else MergeStep(MergeOuts(outs[..|outs| - 1]), outs[|outs| - 1])
  }

  /** The OUT maps of the nodes `ps`. */
  function Gather(maps: seq<ConstMap>, ps: seq<nat>): (g: seq<ConstMap>)
    requires forall k :: 0 <= k < |ps| ==> ps[k] < |maps|
    ensures |g| == |ps| && forall k :: 0 <= k < |ps| ==> g[k] == maps[ps[k]]
  {
    seq(|ps|, k requires 0 <= k < |ps| => maps[ps[k]])
  }

  /** Node `i`'s predecessors all have an OUT map. */
  predicate PredsIn(c: Cfg, maps: seq<ConstMap>, i: nat) {
    i < |c.preds| && forall k :: 0 <= k < |c.preds[i]| ==> c.preds[i][k] < |maps|
  }

  /** IN of node `i`: the merge of its predecessors' OUT maps, in the order
      of its predecessor list. */
  function In(c: Cfg, maps: seq<ConstMap>, i: nat): ConstMap
    requires PredsIn(c, maps, i)
  {
    MergeOuts(Gather(maps, c.preds[i]))
  }

  /** Some predecessor's OUT map has an entry for `k`. */
  ghost predicate Defined(outs: seq<ConstMap>, k: string) {
    exists j :: 0 <= j < |outs| && k in outs[j]
  }

  /** Every predecessor's OUT map that has an entry for `k` holds `Const(c)`
      there. */
  ghost predicate AllConst(outs: seq<ConstMap>, k: string, c: i32) {
    forall j :: 0 <= j < |outs| && k in outs[j] ==> outs[j][k] == Const(c)
  }

  /** The merge, entry by entry: `k` is absent exactly when no predecessor
      defines it; it is `Const(c)` exactly when every predecessor that
      defines it holds `Const(c)`, even if others do not define it; and
      otherwise it is `NotConst`. */
  lemma {:induction false} MergeCharacterization(outs: seq<ConstMap>, k: string)
    ensures k in MergeOuts(outs) <==> Defined(outs, k)
    ensures k in MergeOuts(outs) ==> forall c :: MergeOuts(outs)[k] == Const(c) <==> AllConst(outs, k, c)
  {
    if outs != [] {
      var init, last := outs[..|outs| - 1], outs[|outs| - 1];
      MergeCharacterization(init, k);
      assert forall j :: 0 <= j < |init| ==> init[j] == outs[j];
      if k in MergeOuts(outs) {
        forall c
          ensures MergeOuts(outs)[k] == Const(c) <==> AllConst(outs, k, c)
        {
          if k in MergeOuts(init) && k in last {
            if AllConst(outs, k, c) {
              assert AllConst(init, k, c);
            }
          } else if k in MergeOuts(init) {
            if AllConst(init, k, c) {
              assert AllConst(outs, k, c);
            }
          } else {
            assert !Defined(init, k);
            if last[k] == Const(c) {
              assert AllConst(outs, k, c);
            }
          }
        }
      }
      if Defined(outs, k) {
        var j :| 0 <= j < |outs| && k in outs[j];
        if j < |init| {
          assert k in init[j];
        }
      }
    }
  }

  /** The merge does not depend on the order, or the number of times, in
      which the same OUT maps are met. */
  lemma MergeOrderIndependent(s: seq<ConstMap>, t: seq<ConstMap>)
    requires forall m :: m in s <==> m in t
    ensures MergeOuts(s) == MergeOuts(t)
  {
    forall k
      ensures k in MergeOuts(s) <==> k in MergeOuts(t)
      ensures k in MergeOuts(s) ==> MergeOuts(s)[k] == MergeOuts(t)[k]
    {
      MergeCharacterization(s, k);
      MergeCharacterization(t, k);
      SameDefined(s, t, k);
      if k in MergeOuts(s) {
        var f := MergeOuts(s)[k];
        if f.Const? {
          SameAllConst(s, t, k, f.value);
        } else if MergeOuts(t)[k].Const? {
          SameAllConst(s, t, k, MergeOuts(t)[k].value);
        }
      }
    }
  }

  lemma SameDefined(s: seq<ConstMap>, t: seq<ConstMap>, k: string)
    requires forall m :: m in s <==> m in t
    ensures Defined(s, k) <==> Defined(t, k)
  {
    if Defined(s, k) {
      var j :| 0 <= j < |s| && k in s[j];
      assert s[j] in t;
    }
    if Defined(t, k) {
      var j :| 0 <= j < |t| && k in t[j];
      assert t[j] in s;
    }
  }

  lemma SameAllConst(s: seq<ConstMap>, t: seq<ConstMap>, k: string, c: i32)
    requires forall m :: m in s <==> m in t
    ensures AllConst(s, k, c) <==> AllConst(t, k, c)
  {
    if AllConst(s, k, c) {
      forall j | 0 <= j < |t| && k in t[j]
        ensures t[j][k] == Const(c)
      {
        assert t[j] in s;
      }
    }
    if AllConst(t, k, c) {
      forall j | 0 <= j < |s| && k in s[j]
        ensures s[j][k] == Const(c)
      {
        assert s[j] in t;
      }
    }
  }

  /** `m` restricted to the keys `ks`. */
  function Restrict(m: ConstMap, ks: set<string>): ConstMap {
    map k | k in m && k in ks :: m[k]
  }

  /** Merging one more entry of `m` into IN is one step of the inner loop. */
  lemma MergeStepAdd(acc: ConstMap, m: ConstMap, done: set<string>, k: string)
    requires k in m && k !in done
    ensures var before := MergeStep(acc, Restrict(m, done));
      MergeStep(acc, Restrict(m, done + {k})) == before[k := JoinInto(before, k, m[k])]
  {
    var before := MergeStep(acc, Restrict(m, done));
    assert k in before ==> before[k] == acc[k];
  }

  /** The inner merge loop: every entry of one predecessor's OUT map `m`,
      met in an arbitrary order as a `HashMap`'s entries are, merged into
      IN. */
  method MergeInto(ins0: ConstMap, m: ConstMap) returns (ins: ConstMap)
    ensures ins == MergeStep(ins0, m)
  {
    ins := ins0;
    var todo := m.Keys;
    while todo != {}
      invariant todo <= m.Keys
      invariant ins == MergeStep(ins0, Restrict(m, m.Keys - todo))
      decreases todo
    {
      var k :| k in todo;
      MergeStepAdd(ins0, m, m.Keys - todo, k);
      assert m.Keys - todo + {k} == m.Keys - (todo - {k});
      todo := todo - {k};
      var v := m[k];
      if k in ins && ins[k].Const? {
        if v.NotConst? || ins[k].value != v.value {
          ins := ins[k := NotConst];
        }
      } else if k in ins {
        ins := ins[k := NotConst];
      } else {
        ins := ins[k := v];
      }
    }
    assert Restrict(m, m.Keys) == m;
  }

  /** The merge loops of the worklist body: the OUT map of every predecessor
      of `idx`, in the order of its predecessor list, merged into a fresh IN
      map. */
  method MergePreds(c: Cfg, maps: seq<ConstMap>, idx: nat) returns (ins: ConstMap)
    requires PredsIn(c, maps, idx)
    ensures ins == In(c, maps, idx)
  {
    var ps := c.preds[idx];
    ins := map[];
    for j := 0 to |ps|
      invariant ins == MergeOuts(Gather(maps, ps[..j]))
    {
      ins := MergeInto(ins, maps[ps[j]]);
      assert Gather(maps, ps[..j + 1]) == Gather(maps, ps[..j]) + [maps[ps[j]]];
    }
    assert ps[..|ps|] == ps;
  }

  // ---------------------------------------------------------------------
  // The worklist.

  /** Node `i` is stable: its OUT map is the transfer of its IN map. */
  predicate Stable(c: Cfg, maps: seq<ConstMap>, i: nat)
    requires i < |c.nodes| && i < |maps| && PredsIn(c, maps, i)
  {
    Transfer(c.nodes[i], In(c, maps, i)) == Ok(maps[i])
  }

  /** Every node's predecessors have OUT maps when there is one map per node
      of a well-formed graph. */
  lemma PredsInAll(c: Cfg, maps: seq<ConstMap>, i: nat)
    requires WellFormed(c) && |maps| == |c.nodes| && i < |c.nodes|
    ensures PredsIn(c, maps, i)
  {
    forall k | 0 <= k < |c.preds[i]|
      ensures c.preds[i][k] < |maps|
    {
      var p := c.preds[i][k];
      assert p in c.preds[i];
      assert 0 <= p < |c.nodes|;
    }
  }

  /** A fixed point: one OUT map per node, and every node stable. */
  ghost predicate IsFixedPoint(c: Cfg, maps: seq<ConstMap>) {
    && WellFormed(c) && |maps| == |c.nodes|
    && forall i :: 0 <= i < |c.nodes| ==> PredsIn(c, maps, i) && Stable(c, maps, i)
  }

  datatype Analysis =
    | Done(maps: seq<ConstMap>)
    | Failed(error: Error, node: nat, maps: seq<ConstMap>)
    | Unfinished

  /** Changing the OUT map of `idx` leaves IN of every node that is not a
      successor of `idx` as it was. */
  lemma InFrame(c: Cfg, maps: seq<ConstMap>, idx: nat, out: ConstMap, j: nat)
    requires WellFormed(c) && |maps| == |c.nodes| && idx < |c.nodes| && j < |c.nodes|
    requires j !in c.succs[idx]
    ensures PredsIn(c, maps, j) && PredsIn(c, maps[idx := out], j)
    ensures In(c, maps[idx := out], j) == In(c, maps, j)
  {
    PredsInAll(c, maps, j);
    PredsInAll(c, maps[idx := out], j);
    var ps := c.preds[j];
    forall k | 0 <= k < |ps|
      ensures ps[k] != idx
    {
      assert ps[k] in c.preds[j];
    }
    assert Gather(maps[idx := out], ps) == Gather(maps, ps);
  }

  /** `constant_propagation`: every node starts with an empty OUT map and in
      the worklist; a node taken from the worklist (in any order) gets the
      transfer of the merge of its predecessors' OUT maps and, when that
      differs from its OUT map, replaces it and puts its successors back in
      the worklist. When the worklist empties every node is stable; when
      `fuel` runs out first the result is `Unfinished`. The
      exit node is skipped. A transfer that panics ends the analysis, with
      the node and the maps it faulted on. The loop runs at most `fuel`
      times. */
  method ConstantPropagation(c: Cfg, fuel: nat) returns (r: Analysis)
    requires WellFormed(c)
    ensures r.Done? ==> IsFixedPoint(c, r.maps)
    ensures r.Failed? ==>
      && |r.maps| == |c.nodes| && r.node < |c.nodes| && PredsIn(c, r.maps, r.node)
      && Transfer(c.nodes[r.node], In(c, r.maps, r.node)) == Err(r.error)
  {
    var n := |c.nodes|;
    var maps: seq<ConstMap> := seq(n, _ => map[]);
    var worklist: set<nat> := {};
    for i := 0 to n
      invariant forall k :: 0 <= k < i ==> k in worklist
    {
      worklist := worklist + {i};
    }
    var left := fuel;
    while worklist != {} && left > 0
      invariant |maps| == n
      invariant forall i :: 0 <= i < n && i !in worklist ==> PredsIn(c, maps, i) && Stable(c, maps, i)
      decreases left
    {
      left := left - 1;
      var idx :| idx in worklist;
      worklist := worklist - {idx};
      if idx >= n {
        continue;
      }
      PredsInAll(c, maps, idx);
      var ins := MergePreds(c, maps, idx);
      var out := Transfer(c.nodes[idx], ins);
      if out.Err? {
        return Failed(out.error, idx, maps);
      }
      if out.value != maps[idx] {
        ghost var old_maps := maps;
        maps := maps[idx := out.value];
        var succs := c.succs[idx];
        ghost var queued := worklist;
        for j := 0 to |succs|
          invariant queued <= worklist
          invariant forall k :: 0 <= k < j ==> succs[k] in worklist
        {
          worklist := worklist + {succs[j]};
        }
        forall i | 0 <= i < n && i !in worklist
          ensures PredsIn(c, maps, i) && Stable(c, maps, i)
        {
          if i != idx {
            assert i !in succs;
            InFrame(c, old_maps, idx, out.value, i);
          } else {
            assert idx !in succs;
            InFrame(c, old_maps, idx, out.value, idx);
          }
        }
      }
    }
    if worklist != {} {
      return Unfinished;
    }
    r := Done(maps);
  }

  // ---------------------------------------------------------------------
  // The facts against the interpreter.

  /** What a variable reads as: its stored value, or 0 if never written. */
  function ValueOf(s: Store, k: string): i32 {
    if k in s.scalars then s.scalars[k] else 0
  }

  /** The store agrees with a constant map: every variable the map calls
      constant reads as that constant. */
  ghost predicate Agrees(s: Store, ins: ConstMap) {
    forall k :: k in ins && ins[k].Const? ==> ValueOf(s, k) == ins[k].value
  }

  /** Reading a token changes what no variable reads as, and yields the
      literal's value or what the variable reads as. */
  lemma GetReadsValue(s: Store, tok: Token)
    requires s.Get(tok).Ok?
    ensures var g := s.Get(tok).value;
      && g.0 == (if tok.kind.NumLiteral? then tok.kind.value else ValueOf(s, tok.text))
      && (forall k :: ValueOf(g.1, k) == ValueOf(s, k))
      && g.1.arrays == s.arrays && g.1.labels == s.labels
  {
  }

  /** A constant that the map gives an operand is what the operand reads
      as in an agreeing store. */
  lemma ConstantReadsValue(s: Store, ins: ConstMap, tok: Token)
    requires Agrees(s, ins) && GetConstantVar(ins, tok).Ok? && GetConstantVar(ins, tok).value.Some?
    ensures s.Get(tok).Ok? && s.Get(tok).value.0 == GetConstantVar(ins, tok).value.value
  {
    GetReadsValue(s, tok);
  }

  /** The transfer function is sound for one step of the interpreter: if the
      store agrees with IN and the instruction executes, the new store agrees
      with OUT. `ArrayGet` is excluded: the transfer function passes IN
      through for it although the interpreter writes `dst`. */
  lemma TransferSound(op: Instr, ins: ConstMap, pc: nat, s: Store)
    requires !op.ArrayGet? && Agrees(s, ins)
    requires Transfer(op, ins).Ok? && StepInstr(op, pc, s).Ok?
    ensures Agrees(StepInstr(op, pc, s).value.store, Transfer(op, ins).value)
  {
    if op.Copy? {
      CopySound(op, ins, pc, s);
    } else if IsBinary(op) {
      assert StepInstr(op, pc, s) == StepBinary(op, pc, s);
      BinarySound(op, ins, pc, s);
    } else {
      StepKeepsValues(op, pc, s);
    }
  }

  lemma CopySound(op: Instr, ins: ConstMap, pc: nat, s: Store)
    requires op.Copy? && Agrees(s, ins)
    requires TransferCopy(op, ins).Ok? && StepCopy(op.dst, op.src, pc, s).Ok?
    ensures Agrees(StepCopy(op.dst, op.src, pc, s).value.store, TransferCopy(op, ins).value)
  {
    var g := s.Get(op.src).value;
    GetReadsValue(s, op.src);
    if GetConstantVar(ins, op.src).value.Some? {
      ConstantReadsValue(s, ins, op.src);
    }
  }

  lemma BinarySound(op: Instr, ins: ConstMap, pc: nat, s: Store)
    requires IsBinary(op) && Agrees(s, ins)
    requires TransferBinary(op, ins).Ok? && StepBinary(op, pc, s).Ok?
    ensures Agrees(StepBinary(op, pc, s).value.store, TransferBinary(op, ins).value)
  {
    var l := s.Get(op.lhs).value;
    GetReadsValue(s, op.lhs);
    var r := l.1.Get(op.rhs).value;
    GetReadsValue(l.1, op.rhs);
    assert Agrees(l.1, ins);
    var v := Apply(OpOf(op), l.0, r.0).value;
    if GetConstantVar(ins, op.lhs).value.Some? && GetConstantVar(ins, op.rhs).value.Some? {
      ConstantReadsValue(s, ins, op.lhs);
      ConstantReadsValue(l.1, ins, op.rhs);
    }
  }

  /** Every instruction other than `Copy`, a binary one or `ArrayGet` leaves
      what each variable reads as unchanged. */
  lemma StepKeepsValues(op: Instr, pc: nat, s: Store)
    requires !op.Copy? && !IsBinary(op) && !op.ArrayGet? && StepInstr(op, pc, s).Ok?
    ensures forall k :: ValueOf(StepInstr(op, pc, s).value.store, k) == ValueOf(s, k)
  {
    if op.Print? || op.Println? {
      if op.operand.kind.Ident? || op.operand.kind.NumLiteral? {
        GetReadsValue(s, op.operand);
      }
    } else if op.IfGoto? {
      GetReadsValue(s, op.cond);
    } else if op.ArrayNew? {
      GetReadsValue(s, op.size);
    } else if op.ArraySet? {
      var i := s.Get(op.index).value;
      GetReadsValue(s, op.index);
      GetReadsValue(i.1, op.value);
    }
  }

  /** The transfer function does not track arrays: after `x = a[0]` with
      `x` known to be 5 and `a[0]` holding 7, OUT still says 5. */
  lemma ArrayGetNotTracked()
    ensures var ins := map["x" := Const(5)];
      var s := Store(map["x" := 5], map["a" := [7]], map[]);
      var op := ArrayGet(Token("x", Ident), Token("a", Ident), Token("0", NumLiteral(0)));
      && Agrees(s, ins) && Transfer(op, ins) == Ok(ins)
      && StepInstr(op, 0, s).Ok? && ValueOf(StepInstr(op, 0, s).value.store, "x") == 7
  {
  }
}

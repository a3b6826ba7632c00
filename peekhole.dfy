/** The jump-chain pass of src/optimize/peekhole.rs: a jump to a label whose
    line holds another `goto` is redirected to the end of the chain.
    `GetDist` follows one chain; `Peephole` is the code after the pass has
    visited a prefix of the instructions, each rewrite seeing the rewrites
    before it; `OptimizePeekhole` is the pass's loop over the parser's
    instruction vector. */
module Peekhole {
  import opened Ir
  import opened VarMap

  /** The labels used by the jumps of `code`. */
  function JumpLabels(code: seq<Instr>): set<Token> {
    set i | 0 <= i < |code| && (code[i].Goto? || code[i].IfGoto?) :: code[i].target
  }

  /** One link of a `goto` chain: the label held by the `goto` on `t`'s
      line, or `None` when `t` is undefined, its line is at or past the end,
      or that line holds no `goto`. */
  function Hop(code: seq<Instr>, labels: map<string, i32>, t: Token): Option<Token> {
    if t.text !in labels then None
    else
      var line := AsUsize(labels[t.text]);
      if line < |code| && code[line].Goto? then Some(code[line].target) else None
  }

  /** The label `k` links down the chain from `t`, if the chain is that long. */
  function HopN(code: seq<Instr>, labels: map<string, i32>, t: Token, k: nat): Option<Token>
    decreases k
  {
    if k == 0 then Some(t)
    else match Hop(code, labels, t)
      case None => None
      case Some(u) => HopN(code, labels, u, k - 1)
  }

  /** `u` lies on the `goto` chain from `t`. */
  ghost predicate Reaches(code: seq<Instr>, labels: map<string, i32>, t: Token, u: Token) {
    exists k: nat :: HopN(code, labels, t, k) == Some(u)
  }

  /** `get_dist(from, start)`: `from` itself when its line is at or past the
      end of the program or holds no `goto`; `start` when the chain reaches
      a `goto start`; otherwise the end of the chain from the `goto`'s
      label. An undefined label is fatal. A chain that loops without coming
      back to `start` never returns in the source; here it exhausts `fuel`
      and is reported as `GotoCycle`. */
  function GetDist(code: seq<Instr>, labels: map<string, i32>, from: Token, start: Token, fuel: nat): (r: Result<Token>)
    ensures r.Ok? ==> r.value == from || r.value == start || r.value in JumpLabels(code)
    ensures r.Ok? && r.value != start ==>
      && r.value.text in labels
      && (AsUsize(labels[r.value.text]) >= |code| || !code[AsUsize(labels[r.value.text])].Goto?)
    ensures r.Err? ==> r.error == UndefinedLabel || r.error == GotoCycle
    ensures fuel > 0 && from.text !in labels ==> r == Err(UndefinedLabel)
    ensures fuel > 0 && from.text in labels ==>
      var line := AsUsize(labels[from.text]);
      && (line >= |code| || !code[line].Goto? ==> r == Ok(from))
      && (line < |code| && code[line].Goto? && code[line].target == start ==> r == Ok(start))
    decreases fuel
  {
    if fuel == 0 then Err(GotoCycle)
    else if from.text !in labels then Err(UndefinedLabel)
    else
      var line := AsUsize(labels[from.text]);
      if line >= |code| then Ok(from)
      else if code[line].Goto? then
        var to := code[line].target;
        assert to in JumpLabels(code);
        if to == start then Ok(start) else GetDist(code, labels, to, start, fuel - 1)
      else Ok(from)
  }

  /** What `GetDist` finds is the chain from `from` itself: a result lies on
      that chain (and, unless it is `start`, ends it); an undefined label is
      met on the chain within `fuel` links; `start` comes back only when
      `start` is `from` and ends its own chain, or when the chain returns to
      `start` within `fuel` links; and `GotoCycle` means that the chain runs
      on for `fuel` links without once coming back to `start`. */
  lemma {:induction false} GetDistChain(code: seq<Instr>, labels: map<string, i32>, from: Token, start: Token, fuel: nat)
    ensures var r := GetDist(code, labels, from, start, fuel);
      && (r.Ok? ==> Reaches(code, labels, from, r.value))
      && (r.Ok? && r.value != start ==> Hop(code, labels, r.value) == None)
      && (r == Ok(start) ==>
            || (from == start && Hop(code, labels, from) == None)
            || exists k: nat :: 1 <= k <= fuel && HopN(code, labels, from, k) == Some(start))
      && (r == Err(UndefinedLabel) ==>
            exists k: nat :: k < fuel && HopN(code, labels, from, k).Some? && HopN(code, labels, from, k).value.text !in labels)
      && (r == Err(GotoCycle) ==>
            forall k: nat :: 1 <= k <= fuel ==> HopN(code, labels, from, k).Some? && HopN(code, labels, from, k).value != start)
    decreases fuel
  {
    var r := GetDist(code, labels, from, start, fuel);
    assert HopN(code, labels, from, 0) == Some(from);
    if fuel > 0 && from.text in labels {
      var line := AsUsize(labels[from.text]);
      if line < |code| && code[line].Goto? {
        var to := code[line].target;
        assert Hop(code, labels, from) == Some(to);
        assert HopN(code, labels, from, 1) == Some(to);
        if to != start {
          GetDistChain(code, labels, to, start, fuel - 1);
          assert r == GetDist(code, labels, to, start, fuel - 1);
          if r.Ok? {
            var k: nat :| HopN(code, labels, to, k) == Some(r.value);
            assert HopN(code, labels, from, k + 1) == Some(r.value);
          }
          if r == Ok(start) {
            var k: nat :| 1 <= k <= fuel - 1 && HopN(code, labels, to, k) == Some(start);
            assert HopN(code, labels, from, k + 1) == Some(start);
            assert exists j: nat :: 1 <= j <= fuel && HopN(code, labels, from, j) == Some(start);
          }
          if r == Err(UndefinedLabel) {
            var k: nat :| k < fuel - 1 && HopN(code, labels, to, k).Some? && HopN(code, labels, to, k).value.text !in labels;
            assert HopN(code, labels, from, k + 1) == HopN(code, labels, to, k);
          }
          if r == Err(GotoCycle) {
            forall k: nat | 1 <= k <= fuel
              ensures HopN(code, labels, from, k).Some? && HopN(code, labels, from, k).value != start
            {
              assert HopN(code, labels, from, k) == HopN(code, labels, to, k - 1);
            }
          }
        } else {
          assert r == Ok(start);
          assert exists j: nat :: 1 <= j <= fuel && HopN(code, labels, from, j) == Some(start);
        }
      }
    }
  }

  /** The pass at instruction `i` of the current code `c`: a `goto` or an
      `if ... goto` whose chain ends elsewhere gets the chain's end as its
      label; nothing else changes. */
  function PeepholeAt(c: seq<Instr>, labels: map<string, i32>, i: nat): (r: Result<seq<Instr>>)
    requires i < |c|
    ensures r.Ok? ==> |r.value| == |c| && forall k :: 0 <= k < |c| && k != i ==> r.value[k] == c[k]
  {
    if c[i].Goto? then
      var d :- GetDist(c, labels, c[i].target, c[i].target, |c| + 1);
      Ok(if d != c[i].target then c[i := Goto(d)] else c)
    else if c[i].IfGoto? then
      var d :- GetDist(c, labels, c[i].target, c[i].target, |c| + 1);
      Ok(if d != c[i].target then c[i := IfGoto(c[i].cond, d)] else c)
    else Ok(c)
  }

  /** The code once the pass has visited instructions 0 .. n-1. */
  function Peephole(code: seq<Instr>, labels: map<string, i32>, n: nat): (r: Result<seq<Instr>>)
    requires n <= |code|
    ensures r.Ok? ==> |r.value| == |code|
  {
    if n == 0 then Ok(code)
    else
      var c :- Peephole(code, labels, n - 1);
      PeepholeAt(c, labels, n - 1)
  }

  /** Rewriting one instruction keeps its kind and, for `if ... goto`, its
      condition; every other instruction is left alone; and the new label is
      one some jump of the code already used. */
  lemma PeepholeAtShape(c: seq<Instr>, labels: map<string, i32>, i: nat)
    requires i < |c| && PeepholeAt(c, labels, i).Ok?
    ensures var r := PeepholeAt(c, labels, i).value;
      && (c[i].Goto? ==> r[i].Goto?)
      && (c[i].IfGoto? ==> r[i].IfGoto? && r[i].cond == c[i].cond)
      && (!c[i].Goto? && !c[i].IfGoto? ==> r[i] == c[i])
      && JumpLabels(r) <= JumpLabels(c)
  {
    var r := PeepholeAt(c, labels, i).value;
    forall t | t in JumpLabels(r)
      ensures t in JumpLabels(c)
    {
      var k :| 0 <= k < |r| && (r[k].Goto? || r[k].IfGoto?) && r[k].target == t;
      if k != i {
        assert c[k] == r[k];
      } else if r[i] != c[i] {
        assert c[i].target in JumpLabels(c);
      }
    }
  }

  /** The whole pass keeps the program's length and the kind of every
      instruction, keeps every condition, changes nothing but jump labels,
      and only ever uses labels the program's jumps already used. */
  lemma {:induction false} PeepholeShape(code: seq<Instr>, labels: map<string, i32>, n: nat)
    requires n <= |code| && Peephole(code, labels, n).Ok?
    ensures var r := Peephole(code, labels, n).value;
      && |r| == |code|
      && (forall k :: 0 <= k < |code| && code[k].Goto? ==> r[k].Goto?)
      && (forall k :: 0 <= k < |code| && code[k].IfGoto? ==> r[k].IfGoto? && r[k].cond == code[k].cond)
      && (forall k :: 0 <= k < |code| && !code[k].Goto? && !code[k].IfGoto? ==> r[k] == code[k])
      && (forall k :: n <= k < |code| ==> r[k] == code[k])
      && JumpLabels(r) <= JumpLabels(code)
  {
    if n > 0 {
      PeepholeShape(code, labels, n - 1);
      var c := Peephole(code, labels, n - 1).value;
      PeepholeAtShape(c, labels, n - 1);
    }
  }

  /** Following `a` links and then `b` more is following `a + b` links. */
  lemma {:induction false} HopNAdd(code: seq<Instr>, labels: map<string, i32>, t: Token, a: nat, b: nat)
    requires HopN(code, labels, t, a).Some?
    ensures HopN(code, labels, t, a + b) == HopN(code, labels, HopN(code, labels, t, a).value, b)
    decreases a
  {
    if a > 0 {
      HopNAdd(code, labels, Hop(code, labels, t).value, a - 1, b);
    }
  }

  lemma ReachTrans(code: seq<Instr>, labels: map<string, i32>, t: Token, u: Token, v: Token)
    requires Reaches(code, labels, t, u) && Reaches(code, labels, u, v)
    ensures Reaches(code, labels, t, v)
  {
    var a: nat :| HopN(code, labels, t, a) == Some(u);
    var b: nat :| HopN(code, labels, u, b) == Some(v);
    HopNAdd(code, labels, t, a, b);
  }

  /** `c` is `code` with some jumps relabelled so that each still gets to
      where it got to before: the same length and the same instruction
      kinds, every jump's label on the `goto` chain of its old label in
      `code`, and every changed label the end of that chain. */
  ghost predicate SameDestinations(code: seq<Instr>, labels: map<string, i32>, c: seq<Instr>) {
    && |c| == |code|
    && (forall j :: 0 <= j < |code| ==> (c[j].Goto? <==> code[j].Goto?) && (c[j].IfGoto? <==> code[j].IfGoto?))
    && (forall j :: 0 <= j < |code| && (code[j].Goto? || code[j].IfGoto?) ==>
          Reaches(code, labels, code[j].target, c[j].target))
    && (forall j :: 0 <= j < |code| && (code[j].Goto? || code[j].IfGoto?) && c[j].target != code[j].target ==>
          c[j].target.text in labels && Hop(code, labels, c[j].target) == None)
  }

  /** A chain followed in relabelled code is a chain of the original code. */
  lemma {:induction false} ReachLift(code: seq<Instr>, labels: map<string, i32>, c: seq<Instr>, t: Token, m: nat)
    requires SameDestinations(code, labels, c) && HopN(c, labels, t, m).Some?
    ensures Reaches(code, labels, t, HopN(c, labels, t, m).value)
    decreases m
  {
    if m == 0 {
      assert HopN(code, labels, t, 0) == Some(t);
    } else {
      var line := AsUsize(labels[t.text]);
      var v := c[line].target;
      ReachLift(code, labels, c, v, m - 1);
      assert HopN(code, labels, t, 1) == Some(code[line].target);
      ReachTrans(code, labels, t, code[line].target, v);
      ReachTrans(code, labels, t, v, HopN(c, labels, t, m).value);
    }
  }

  /** The `goto` chain from `t` comes back to `t` after one link or more. */
  ghost predicate CyclesBack(code: seq<Instr>, labels: map<string, i32>, t: Token) {
    exists k: nat :: 1 <= k && HopN(code, labels, t, k) == Some(t)
  }

  /** A chain of one link or more in relabelled code is a chain of one link
      or more in the original code. */
  lemma ReachLiftStrict(code: seq<Instr>, labels: map<string, i32>, c: seq<Instr>, t: Token, m: nat)
    requires SameDestinations(code, labels, c) && 1 <= m && HopN(c, labels, t, m).Some?
    ensures exists k: nat :: 1 <= k && HopN(code, labels, t, k) == HopN(c, labels, t, m)
  {
    var line := AsUsize(labels[t.text]);
    var v := c[line].target;
    var w := code[line].target;
    ReachLift(code, labels, c, v, m - 1);
    ReachTrans(code, labels, w, v, HopN(c, labels, t, m).value);
    var a: nat :| HopN(code, labels, w, a) == HopN(c, labels, t, m);
    assert HopN(code, labels, t, a + 1) == HopN(c, labels, t, m);
  }

  /** Every jump among the first `n` of `c` that still has its label from
      `code` either ends its chain there or sits on a chain that cycles back
      to it. */
  ghost predicate Collapsed(code: seq<Instr>, labels: map<string, i32>, c: seq<Instr>, n: nat) {
    forall j ::
      && 0 <= j < n && j < |code| && j < |c| && (code[j].Goto? || code[j].IfGoto?)
      && (c[j].Goto? || c[j].IfGoto?) && c[j].target == code[j].target
      ==> Hop(code, labels, code[j].target) == None || CyclesBack(code, labels, code[j].target)
  }

  /** Relabelling the jump at `i` to a label on its original chain, that
      chain's end if it changed, keeps every jump's destination. */
  lemma RelabelDest(code: seq<Instr>, labels: map<string, i32>, c: seq<Instr>, i: nat, x: Instr)
    requires i < |c| && SameDestinations(code, labels, c)
    requires (x.Goto? <==> c[i].Goto?) && (x.IfGoto? <==> c[i].IfGoto?) && (x.Goto? || x.IfGoto?)
    requires Reaches(code, labels, code[i].target, x.target)
    requires x.target != code[i].target ==> x.target.text in labels && Hop(code, labels, x.target) == None
    ensures SameDestinations(code, labels, c[i := x])
  {
  }

  /** One rewrite keeps every jump's destination. */
  lemma PeepholeAtDest(code: seq<Instr>, labels: map<string, i32>, c: seq<Instr>, i: nat)
    requires i < |c| && SameDestinations(code, labels, c) && PeepholeAt(c, labels, i).Ok?
    ensures SameDestinations(code, labels, PeepholeAt(c, labels, i).value)
  {
    if c[i].Goto? || c[i].IfGoto? {
      var d := GetDist(c, labels, c[i].target, c[i].target, |c| + 1).value;
      if d != c[i].target {
        GetDistChain(c, labels, c[i].target, c[i].target, |c| + 1);
        var m: nat :| HopN(c, labels, c[i].target, m) == Some(d);
        ReachLift(code, labels, c, c[i].target, m);
        ReachTrans(code, labels, code[i].target, c[i].target, d);
        var x := if c[i].Goto? then Goto(d) else IfGoto(c[i].cond, d);
        RelabelDest(code, labels, c, i, x);
        assert PeepholeAt(c, labels, i).value == c[i := x];
      }
    }
  }

  /** A rewrite at `i` that keeps the original label does so only when that
      label ends its chain or its chain cycles back to it. */
  lemma PeepholeAtCollapsed(code: seq<Instr>, labels: map<string, i32>, c: seq<Instr>, i: nat)
    requires i < |c| && SameDestinations(code, labels, c) && c[i] == code[i]
    requires Collapsed(code, labels, c, i) && PeepholeAt(c, labels, i).Ok?
    ensures Collapsed(code, labels, PeepholeAt(c, labels, i).value, i + 1)
  {
    var r := PeepholeAt(c, labels, i).value;
    if (c[i].Goto? || c[i].IfGoto?) && (r[i].Goto? || r[i].IfGoto?) && r[i].target == c[i].target {
      var t := c[i].target;
      GetDistChain(c, labels, t, t, |c| + 1);
      if Hop(c, labels, t) != None {
        var k: nat :| 1 <= k <= |c| + 1 && HopN(c, labels, t, k) == Some(t);
        ReachLiftStrict(code, labels, c, t, k);
        assert CyclesBack(code, labels, t);
      }
    }
  }

  /** The pass keeps where every jump goes: each jump's new label lies on
      the `goto` chain of its old label in the original code, and a label
      that changed is the chain's end, a defined label whose line is past
      the end or holds no `goto`. And it leaves no jump short of its
      chain's end: a label it kept already ends its chain, or its chain
      cycles back to it. */
  lemma {:induction false} PeepholeDest(code: seq<Instr>, labels: map<string, i32>, n: nat)
    requires n <= |code| && Peephole(code, labels, n).Ok?
    ensures SameDestinations(code, labels, Peephole(code, labels, n).value)
    ensures Collapsed(code, labels, Peephole(code, labels, n).value, n)
  {
    if n == 0 {
      forall j | 0 <= j < |code| && (code[j].Goto? || code[j].IfGoto?)
        ensures Reaches(code, labels, code[j].target, code[j].target)
      {
        assert HopN(code, labels, code[j].target, 0) == Some(code[j].target);
      }
    } else {
      PeepholeDest(code, labels, n - 1);
      var c := Peephole(code, labels, n - 1).value;
      PeepholeShape(code, labels, n - 1);
      PeepholeAtDest(code, labels, c, n - 1);
      PeepholeAtCollapsed(code, labels, c, n - 1);
    }
  }

  /** `optimize_peekhole`: one pass over the instructions, redirecting each
      jump to the end of its chain in place. The label table is only read. */
  method OptimizePeekhole(p: Parser, vm: VariableMap) returns (r: Result<()>)
    modifies p
    ensures var spec := Peephole(old(p.internalCode), vm.labelMap, |old(p.internalCode)|);
      && (spec.Ok? ==> r == Ok(()) && p.internalCode == spec.value)
      && (spec.Err? ==> r == Err(spec.error))
  {
    ghost var code := p.internalCode;
    var n := |p.internalCode|;
    for i := 0 to n
      invariant Peephole(code, vm.labelMap, i) == Ok(p.internalCode)
    {
      var step := RewriteAt(p, vm.labelMap, i);
      if step.Err? {
        FirstErrorStays(code, vm.labelMap, i + 1, n);
        return step;
      }
    }
    r := Ok(());
  }

  /** The body of the pass's loop at instruction `i`. */
  method RewriteAt(p: Parser, labels: map<string, i32>, i: nat) returns (r: Result<()>)
    requires i < |p.internalCode|
    modifies p
    ensures r.Ok? ==> PeepholeAt(old(p.internalCode), labels, i) == Ok(p.internalCode)
    ensures r.Err? ==> PeepholeAt(old(p.internalCode), labels, i) == Err(r.error)
  {
    var n := |p.internalCode|;
    var op := p.internalCode[i];
    if op.Goto? {
      var dist := GetDist(p.internalCode, labels, op.target, op.target, n + 1);
      if dist.Err? {
        return Err(dist.error);
      }
      if dist.value != op.target {
        p.internalCode := p.internalCode[i := Goto(dist.value)];
      }
    }
    op := p.internalCode[i];
    if op.IfGoto? {
      var dist := GetDist(p.internalCode, labels, op.target, op.target, n + 1);
      if dist.Err? {
        return Err(dist.error);
      }
      if dist.value != op.target {
        p.internalCode := p.internalCode[i := IfGoto(op.cond, dist.value)];
      }
    }
    r := Ok(());
  }

  lemma {:induction false} FirstErrorStays(code: seq<Instr>, labels: map<string, i32>, i: nat, n: nat)
    requires i <= n <= |code| && Peephole(code, labels, i).Err?
    ensures Peephole(code, labels, n) == Peephole(code, labels, i)
  {
    if n > i {
      FirstErrorStays(code, labels, i, n - 1);
    }
  }

  // ---------------------------------------------------------------------
  // Examples.

  /** `goto A; A: goto B; B: goto C; C:` with `C` at the end of the program:
      every jump of the chain ends at `C`. */
  lemma ChainCollapses()
    ensures var a, b, c := Token("A", Ident), Token("B", Ident), Token("C", Ident);
      Peephole([Goto(a), Goto(b), Goto(c)], map["A" := 1, "B" := 2, "C" := 3], 3)
        == Ok([Goto(c), Goto(c), Goto(c)])
  {
    var a, b, c := Token("A", Ident), Token("B", Ident), Token("C", Ident);
    var labels := map["A" := 1, "B" := 2, "C" := 3];
    var code := [Goto(a), Goto(b), Goto(c)];
    var c1 := [Goto(c), Goto(b), Goto(c)];
    var c2 := [Goto(c), Goto(c), Goto(c)];
    assert GetDist(code, labels, c, a, 2) == Ok(c);
    assert GetDist(code, labels, b, a, 3) == Ok(c);
    assert GetDist(code, labels, a, a, 4) == Ok(c);
    assert code[0 := Goto(c)] == c1;
    assert PeepholeAt(code, labels, 0) == Ok(c1);
    assert Peephole(code, labels, 1) == Ok(c1);
    assert GetDist(c1, labels, c, b, 3) == Ok(c);
    assert GetDist(c1, labels, b, b, 4) == Ok(c);
    assert c1[1 := Goto(c)] == c2;
    assert PeepholeAt(c1, labels, 1) == Ok(c2);
    assert Peephole(code, labels, 2) == Ok(c2);
    assert GetDist(c2, labels, c, c, 4) == Ok(c);
  }

  /** `A: goto A` is left as it is. */
  lemma SelfLoopKept()
    ensures var a := Token("A", Ident);
      Peephole([Goto(a)], map["A" := 0], 1) == Ok([Goto(a)])
  {
  }

  /** A chain that loops without reaching its start, A -> B -> C -> B,
      never ends, whatever the fuel. */
  lemma {:induction false} CycleNeverEnds(fuel: nat)
    ensures var a, b, c := Token("A", Ident), Token("B", Ident), Token("C", Ident);
      GetDist([Goto(a), Goto(b), Goto(c), Goto(b)], map["A" := 1, "B" := 2, "C" := 3], b, a, fuel) == Err(GotoCycle)
    decreases fuel
  {
    var a, b, c := Token("A", Ident), Token("B", Ident), Token("C", Ident);
    var code, labels := [Goto(a), Goto(b), Goto(c), Goto(b)], map["A" := 1, "B" := 2, "C" := 3];
    if fuel >= 2 {
      CycleNeverEnds(fuel - 2);
      assert GetDist(code, labels, c, a, fuel - 1) == GetDist(code, labels, b, a, fuel - 2);
    } else if fuel == 1 {
      assert GetDist(code, labels, c, a, 0) == Err(GotoCycle);
    }
  }

  /** An undefined label stops the pass. */
  lemma UndefinedLabelFails()
    ensures Peephole([Goto(Token("A", Ident))], map[], 1) == Err(UndefinedLabel)
  {
  }
}

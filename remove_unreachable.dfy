/** The dead-code pass of src/optimize/remove_unreachable.rs: a worklist over
    the control-flow graph marks every node reachable from instruction 0,
    every instruction left unmarked becomes `Nop`, and the `Nop`s are then
    compacted away. `Reachable` is the independent definition the marking
    loop is proved against: a path of edges from node 0. */
module Unreachable {
  import opened Ir
  import opened VarMap
  import opened ControlFlow
  import opened NopRemoval

  /** Every edge stays inside the graph, and there is a node 0. */
  predicate Closed(succs: seq<seq<nat>>) {
    && 1 <= |succs|
    && forall i, t :: 0 <= i < |succs| && t in succs[i] ==> t < |succs|
  }

  /** `path` starts at node 0 and follows edges of `succs`. */
  ghost predicate IsPath(succs: seq<seq<nat>>, path: seq<nat>) {
    && 1 <= |path| && path[0] == 0
    && (forall i :: 0 <= i < |path| ==> path[i] < |succs|)
    && (forall i :: 0 <= i < |path| - 1 ==> path[i + 1] in succs[path[i]])
  }

  /** Node `k` can be reached from node 0. */
  ghost predicate Reachable(succs: seq<seq<nat>>, k: nat) {
    exists path :: IsPath(succs, path) && path[|path| - 1] == k
  }

  lemma EntryReachable(succs: seq<seq<nat>>)
    requires 1 <= |succs|
    ensures Reachable(succs, 0)
  {
    assert IsPath(succs, [0]);
  }

  lemma ReachStep(succs: seq<seq<nat>>, k: nat, t: nat)
    requires Closed(succs) && k < |succs| && Reachable(succs, k) && t in succs[k]
    ensures Reachable(succs, t)
  {
    var path :| IsPath(succs, path) && path[|path| - 1] == k;
    assert IsPath(succs, path + [t]);
  }

  /** `mark` holds node 0 and every successor of a marked node. */
  predicate MarkClosed(succs: seq<seq<nat>>, mark: seq<bool>) {
    && |mark| == |succs| && 1 <= |mark| && mark[0]
    && forall k, t :: 0 <= k < |succs| && mark[k] && t in succs[k] ==> t < |mark| && mark[t]
  }

  /** A marking that holds node 0 and is closed under the edges holds every
      node of every path. */
  lemma {:induction false} PathMarked(succs: seq<seq<nat>>, mark: seq<bool>, path: seq<nat>)
    requires MarkClosed(succs, mark)
    requires IsPath(succs, path)
    ensures mark[path[|path| - 1]]
    decreases |path|
  {
    if |path| > 1 {
      var prefix := path[..|path| - 1];
      assert IsPath(succs, prefix) by {
        assert forall i :: 0 <= i < |prefix| ==> prefix[i] == path[i];
      }
      PathMarked(succs, mark, prefix);
      assert path[|path| - 1] in succs[path[|path| - 2]];
    }
  }

  /** The marking loop of `remove_unreachable_ops`: a node taken from the
      worklist in any order is marked the first time only, and only then are
      its successors queued. On exit the marks are exactly the reachable
      nodes. */
  method MarkReachable(succs: seq<seq<nat>>) returns (mark: seq<bool>)
    requires Closed(succs)
    ensures |mark| == |succs|
    ensures forall k :: 0 <= k < |succs| ==> (mark[k] <==> Reachable(succs, k))
  {
    var n := |succs|;
    mark := seq(n, _ => false);
    var worklist: set<nat> := {0};
    EntryReachable(succs);
    while worklist != {}
      invariant |mark| == n
      invariant forall k :: k in worklist ==> k < n && Reachable(succs, k)
      invariant forall k :: 0 <= k < n && mark[k] ==> Reachable(succs, k)
      invariant forall k, t :: 0 <= k < n && mark[k] && t in succs[k] ==> mark[t] || t in worklist
      invariant mark[0] || 0 in worklist
      decreases set k | 0 <= k < n && !mark[k], |worklist|
    {
      var node :| node in worklist;
      worklist := worklist - {node};
      if !mark[node] {
        ghost var unmarked := set k | 0 <= k < n && !mark[k];
        mark := mark[node := true];
        assert (set k | 0 <= k < n && !mark[k]) < unmarked by {
          assert node in unmarked;
        }
        worklist := Queue(succs, node, worklist);
      }
    }
    forall k | 0 <= k < n && Reachable(succs, k)
      ensures mark[k]
    {
      var path :| IsPath(succs, path) && path[|path| - 1] == k;
      PathMarked(succs, mark, path);
    }
  }

  /** The inner loop: the successors of a reachable `node`, in order, join
      the worklist. */
  method Queue(succs: seq<seq<nat>>, node: nat, worklist: set<nat>) returns (w: set<nat>)
    requires Closed(succs) && node < |succs| && Reachable(succs, node)
    requires forall k :: k in worklist ==> k < |succs| && Reachable(succs, k)
    ensures w == worklist + set t | t in succs[node]
    ensures forall k :: k in w ==> k < |succs| && Reachable(succs, k)
  {
    w := worklist;
    for j := 0 to |succs[node]|
      invariant w == worklist + set t | t in succs[node][..j]
    {
      assert succs[node][..j + 1] == succs[node][..j] + [succs[node][j]];
      w := w + {succs[node][j]};
    }
    assert succs[node][..|succs[node]|] == succs[node];
    forall t | t in succs[node]
      ensures Reachable(succs, t)
    {
      ReachStep(succs, node, t);
    }
  }

  /** The code with every instruction unreachable in `succs` replaced by
      `Nop`. */
  ghost function Masked(code: seq<Instr>, succs: seq<seq<nat>>): (r: seq<Instr>)
    ensures |r| == |code|
  {
    seq(|code|, i requires 0 <= i < |code| => if Reachable(succs, i) then code[i] else Nop)
  }

  /** `remove_unreachable_ops`: the graph is built from the current code and
      label table; a label that does not resolve stops the pass before
      anything changes. Otherwise the code is the reachable instructions in
      their order, every label is renumbered for the removed ones, and
      scalars and arrays are not touched. */
  method RemoveUnreachableOps(p: Parser, vm: VariableMap) returns (r: Result<()>)
    modifies p, vm
    ensures CfgOf(old(p.internalCode), old(vm.labelMap)).Err? ==>
      && r == Err(CfgOf(old(p.internalCode), old(vm.labelMap)).error)
      && p.internalCode == old(p.internalCode) && vm.labelMap == old(vm.labelMap)
    ensures CfgOf(old(p.internalCode), old(vm.labelMap)).Ok? ==>
      var masked := Masked(old(p.internalCode), CfgOf(old(p.internalCode), old(vm.labelMap)).value.succs);
      && r == Ok(())
      && p.internalCode == Compact(masked)
      && vm.labelMap == Renumbered(masked, old(vm.labelMap))
    ensures vm.scalars == old(vm.scalars) && vm.arrayMap == old(vm.arrayMap)
  {
    var built := IcToCfg(p.internalCode, vm.labelMap);
    if built.Err? {
      return Err(built.error);
    }
    var cfg := built.value;
    CfgOfWellFormed(p.internalCode, vm.labelMap);
    var mark := MarkReachable(cfg.succs);
    MaskUnreached(p, mark, cfg.succs);
    RemoveNop(p, vm);
    r := Ok(());
  }

  /** The replacement loop: every unmarked instruction becomes `Nop`. */
  method MaskUnreached(p: Parser, mark: seq<bool>, ghost succs: seq<seq<nat>>)
    requires |p.internalCode| < |mark| <= |succs|
    requires forall k :: 0 <= k < |mark| ==> (mark[k] <==> Reachable(succs, k))
    modifies p
    ensures p.internalCode == Masked(old(p.internalCode), succs)
  {
    ghost var code := p.internalCode;
    var n := |p.internalCode|;
    for i := 0 to n
      invariant |p.internalCode| == n
      invariant forall k :: 0 <= k < i ==> p.internalCode[k] == Masked(code, succs)[k]
      invariant forall k :: i <= k < n ==> p.internalCode[k] == code[k]
    {
      if !mark[i] {
        p.internalCode := p.internalCode[i := Nop];
      }
    }
  }

  /** The pass keeps every reachable instruction that is not already a
      `Nop`, at its index less the removed instructions below it. */
  lemma ReachableKept(code: seq<Instr>, succs: seq<seq<nat>>, i: nat)
    requires i < |code| && 1 <= |succs| && Reachable(succs, i) && !code[i].Nop?
    ensures var masked := Masked(code, succs);
      && i - NopsBelow(masked, i) < |Compact(masked)|
      && Compact(masked)[i - NopsBelow(masked, i)] == code[i]
  {
    CompactAt(Masked(code, succs), i);
  }

  /** `goto A; print x; A: println y`: the `print` can never run, so it is
      removed and `A` moves down to line 1. */
  lemma DeadPrintRemoved()
    ensures var a, x, y := Token("A", Ident), Token("x", Ident), Token("y", Ident);
      var code, labels := [Goto(a), Print(x), Println(y)], map["A" := 2];
      && CfgOf(code, labels).Ok?
      && Compact(Masked(code, CfgOf(code, labels).value.succs)) == [Goto(a), Println(y)]
      && Renumbered(Masked(code, CfgOf(code, labels).value.succs), labels) == map["A" := 1]
  {
    ExampleGraph();
    ExampleMasked();
    ExampleCompact();
  }

  lemma ExampleGraph()
    ensures var a, x, y := Token("A", Ident), Token("x", Ident), Token("y", Ident);
      var code, labels := [Goto(a), Print(x), Println(y)], map["A" := 2];
      CfgOf(code, labels).Ok? && CfgOf(code, labels).value.succs == [[2], [2], [3], []]
  {
    var a, x, y := Token("A", Ident), Token("x", Ident), Token("y", Ident);
    var code, labels := [Goto(a), Print(x), Println(y)], map["A" := 2];
    var succs: seq<seq<nat>> := [[2], [2], [3]];
    assert Edges(code, labels, 0) == Ok([2]);
    SuccessorsSnoc(code, labels, 0, [], [2]);
    assert [] + [[2]] == [[2]];
    SuccessorsSnoc(code, labels, 1, [[2]], [2]);
    assert [[2]] + [[2]] == [[2], [2]];
    SuccessorsSnoc(code, labels, 2, [[2], [2]], [3]);
    assert [[2], [2]] + [[3]] == succs;
  }

  lemma ExampleMasked()
    ensures var a, x, y := Token("A", Ident), Token("x", Ident), Token("y", Ident);
      Masked([Goto(a), Print(x), Println(y)], [[2], [2], [3], []]) == [Goto(a), Nop, Println(y)]
  {
    var all: seq<seq<nat>> := [[2], [2], [3], []];
    PathInsideExample(all, [true, false, true, true]);
    assert IsPath(all, [0]);
    assert IsPath(all, [0, 2]);
  }

  lemma ExampleCompact()
    ensures var a, y := Token("A", Ident), Token("y", Ident);
      && Compact([Goto(a), Nop, Println(y)]) == [Goto(a), Println(y)]
      && Renumbered([Goto(a), Nop, Println(y)], map["A" := 2]) == map["A" := 1]
  {
    var a, y := Token("A", Ident), Token("y", Ident);
    var masked := [Goto(a), Nop, Println(y)];
    assert masked[..2] == [Goto(a), Nop];
    assert masked[..2][..1] == [Goto(a)];
    assert [Goto(a)][..0] == [];
    assert Compact([Goto(a)]) == [Goto(a)];
    assert Compact(masked[..2]) == [Goto(a)];
    assert NopsBelow(masked, 2) == 1;
  }

  lemma PathInsideExample(all: seq<seq<nat>>, mark: seq<bool>)
    requires all == [[2], [2], [3], []] && mark == [true, false, true, true]
    ensures !Reachable(all, 1)
  {
    if Reachable(all, 1) {
      var path :| IsPath(all, path) && path[|path| - 1] == 1;
      PathMarked(all, mark, path);
    }
  }
}

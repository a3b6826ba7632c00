/** The control-flow graph of src/optimize/cfg.rs. Nodes are instruction
    indices 0 .. len-1 plus an exit node `len` that stands for falling off
    the end of the program. `CfgOf` is the graph the builder must produce,
    `IcToCfg` is the builder's loop. */
module ControlFlow {
  import opened Ir

  datatype Cfg = Cfg(succs: seq<seq<nat>>, preds: seq<seq<nat>>, nodes: seq<Instr>)

  /** `Cfg::new`: `len + 1` empty successor and predecessor lists. */
  function NewCfg(ops: seq<Instr>): (c: Cfg)
    ensures |c.succs| == |ops| + 1 && |c.preds| == |ops| + 1 && c.nodes == ops
    ensures forall j :: 0 <= j < |c.succs| ==> c.succs[j] == [] && c.preds[j] == []
  {
    Cfg(seq(|ops| + 1, _ => []), seq(|ops| + 1, _ => []), ops)
  }

  /** Resolves a jump target to a node. The source resolves it with
      `var_map.get`, which reads the scalar map and records 0 for an unknown
      name, while the interpreter and the peephole pass read `label_map`;
      the model resolves every jump through the one label table it is given
      and treats an unknown label as fatal. A negative entry becomes a huge
      `usize`, and any node past the exit node makes `preds[dist]` panic. */
  function Target(ops: seq<Instr>, labels: map<string, i32>, tok: Token): (r: Result<nat>)
    ensures r.Ok? <==> tok.text in labels && AsUsize(labels[tok.text]) <= |ops|
    ensures r.Ok? ==> r.value == AsUsize(labels[tok.text])
    ensures tok.text !in labels ==> r == Err(UndefinedLabel)
  {
    if tok.text !in labels then Err(UndefinedLabel)
    else
      var t := AsUsize(labels[tok.text]);
      if t > |ops| then Err(JumpTargetOutOfRange) else Ok(t)
  }

  /** The successor list of instruction `i`: the jump target alone for a
      `Goto`, the jump target then the fallthrough for an `IfGoto`, and the
      fallthrough alone for everything else. */
  function Edges(ops: seq<Instr>, labels: map<string, i32>, i: nat): (r: Result<seq<nat>>)
    requires i < |ops|
    ensures r.Ok? <==> (!ops[i].Goto? && !ops[i].IfGoto?) || Target(ops, labels, ops[i].target).Ok?
    ensures r.Err? ==> r.error == Target(ops, labels, ops[i].target).error
    ensures r.Ok? ==> forall t :: t in r.value ==> t <= |ops|
  {
    if ops[i].Goto? then
      var t :- Target(ops, labels, ops[i].target);
      Ok([t])
    else if ops[i].IfGoto? then
      var t :- Target(ops, labels, ops[i].target);
      Ok([t, i + 1])
    else
      Ok([i + 1])
  }

  /** The successor lists of instructions 0 .. i-1, or the error of the
      first of them whose target does not resolve. */
  function Successors(ops: seq<Instr>, labels: map<string, i32>, i: nat): (r: Result<seq<seq<nat>>>)
    requires i <= |ops|
    ensures r.Ok? <==> forall k :: 0 <= k < i ==> Edges(ops, labels, k).Ok?
    ensures r.Ok? ==> |r.value| == i && forall k :: 0 <= k < i ==> Edges(ops, labels, k) == Ok(r.value[k])
  {
    if i == 0 then Ok([])
    else
      var prev :- Successors(ops, labels, i - 1);
      var e :- Edges(ops, labels, i - 1);
      Ok(prev + [e])
  }

  function Repeat(x: nat, k: nat): (r: seq<nat>)
    ensures |r| == k && forall y :: y in r ==> y == x
  {
    seq(k, _ => x)
  }

  /** The predecessor list of node `j`, in the order the builder pushes it:
      each source node `i`, in increasing `i`, once per edge `i -> j`. */
  function PredsOf(s: seq<seq<nat>>, j: nat): seq<nat>
  {
    if s == [] then []
    else PredsOf(s[..|s| - 1], j) + Repeat(|s| - 1, multiset(s[|s| - 1])[j])
  }

  /** The predecessor lists of nodes 0 .. n. */
  function PredsTable(s: seq<seq<nat>>, n: nat): (t: seq<seq<nat>>)
    ensures |t| == n + 1 && forall j :: 0 <= j <= n ==> t[j] == PredsOf(s, j)
  {
    seq(n + 1, j requires 0 <= j <= n => PredsOf(s, j))
  }

  /** Appends `i` to the predecessor list of each node of `e`, in order, as
      the builder's pushes do. */
  function Push(preds: seq<seq<nat>>, e: seq<nat>, i: nat): (r: seq<seq<nat>>)
    requires forall k :: 0 <= k < |e| ==> e[k] < |preds|
    ensures |r| == |preds|
    decreases |e|
  {
    if e == [] then preds
    else Push(preds[e[0] := preds[e[0]] + [i]], e[1..], i)
  }

  /** The graph `ic_to_cfg` builds, or the error it stops with. The build
      succeeds exactly when every jump's label is defined and its line is at
      most `len`. */
  function CfgOf(ops: seq<Instr>, labels: map<string, i32>): (r: Result<Cfg>)
    ensures r.Ok? <==> forall k :: 0 <= k < |ops| && (ops[k].Goto? || ops[k].IfGoto?) ==>
      ops[k].target.text in labels && AsUsize(labels[ops[k].target.text]) <= |ops|
  {
    var s :- Successors(ops, labels, |ops|);
    assert forall k :: 0 <= k < |ops| && (ops[k].Goto? || ops[k].IfGoto?) ==>
      Edges(ops, labels, k).Ok? && Target(ops, labels, ops[k].target).Ok?;
    Ok(Cfg(s + [[]], PredsTable(s, |ops|), ops))
  }

  /** The shape every graph of the builder has: `len + 1` nodes, an exit node
      without successors, every edge inside the graph, and predecessor lists
      that are the exact inverse of the successor lists, multiplicities
      included. */
  ghost predicate WellFormed(c: Cfg) {
    && |c.succs| == |c.nodes| + 1 && |c.preds| == |c.nodes| + 1
    && c.succs[|c.nodes|] == []
    && (forall i, t :: 0 <= i < |c.succs| && t in c.succs[i] ==> t <= |c.nodes|)
    && (forall j, p :: 0 <= j < |c.preds| && p in c.preds[j] ==> 0 <= p < |c.nodes|)
    && (forall j, p :: 0 <= j < |c.preds| && p in c.preds[j] && 0 <= p < |c.nodes| ==> j in c.succs[p])
    && (forall i, j :: 0 <= i < |c.succs| && 0 <= j < |c.preds| ==> multiset(c.preds[j])[i] == multiset(c.succs[i])[j])
  }

  lemma {:induction false} RepeatCount(x: nat, k: nat, y: nat)
    ensures multiset(Repeat(x, k))[y] == if x == y then k else 0
  {
    if k > 0 {
      RepeatCount(x, k - 1, y);
      assert Repeat(x, k) == Repeat(x, k - 1) + [x];
    }
  }

  /** `i` occurs in the predecessor list of `j` exactly as often as `j`
      occurs in the successor list of `i`. */
  lemma {:induction false} PredsCount(s: seq<seq<nat>>, j: nat, i: nat)
    ensures multiset(PredsOf(s, j))[i] == if i < |s| then multiset(s[i])[j] else 0
  {
    if s != [] {
      var last := |s| - 1;
      PredsCount(s[..last], j, i);
      RepeatCount(last, multiset(s[last])[j], i);
    }
  }

  lemma PredsMember(s: seq<seq<nat>>, j: nat, p: nat)
    requires p in PredsOf(s, j)
    ensures p < |s| && j in s[p]
  {
    PredsCount(s, j, p);
    assert multiset(PredsOf(s, j))[p] > 0;
    if p < |s| {
      assert j in multiset(s[p]);
    }
  }

  lemma PredsOfSnoc(s: seq<seq<nat>>, e: seq<nat>, j: nat)
    ensures PredsOf(s + [e], j) == PredsOf(s, j) + Repeat(|s|, multiset(e)[j])
  {
    assert (s + [e])[..|s|] == s;
  }

  lemma {:induction false} PushAt(preds: seq<seq<nat>>, e: seq<nat>, i: nat, j: nat)
    requires forall k :: 0 <= k < |e| ==> e[k] < |preds|
    requires j < |preds|
    decreases |e|
    ensures Push(preds, e, i)[j] == preds[j] + Repeat(i, multiset(e)[j])
  {
    if e != [] {
      var p' := preds[e[0] := preds[e[0]] + [i]];
      PushAt(p', e[1..], i, j);
      assert e == [e[0]] + e[1..];
      assert multiset(e)[j] == multiset(e[1..])[j] + (if e[0] == j then 1 else 0);
      if e[0] == j {
        assert Repeat(i, multiset(e)[j]) == [i] + Repeat(i, multiset(e[1..])[j]);
      }
    }
  }

  lemma PushOne(preds: seq<seq<nat>>, a: nat, i: nat)
    requires a < |preds|
    ensures Push(preds, [a], i) == preds[a := preds[a] + [i]]
  {
    assert [a][1..] == [];
  }

  lemma PushTwo(preds: seq<seq<nat>>, a: nat, b: nat, i: nat)
    requires a < |preds| && b < |preds|
    ensures Push(preds, [a, b], i) == preds[a := preds[a] + [i]][b := preds[a := preds[a] + [i]][b] + [i]]
  {
    assert [a, b][1..] == [b];
    PushOne(preds[a := preds[a] + [i]], b, i);
  }

  /** Pushing the edges of the next instruction extends the predecessor
      table of the instructions before it. */
  lemma PredsTableSnoc(s: seq<seq<nat>>, e: seq<nat>, n: nat)
    requires forall k :: 0 <= k < |e| ==> e[k] <= n
    ensures PredsTable(s + [e], n) == Push(PredsTable(s, n), e, |s|)
  {
    forall j | 0 <= j <= n
      ensures PredsTable(s + [e], n)[j] == Push(PredsTable(s, n), e, |s|)[j]
    {
      PredsOfSnoc(s, e, j);
      PushAt(PredsTable(s, n), e, |s|, j);
    }
  }

  lemma {:induction false} SuccessorsErr(ops: seq<Instr>, labels: map<string, i32>, i: nat, k: nat)
    requires i <= k <= |ops|
    requires Successors(ops, labels, i).Err?
    ensures Successors(ops, labels, k) == Successors(ops, labels, i)
  {
    if k > i {
      SuccessorsErr(ops, labels, i, k - 1);
    }
  }

  /** Successor lists `s` of `n` instructions with every edge at most `n`,
      closed by an empty exit list and paired with their predecessor table,
      form a well-formed graph. */
  lemma TableWellFormed(s: seq<seq<nat>>, nodes: seq<Instr>)
    requires |s| == |nodes|
    requires forall i, t :: 0 <= i < |s| && t in s[i] ==> t <= |nodes|
    ensures WellFormed(Cfg(s + [[]], PredsTable(s, |nodes|), nodes))
  {
    var c := Cfg(s + [[]], PredsTable(s, |nodes|), nodes);
    forall i, j | 0 <= i < |c.succs| && 0 <= j < |c.preds|
      ensures multiset(c.preds[j])[i] == multiset(c.succs[i])[j]
    {
      PredsCount(s, j, i);
    }
    forall j, p | 0 <= j < |c.preds| && p in c.preds[j]
      ensures 0 <= p < |c.nodes|
    {
      PredsMember(s, j, p);
    }
    forall j, p | 0 <= j < |c.preds| && p in c.preds[j] && 0 <= p < |c.nodes|
      ensures j in c.succs[p]
    {
      PredsMember(s, j, p);
    }
  }

  /** Every graph the builder produces has `len + 1` nodes, an exit node
      without successors, every edge inside the graph, and predecessor lists
      that are the exact inverse of the successor lists. */
  lemma CfgOfWellFormed(ops: seq<Instr>, labels: map<string, i32>)
    requires CfgOf(ops, labels).Ok?
    ensures WellFormed(CfgOf(ops, labels).value)
  {
    var s := Successors(ops, labels, |ops|).value;
    forall i, t | 0 <= i < |s| && t in s[i]
      ensures t <= |ops|
    {
      assert Edges(ops, labels, i) == Ok(s[i]);
    }
    TableWellFormed(s, ops);
  }

  /** The edges of a built graph: a `Goto` at `i` has its resolved target as
      its only successor, an `IfGoto` its target then `i + 1`, and every
      other instruction `i + 1` alone, so the last one falls through to the
      exit node. */
  lemma CfgOfEdges(ops: seq<Instr>, labels: map<string, i32>, i: nat)
    requires CfgOf(ops, labels).Ok? && i < |ops|
    ensures var c := CfgOf(ops, labels).value;
      && (ops[i].Goto? ==> ops[i].target.text in labels && c.succs[i] == [AsUsize(labels[ops[i].target.text])])
      && (ops[i].IfGoto? ==> ops[i].target.text in labels && c.succs[i] == [AsUsize(labels[ops[i].target.text]), i + 1])
      && (!ops[i].Goto? && !ops[i].IfGoto? ==> c.succs[i] == [i + 1])
  {
    var s := Successors(ops, labels, |ops|).value;
    assert Edges(ops, labels, i) == Ok(s[i]);
  }

  /** One iteration of the builder: installing the successor list `e` of
      instruction `i` and pushing `i` onto the predecessor lists of its
      targets keeps the loop's invariant. */
  lemma BuildStep(ops: seq<Instr>, labels: map<string, i32>, i: nat, succs: seq<seq<nat>>, preds: seq<seq<nat>>, e: seq<nat>)
    requires i < |ops| && |succs| == |ops| + 1
    requires Successors(ops, labels, i) == Ok(succs[..i])
    requires preds == PredsTable(succs[..i], |ops|)
    requires Edges(ops, labels, i) == Ok(e)
    ensures forall k :: 0 <= k < |e| ==> e[k] < |preds|
    ensures Successors(ops, labels, i + 1) == Ok(succs[i := e][..i + 1])
    ensures Push(preds, e, i) == PredsTable(succs[i := e][..i + 1], |ops|)
  {
    var next := succs[i := e][..i + 1];
    assert next == succs[..i] + [e];
    PredsTableSnoc(succs[..i], e, |ops|);
    SuccessorsSnoc(ops, labels, i, succs[..i], e);
  }

  lemma SuccessorsSnoc(ops: seq<Instr>, labels: map<string, i32>, i: nat, s: seq<seq<nat>>, e: seq<nat>)
    requires i < |ops|
    requires Successors(ops, labels, i) == Ok(s)
    requires Edges(ops, labels, i) == Ok(e)
    ensures Successors(ops, labels, i + 1) == Ok(s + [e])
  {
  }

  /** At the end of the builder's loop the lists it holds are `CfgOf`'s. */
  lemma BuildDone(ops: seq<Instr>, labels: map<string, i32>, succs: seq<seq<nat>>, preds: seq<seq<nat>>)
    requires |succs| == |ops| + 1 && succs[|ops|] == []
    requires Successors(ops, labels, |ops|) == Ok(succs[..|ops|])
    requires preds == PredsTable(succs[..|ops|], |ops|)
    ensures CfgOf(ops, labels) == Ok(Cfg(succs, preds, ops))
  {
    assert succs == succs[..|ops|] + [[]];
  }

  /** The body of `ic_to_cfg`'s loop for instruction `i`: each edge of `i`
      is pushed onto `succs[i]`, and `i` onto the predecessor list of the
      edge's target, the jump edge before the fallthrough edge and no
      fallthrough edge after a `Goto`. */
  method PushEdges(ops: seq<Instr>, labels: map<string, i32>, i: nat, succs: seq<seq<nat>>, preds: seq<seq<nat>>)
      returns (r: Result<(seq<seq<nat>>, seq<seq<nat>>)>)
    requires i < |ops| && |succs| == |ops| + 1 && |preds| == |ops| + 1 && succs[i] == []
    ensures Edges(ops, labels, i).Err? ==> r == Err(Edges(ops, labels, i).error)
    ensures Edges(ops, labels, i).Ok? ==>
      r == Ok((succs[i := Edges(ops, labels, i).value], Push(preds, Edges(ops, labels, i).value, i)))
  {
    var s, p := succs, preds;
    var next: nat := i + 1;
    if ops[i].Goto? || ops[i].IfGoto? {
      var t := Target(ops, labels, ops[i].target);
      if t.Err? {
        return Err(t.error);
      }
      var dist := t.value;
      s := s[i := s[i] + [dist]];
      p := p[dist := p[dist] + [i]];
      if ops[i].Goto? {
        PushOne(preds, dist, i);
        assert s[i] == [dist];
        assert s == succs[i := [dist]];
        assert Edges(ops, labels, i) == Ok([dist]);
        return Ok((s, p));
      }
      s := s[i := s[i] + [next]];
      p := p[next := p[next] + [i]];
      PushTwo(preds, dist, next, i);
      assert s[i] == [dist, next];
      assert s == succs[i := [dist, next]];
      assert Edges(ops, labels, i) == Ok([dist, next]);
    } else {
      s := s[i := s[i] + [next]];
      p := p[next := p[next] + [i]];
      PushOne(preds, next, i);
      assert s[i] == [next];
      assert s == succs[i := [next]];
      assert Edges(ops, labels, i) == Ok([next]);
    }
    r := Ok((s, p));
  }

  /** `ic_to_cfg`: one pass over the instructions pushing each edge onto the
      source's successor list and the target's predecessor list. */
  method IcToCfg(ops: seq<Instr>, labels: map<string, i32>) returns (r: Result<Cfg>)
    ensures r == CfgOf(ops, labels)
  {
    var n := |ops|;
    var cfg := NewCfg(ops);
    var succs, preds := cfg.succs, cfg.preds;
    for i := 0 to n
      invariant |succs| == n + 1
      invariant Successors(ops, labels, i) == Ok(succs[..i])
      invariant forall k :: i <= k <= n ==> succs[k] == []
      invariant preds == PredsTable(succs[..i], n)
    {
      var step := PushEdges(ops, labels, i, succs, preds);
      if step.Err? {
        SuccessorsErr(ops, labels, i + 1, n);
        return Err(step.error);
      }
      BuildStep(ops, labels, i, succs, preds, Edges(ops, labels, i).value);
      succs, preds := step.value.0, step.value.1;
    }
    BuildDone(ops, labels, succs, preds);
    r := Ok(Cfg(succs, preds, ops));
  }
}

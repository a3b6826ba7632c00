/** The `Nop` compaction of src/optimize/remove_nop.rs. A cursor walks the
    instruction vector deleting every `Nop` in place; after each deletion
    every label entry past the cursor moves down by one. `Compact` and
    `Renumber` say what the whole pass computes: the surviving instructions
    in their order, and each label moved down by the number of `Nop`s below
    it, so that it still names the same code. */
module NopRemoval {
  import opened Ir
  import opened VarMap

  /** The number of `Nop`s in `s`. */
  function NopCount(s: seq<Instr>): (n: nat)
    ensures n <= |s|
  {
    if |s| == 0 then 0
    else NopCount(s[..|s| - 1]) + (if s[|s| - 1].Nop? then 1 else 0)
  }

  /** `s` with every `Nop` removed. */
  function Compact(s: seq<Instr>): (r: seq<Instr>)
    ensures |r| == |s| - NopCount(s)
    ensures forall i :: 0 <= i < |r| ==> !r[i].Nop?
  {
    if |s| == 0 then []
    else Compact(s[..|s| - 1]) + (if s[|s| - 1].Nop? then [] else [s[|s| - 1]])
  }

  /** `l` forced into 0 .. n. */
  function Clamp(l: int, n: nat): (c: nat)
    ensures c <= n
  {
    if l < 0 then 0 else if l > n then n else l
  }

  /** The number of `Nop`s at indices of `s` strictly below `l`. */
  function NopsBelow(s: seq<Instr>, l: int): nat {
    NopCount(s[..Clamp(l, |s|)])
  }

  /** The entry a label holding `l` has once the `Nop`s of `s` are gone. */
  function Renumber(s: seq<Instr>, l: i32): (r: i32)
    ensures l <= 0 ==> r == l
    ensures 0 <= l ==> 0 <= r
    ensures r <= l
  {
    (l as int - NopsBelow(s, l as int)) as i32
  }

  /** The label table once the `Nop`s of `s` are gone. */
  function Renumbered(s: seq<Instr>, labels: map<string, i32>): (m: map<string, i32>)
    ensures m.Keys == labels.Keys
  {
    map k | k in labels :: Renumber(s, labels[k])
  }

  /** The label table after the deletion at `pos`: entries past `pos` move
      down by one, the others stay. */
  function Shifted(labels: map<string, i32>, pos: int): (m: map<string, i32>)
    requires 0 <= pos
    ensures m.Keys == labels.Keys
  {
    map k | k in labels :: if labels[k] as int > pos then labels[k] - 1 else labels[k]
  }

  // ---------------------------------------------------------------------
  // Properties of the specification.

  lemma {:induction false} CompactAppend(a: seq<Instr>, b: seq<Instr>)
    ensures Compact(a + b) == Compact(a) + Compact(b)
    ensures NopCount(a + b) == NopCount(a) + NopCount(b)
    decreases |b|
  {
    if |b| > 0 {
      var b' := b[..|b| - 1];
      assert (a + b)[..|a + b| - 1] == a + b';
      CompactAppend(a, b');
    } else {
      assert a + b == a;
    }
  }

  /** Every surviving instruction keeps its relative order: the one at index
      `i` of `s` sits at index `i` less the `Nop`s below it. */
  lemma CompactAt(s: seq<Instr>, i: nat)
    requires i < |s| && !s[i].Nop?
    ensures i - NopsBelow(s, i) < |Compact(s)|
    ensures Compact(s)[i - NopsBelow(s, i)] == s[i]
  {
    assert s == s[..i] + ([s[i]] + s[i + 1..]);
    CompactAppend(s[..i], [s[i]] + s[i + 1..]);
    CompactAppend([s[i]], s[i + 1..]);
    assert Compact([s[i]]) == [s[i]] by {
      assert [s[i]][..0] == [];
    }
  }

  /** A label that marked line `l` of `s` marks, after the pass, the start of
      exactly the code that followed it with its `Nop`s removed. A label on a
      `Nop` therefore moves to the next surviving instruction. */
  lemma LabelKeepsCode(s: seq<Instr>, l: i32)
    requires 0 <= l as int <= |s|
    ensures 0 <= Renumber(s, l) as int <= |Compact(s)|
    ensures Compact(s)[Renumber(s, l)..] == Compact(s[l..])
  {
    assert s == s[..l] + s[l..];
    CompactAppend(s[..l], s[l..]);
  }

  /** A label past the end of `s` stays past the end by the same distance. */
  lemma LabelPastEnd(s: seq<Instr>, l: i32)
    requires l as int > |s|
    ensures Renumber(s, l) as int - |Compact(s)| == l as int - |s|
  {
    assert s[..Clamp(l as int, |s|)] == s;
  }

  /** The count is 0 exactly when no instruction is a `Nop`. */
  lemma {:induction false} NoNops(s: seq<Instr>)
    ensures NopCount(s) == 0 <==> forall i :: 0 <= i < |s| ==> !s[i].Nop?
    decreases |s|
  {
    if |s| > 0 {
      var s' := s[..|s| - 1];
      NoNops(s');
      assert forall i :: 0 <= i < |s'| ==> s'[i] == s[i];
    }
  }

  /** A label moves only when a `Nop` lies below it. */
  lemma RenumberMoves(s: seq<Instr>, l: i32)
    ensures Renumber(s, l) == l <==> forall j :: 0 <= j < |s| && j < l as int ==> !s[j].Nop?
  {
    var c := Clamp(l as int, |s|);
    NoNops(s[..c]);
    assert forall j :: 0 <= j < c ==> s[..c][j] == s[j];
  }

  /** On code without `Nop`s the pass changes nothing. */
  lemma {:induction false} NoNopUnchanged(s: seq<Instr>, labels: map<string, i32>)
    requires NopCount(s) == 0
    ensures Compact(s) == s
    ensures Renumbered(s, labels) == labels
    decreases |s|
  {
    if |s| > 0 {
      var s' := s[..|s| - 1];
      assert NopCount(s') == 0;
      NoNopUnchanged(s', map[]);
      assert s == s' + [s[|s| - 1]];
    }
    forall k | k in labels
      ensures Renumber(s, labels[k]) == labels[k]
    {
      RenumberMoves(s, labels[k]);
    }
  }

  /** Running the pass again on its own result changes nothing. */
  lemma Idempotent(s: seq<Instr>, labels: map<string, i32>)
    ensures Compact(Compact(s)) == Compact(s)
    ensures Renumbered(Compact(s), Renumbered(s, labels)) == Renumbered(s, labels)
  {
    NoNops(Compact(s));
    NoNopUnchanged(Compact(s), Renumbered(s, labels));
  }

  // ---------------------------------------------------------------------
  // The pass, and the facts its loop invariant needs.

  /** A label holding `l` once instructions 0 .. it-1 of `s` have been
      visited. */
  function Partial(s: seq<Instr>, it: nat, l: int): int
    requires it <= |s|
  {
    l - NopCount(s[..Clamp(l, it)])
  }

  lemma CountStep(s: seq<Instr>, j: nat)
    requires j < |s|
    ensures NopCount(s[..j + 1]) == NopCount(s[..j]) + (if s[j].Nop? then 1 else 0)
    ensures Compact(s[..j + 1]) == Compact(s[..j]) + (if s[j].Nop? then [] else [s[j]])
  {
    assert s[..j + 1][..j] == s[..j];
  }

  /** Between two prefixes there are no more `Nop`s than instructions. */
  lemma {:induction false} CountGap(s: seq<Instr>, a: nat, b: nat)
    requires a <= b <= |s|
    ensures NopCount(s[..b]) - NopCount(s[..a]) <= b - a
    decreases b
  {
    if a < b {
      CountGap(s, a, b - 1);
      CountStep(s, b - 1);
    }
  }

  /** Visiting instruction `it` with the cursor at `pos`: when it is a `Nop`,
      the labels the deletion moves are exactly those past `it`, and moving
      them gives the entries of one more visited instruction; otherwise the
      entries already are those. */
  lemma PartialStep(s: seq<Instr>, it: nat, l: int)
    requires it < |s|
    ensures var cur, pos := Partial(s, it, l), it - NopCount(s[..it]);
      && (s[it].Nop? ==> (cur > pos <==> l > it))
      && (s[it].Nop? ==> (if cur > pos then cur - 1 else cur) == Partial(s, it + 1, l))
      && (!s[it].Nop? ==> cur == Partial(s, it + 1, l))
  {
    CountStep(s, it);
    if 0 <= l <= it {
      CountGap(s, l, it);
    }
  }

  /** The relabelling loop of `remove_nop`, over a snapshot of the label
      names in any order: each entry past `pos` goes down by one. */
  method ShiftLabels(vm: VariableMap, pos: int)
    requires 0 <= pos
    modifies vm
    ensures vm.labelMap == Shifted(old(vm.labelMap), pos)
    ensures vm.scalars == old(vm.scalars) && vm.arrayMap == old(vm.arrayMap)
  {
    var snapshot := vm.labelMap;
    var todo := snapshot.Keys;
    while todo != {}
      invariant todo <= snapshot.Keys
      invariant vm.labelMap.Keys == snapshot.Keys
      invariant forall k :: k in snapshot && k !in todo ==> vm.labelMap[k] == Shifted(snapshot, pos)[k]
      invariant forall k :: k in todo ==> vm.labelMap[k] == snapshot[k]
      invariant vm.scalars == old(vm.scalars) && vm.arrayMap == old(vm.arrayMap)
      decreases todo
    {
      var name :| name in todo;
      todo := todo - {name};
      var line := vm.labelMap[name];
      if line as int > pos {
        vm.labelMap := vm.labelMap[name := line - 1];
      }
    }
  }

  /** The code once instructions 0 .. it-1 of `s` have been visited: those
      compacted, the rest as they were. */
  function Visited(s: seq<Instr>, it: nat): seq<Instr>
    requires it <= |s|
  {
    Compact(s[..it]) + s[it..]
  }

  /** Visiting instruction `it` with the cursor at `|Compact(s[..it])|`. */
  lemma CodeStep(s: seq<Instr>, it: nat, cur: seq<Instr>)
    requires it < |s| && cur == Visited(s, it)
    ensures |Compact(s[..it])| < |cur| && cur[|Compact(s[..it])|] == s[it]
    ensures var pos := |Compact(s[..it])|;
      s[it].Nop? ==> cur[..pos] + cur[pos + 1..] == Visited(s, it + 1)
    ensures !s[it].Nop? ==> cur == Visited(s, it + 1)
  {
    CountStep(s, it);
    assert s[it..] == [s[it]] + s[it + 1..];
  }

  /** The label entries once instructions 0 .. it-1 of `s` have been
      visited, for the original table `labels`. */
  ghost predicate LabelsAt(s: seq<Instr>, it: nat, labels: map<string, i32>, cur: map<string, i32>)
    requires it <= |s|
  {
    && cur.Keys == labels.Keys
    && forall k :: k in labels ==> cur[k] as int == Partial(s, it, labels[k] as int)
  }

  /** The label entries after visiting instruction `it`. */
  lemma LabelsStep(s: seq<Instr>, it: nat, labels: map<string, i32>, cur: map<string, i32>)
    requires it < |s| && 0 <= it - NopCount(s[..it])
    requires LabelsAt(s, it, labels, cur)
    ensures s[it].Nop? ==> LabelsAt(s, it + 1, labels, Shifted(cur, it - NopCount(s[..it])))
    ensures !s[it].Nop? ==> LabelsAt(s, it + 1, labels, cur)
  {
    forall k | k in labels
      ensures s[it].Nop? ==> Shifted(cur, it - NopCount(s[..it]))[k] as int == Partial(s, it + 1, labels[k] as int)
      ensures !s[it].Nop? ==> cur[k] as int == Partial(s, it + 1, labels[k] as int)
    {
      PartialStep(s, it, labels[k] as int);
    }
  }

  /** Once every instruction is visited the entries are the renumbered ones. */
  lemma LabelsDone(s: seq<Instr>, labels: map<string, i32>, cur: map<string, i32>)
    requires LabelsAt(s, |s|, labels, cur)
    ensures cur == Renumbered(s, labels)
  {
    forall k | k in labels
      ensures cur[k] == Renumber(s, labels[k])
    {
      assert Partial(s, |s|, labels[k] as int) == Renumber(s, labels[k]) as int;
    }
  }

  /** One turn of the loop of `remove_nop` at cursor `pos`: a `Nop` there is
      deleted and the labels past it move down. */
  method Visit(p: Parser, vm: VariableMap, pos: nat) returns (removed: bool)
    requires pos < |p.internalCode|
    modifies p, vm
    ensures removed == old(p.internalCode[pos]).Nop?
    ensures removed ==> p.internalCode == old(p.internalCode[..pos] + p.internalCode[pos + 1..])
    ensures removed ==> vm.labelMap == Shifted(old(vm.labelMap), pos)
    ensures !removed ==> p.internalCode == old(p.internalCode) && vm.labelMap == old(vm.labelMap)
    ensures vm.scalars == old(vm.scalars) && vm.arrayMap == old(vm.arrayMap)
  {
    removed := p.internalCode[pos].Nop?;
    if removed {
      p.internalCode := p.internalCode[..pos] + p.internalCode[pos + 1..];
      ShiftLabels(vm, pos);
    }
  }

  /** `remove_nop`: the code loses its `Nop`s and every label is renumbered
      to follow it; scalars and arrays are not touched. */
  method RemoveNop(p: Parser, vm: VariableMap)
    modifies p, vm
    ensures p.internalCode == Compact(old(p.internalCode))
    ensures vm.labelMap == Renumbered(old(p.internalCode), old(vm.labelMap))
    ensures vm.scalars == old(vm.scalars) && vm.arrayMap == old(vm.arrayMap)
  {
    ghost var code := p.internalCode;
    ghost var labels := vm.labelMap;
    var n := |p.internalCode|;
    var pos: nat := 0;
    for it := 0 to n
      invariant pos == |Compact(code[..it])| == it - NopCount(code[..it])
      invariant p.internalCode == Visited(code, it)
      invariant LabelsAt(code, it, labels, vm.labelMap)
      invariant vm.scalars == old(vm.scalars) && vm.arrayMap == old(vm.arrayMap)
    {
      CountStep(code, it);
      CodeStep(code, it, p.internalCode);
      LabelsStep(code, it, labels, vm.labelMap);
      var removed := Visit(p, vm, pos);
      if !removed {
        pos := pos + 1;
      }
    }
    assert code[..n] == code;
    assert Visited(code, n) == Compact(code);
    LabelsDone(code, labels, vm.labelMap);
  }
}

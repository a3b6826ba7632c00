/** The value store of src/var_map.rs: integer scalars, integer arrays and the
    label table, each a map keyed by the token's text. `Store` is the value
    the store holds at one moment and its member functions say what each
    operation does; `VariableMap` is the mutable object the interpreter and
    the passes update in place, each of its methods proved against the
    `Store` function of the same name. */
module VarMap {
  import opened Ir

  datatype Store = Store(scalars: map<string, i32>, arrays: map<string, seq<i32>>, labels: map<string, i32>)
  {
    /** `get`: a numeric literal reads as its own value, an identifier as its
        stored value, and an identifier never written reads as 0 and is
        recorded as 0. Any other token kind is fatal. */
    function Get(tok: Token): (r: Result<(i32, Store)>)
      ensures r.Ok? <==> tok.kind.Ident? || tok.kind.NumLiteral?
      ensures tok.kind.NumLiteral? ==> r == Ok((tok.kind.value, this))
      ensures tok.kind.Ident? && tok.text in scalars ==> r == Ok((scalars[tok.text], this))
      ensures tok.kind.Ident? && tok.text !in scalars ==> r.Ok? && r.value.0 == 0
      ensures r.Ok? ==> var (v, s) := r.value;
        && s.arrays == arrays && s.labels == labels
        && s.scalars.Keys == scalars.Keys + (if tok.kind.Ident? then {tok.text} else {})
        && (tok.kind.Ident? ==> s.scalars[tok.text] == v)
        && (forall k :: k in scalars ==> s.scalars[k] == scalars[k])
    {
      match tok.kind
      case NumLiteral(n) => Ok((n, this))
      case Ident =>
        if tok.text in scalars then Ok((scalars[tok.text], this))
        else Ok((0, this.(scalars := scalars[tok.text := 0])))
      case _ => Err(OperandKind)
    }

    /** `set`: the token's name now holds `val`; nothing else changes. */
    function Set(tok: Token, val: i32): (s: Store)
      ensures tok.text in s.scalars && s.scalars[tok.text] == val
      ensures s.scalars.Keys == scalars.Keys + {tok.text}
      ensures forall k :: k in scalars && k != tok.text ==> s.scalars[k] == scalars[k]
      ensures s.arrays == arrays && s.labels == labels
    {
      this.(scalars := scalars[tok.text := val])
    }

    /** `array_init`: any earlier array of that name is discarded and a
        zero-filled array of exactly `size` elements takes its place. */
    function ArrayInit(tok: Token, size: nat): (s: Store)
      ensures tok.text in s.arrays && |s.arrays[tok.text]| == size
      ensures forall i :: 0 <= i < size ==> s.arrays[tok.text][i] == 0
      ensures s.arrays.Keys == arrays.Keys + {tok.text}
      ensures forall k :: k in arrays && k != tok.text ==> s.arrays[k] == arrays[k]
      ensures s.scalars == scalars && s.labels == labels
    {
      this.(arrays := arrays[tok.text := seq(size, _ => 0)])
    }

    /** `array_get`: element `index` of a declared array; an undeclared name
        or an index at or past the end is fatal. */
    function ArrayGet(tok: Token, index: nat): (r: Result<i32>)
      ensures r.Ok? <==> tok.text in arrays && index < |arrays[tok.text]|
      ensures r.Ok? ==> r.value == arrays[tok.text][index]
      ensures tok.text !in arrays ==> r == Err(UndeclaredArray)
      ensures tok.text in arrays && index >= |arrays[tok.text]| ==> r == Err(IndexOutOfBounds)
    {
      if tok.text !in arrays then Err(UndeclaredArray)
      else if index >= |arrays[tok.text]| then Err(IndexOutOfBounds)
      else Ok(arrays[tok.text][index])
    }

    /** `array_set`: with a valid index only that element changes; an
        undeclared name or an index at or past the end is fatal. */
    function ArraySet(tok: Token, index: nat, val: i32): (r: Result<Store>)
      ensures r.Ok? <==> tok.text in arrays && index < |arrays[tok.text]|
      ensures tok.text !in arrays ==> r == Err(UndeclaredArray)
      ensures tok.text in arrays && index >= |arrays[tok.text]| ==> r == Err(IndexOutOfBounds)
      ensures r.Ok? ==> var s := r.value;
        && s.arrays.Keys == arrays.Keys
        && |s.arrays[tok.text]| == |arrays[tok.text]|
        && s.arrays[tok.text][index] == val
        && (forall i :: 0 <= i < |arrays[tok.text]| && i != index ==> s.arrays[tok.text][i] == arrays[tok.text][i])
        && (forall k :: k in arrays && k != tok.text ==> s.arrays[k] == arrays[k])
        && s.scalars == scalars && s.labels == labels
    {
      if tok.text !in arrays then Err(UndeclaredArray)
      else if index >= |arrays[tok.text]| then Err(IndexOutOfBounds)
      else Ok(this.(arrays := arrays[tok.text := arrays[tok.text][index := val]]))
    }

    /** `label_get`: the line a label stands for; an unknown label is fatal. */
    function LabelGet(tok: Token): (r: Result<i32>)
      ensures r.Ok? <==> tok.text in labels
      ensures r.Ok? ==> r.value == labels[tok.text]
      ensures r.Err? ==> r.error == UndefinedLabel
    {
      if tok.text in labels then Ok(labels[tok.text]) else Err(UndefinedLabel)
    }

    /** `label_set`: overwrites that entry of the label table only. */
    function LabelSet(tok: Token, val: i32): (s: Store)
      ensures tok.text in s.labels && s.labels[tok.text] == val
      ensures s.labels.Keys == labels.Keys + {tok.text}
      ensures forall k :: k in labels && k != tok.text ==> s.labels[k] == labels[k]
      ensures s.scalars == scalars && s.arrays == arrays
    {
      this.(labels := labels[tok.text := val])
    }
  }

  /** The store of a fresh session: every map empty. */
  const EmptyStore := Store(map[], map[], map[])

  /** The test of src/var_map.rs:105-109 on a fresh store: the literal 100
      reads as 100 and the unknown identifier `a` reads as 0. */
  lemma GetOnFreshStore()
    ensures EmptyStore.Get(Token("100", NumLiteral(100))) == Ok((100, EmptyStore))
    ensures EmptyStore.Get(Token("a", Ident)).Ok?
    ensures EmptyStore.Get(Token("a", Ident)).value.0 == 0
    ensures EmptyStore.Get(Token("a", Ident)).value.1.scalars == map["a" := 0]
  {
  }

  /** The mutable store. Its three maps are the source's three `HashMap`s. */
  class VariableMap {
    var scalars: map<string, i32>
    var arrayMap: map<string, seq<i32>>
    var labelMap: map<string, i32>

    function Value(): Store
      reads this
    {
      Store(scalars, arrayMap, labelMap)
    }

    constructor ()
      ensures Value() == EmptyStore
    {
      scalars, arrayMap, labelMap := map[], map[], map[];
    }

    method Get(tok: Token) returns (r: Result<i32>)
      modifies this
      ensures old(Value()).Get(tok).Ok? ==> r == Ok(old(Value()).Get(tok).value.0) && Value() == old(Value()).Get(tok).value.1
      ensures old(Value()).Get(tok).Err? ==> r == Err(old(Value()).Get(tok).error) && Value() == old(Value())
    {
      match tok.kind {
        case NumLiteral(n) =>
          r := Ok(n);
        case Ident =>
          if tok.text in scalars {
            r := Ok(scalars[tok.text]);
          } else {
            scalars := scalars[tok.text := 0];
            r := Ok(0);
          }
        case _ =>
          r := Err(OperandKind);
      }
    }

    method Set(tok: Token, val: i32)
      modifies this
      ensures Value() == old(Value()).Set(tok, val)
    {
      scalars := scalars[tok.text := val];
    }

    method ArrayInit(tok: Token, size: nat)
      modifies this
      ensures Value() == old(Value()).ArrayInit(tok, size)
    {
      arrayMap := map k | k in arrayMap && k != tok.text :: arrayMap[k];
      arrayMap := arrayMap[tok.text := seq(size, _ => 0)];
    }

    method ArrayGet(tok: Token, index: nat) returns (r: Result<i32>)
      ensures r == Value().ArrayGet(tok, index)
    {
      if tok.text !in arrayMap {
        return Err(UndeclaredArray);
      }
      var arr := arrayMap[tok.text];
      if index >= |arr| {
        return Err(IndexOutOfBounds);
      }
      r := Ok(arr[index]);
    }

    method ArraySet(tok: Token, index: nat, val: i32) returns (r: Result<()>)
      modifies this
      ensures old(Value()).ArraySet(tok, index, val).Ok? ==> r == Ok(()) && Value() == old(Value()).ArraySet(tok, index, val).value
      ensures old(Value()).ArraySet(tok, index, val).Err? ==> r == Err(old(Value()).ArraySet(tok, index, val).error) && Value() == old(Value())
    {
      if tok.text !in arrayMap {
        return Err(UndeclaredArray);
      }
      var arr := arrayMap[tok.text];
      if index >= |arr| {
        return Err(IndexOutOfBounds);
      }
      arr := arr[index := val];
      arrayMap := arrayMap[tok.text := arr];
      r := Ok(());
    }

    method LabelGet(tok: Token) returns (r: Result<i32>)
      ensures r == Value().LabelGet(tok)
    {
      if tok.text in labelMap {
        r := Ok(labelMap[tok.text]);
      } else {
        r := Err(UndefinedLabel);
      }
    }

    method LabelSet(tok: Token, val: i32)
      modifies this
      ensures Value() == old(Value()).LabelSet(tok, val)
    {
      labelMap := labelMap[tok.text := val];
    }
  }
}

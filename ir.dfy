/** The intermediate representation shared by every pass: tokens, the closed
    instruction type, the fatal errors the passes and the interpreter can
    raise, and the parser object whose instruction vector the passes rewrite. */
module Ir {

  /** Rust's `i32`. */
  newtype i32 = x: int | -0x8000_0000 <= x < 0x8000_0000

  predicate InI32(x: int) {
    -0x8000_0000 <= x < 0x8000_0000
  }

  /** Token kinds of src/lexer.rs. A numeric literal carries its value, as the
      interpreter's store expects; the lexer keeps the digits in `text`. */
  datatype Kind = Symbol | Ident | NumLiteral(value: i32) | StrLiteral

  /** A token. Datatype equality compares text and kind, like the derived
      `PartialEq` of the source's `Token`. */
  datatype Token = Token(text: string, kind: Kind)

  /** The instruction set of src/parser.rs plus the `Nop` placeholder that the
      deletion passes leave behind. */
  datatype Instr =
    | Copy(dst: Token, src: Token)
    | Add(dst: Token, lhs: Token, rhs: Token)
    | Sub(dst: Token, lhs: Token, rhs: Token)
    | Mul(dst: Token, lhs: Token, rhs: Token)
    | Div(dst: Token, lhs: Token, rhs: Token)
    | Eq(dst: Token, lhs: Token, rhs: Token)
    | Ne(dst: Token, lhs: Token, rhs: Token)
    | Lt(dst: Token, lhs: Token, rhs: Token)
    | Le(dst: Token, lhs: Token, rhs: Token)
    | Print(operand: Token)
    | Println(operand: Token)
    | Time
    | Goto(target: Token)
    | IfGoto(cond: Token, target: Token)
    | ArrayNew(name: Token, size: Token)
    | ArraySet(name: Token, index: Token, value: Token)
    | ArrayGet(dst: Token, name: Token, index: Token)
    | Nop

  /** The four arithmetic and four comparison instructions. */
  predicate IsBinary(op: Instr) {
    op.Add? || op.Sub? || op.Mul? || op.Div? || op.Eq? || op.Ne? || op.Lt? || op.Le?
  }

  /** The fatal conditions of the core: each one ends the run. */
  datatype Error =
    | OperandKind          // a string literal or symbol where a value is read
    | UndeclaredArray
    | IndexOutOfBounds
    | UndefinedLabel
    | ZeroDivision
    | Overflow             // i32 arithmetic overflow (a panic in debug builds)
    | CapacityOverflow     // an array of negative size, i.e. 2^64 - k elements
    | CannotPrint
    | JumpTargetOutOfRange // a CFG edge to a node past the exit node
    | GotoCycle            // a jump chain that never returns to its start

  datatype Option<+T> = None | Some(value: T)

  datatype Result<+T> = Ok(value: T) | Err(error: Error) {
    predicate IsFailure() {
      Err?
    }

    function PropagateFailure<U>(): Result<U>
      requires Err?
    {
      Err(error)
    }

    function Extract(): T
      requires Ok?
    {
      value
    }
  }

  /** The `as usize` cast of an i32 on a 64-bit target: a negative value
      becomes a huge index, past the end of anything the core indexes. */
  function AsUsize(v: i32): (u: nat)
    ensures v >= 0 ==> u == v as int
    ensures v < 0 ==> u >= 0x1_0000_0000_0000_0000 - 0x8000_0000
  {
    if v >= 0 then v as nat else v as int + 0x1_0000_0000_0000_0000
  }

  function Abs(x: int): nat {
    if x < 0 then -x else x
  }

  /** Division truncating toward zero, as Rust's `/` on integers. */
  function Quot(a: int, b: int): int
    requires b != 0
  {
    if (a >= 0) == (b > 0) then Abs(a) / Abs(b) else -(Abs(a) / Abs(b))
  }

  /** `Quot` leaves a remainder smaller than the divisor and of the
      dividend's sign, which is what truncation toward zero means. */
  lemma QuotRemainder(a: int, b: int)
    requires b != 0
    ensures var r := a - Quot(a, b) * b;
      Abs(r) < Abs(b) && (a >= 0 ==> r >= 0) && (a <= 0 ==> r <= 0)
  {
    var n: int, d: int := Abs(a), Abs(b);
    var m: int, k: int := n / d, n % d;
    assert n == m * d + k && 0 <= k < d;
    var q, r := Quot(a, b), a - Quot(a, b) * b;
    if a >= 0 && b > 0 {
      assert q == m && b == d && a == n;
      assert r == k;
    } else if a >= 0 {
      assert q == -m && b == -d && a == n;
      assert q * b == m * d;
      assert r == k;
    } else if b > 0 {
      assert q == -m && b == d && a == -n;
      assert q * b == -(m * d);
      assert r == -k;
    } else {
      assert q == m && b == -d && a == -n;
      assert q * b == -(m * d);
      assert r == -k;
    }
  }

  /** The operator of a binary instruction. */
  datatype BinOp = AddOp | SubOp | MulOp | DivOp | EqOp | NeOp | LtOp | LeOp

  function OpOf(op: Instr): BinOp
    requires IsBinary(op)
  {
    if op.Add? then AddOp
    else if op.Sub? then SubOp
    else if op.Mul? then MulOp
    else if op.Div? then DivOp
    else if op.Eq? then EqOp
    else if op.Ne? then NeOp
    else if op.Lt? then LtOp
    else LeOp
  }

  /** An exact result kept if it fits an i32; otherwise the overflow panic
      of a debug build. */
  function Checked(x: int): (r: Result<i32>)
    ensures r.Ok? <==> InI32(x)
    ensures r.Ok? ==> r.value as int == x
    ensures r.Err? ==> r.error == Overflow
  {
    if InI32(x) then Ok(x as i32) else Err(Overflow)
  }

  /** Rust's i32 operators as the interpreter uses them: `+`, `-`, `*` and
      `/` panic on overflow, `/` truncates and panics on a zero divisor, and
      a comparison yields 1 or 0. The constant folder uses them too, except
      that it folds `-` and `*` with `+` (`Constant.FoldAsWritten`). */
  function Apply(o: BinOp, a: i32, b: i32): (r: Result<i32>)
    ensures r.Err? ==> r.error == ZeroDivision || r.error == Overflow
    ensures r.Err? && r.error == ZeroDivision <==> o.DivOp? && b == 0
    ensures o.AddOp? || o.SubOp? || o.MulOp? ==>
      (r.Ok? <==> InI32(if o.AddOp? then a as int + b as int else if o.SubOp? then a as int - b as int else a as int * b as int))
    ensures o.AddOp? && r.Ok? ==> r.value as int == a as int + b as int
    ensures o.SubOp? && r.Ok? ==> r.value as int == a as int - b as int
    ensures o.MulOp? && r.Ok? ==> r.value as int == a as int * b as int
    ensures o.DivOp? && r.Ok? ==> r.value as int == Quot(a as int, b as int)
    ensures o.EqOp? || o.NeOp? || o.LtOp? || o.LeOp? ==> r.Ok? && (r.value == 0 || r.value == 1)
    ensures o.EqOp? ==> (r == Ok(1) <==> a == b)
    ensures o.NeOp? ==> (r == Ok(1) <==> a != b)
    ensures o.LtOp? ==> (r == Ok(1) <==> a < b)
    ensures o.LeOp? ==> (r == Ok(1) <==> a <= b)
  {
    match o
    case AddOp => Checked(a as int + b as int)
    case SubOp => Checked(a as int - b as int)
    case MulOp => Checked(a as int * b as int)
    case DivOp => if b == 0 then Err(ZeroDivision) else Checked(Quot(a as int, b as int))
    case EqOp => Ok(if a == b then 1 else 0)
    case NeOp => Ok(if a != b then 1 else 0)
    case LtOp => Ok(if a < b then 1 else 0)
    case LeOp => Ok(if a <= b then 1 else 0)
  }

  lemma MulMonotone(q: int, x: int, y: int)
    requires q >= 0 && x <= y
    ensures q * x <= q * y
  {
    assert q * y - q * x == q * (y - x);
  }

  lemma DivBounds(n: int, d: int)
    requires n >= 0 && d > 0
    ensures 0 <= n / d && n / d * d <= n
  {
  }

  /** Truncating division of two i32 values overflows for exactly one pair
      of operands: the most negative value divided by -1. */
  lemma DivOverflow(a: i32, b: i32)
    requires b != 0
    ensures Apply(DivOp, a, b).Err? <==> a == -0x8000_0000 && b == -1
  {
    QuotInRange(a as int, b as int);
  }

  /** The truncated quotient of two i32 values is an i32 except for the
      most negative value divided by -1. */
  lemma QuotInRange(a: int, b: int)
    requires InI32(a) && InI32(b) && b != 0
    ensures InI32(Quot(a, b)) <==> !(a == -0x8000_0000 && b == -1)
  {
    var n: int, d: int := Abs(a), Abs(b);
    var q: int := n / d;
    assert Quot(a, b) == q || Quot(a, b) == -q;
    if d == 1 {
      assert q == n;
      assert b == 1 ==> Quot(a, b) == a;
      assert b == -1 ==> Quot(a, b) == -a;
    } else {
      DivBounds(n, d);
      MulMonotone(q, 2, d);
      assert 0 <= q <= 0x4000_0000;
    }
  }

  /** The parser object: the passes rewrite its instruction vector in place
      and the interpreter reads it. Building it from text is outside the
      model. */
  class Parser {
    var internalCode: seq<Instr>

    constructor (code: seq<Instr>)
      ensures internalCode == code
    {
      internalCode := code;
    }
  }
}

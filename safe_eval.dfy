/** The whitelisting evaluator of tools.py: a syntax tree is walked recursively,
    constants evaluate to themselves and every operator node is looked up in
    one fixed table; anything the table does not hold, and every other kind of
    node, is refused. Numbers are exact reals. */
module SafeEval {
  import opened Wrappers

  /** The binary operator tags Python's parser can put in a `BinOp` node. */
  datatype BinOperator =
    | Add | Sub | Mult | Div | Pow | Mod
    | FloorDiv | MatMult | LShift | RShift | BitOr | BitXor | BitAnd

  /** The unary operator tags Python's parser can put in a `UnaryOp` node. */
  datatype UnaryOperator = USub | UAdd | Not | Invert

  /** Node kinds other than constants, binary and unary operations. */
  datatype NodeKind =
    | Name | Call | Attribute | Subscript | Compare | BoolOp
    | Lambda | Comprehension | Conditional

  datatype Expr =
    | Const(value: real)
    | BinOp(op: BinOperator, left: Expr, right: Expr)
    | UnaryOp(uop: UnaryOperator, operand: Expr)
    | Other(kind: NodeKind)

  /** The functions the whitelist table maps operators to. */
  datatype ArithOp = OpAdd | OpSub | OpMul | OpTrueDiv | OpPow | OpMod
  datatype UnaryArith = OpNeg

  /** The exceptions evaluation raises. `FractionalPower` stands for a power
      of a non-zero base whose exponent is not an integer: Python answers it
      with a float (or a complex number), which this model does not compute. */
  datatype Failure =
    | ZeroDivision
    | UnsupportedOperator
    | UnsupportedUnaryOperator
    | UnsupportedElement
    | FractionalPower

  datatype Value = Val(v: real) | Raised(failure: Failure)

  /** `_ALLOWED_OPERATORS` for binary operator tags. */
  function BinaryTable(op: BinOperator): (f: Option<ArithOp>)
    ensures f.Some? <==> op in {Add, Sub, Mult, Div, Pow, Mod}
    ensures f == Some(OpAdd) <==> op == Add
    ensures f == Some(OpSub) <==> op == Sub
    ensures f == Some(OpMul) <==> op == Mult
    ensures f == Some(OpTrueDiv) <==> op == Div
    ensures f == Some(OpPow) <==> op == Pow
    ensures f == Some(OpMod) <==> op == Mod
  {
    match op
    case Add => Some(OpAdd)
    case Sub => Some(OpSub)
    case Mult => Some(OpMul)
    case Div => Some(OpTrueDiv)
    case Pow => Some(OpPow)
    case Mod => Some(OpMod)
    case _ => None
  }

  /** `_ALLOWED_OPERATORS` for unary operator tags. */
  function UnaryTable(op: UnaryOperator): (f: Option<UnaryArith>)
    ensures f.Some? <==> op == USub
  {
    if op == USub then Some(OpNeg) else None
  }

  /** `b` raised to a natural power. */
  function Power(b: real, n: nat): real {
    if n == 0 then 1.0 else b * Power(b, n - 1)
  }

  lemma {:induction false} PowerNonZero(b: real, n: nat)
    requires b != 0.0
    ensures Power(b, n) != 0.0
    decreases n
  {
    if n > 0 {
      PowerNonZero(b, n - 1);
    }
  }

  predicate IsIntegral(x: real) {
    x.Floor as real == x
  }

  /** Python's `%`: the remainder of floor division, whose sign follows the
      divisor (Dafny's own `%` is Euclidean and never negative). */
  function PyMod(a: real, b: real): (r: real)
    requires b != 0.0
    ensures IsIntegral((a - r) / b)
    ensures b > 0.0 ==> 0.0 <= r < b
    ensures b < 0.0 ==> b < r <= 0.0
  {
    var q := (a / b).Floor as real;
    var r := a - b * q;
    assert (a - r) / b == q;
    FloorBounds(a, b, q);
    r
  }

  /** Helper for `PyMod`: `q` is the floor of `a / b`, so `a` lies between
      `b * q` and `b * (q + 1)`. */
  lemma FloorBounds(a: real, b: real, q: real)
    requires b != 0.0 && q <= a / b < q + 1.0
    ensures b > 0.0 ==> b * q <= a < b * q + b
    ensures b < 0.0 ==> b * q >= a > b * q + b
  {
    var x := a / b;
    assert b * x == a;
    if b > 0.0 {
      MulBounds(x, q, b);
      calc {
        a;
        == b * x;
        < b * q + b;
      }
    } else {
      MulBounds(x, q, -b);
      calc {
        a;
        == b * x;
        > b * q + b;
      }
    }
  }

  /** Multiplying `q <= x < q + 1` by a positive `c`. */
  lemma MulBounds(x: real, q: real, c: real)
    requires q <= x < q + 1.0 && c > 0.0
    ensures c * q <= c * x < c * q + c
  {
    assert c * (x - q) >= 0.0;
    assert c * (q + 1.0 - x) > 0.0;
  }

  /** Python's `**` on exact numbers. A zero base is settled first: to a
      negative power it raises `ZeroDivisionError`, to a positive one it gives
      zero. Otherwise an integer exponent is repeated multiplication or its
      reciprocal, and any other exponent is `FractionalPower`. */
  function PyPow(a: real, b: real): (r: Value)
    ensures IsIntegral(b) && b >= 0.0 ==> r == Val(Power(a, b.Floor))
    ensures b < 0.0 ==> (r == Raised(ZeroDivision) <==> a == 0.0)
    ensures IsIntegral(b) && b < 0.0 && a != 0.0 ==> r.Val? && r.v * Power(a, -b.Floor) == 1.0
    ensures a == 0.0 && b > 0.0 ==> r == Val(0.0)
    ensures r == Raised(FractionalPower) <==> !IsIntegral(b) && a != 0.0
  {
    if a == 0.0 && b < 0.0 then Raised(ZeroDivision)
    else if a == 0.0 && !IsIntegral(b) then Val(0.0)
    else if !IsIntegral(b) then Raised(FractionalPower)
    else if b >= 0.0 then Val(Power(a, b.Floor))
    else
      PowerNonZero(a, -b.Floor);
      Val(1.0 / Power(a, -b.Floor))
  }

  /** Applies a whitelisted binary function. */
  function Apply(f: ArithOp, a: real, b: real): Value {
    match f
    case OpAdd => Val(a + b)
    case OpSub => Val(a - b)
    case OpMul => Val(a * b)
    case OpTrueDiv => if b == 0.0 then Raised(ZeroDivision) else Val(a / b)
    case OpPow => PyPow(a, b)
    case OpMod => if b == 0.0 then Raised(ZeroDivision) else Val(PyMod(a, b))
  }

  function ApplyUnary(f: UnaryArith, a: real): Value {
    match f
    case OpNeg => Val(-a)
  }

  /** `_eval_ast`: the left operand is evaluated, then the right one, and only
      then is the operator looked up, so an exception raised by an operand
      takes precedence over an unsupported operator. */
  function Eval(e: Expr): Value {
    match e
    case Const(x) => Val(x)
    case BinOp(op, l, r) =>
      var left := Eval(l);
      if left.Raised? then left
      else
        var right := Eval(r);
        if right.Raised? then right
        else if BinaryTable(op).None? then Raised(UnsupportedOperator)
        else Apply(BinaryTable(op).value, left.v, right.v)
    case UnaryOp(op, x) =>
      var operand := Eval(x);
      if operand.Raised? then operand
      else if UnaryTable(op).None? then Raised(UnsupportedUnaryOperator)
      else ApplyUnary(UnaryTable(op).value, operand.v)
    case Other(_) => Raised(UnsupportedElement)
  }

  /** Every node of `e` is a constant or an operation whose operator is in
      the table. */
  predicate Whitelisted(e: Expr) {
    match e
    case Const(_) => true
    case BinOp(op, l, r) => BinaryTable(op).Some? && Whitelisted(l) && Whitelisted(r)
    case UnaryOp(op, x) => UnaryTable(op).Some? && Whitelisted(x)
    case Other(_) => false
  }

  predicate IsUnsupported(f: Failure) {
    f in {UnsupportedOperator, UnsupportedUnaryOperator, UnsupportedElement}
  }

  /** Deny by default: a tree with a node outside the whitelist never yields a
      value, and a tree inside it never fails as unsupported. */
  lemma {:induction false} WhitelistDecides(e: Expr)
    ensures Eval(e).Val? ==> Whitelisted(e)
    ensures Whitelisted(e) ==> !(Eval(e).Raised? && IsUnsupported(Eval(e).failure))
  {
    match e
    case Const(_) =>
    case BinOp(op, l, r) =>
      WhitelistDecides(l);
      WhitelistDecides(r);
      if Eval(e).Val? {
        assert Eval(l).Val? && Eval(r).Val?;
      }
    case UnaryOp(op, x) =>
      WhitelistDecides(x);
    case Other(_) =>
  }

  /** Within the whitelist, the only failures are division by zero and the
      fractional powers outside this model; without any division, modulo or
      power node, evaluation always yields a value. */
  lemma {:induction false} WhitelistedTotal(e: Expr)
    requires Whitelisted(e)
    ensures Eval(e).Raised? ==> Eval(e).failure in {ZeroDivision, FractionalPower}
    ensures NoDivisionOrPower(e) ==> Eval(e).Val?
  {
    match e
    case Const(_) =>
    case BinOp(op, l, r) =>
      WhitelistedTotal(l);
      WhitelistedTotal(r);
    case UnaryOp(op, x) =>
      WhitelistedTotal(x);
  }

  predicate NoDivisionOrPower(e: Expr) {
    match e
    case Const(_) => true
    case BinOp(op, l, r) => op !in {Div, Pow, Mod} && NoDivisionOrPower(l) && NoDivisionOrPower(r)
    case UnaryOp(_, x) => NoDivisionOrPower(x)
    case Other(_) => true
  }

  /** An exception from the left operand wins over anything about the right
      operand or the operator, and one from the right operand wins over the
      operator. */
  lemma ErrorPrecedence(op: BinOperator, l: Expr, r: Expr)
    ensures Eval(l).Raised? ==> Eval(BinOp(op, l, r)) == Eval(l)
    ensures Eval(l).Val? && Eval(r).Raised? ==> Eval(BinOp(op, l, r)) == Eval(r)
    ensures Eval(l).Val? && Eval(r).Val? && BinaryTable(op).None?
      ==> Eval(BinOp(op, l, r)) == Raised(UnsupportedOperator)
  {
  }

  /** A whitelisted operator applied to two operands that have values computes
      Python's arithmetic on them: `+ - *` exactly, `/` and `%` unless the
      divisor is zero, `**` as `PyPow`. */
  lemma BinaryArithmetic(op: BinOperator, l: Expr, r: Expr, a: real, b: real)
    requires Eval(l) == Val(a) && Eval(r) == Val(b)
    ensures op == Add ==> Eval(BinOp(op, l, r)) == Val(a + b)
    ensures op == Sub ==> Eval(BinOp(op, l, r)) == Val(a - b)
    ensures op == Mult ==> Eval(BinOp(op, l, r)) == Val(a * b)
    ensures op == Div && b != 0.0 ==> Eval(BinOp(op, l, r)) == Val(a / b)
    ensures op == Pow ==> Eval(BinOp(op, l, r)) == PyPow(a, b)
    ensures op == Mod && b != 0.0 ==> Eval(BinOp(op, l, r)) == Val(PyMod(a, b))
  {
  }

  /** Unary minus negates the value of its operand. */
  lemma Negation(x: Expr, a: real)
    requires Eval(x) == Val(a)
    ensures Eval(UnaryOp(USub, x)) == Val(-a)
  {
  }

  /** Division and modulo by zero raise `ZeroDivision`, whatever the dividend
      and however the zero divisor was computed. */
  lemma DivisionByZero(op: BinOperator, l: Expr, r: Expr)
    requires op in {Div, Mod}
    requires Eval(l).Val? && Eval(r) == Val(0.0)
    ensures Eval(BinOp(op, l, r)) == Raised(ZeroDivision)
  {
  }

  /** Python's `%` agrees with the Euclidean `%` for a positive divisor and
      differs from it for a negative one: `7 % -2` is `-1` in Python. */
  lemma PyModAgainstEuclidean(a: int, b: int)
    requires b > 0
    ensures PyMod(a as real, b as real) == (a % b) as real
  {
    var r := PyMod(a as real, b as real);
    var q := ((a as real - r) / b as real).Floor;
    assert (a as real - r) / b as real == q as real;
    assert a as real == b as real * q as real + r;
    var ir := a - b * q;
    assert ir as real == r;
    assert 0 <= ir < b;
    EuclideanUnique(a, b, q, ir);
  }

  lemma EuclideanUnique(a: int, b: int, q: int, r: int)
    requires b > 0 && 0 <= r < b && a == b * q + r
    ensures a % b == r
  {
    var q' := a / b;
    var r' := a % b;
    assert a == b * q' + r';
    if q < q' {
      AtLeastDivisor(b, q' - q);
    } else if q > q' {
      AtLeastDivisor(b, q - q');
    }
  }

  lemma AtLeastDivisor(b: int, k: int)
    requires b > 0 && k >= 1
    ensures b * k >= b
  {
    assert b * k == b + b * (k - 1);
  }

  lemma PyModNegativeDivisor()
    ensures PyMod(7.0, -2.0) == -1.0 && (7 % -2) == 1
  {
    assert (7.0 / -2.0).Floor == -4;
  }

  /** The calculator cases of the test script, as the trees Python's parser
      builds for them. */
  lemma Examples()
    ensures Eval(BinOp(Add, Const(2.0), Const(2.0))) == Val(4.0)
    ensures Eval(BinOp(Mult, Const(128.0), Const(46.0))) == Val(5888.0)
    ensures Eval(BinOp(Div, Const(100.0), Const(5.0))) == Val(20.0)
    ensures Eval(BinOp(Pow, Const(2.0), Const(10.0))) == Val(1024.0)
    ensures Eval(BinOp(Mult, BinOp(Add, Const(10.0), Const(5.0)), Const(3.0))) == Val(45.0)
  {
    assert (10.0).Floor == 10;
    assert Power(2.0, 10) == 1024.0;
  }

  /** Further trees: subtraction, Python's floored `%`, unary minus, a zero
      base under a negative fractional power, and the three refusals. */
  lemma OperatorExamples()
    ensures Eval(BinOp(Sub, Const(10.0), Const(15.0))) == Val(-5.0)
    ensures Eval(BinOp(Mod, Const(7.0), Const(-2.0))) == Val(-1.0)
    ensures Eval(UnaryOp(USub, Const(4.0))) == Val(-4.0)
    ensures Eval(BinOp(Pow, Const(0.0), UnaryOp(USub, Const(0.5)))) == Raised(ZeroDivision)
    ensures Eval(BinOp(FloorDiv, Const(7.0), Const(2.0))) == Raised(UnsupportedOperator)
    ensures Eval(UnaryOp(UAdd, Const(7.0))) == Raised(UnsupportedUnaryOperator)
    ensures Eval(BinOp(Add, Const(10.0), Other(Name))) == Raised(UnsupportedElement)
  {
    PyModNegativeDivisor();
  }
}

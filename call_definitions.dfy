/**
 * The built-in call layer: the python_wrap calling-convention adapter and the
 * global built-ins String, Array, Number, Boolean, Math.log and Math.round.
 * Every built-in ignores the wrapper it is called on and the traverser, so
 * both are left out of the signatures.
 */
module CallDefinitions {
  import opened JsValues

  // ---------------------------------------------------------------------
  // python_wrap
  // ---------------------------------------------------------------------

  /** One declared parameter of a fixed-arity adapter: its type name and default. */
  datatype Slot = Slot(typeName: string, default: PyValue)

  /**
   * How python_wrap binds arguments: `Fixed` is the list of (type, default)
   * pairs; `Variadic` carries `args[0]`, the one type applied to every argument.
   */
  datatype ParamSpec = Fixed(slots: seq<Slot>) | Variadic(typeName: string)

  /** What the wrapped host function does with its parameters: return a value or raise. */
  datatype Outcome = Returned(output: PyValue) | Raised

  /** _process_literal: coerce a literal according to a type name. */
  function ProcessLiteral(h: Host, typeName: string, literal: PyValue): (r: PyValue)
    ensures typeName == "string" ==> r == Some(Str(h.asStr(literal)))
    ensures typeName == "num" ==> r == Some(Num(h.asNum(literal)))
    ensures typeName != "string" && typeName != "num" ==> r == literal
  {
    if typeName == "string" then Some(Str(h.asStr(literal)))
    else if typeName == "num" then Some(Num(h.asNum(literal)))
    else literal
  }

  /**
   * The parameters bound in fixed-arity mode, slot by slot: a remaining
   * argument is popped and its literal processed, otherwise the default is used.
   */
  function FixedBinding(h: Host, slots: seq<Slot>, args: seq<Node>): (params: seq<PyValue>)
  {
    if slots == [] then []
    else if args != [] then
      [ProcessLiteral(h, slots[0].typeName, args[0].literal)] + FixedBinding(h, slots[1..], args[1..])
    else
      [slots[0].default] + FixedBinding(h, slots[1..], args)
  }

  /** The parameters bound in variadic mode: every argument's literal, processed with one type. */
  function VariadicBinding(h: Host, typeName: string, args: seq<Node>): (params: seq<PyValue>)
  {
    if args == [] then []
    else [ProcessLiteral(h, typeName, args[0].literal)] + VariadicBinding(h, typeName, args[1..])
  }

  /** The parameters `wrap` passes to the host function. */
  function Binding(h: Host, spec: ParamSpec, args: seq<Node>): (params: seq<PyValue>)
  {
    match spec
    case Fixed(slots) => FixedBinding(h, slots, args)
    case Variadic(typeName) => VariadicBinding(h, typeName, args)
  }

  /**
   * Fixed-arity binding has one parameter per declared slot. Parameter i is the
   * processed literal of argument i when that argument exists (even when its
   * literal is None) and the slot's default only when it is missing; arguments
   * beyond the slots are ignored.
   */
  lemma {:induction false} FixedBindingAt(h: Host, slots: seq<Slot>, args: seq<Node>)
    ensures |FixedBinding(h, slots, args)| == |slots|
    ensures forall i :: 0 <= i < |slots| ==>
      FixedBinding(h, slots, args)[i] ==
        if i < |args| then ProcessLiteral(h, slots[i].typeName, args[i].literal) else slots[i].default
  {
    if slots != [] {
      if args != [] {
        FixedBindingAt(h, slots[1..], args[1..]);
      } else {
        FixedBindingAt(h, slots[1..], args);
      }
    }
  }

  /** Variadic binding has one parameter per argument, in order, each processed with the one type. */
  lemma {:induction false} VariadicBindingAt(h: Host, typeName: string, args: seq<Node>)
    ensures |VariadicBinding(h, typeName, args)| == |args|
    ensures forall i :: 0 <= i < |args| ==>
      VariadicBinding(h, typeName, args)[i] == ProcessLiteral(h, typeName, args[i].literal)
  {
    if args != [] {
      VariadicBindingAt(h, typeName, args[1..]);
    }
  }

  /**
   * The binding loop of `wrap`: walk the declared slots popping arguments off
   * the front, or, in variadic mode, walk the arguments.
   */
  method BindArguments(h: Host, spec: ParamSpec, arguments: seq<Node>) returns (params: seq<PyValue>)
    ensures params == Binding(h, spec, arguments)
  {
    params := [];
    match spec {
      case Fixed(slots) =>
        var rest := arguments;
        for k := 0 to |slots|
          invariant params + FixedBinding(h, slots[k..], rest) == FixedBinding(h, slots, arguments)
        {
          assert slots[k..][1..] == slots[k + 1..];
          if rest != [] {
            var parg := rest[0];
            rest := rest[1..];
            params := params + [ProcessLiteral(h, slots[k].typeName, parg.literal)];
          } else {
            params := params + [slots[k].default];
          }
        }
      case Variadic(typeName) =>
        for k := 0 to |arguments|
          invariant params + VariadicBinding(h, typeName, arguments[k..]) == VariadicBinding(h, typeName, arguments)
        {
          assert arguments[k..][1..] == arguments[k + 1..];
          params := params + [ProcessLiteral(h, typeName, arguments[k].literal)];
        }
    }
  }

  /** The wrapped value of a host call's outcome: a raise is contained as unknown. */
  function Contain(outcome: Outcome): (v: Value)
    ensures outcome == Raised ==> v == Unknown
    ensures outcome.Returned? ==> v == FromPython(outcome.output)
  {
    match outcome
    case Raised => Unknown
    case Returned(output) => FromPython(output)
  }

  /**
   * python_wrap(func, args, nargs) called on `arguments`: bind, call the host
   * function, turn any failure into unknown and wrap the output.
   */
  method Wrap(h: Host, func: seq<PyValue> -> Outcome, spec: ParamSpec, arguments: seq<Node>) returns (v: Value)
    ensures func(Binding(h, spec, arguments)) == Raised ==> v == Unknown
    ensures func(Binding(h, spec, arguments)) == Returned(None) ==> v == Unknown
    ensures forall p :: func(Binding(h, spec, arguments)) == Returned(Some(p)) ==> v == Known(p)
  {
    var params := BindArguments(h, spec, arguments);
    var outcome := func(params);
    v := Contain(outcome);
  }

  // ---------------------------------------------------------------------
  // Global built-ins
  // ---------------------------------------------------------------------

  /** String(...): a generic object unless the first literal is truthy, else its string form. */
  function StringGlobal(h: Host, args: seq<Node>): (v: Value)
    ensures v == Object <==> |args| == 0 || !Truthy(args[0].literal)
    ensures v != Object ==> |args| > 0 && v == Known(Str(h.asStr(args[0].literal)))
  {
    if |args| == 0 || !Truthy(args[0].literal) then Object
    else Known(Str(h.asStr(args[0].literal)))
  }

  /** Array(...): all argument nodes, unevaluated and in order. */
  function ArrayGlobal(args: seq<Node>): (v: Value)
    ensures v.Array? && |v.elements| == |args|
    ensures forall i :: 0 <= i < |args| ==> v.elements[i] == args[i]
  {
    Array(args)
  }

  /**
   * Python's float(v): None raises TypeError and a string that does not parse
   * raises ValueError (both None here); a number is itself, a boolean 0 or 1.
   */
  function Float(h: Host, v: PyValue): (n: Option<Number>)
  {
    match v
    case None => None
    case Some(Str(s)) => h.parseFloat(s)
    case Some(Num(n)) => Some(n)
    case Some(Bool(b)) => Some(Finite(if b then 1.0 else 0.0))
  }

  /** Number(...): 0 without arguments, NaN when float() of the first literal fails. */
  function NumberGlobal(h: Host, args: seq<Node>): (v: Value)
    ensures |args| == 0 ==> v == Known(Num(ZERO))
    ensures |args| > 0 && Float(h, args[0].literal) == None ==> v == NaNValue()
    ensures |args| > 0 && Float(h, args[0].literal).Some? ==> v == Known(Num(Float(h, args[0].literal).value))
  {
    if |args| == 0 then Known(Num(ZERO))
    else match Float(h, args[0].literal)
      case None => NaNValue()
      case Some(n) => Known(Num(n))
  }

  /** Boolean(...): false without arguments, otherwise Python truthiness of the first literal. */
  function BooleanGlobal(args: seq<Node>): (v: Value)
    ensures v.Known? && v.p.Bool?
    ensures v.p.b <==> |args| > 0 && Truthy(args[0].literal)
  {
    if |args| == 0 then Known(Bool(false))
    else Known(Bool(Truthy(args[0].literal)))
  }

  /** math.log on a double that is +inf, NaN or finite and positive. */
  function Log(h: Host, n: Number): (m: Number)
    requires n == PosInf || n == NaN || (n.Finite? && n.r > 0.0)
    ensures n.Finite? ==> m.Finite?
    ensures !n.Finite? ==> m == n
  {
    match n
    case Finite(r) => Finite(h.ln(r))
    case _ => n
  }

  /** Math.log(...): 0 without arguments; -inf at 0; unknown below 0; else the logarithm. */
  function MathLog(h: Host, args: seq<Node>): (v: Value)
    ensures |args| == 0 ==> v == Known(Num(ZERO))
    ensures |args| > 0 ==> (v == Unknown <==> IsNegative(h.asNum(args[0].literal)))
    ensures |args| > 0 && h.asNum(args[0].literal) == ZERO ==> v == Known(Num(NegInf))
    ensures |args| > 0 && h.asNum(args[0].literal) in {PosInf, NaN} ==> v == Known(Num(h.asNum(args[0].literal)))
    ensures v != Unknown ==> v.Known? && v.p.Num?
  {
    if |args| == 0 then Known(Num(ZERO))
    else
      var n := h.asNum(args[0].literal);
      if n == ZERO then Known(Num(NegInf))
      else if IsNegative(n) then Unknown
      else Known(Num(Log(h, n)))
  }

  /** Python's int(x) on a finite double: truncation toward zero. */
  function Trunc(x: real): (k: int)
    ensures x >= 0.0 ==> k as real <= x < k as real + 1.0
    ensures x < 0.0 ==> k as real - 1.0 < x <= k as real
  {
    if x >= 0.0 then x.Floor else -((-x).Floor)
  }

  /** Python 2's round(x): to the nearest integer, halves away from zero. */
  function RoundHalfAway(x: real): (k: int)
    ensures x - 0.5 <= k as real <= x + 0.5
    ensures x >= 0.0 ==> k >= 0
    ensures x <= 0.0 ==> k <= 0
  {
    if x >= 0.0 then (x + 0.5).Floor else -((0.5 - x).Floor)
  }

  /** A tie j + 1/2 goes away from zero: up to j + 1 when non-negative, down to j when negative. */
  lemma RoundHalfAwayTies(x: real, j: int)
    requires x == j as real + 0.5
    ensures x >= 0.0 ==> RoundHalfAway(x) == j + 1
    ensures x < 0.0 ==> RoundHalfAway(x) == j
  {
    assert x + 0.5 == (j + 1) as real;
    assert 0.5 - x == (-j) as real;
  }

  /** Math.round on a finite double: negative non-integers are nudged up before Python's round. */
  function RoundFinite(h: Host, x: real): (k: int)
  {
    var y := if x < 0.0 && Trunc(x) as real != x then h.nudge(x) else x;
    RoundHalfAway(y)
  }

  /** Math.round(...): 0 without arguments; an infinite argument's node itself; else rounded. */
  function MathRound(h: Host, args: seq<Node>): (v: Value)
    ensures |args| == 0 ==> v == Known(Num(ZERO))
    ensures |args| > 0 ==> (v == ArgNode(args[0]) <==> IsInfinite(h.asNum(args[0].literal)))
    ensures |args| > 0 && h.asNum(args[0].literal) == NaN ==> v == Known(Num(NaN))
    ensures |args| > 0 && h.asNum(args[0].literal).Finite? ==>
      v.Known? && v.p.Num? && v.p.n.Finite? && v.p.n.r == v.p.n.r.Floor as real
  {
    if |args| == 0 then Known(Num(ZERO))
    else
      var n := h.asNum(args[0].literal);
      if IsInfinite(n) then ArgNode(args[0])
      else match n
        case Finite(x) => Known(Num(Finite(RoundFinite(h, x) as real)))
        case _ => Known(Num(n))
  }

  // ---------------------------------------------------------------------
  // Properties of the built-ins
  // ---------------------------------------------------------------------

  /** String returns a generic object exactly when Boolean of the same arguments is false. */
  lemma StringObjectIffBooleanFalse(h: Host, args: seq<Node>)
    ensures StringGlobal(h, args) == Object <==> BooleanGlobal(args) == Known(Bool(false))
  {
  }

  /** Number() is 0 but Number of an argument with no literal is NaN. */
  lemma NumberAbsentVersusUnknown(h: Host, node: Node)
    requires node.literal == None
    ensures NumberGlobal(h, []) == Known(Num(ZERO))
    ensures NumberGlobal(h, [node]) == NaNValue()
  {
  }

  /** Math.round keeps an integral finite number. */
  lemma MathRoundKeepsIntegers(h: Host, args: seq<Node>, k: int)
    requires |args| > 0 && h.asNum(args[0].literal) == Finite(k as real)
    ensures MathRound(h, args) == Known(Num(Finite(k as real)))
  {
    assert Trunc(k as real) == k;
    assert RoundHalfAway(k as real) == k;
  }

  /**
   * Math.round is idempotent: feeding a known numeric result back in (through
   * a get_as_num that maps a number literal to itself) gives the same result.
   */
  lemma MathRoundIdempotent(h: Host, args: seq<Node>, again: Node)
    requires |args| > 0
    requires MathRound(h, args).Known?
    requires again.literal == Some(MathRound(h, args).p)
    requires h.asNum(again.literal) == MathRound(h, args).p.n
    ensures MathRound(h, [again]) == MathRound(h, args)
  {
    var m := MathRound(h, args).p.n;
    if m.Finite? {
      MathRoundKeepsIntegers(h, [again], m.r.Floor);
    }
  }

  /** On non-negative input Math.round agrees with JavaScript's rule floor(x + 1/2). */
  lemma MathRoundNonNegativeIsFloorHalfUp(h: Host, args: seq<Node>, x: real)
    requires |args| > 0 && h.asNum(args[0].literal) == Finite(x) && x >= 0.0
    ensures MathRound(h, args) == Known(Num(Finite((x + 0.5).Floor as real)))
  {
  }

  /**
   * Math.round on -1.5 as written. In double precision 10^-16 is below half an
   * ulp of 1.5 (2^-53), so the nudge leaves -1.5 unchanged and Python's round
   * takes the tie away from zero to -2. JavaScript's rule gives -1.
   */
  lemma MathRoundNegativeHalfAsWritten(h: Host, args: seq<Node>)
    requires |args| > 0 && h.asNum(args[0].literal) == Finite(-1.5)
    requires h.nudge(-1.5) == -1.5
    ensures MathRound(h, args) == Known(Num(Finite(-2.0)))
    ensures MathRoundJs(h, args) == Known(Num(Finite(-1.0)))
  {
    assert Trunc(-1.5) == -1;
    assert (0.5 - (-1.5)).Floor == 2;
    assert (-1.5 + 0.5).Floor == -1;
  }

  // ---------------------------------------------------------------------
  // Math.round as JavaScript defines it
  // ---------------------------------------------------------------------

  /** JavaScript's rounding: the nearest integer, halves toward +infinity. */
  function JsRound(x: real): (k: int)
    ensures x - 0.5 < k as real <= x + 0.5
  {
    (x + 0.5).Floor
  }

  /**
   * The intended Math.round: the same cases as MathRound, with a finite number
   * rounded by JavaScript's rule instead of the nudge and Python's round.
   */
  function MathRoundJs(h: Host, args: seq<Node>): (v: Value)
    ensures |args| == 0 ==> v == Known(Num(ZERO))
    ensures |args| > 0 ==> (v == ArgNode(args[0]) <==> IsInfinite(h.asNum(args[0].literal)))
    ensures |args| > 0 && h.asNum(args[0].literal) == NaN ==> v == Known(Num(NaN))
    ensures |args| > 0 && h.asNum(args[0].literal).Finite? ==>
      && v.Known? && v.p.Num? && v.p.n.Finite? && v.p.n.r == v.p.n.r.Floor as real
      && h.asNum(args[0].literal).r - 0.5 < v.p.n.r <= h.asNum(args[0].literal).r + 0.5
  {
    if |args| == 0 then Known(Num(ZERO))
    else
      var n := h.asNum(args[0].literal);
      if IsInfinite(n) then ArgNode(args[0])
      else match n
        case Finite(x) => Known(Num(Finite(JsRound(x) as real)))
        case _ => Known(Num(n))
  }

  /** The intended Math.round takes every negative half k - 1/2 up to k. */
  lemma MathRoundJsHalvesUp(h: Host, args: seq<Node>, k: int)
    requires |args| > 0 && h.asNum(args[0].literal) == Finite(k as real - 0.5)
    ensures MathRoundJs(h, args) == Known(Num(Finite(k as real)))
  {
    assert k as real - 0.5 + 0.5 == k as real;
  }

  /**
   * The correction only touches negative non-integers: on every other input
   * the intended Math.round and the written one agree.
   */
  lemma MathRoundJsAgreesOutsideNegativeFractions(h: Host, args: seq<Node>)
    requires |args| > 0
    requires h.asNum(args[0].literal).Finite? ==>
      var x := h.asNum(args[0].literal).r; x >= 0.0 || x == x.Floor as real
    ensures MathRoundJs(h, args) == MathRound(h, args)
  {
    var n := h.asNum(args[0].literal);
    if n.Finite? {
      var x := n.r;
      if x >= 0.0 {
        assert RoundFinite(h, x) == JsRound(x);
      } else {
        var k := x.Floor;
        assert x == k as real;
        assert JsRound(x) == k;
        MathRoundKeepsIntegers(h, args, k);
      }
    }
  }

  /** Math.log's three cases, at 0, at -1 and at 1 (when get_as_num reads the number literally). */
  lemma MathLogCases(h: Host, zero: Node, minusOne: Node, one: Node)
    requires h.asNum(zero.literal) == ZERO
    requires h.asNum(minusOne.literal) == Finite(-1.0)
    requires h.asNum(one.literal) == Finite(1.0) && h.ln(1.0) == 0.0
    ensures MathLog(h, [zero]) == Known(Num(NegInf))
    ensures MathLog(h, [minusOne]) == Unknown
    ensures MathLog(h, [one]) == Known(Num(ZERO))
  {
  }

  /** Without arguments every built-in gives its fixed result and never unknown. */
  lemma NoArgumentResults(h: Host)
    ensures StringGlobal(h, []) == Object
    ensures ArrayGlobal([]) == Array([])
    ensures NumberGlobal(h, []) == Known(Num(ZERO))
    ensures BooleanGlobal([]) == Known(Bool(false))
    ensures MathLog(h, []) == Known(Num(ZERO))
    ensures MathRound(h, []) == Known(Num(ZERO))
  {
  }

  /**
   * A fixed-arity adapter declared as [("num", 0), ("string", "")] and called
   * with one argument binds the second parameter to its default "".
   */
  lemma DefaultOnlyForMissing(h: Host, node: Node)
    ensures Binding(h, Fixed([Slot("num", Some(Num(ZERO))), Slot("string", Some(Str("")))]), [node])
      == [Some(Num(h.asNum(node.literal))), Some(Str(""))]
  {
    FixedBindingAt(h, [Slot("num", Some(Num(ZERO))), Slot("string", Some(Str("")))], [node]);
  }
}

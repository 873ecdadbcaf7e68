/**
 * The value model of the JavaScript abstract interpreter: the literals that
 * argument nodes carry, the wrapped values that built-ins return, and the host
 * (Python) primitives that the built-ins rely on but whose code is not part of
 * this model.
 */
module JsValues {

  datatype Option<+T> = None | Some(value: T)

  /**
   * An abstract double: a finite value (its exact real), an infinity, or NaN.
   * Negative zero is not distinguished from zero; Python compares them equal.
   */
  datatype Number = Finite(r: real) | PosInf | NegInf | NaN

  /** A primitive literal: a string, a number or a boolean. */
  datatype Primitive = Str(s: string) | Num(n: Number) | Bool(b: bool)

  /**
   * A Python value as handed to or returned by a host function: `None`
   * (Python's None, also the "no literal" answer of get_literal_value) or a
   * primitive.
   */
  type PyValue = Option<Primitive>

  /**
   * An untraversed argument node. `id` stands for the node's identity and
   * `literal` is what its get_literal_value() answers.
   */
  datatype Node = Node(id: nat, literal: PyValue)

  /**
   * A wrapped value. `Array` holds the unevaluated argument nodes given to the
   * Array constructor; `ArgNode` is an argument node handed back as the result
   * itself (Math.round does this for infinities).
   */
  datatype Value =
    | Known(p: Primitive)
    | Object
    | Array(elements: seq<Node>)
    | Unknown
    | ArgNode(node: Node)

  /**
   * The host primitives this layer calls but whose code is not modelled:
   * utils.get_as_str, utils.get_as_num, Python's float() on a string (None
   * when it raises ValueError), math.log on a finite positive double, and the
   * floating-point addition `x + 0.0000000000000001` used by Math.round.
   */
  datatype Host = Host(
    asStr: PyValue -> string,
    asNum: PyValue -> Number,
    parseFloat: string -> Option<Number>,
    ln: real -> real,
    nudge: real -> real)

  const ZERO: Number := Finite(0.0)

  /** Python truthiness, bool(v), of a literal. NaN and the infinities are true. */
  predicate Truthy(v: PyValue)
  {
    match v
    case None => false
    case Some(Str(s)) => s != ""
    case Some(Num(n)) => n != ZERO
    case Some(Bool(b)) => b
  }

  /** Python's `n < 0` on a double. */
  predicate IsNegative(n: Number)
  {
    n == NegInf || (n.Finite? && n.r < 0.0)
  }

  /** Python's `abs(n) == float("inf")`. */
  predicate IsInfinite(n: Number)
  {
    n == PosInf || n == NegInf
  }

  /** JSWrapper(output): Python's None becomes unknown, any other value a known literal. */
  function FromPython(output: PyValue): (v: Value)
    ensures v == Unknown <==> output == None
    ensures output.Some? ==> v == Known(output.value)
  {
    match output
    case None => Unknown
    case Some(p) => Known(p)
  }

  /** utils.get_NaN: the known number NaN. */
  function NaNValue(): (v: Value)
  {
    Known(Num(NaN))
  }
}

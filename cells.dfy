/** The values a frame cell can hold, the pipeline's error kinds, and
    Python's `str()` / truthiness on those values. */
module Cells {
  import opened Text

  datatype Option<T> = None | Some(value: T)

  /** One cell of a frame. `Missing` stands for None, NaN, NaT and pd.NA alike;
      `Date` is a timestamp given as a day number; `List` is a Python list
      and `Tuple` a Python tuple of cells. */
  datatype Cell =
    | Missing
    | Str(s: string)
    | Int(i: int)
    | Real(r: real)
    | Bool(b: bool)
    | Date(day: int)
    | List(items: seq<Cell>)
    | Tuple(parts: seq<Cell>)

  /** The exceptions the pipeline raises. `Crash` is an exception raised by
      pandas or NumPy on a cell of the wrong kind, whose text is not modelled. */
  datatype Error =
    | ValueError(message: string)
    | FileNotFound(message: string)
    | Crash

  /** Outcome of a stage that works in place on a frame. */
  datatype Status = Ok | Fail(error: Error)

  datatype Result<T> = Success(value: T) | Failure(error: Error)

  /** Python's truth value of a cell. */
  predicate Truthy(c: Cell) {
    match c
    case Missing => false
    case Str(s) => s != ""
    case Int(i) => i != 0
    case Real(r) => r != 0.0
    case Bool(b) => b
    case Date(_) => true
    case List(xs) => xs != []
    case Tuple(xs) => xs != []
  }

  /** Python's `str(c)`, which `astype(str)` also applies per cell. */
  function Show(c: Cell): string
    decreases c, 0
  {
    match c
    case Missing => "nan"
    case Str(s) => s
    case Int(i) => IntToString(i)
    case Real(r) => RealToString(r)
    case Bool(b) => if b then "True" else "False"
    case Date(d) => IntToString(d)
    case List(xs) => "[" + Join(seq(|xs|, k requires 0 <= k < |xs| => Repr(xs[k])), ", ") + "]"
    case Tuple(xs) =>
      "(" + Join(seq(|xs|, k requires 0 <= k < |xs| => Repr(xs[k])), ", ") + (if |xs| == 1 then ",)" else ")")
  }

  /** Python's `repr(c)` for a list element. */
  function Repr(c: Cell): string
    decreases c, 1
  {
    match c
    case Missing => "None"
    case Str(s) => "'" + s + "'"
    case _ => Show(c)
  }

  /** A subset is no larger than its superset. */
  lemma {:induction false} SubsetCard<T>(a: set<T>, b: set<T>)
    requires a <= b
    ensures |a| <= |b|
  {
    if a != {} {
      var x :| x in a;
      SubsetCard(a - {x}, b - {x});
    }
  }

  /** A ratio of naturals `a / b` with `a <= b` lies in [0, 1]. */
  lemma RatioInUnit(a: nat, b: nat)
    requires 0 < b && a <= b
    ensures 0.0 <= (a as real) / (b as real) <= 1.0
  {
    var q := (a as real) / (b as real);
    assert q * (b as real) == a as real;
    assert (1.0 - q) * (b as real) == (b - a) as real;
  }
}

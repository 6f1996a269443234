/** The calculator: expressions are checked against an allow-list of names, evaluated, and logged in a history. */
module Calc {
  import opened Common

  /** `dir(math)` as CPython 3.12 lists it, dunder names included. */
  const MATH_NAMES: set<string> := {
    "__doc__", "__loader__", "__name__", "__package__", "__spec__",
    "acos", "acosh", "asin", "asinh", "atan", "atan2", "atanh", "cbrt", "ceil", "comb",
    "copysign", "cos", "cosh", "degrees", "dist", "e", "erf", "erfc", "exp", "exp2",
    "expm1", "fabs", "factorial", "floor", "fmod", "frexp", "fsum", "gamma", "gcd", "hypot",
    "inf", "isclose", "isfinite", "isinf", "isnan", "isqrt", "lcm", "ldexp", "lgamma", "log",
    "log10", "log1p", "log2", "modf", "nan", "nextafter", "perm", "pi", "pow", "prod",
    "radians", "remainder", "sin", "sinh", "sqrt", "sumprod", "tan", "tanh", "tau", "trunc",
    "ulp"}

  predicate Private(name: string) {
    IsPrefix("_", name)
  }

  /** The names an expression may use: the public names of `math`, plus four builtins. */
  const SAFE_NAMES: set<string> := (set k | k in MATH_NAMES && !Private(k)) + BUILTIN_NAMES

  const BUILTIN_NAMES: set<string> := {"abs", "round", "min", "max"}

  /** No name starting with an underscore is allowed, so `__import__` and the dunders of `math` are out. */
  lemma SafeNamesArePublic()
    ensures forall k :: k in SAFE_NAMES ==> !Private(k)
    ensures "__import__" !in SAFE_NAMES && "__name__" !in SAFE_NAMES
  {
    assert forall k :: k in BUILTIN_NAMES ==> k[0] != '_';
    assert IsPrefix("_", "__import__") && IsPrefix("_", "__name__");
  }

  /** `sqrt` and `pi` of `math` and the four builtins are allowed. */
  lemma SafeNamesMembership()
    ensures "sqrt" in SAFE_NAMES && "pi" in SAFE_NAMES
    ensures BUILTIN_NAMES <= SAFE_NAMES
  {
    PublicMathName("sqrt");
    PublicMathName("pi");
  }

  lemma PublicMathName(k: string)
    requires k in MATH_NAMES && |k| > 0 && k[0] != '_'
    ensures k in SAFE_NAMES
  {
    assert !Private(k);
  }

  /** The first of `names` outside `allowed`: for `co_names` and `SAFE_NAMES`, the one the `NameError` reports. */
  function FirstNotIn(names: seq<string>, allowed: set<string>): (r: Option<string>)
    ensures r.None? <==> forall i :: 0 <= i < |names| ==> names[i] in allowed
    ensures r.Some? ==> exists i :: FirstAt(names, allowed, i) && names[i] == r.value
  {
    if names == [] then None
    else if names[0] !in allowed then
      assert FirstAt(names, allowed, 0);
      Some(names[0])
    else
      var r := FirstNotIn(names[1..], allowed);
      FirstAtShift(names, allowed);
      r
  }

  /** `names[i]` is outside `allowed` and every name before it is inside. */
  predicate FirstAt(names: seq<string>, allowed: set<string>, i: int) {
    0 <= i < |names| && names[i] !in allowed && forall j :: 0 <= j < i ==> names[j] in allowed
  }

  lemma FirstAtShift(names: seq<string>, allowed: set<string>)
    requires names != [] && names[0] in allowed
    ensures forall i :: FirstAt(names[1..], allowed, i) ==> FirstAt(names, allowed, i + 1)
  {
    forall i | FirstAt(names[1..], allowed, i)
      ensures FirstAt(names, allowed, i + 1)
    {
      forall j | 0 <= j < i + 1 ensures names[j] in allowed {
        if j > 0 {
          assert names[j] == names[1..][j - 1];
        }
      }
    }
  }

  datatype CalcError =
    | SyntaxError         // `compile` rejected the text
    | NameError(name: string)
    | EvalError           // evaluating the compiled code raised

  /**
   * `safe_eval` over the allow-list `allowed` (the toolkit passes `SAFE_NAMES`), with compilation and
   * evaluation as inputs: `compiled` is the `co_names` of the compiled code (`None` when it does not
   * compile), `evaluated` the value `eval` produces (`None` when it raises).
   */
  function SafeEval<V>(allowed: set<string>, compiled: Option<seq<string>>, evaluated: Option<V>): (r: Result<V, CalcError>)
    ensures compiled.None? ==> r == Err(SyntaxError)
    ensures compiled.Some? && FirstNotIn(compiled.value, allowed).Some? ==>
      r == Err(NameError(FirstNotIn(compiled.value, allowed).value))
    ensures r.Ok? <==> compiled.Some? && FirstNotIn(compiled.value, allowed).None? && evaluated.Some?
    ensures r.Ok? ==> r.value == evaluated.value
  {
    if compiled.None? then Err(SyntaxError)
    else
      var bad := FirstNotIn(compiled.value, allowed);
      if bad.Some? then Err(NameError(bad.value))
      else if evaluated.None? then Err(EvalError)
      else Ok(evaluated.value)
  }

  /** The names are checked before anything is evaluated: with a name not allowed the evaluation's outcome does not matter. */
  lemma NamesCheckedFirst<V>(allowed: set<string>, names: seq<string>, e1: Option<V>, e2: Option<V>)
    requires exists i :: 0 <= i < |names| && names[i] !in allowed
    ensures SafeEval(allowed, Some(names), e1) == SafeEval(allowed, Some(names), e2)
    ensures SafeEval(allowed, Some(names), e1).Err? && SafeEval(allowed, Some(names), e1).error.NameError?
  {
  }

  /** Python's `s[start:]`: a negative start counts from the end; both ends are clamped to the sequence. */
  function SliceFrom<T>(s: seq<T>, start: int): seq<T> {
    var b := if start < 0 then (if start + |s| < 0 then 0 else start + |s|)
             else (if start > |s| then |s| else start);
    s[b..]
  }

  /**
   * `Calculator.list(n)`, which is `history[-n:]`: the last `n` entries for positive `n`, the whole
   * history for `n == 0`, and all but the first `-n` for negative `n`.
   */
  function Recent<T>(history: seq<T>, n: int): (r: seq<T>)
    ensures |r| <= |history| && r == history[|history| - |r|..]
    ensures n > 0 ==> |r| == if n < |history| then n else |history|
    ensures n == 0 ==> r == history
    ensures n < 0 ==> |r| == if |history| + n > 0 then |history| + n else 0
  {
    SliceFrom(history, -n)
  }

  /** After `eval` appends an entry, every positive `list(n)` ends with it. */
  lemma RecentEndsWithLast<T>(history: seq<T>, entry: T, n: int)
    requires n >= 1
    ensures Recent(history + [entry], n) != []
    ensures Recent(history + [entry], n)[|Recent(history + [entry], n)| - 1] == entry
    ensures Recent(history + [entry], 1) == [entry]
  {
    var h := history + [entry];
    var r := Recent(h, n);
    assert r[|r| - 1] == h[|h| - 1];
    assert Recent(h, 1) == h[|h| - 1..];
  }

  class Calculator<V> {
    var history: seq<(string, V)>
    /** What `calc_history.json` parses to; each `_save` writes the current history there. */
    ghost var persisted: Option<seq<(string, V)>>

    ghost predicate Synced()
      reads this
    {
      LoadList(persisted) == history
    }

    constructor(stored: Option<seq<(string, V)>>)
      ensures history == LoadList(stored) && persisted == stored
      ensures Synced()
    {
      history := LoadList(stored);
      persisted := stored;
    }

    /** `eval`: on success the entry `(expr, result)` is appended and saved; on any error nothing changes. */
    method Eval(expr: string, compiled: Option<seq<string>>, evaluated: Option<V>) returns (r: Result<V, CalcError>)
      modifies this
      ensures r == SafeEval(SAFE_NAMES, compiled, evaluated)
      ensures r.Ok? ==> history == old(history) + [(expr, r.value)] && persisted == Some(history)
      ensures r.Err? ==> history == old(history) && persisted == old(persisted)
      ensures old(Synced()) ==> Synced()
    {
      r := SafeEval(SAFE_NAMES, compiled, evaluated);
      if r.Ok? {
        history := history + [(expr, r.value)];
        persisted := Some(history);
      }
    }

    /** `list(n)`; it reads the history and changes nothing. */
    function List(n: int): (r: seq<(string, V)>)
      reads this
      ensures r == Recent(history, n)
    {
      SliceFrom(history, -n)
    }
  }
}

/**
 * Argument validation of nreporter/nreporter.py: `iterable`, `check_arg_value`
 * and the fields of `ArgumentValueError`.
 */
module Validation {
  import opened Wrappers

  /**
   * A Python argument as `iterable` classifies it: a single value (a string
   * counts as a single value) or an iterable holding the given elements.
   */
  datatype Arg<T> = Scalar(value: T) | Items(items: seq<T>)

  /** `iterable(arg)`: iterable and not a string. */
  predicate Iterable<T>(a: Arg<T>)
  {
    a.Items?
  }

  /** `if not iterable(arg_vals): arg_vals = [arg_vals]` */
  function Normalize<T>(a: Arg<T>): seq<T>
  {
    if Iterable(a) then a.items else [a.value]
  }

  /** The fields of `ArgumentValueError`; its message text is not modelled. */
  datatype ArgumentValueError<T> =
    ArgumentValueError(optName: string, optVal: seq<T>, validVals: seq<T>)

  /** `all([val in valid_vals for val in vals])` */
  function AllValid<T(==)>(vals: seq<T>, validVals: seq<T>): (b: bool)
    ensures b <==> forall i | 0 <= i < |vals| :: vals[i] in validVals
  {
    if vals == [] then true
    else vals[0] in validVals && AllValid(vals[1..], validVals)
  }

  /**
   * `check_arg_value(arg_name, arg_vals, valid_vals)`: returns normally exactly
   * when every element of the normalized value is allowed, and otherwise raises
   * an error carrying the name, the normalized value and the allowed values.
   */
  function CheckArgValue<T(==)>(argName: string, argVals: Arg<T>, validVals: seq<T>)
    : (r: Outcome<ArgumentValueError<T>>)
    ensures r.Pass? <==> forall x | x in Normalize(argVals) :: x in validVals
    ensures r.Fail? ==> r.error == ArgumentValueError(argName, Normalize(argVals), validVals)
  {
    var vals := Normalize(argVals);
    if AllValid(vals, validVals) then Pass
    else Fail(ArgumentValueError(argName, vals, validVals))
  }

  /** A scalar argument is validated exactly as the one-element list holding it. */
  lemma ScalarIsSingleton<T>(argName: string, x: T, validVals: seq<T>)
    ensures CheckArgValue(argName, Scalar(x), validVals) == CheckArgValue(argName, Items([x]), validVals)
    ensures CheckArgValue(argName, Scalar(x), validVals).Pass? <==> x in validVals
  {
  }

  /**
   * Validating a concatenation passes exactly when both parts pass, and the
   * order and multiplicity of the elements do not matter: only the set of
   * elements does.
   */
  lemma {:induction false} CheckDependsOnElementsOnly<T>(argName: string, xs: seq<T>, ys: seq<T>, validVals: seq<T>)
    ensures CheckArgValue(argName, Items(xs + ys), validVals).Pass?
        <==> CheckArgValue(argName, Items(xs), validVals).Pass? && CheckArgValue(argName, Items(ys), validVals).Pass?
    ensures (set x | x in xs) == (set y | y in ys) ==>
        (CheckArgValue(argName, Items(xs), validVals).Pass? <==> CheckArgValue(argName, Items(ys), validVals).Pass?)
  {
    forall x | x in xs + ys ensures x in xs || x in ys { }
    var sx, sy := set x | x in xs, set y | y in ys;
    if sx == sy {
      forall x | x in xs ensures x in ys { assert x in sx; assert x in sy; }
      forall y | y in ys ensures y in xs { assert y in sy; assert y in sx; }
    }
  }

  /** The examples in the docstring of `check_arg_value`. */
  lemma DocstringExamples()
    ensures CheckArgValue("arg1", Scalar(1), [1, 2, 3, 4, 5]) == Pass
    ensures CheckArgValue("arg2", Scalar(6), [1, 2, 3, 4, 5])
         == Fail(ArgumentValueError("arg2", [6], [1, 2, 3, 4, 5]))
    ensures CheckArgValue("arg3", Items([1, 2]), [1, 2, 3, 4, 5]) == Pass
    ensures CheckArgValue("arg4", Items([1, 6]), [1, 2, 3, 4, 5])
         == Fail(ArgumentValueError("arg4", [1, 6], [1, 2, 3, 4, 5]))
    ensures CheckArgValue("arg5", Scalar("cat"), ["cat", "dog", "mouse"]) == Pass
    ensures CheckArgValue("arg6", Items(["a", "c"]), ["cat", "dog", "mouse"])
         == Fail(ArgumentValueError("arg6", ["a", "c"], ["cat", "dog", "mouse"]))
  {
    assert 6 !in [1, 2, 3, 4, 5];
    assert "a" !in ["cat", "dog", "mouse"];
  }
}

/** Option and Result, the failure-carrying datatypes used throughout the model.
    A Python function that returns None stands as Option; one that raises stands
    as a Result whose Err names the exception. Also the keys of an ordered
    dictionary held as a list of pairs. */
module Wrappers {

  datatype Option<+T> = None | Some(value: T) {
    function GetOr(default: T): T {
      match this
      case Some(v) => v
      case None => default
    }
  }

  /** The exceptions the modelled code raises. */
  datatype Error =
    | ValueError(msg: string)
    | RuntimeError(msg: string)
    | KeyError(key: string)
    | TypeError(msg: string)
    | IndexError(msg: string)
    | AttributeError(msg: string)
    | ZeroDivisionError

  datatype Result<+T> = Ok(value: T) | Err(error: Error) {
    predicate IsFailure() { Err? }
    function PropagateFailure<U>(): Result<U>
      requires Err?
    {
      Err(error)
    }
    function Extract(): T
      requires Ok?
    {
      value
    }
  }

  /** The first components of a list of pairs, in order: the keys of a dictionary
      held as its items. */
  function Firsts<K, V>(ps: seq<(K, V)>): (ks: seq<K>)
    ensures |ks| == |ps| && forall i :: 0 <= i < |ps| ==> ks[i] == ps[i].0
  {
    seq(|ps|, i requires 0 <= i < |ps| => ps[i].0)
  }
}

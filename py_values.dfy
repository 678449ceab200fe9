/** The optional value used where a step may or may not fail. */
module Wrappers {

  datatype Option<+T> = None | Some(value: T)
}

/**
 Cell values of the loaded spreadsheet and parquet data, reduced to the
 runtime class that the row validators inspect. The validators of the artwork
 script use `isinstance`, which accepts subclasses; those of the housing
 scripts compare `type(x) == T`, which does not.
 */
module PyValues {

  /** The runtime classes that occur in loaded rows. */
  datatype PyType = IntT | BoolT | StrT | FloatT | DateTimeT | TimestampT

  /** A cell value tagged with its runtime class. Floats and instants are never
      computed with here, so their payloads are kept abstract. */
  datatype Value =
    | IntV(i: int)
    | BoolV(b: bool)
    | StrV(s: string)
    | FloatV(x: real)
    | DateTimeV(iso: string)
    | TimestampV(iso: string)

  /** `type(v)`: the exact runtime class of a value. */
  function TypeOf(v: Value): (t: PyType)
  {
    match v
    case IntV(_) => IntT
    case BoolV(_) => BoolT
    case StrV(_) => StrT
    case FloatV(_) => FloatT
    case DateTimeV(_) => DateTimeT
    case TimestampV(_) => TimestampT
  }

  /** The class hierarchy among these classes: `bool` derives from `int`, and
      `pandas.Timestamp` from `datetime.datetime`; nothing else is related. */
  predicate IsSubclass(t: PyType, u: PyType)
  {
    t == u || (t == BoolT && u == IntT) || (t == TimestampT && u == DateTimeT)
  }

  /** `isinstance(v, t)` */
  predicate IsInstance(v: Value, t: PyType)
  {
    IsSubclass(TypeOf(v), t)
  }

  /** `type(v) == t` */
  predicate IsExactly(v: Value, t: PyType)
  {
    TypeOf(v) == t
  }

  /** The subclass relation is a partial order. */
  lemma SubclassIsPartialOrder()
    ensures forall t :: IsSubclass(t, t)
    ensures forall t, u :: IsSubclass(t, u) && IsSubclass(u, t) ==> t == u
    ensures forall t, u, w :: IsSubclass(t, u) && IsSubclass(u, w) ==> IsSubclass(t, w)
  {
  }

  /** The exact check is strictly stronger than `isinstance`: the two differ
      exactly on a `bool` where an `int` is expected and on a `Timestamp` where
      a `datetime` is expected. */
  lemma ExactVersusInstance(v: Value, t: PyType)
    ensures IsExactly(v, t) ==> IsInstance(v, t)
    ensures IsInstance(v, t) && !IsExactly(v, t) <==>
              (v.BoolV? && t == IntT) || (v.TimestampV? && t == DateTimeT)
  {
  }
}

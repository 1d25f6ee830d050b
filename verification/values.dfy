/** The closed set of parameter types and argument values the console's
    coercion distinguishes, standing in for .NET types and boxed objects. */
module Values {

  /** A parameter type: the scalars the coercer knows, arrays of a type, or a
      .NET type, known only by name, that Convert.ChangeType cannot produce
      from a string (a component, a vector, a class of the game). */
  datatype ParamType =
    | IntT
    | FloatT
    | StringT
    | BoolT
    | ArrayOf(elem: ParamType)
    | Other(name: string)

  /** An argument value. Floats are kept as their exact decimal value; DBNull
      is the object reflection reports as the default of a parameter that has
      none, which is not null. */
  datatype Value =
    | IntV(i: int)
    | FloatV(r: real)
    | StrV(s: string)
    | BoolV(b: bool)
    | ArrV(elem: ParamType, items: seq<Value>)
    | ObjRef(typeName: string)
    | DBNull
    | Null

  /** `v` is a value of type `t`. */
  predicate HasType(v: Value, t: ParamType) {
    match v
    case IntV(_) => t == IntT
    case FloatV(_) => t == FloatT
    case StrV(_) => t == StringT
    case BoolV(_) => t == BoolT
    case ArrV(e, items) => t == ArrayOf(e) && forall k :: 0 <= k < |items| ==> HasType(items[k], e)
    case ObjRef(n) => t == Other(n)
    case DBNull => false
    case Null => false
  }
}

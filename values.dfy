/** The scalar values a row or an Azure item carries, the errors the core can raise,
    and Python's `int(x)`, `str(x)` and `float(x)` applied to such values. */
module Values {
  import opened Wrappers
  import opened Text

  /** An IEEE double, kept opaque: the model never computes with it. */
  datatype Double = Double(bits: bv64)

  datatype Value =
    | VInt(i: int)
    | VStr(s: string)
    | VFloat(d: Double)

  /** What the model needs of floating point, supplied by the caller because the model
      does not compute it: `float(n)` of an integer (`None` on overflow), `float(s)` of a
      string (`None` where Python raises), `int(f)` of a double (`None` for NaN and the
      infinities) and `str(f)`. */
  datatype FloatOps = FloatOps(
    fromInt: int -> Option<Double>,
    parse: string -> Option<Double>,
    truncate: Double -> Option<int>,
    show: Double -> string)

  /** The exceptions the core raises, one constructor per cause. */
  datatype Error =
    | KeyError(key: string)          // dict.pop of a missing key
    | MissingIdOrTableName           // the explicit check of convert_dict_to_GeneralizedEntity
    | CoercionFailed                 // int(x) or float(x) cannot convert x
    | IndexError                     // fewer type tags than columns
    | UnsupportedType(tag: string)   // a type tag missing from the conversion table

  /** Python's `int(v)`. */
  function IntOf(v: Value, fp: FloatOps): Option<int> {
    match v
    case VInt(n) => Some(n)
    case VStr(s) => ParseInt(s)
    case VFloat(d) => fp.truncate(d)
  }

  /** Python's `str(v)`. */
  function StrOf(v: Value, fp: FloatOps): string {
    match v
    case VInt(n) => IntToString(n)
    case VStr(s) => s
    case VFloat(d) => fp.show(d)
  }

  /** Python's `float(v)`. */
  function FloatOf(v: Value, fp: FloatOps): Option<Double> {
    match v
    case VInt(n) => fp.fromInt(n)
    case VStr(s) => fp.parse(s)
    case VFloat(d) => Some(d)
  }
}

/** The values a metadata dictionary holds: what a FITS header card or a
    parsed web-form entry can be, and the `comments` sub-dictionary. */
module PyValue {
  import opened PyStr

  /** A float is kept as the text Python's `str()` gives for it; the
      floating-point value itself plays no part in the modelled code. */
  datatype Value =
    | VNone
    | VStr(s: string)
    | VInt(i: int)
    | VFloat(text: string)
    | VBool(b: bool)
    | VDict(d: map<string, string>)

  /** A string-keyed dictionary such as a metadata record. */
  type MetaDict = map<string, Value>

  /** `v in t` for a tuple `t` of strings: only a string with the same
      characters is equal to a member. */
  predicate InStrings(v: Value, t: seq<string>)
  {
    v.VStr? && v.s in t
  }

  /** `str(v)`; a dictionary is shown as `{...}`, see README. */
  function Str(v: Value): string
  {
    match v
    case VNone => "None"
    case VStr(s) => s
    case VInt(i) => IntToStr(i)
    case VFloat(text) => text
    case VBool(b) => if b then "True" else "False"
    case VDict(_) => "{...}"
  }

  function JoinReprs(t: seq<string>): string
  {
    if t == [] then "" else if |t| == 1 then Repr(t[0]) else Repr(t[0]) + ", " + JoinReprs(t[1..])
  }

  /** `str(t)` of a tuple of strings, as in `('a', 'b')` and `('a',)`. */
  function TupleStr(t: seq<string>): (r: string)
    ensures |r| >= 2 && r[0] == '(' && r[|r| - 1] == ')'
  {
    if |t| == 1 then "(" + Repr(t[0]) + ",)" else "(" + JoinReprs(t) + ")"
  }
}

/**
 * The values of the decoded upstream JSON body, as far as the normaliser
 * tells them apart.
 */
module Json {
  /** One JSON value after decoding. */
  datatype JVal =
    | JInt(i: int)      // a Python int (JSON integer)
    | JFloat(f: real)   // a Python float (finite JSON number with a fraction or exponent)
    | JBool(b: bool)    // a Python bool (JSON true/false)
    | JStr(s: string)   // a Python str
    | JNull             // Python None (JSON null)
    | JOther            // a list or a nested object

  /**
   * isinstance(v, (int, float)): bool is a subclass of int in Python, so
   * JSON true and false pass this test.
   */
  predicate IsNumber(v: JVal)
    ensures IsNumber(v) <==> !(v.JStr? || v.JNull? || v.JOther?)
  {
    v.JInt? || v.JFloat? || v.JBool?
  }
}

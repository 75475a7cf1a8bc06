/**
 * Values of Go's `interface{}` as the note documents hold them.
 *
 * Note properties, category tables and decoded JSON documents are
 * `map[string]interface{}` in the program. JSON decoding produces `nil`,
 * `bool`, `float64`, `string`, `[]interface{}` and `map[string]interface{}`;
 * the program itself also stores Go-typed values (`[]int` for positions,
 * `[]float64` for colours, a plain `int` for the shadow), and a type assertion
 * tells them apart, so they are separate constructors here.
 */
module Values {
  import opened Wrappers

  datatype Value =
    | Nil                              // nil / JSON null
    | Bool(b: bool)
    | Float(f: real)                   // float64: every decoded JSON number
    | Int(i: int)                      // Go int
    | Str(s: string)
    | List(items: seq<Value>)          // []interface{}: every decoded JSON array
    | Ints(ints: seq<int>)             // []int
    | Floats(floats: seq<real>)        // []float64
    | Object(fields: map<string, Value>)  // map[string]interface{}

  type Table = map<string, Value>

  /** Go's `m[k]`: the zero value `nil` for a missing key. */
  function Get(m: Table, k: string): (v: Value)
    ensures k !in m ==> v == Nil
    ensures k in m ==> v == m[k]
  {
    if k in m then m[k] else Nil
  }

  /** Go's `m[k].(string)` in its two-result form. */
  function GetString(m: Table, k: string): (r: Option<string>)
    ensures r.Some? <==> k in m && m[k].Str?
    ensures r.Some? ==> m[k] == Str(r.value)
  {
    match Get(m, k)
    case Str(s) => Some(s)
    case _ => None
  }

  /** `FallbackProperties` (stickynotes/info.go): the category defaults. */
  const FallbackProperties: Table :=
    map[
      "bgcolor_hsv" := Floats([48.0 / 360.0, 1.0, 1.0]),
      "textcolor" := Floats([32.0 / 255.0, 32.0 / 255.0, 32.0 / 255.0]),
      "font" := Str(""),
      "shadow" := Int(60)
    ]

  /** Go's conversion `int(x)` of a float64: the fraction is discarded (towards zero). */
  function Truncate(x: real): (n: int)
    ensures 0.0 <= x ==> 0 <= n && n as real <= x < n as real + 1.0
    ensures x < 0.0 ==> n <= 0 && n as real - 1.0 < x <= n as real
  {
    if 0.0 <= x then x.Floor else -((-x).Floor)
  }
}

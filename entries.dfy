/** Values shared by the endpoint, the page and the chart: the JSON values a
    request body carries, JavaScript truthiness on them, and the weight entry
    row `{who, date, kg}`. */
module Entries {

  datatype Option<T> = None | Some(value: T)

  /** A JSON value as the route handler sees it after destructuring the body.
      `Undefined` is a property the body does not have; `Compound` is any
      object or array (always truthy, contents irrelevant here). */
  datatype Value =
    | Undefined
    | Null
    | Bool(b: bool)
    | Num(n: real)
    | Str(s: string)
    | Compound

  /** JavaScript truthiness: `undefined`, `null`, `false`, `0` and `""` are falsy. */
  predicate Truthy(v: Value)
  {
    match v
    case Undefined => false
    case Null => false
    case Bool(b) => b
    case Num(n) => n != 0.0
    case Str(s) => s != ""
    case Compound => true
  }

  /** The two people the application tracks. */
  const Aryman := "Aryman"
  const Amal := "Amal"

  /** One stored weight entry (a row of the `weights` table). */
  datatype Entry = Entry(who: Value, date: Value, kg: Value)

  /** Lexicographic order on strings, the order of a text or ISO-date column. */
  predicate LexLe(x: string, y: string)
  {
    x == [] || (y != [] && (x[0] < y[0] || (x[0] == y[0] && LexLe(x[1..], y[1..]))))
  }

  lemma {:induction false} LexLeTotal(x: string, y: string)
    ensures LexLe(x, y) || LexLe(y, x)
  {
    if x != [] && y != [] && x[0] == y[0] {
      LexLeTotal(x[1..], y[1..]);
    }
  }

  lemma {:induction false} LexLeTransitive(x: string, y: string, z: string)
    requires LexLe(x, y) && LexLe(y, z)
    ensures LexLe(x, z)
  {
    if x != [] && y != [] && z != [] && x[0] == y[0] && y[0] == z[0] {
      LexLeTransitive(x[1..], y[1..], z[1..]);
    }
  }
}

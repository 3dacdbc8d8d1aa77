/**
 * Loosely typed spreadsheet rows (`ForecastItem`, `NvdbRow`): an ordered list
 * of (header, cell) pairs in `Object.keys` order, where a cell is a string, a
 * number or null.
 */
module Loose {
  import opened Options
  import Strings

  /** A spreadsheet cell. Numbers are integers here; see the README. */
  datatype Value = Str(s: string) | Num(n: int) | Null

  type Row = seq<(string, Value)>

  /** `String(v)`. */
  function ToString(v: Value): string
  {
    match v
    case Str(s) => s
    case Num(n) => Strings.IntToString(n)
    case Null => "null"
  }

  /** JavaScript truthiness of a cell. */
  predicate Truthy(v: Value)
  {
    match v
    case Str(s) => s != ""
    case Num(n) => n != 0
    case Null => false
  }

  /** `Object.keys(row)`. */
  function Keys(row: Row): (ks: seq<string>)
    ensures |ks| == |row|
    ensures forall i :: 0 <= i < |row| ==> ks[i] == row[i].0
  {
    if row == [] then [] else [row[0].0] + Keys(row[1..])
  }

  /** `Object.values(row)`. */
  function Values(row: Row): (vs: seq<Value>)
    ensures |vs| == |row|
    ensures forall i :: 0 <= i < |row| ==> vs[i] == row[i].1
  {
    if row == [] then [] else [row[0].1] + Values(row[1..])
  }

  /** `row[key]`: exact header lookup, `None` for `undefined`. */
  function Get(row: Row, key: string): (r: Option<Value>)
    ensures r.Some? <==> exists i :: 0 <= i < |row| && row[i].0 == key
    ensures r.Some? ==> exists i :: 0 <= i < |row| && row[i] == (key, r.value)
  {
    if row == [] then None
    else if row[0].0 == key then Some(row[0].1)
    else
      var r := Get(row[1..], key);
      assert forall i :: 0 < i < |row| ==> row[i] == row[1..][i - 1];
      r
  }

  /** `a || b || ''` on two cells looked up by exact header. */
  function FirstTruthy(row: Row, a: string, b: string): (v: Value)
    ensures Truthy(v) || v == Str("")
    ensures Get(row, a).Some? && Truthy(Get(row, a).value) ==> v == Get(row, a).value
    ensures !(Get(row, a).Some? && Truthy(Get(row, a).value)) && Get(row, b).Some? && Truthy(Get(row, b).value)
            ==> v == Get(row, b).value
    ensures v == Str("") <==> !(Get(row, a).Some? && Truthy(Get(row, a).value))
                              && !(Get(row, b).Some? && Truthy(Get(row, b).value))
  {
    if Get(row, a).Some? && Truthy(Get(row, a).value) then Get(row, a).value
    else if Get(row, b).Some? && Truthy(Get(row, b).value) then Get(row, b).value
    else Str("")
  }

  /** `Object.values(row).some(val => String(val).toLowerCase().includes(term))`. */
  predicate SomeValueContains(row: Row, term: string)
  {
    exists i :: 0 <= i < |row| && Strings.Contains(Strings.Lower(ToString(row[i].1)), term)
  }

  /** The text search of the list screens: empty, or some cell's lowercase text contains the lowercase term. */
  predicate MatchesSearch(row: Row, term: string)
  {
    term == "" || SomeValueContains(row, Strings.Lower(term))
  }
}

/** Values shared by the relay and the browser-side composables: optional values,
    JSON as `JSON.parse` yields it, JavaScript truthiness, and the few sequence
    operations the source performs on insertion-ordered sets and arrays. */
module Common {

  datatype Option<+T> = None | Some(value: T)

  /** A JSON value. Numbers are kept as reals; JSON has no NaN or infinities. */
  datatype Json =
    | JNull
    | JBool(b: bool)
    | JNum(n: real)
    | JStr(s: string)
    | JArr(items: seq<Json>)
    | JObj(fields: map<string, Json>)

  /** JavaScript truthiness of a property read, where `None` stands for `undefined`. */
  predicate Truthy(v: Option<Json>)
  {
    match v
    case None => false
    case Some(j) =>
      match j
      case JNull => false
      case JBool(b) => b
      case JNum(n) => n != 0.0
      case JStr(s) => s != ""
      case JArr(_) => true
      case JObj(_) => true
  }

  /** `v?.key`: an own property of an object; `undefined` for every other value. */
  function Prop(v: Option<Json>, key: string): (r: Option<Json>)
    ensures r.Some? <==> v.Some? && v.value.JObj? && key in v.value.fields
    ensures r.Some? ==> r.value == v.value.fields[key]
  {
    if v.Some? && v.value.JObj? && key in v.value.fields then Some(v.value.fields[key]) else None
  }

  /** A truthy string: what `x && typeof x === 'string'` accepts. */
  predicate NonEmptyString(v: Option<Json>)
  {
    v.Some? && v.value.JStr? && v.value.s != ""
  }

  predicate Distinct<T(==)>(s: seq<T>)
  {
    forall i, j | 0 <= i < j < |s| :: s[i] != s[j]
  }

  /** `Set.prototype.delete` on an insertion-ordered set held as a sequence:
      the element goes, the others keep their order. */
  function Without<T(==)>(s: seq<T>, x: T): (r: seq<T>)
    ensures |r| <= |s|
  {
    if s == [] then []
    else if s[0] == x then Without(s[1..], x)
    else [s[0]] + Without(s[1..], x)
  }

  /** What `Without` keeps: every other element, each as often as before, so a
      distinct sequence loses exactly one element when `x` was in it. */
  lemma {:induction false} WithoutKeepsOthers<T>(s: seq<T>, x: T)
    ensures forall y :: y in Without(s, x) <==> y in s && y != x
    ensures Distinct(s) ==> Distinct(Without(s, x))
    ensures x !in s ==> Without(s, x) == s
    ensures Distinct(s) && x in s ==> |Without(s, x)| == |s| - 1
  {
    if s != [] {
      WithoutKeepsOthers(s[1..], x);
      if s[0] != x {
        assert Distinct(s) ==> s[0] !in Without(s[1..], x);
      }
    }
  }
}

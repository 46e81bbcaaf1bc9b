/**
 The few PHP value semantics the extension relies on: `empty()` / truthiness,
 the `(array)` cast and `array_diff`, over the value shapes the extension passes
 around (null, a string, or a list of strings).
 */
module PhpValues {

  /** A content-area argument as PHP sees it: `null|string|array` of strings. */
  datatype Candidate = Null | Str(s: string) | List(items: seq<string>)

  /** PHP `empty()` of a string: true for `""` and for `"0"` only. */
  predicate IsEmptyString(s: string) {
    s == "" || s == "0"
  }

  /** PHP `empty()` of a candidate: null, a falsy string, or an array with no elements. */
  predicate IsEmpty(c: Candidate) {
    match c
    case Null => true
    case Str(s) => IsEmptyString(s)
    case List(items) => |items| == 0
  }

  /** PHP truthiness, as used by `$x ? … : …` and `if ( $x )`. */
  predicate IsTruthy(c: Candidate) {
    !IsEmpty(c)
  }

  /** The `(array)` cast: null becomes `[]`, a string `s` becomes `[s]`, an array stays itself. */
  function AsArray(c: Candidate): (r: seq<string>)
    ensures c.Null? ==> r == []
    ensures c.Str? ==> r == [c.s]
    ensures c.List? ==> r == c.items
  {
    match c
    case Null => []
    case Str(s) => [s]
    case List(items) => items
  }

  /**
   PHP `array_diff(a, b)`: the elements of `a`, in order, that do not occur in `b`
   (strings compare by their string value, which for strings is plain equality).
   */
  function ArrayDiff(a: seq<string>, b: seq<string>): (r: seq<string>)
    ensures forall x :: x in r <==> x in a && x !in b
    ensures |r| <= |a|
  {
    if |a| == 0 then []
    else if a[0] in b then ArrayDiff(a[1..], b)
    else [a[0]] + ArrayDiff(a[1..], b)
  }

  /** `count( array_diff( a, b ) ) === 0` holds exactly when every element of `a` occurs in `b`. */
  lemma ArrayDiffEmptyIffSubset(a: seq<string>, b: seq<string>)
    ensures |ArrayDiff(a, b)| == 0 <==> forall x :: x in a ==> x in b
  {
  }
}

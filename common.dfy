/** Small value types shared by the server-side and browser-side modules. */
module Common {

  datatype Option<T> = None | Some(value: T) {
    function GetOr(default: T): T {
      match this
      case Some(v) => v
      case None => default
    }
  }

  datatype Result<T, E> = Ok(value: T) | Err(error: E)

  /** What a browser `<input type="number">` hands to its change handler:
      the empty string, or a number the browser has already parsed. */
  datatype NumberInput = Blank | Typed(value: int)

  /** No element occurs twice. */
  predicate Distinct<T(==)>(xs: seq<T>) {
    forall i, j :: 0 <= i < j < |xs| ==> xs[i] != xs[j]
  }

  /** The set a JavaScript `new Set(xs)` would hold. */
  function Elements<T>(xs: seq<T>): set<T> {
    set x | x in xs
  }

  /** `new Set(xs).size !== xs.length` is exactly "xs has a repeated element". */
  lemma {:induction false} SetSizeDetectsRepeats<T>(xs: seq<T>)
    ensures |Elements(xs)| <= |xs|
    ensures Distinct(xs) <==> |Elements(xs)| == |xs|
  {
    if xs != [] {
      var t := xs[1..];
      SetSizeDetectsRepeats(t);
      assert Elements(xs) == {xs[0]} + Elements(t);
      if xs[0] in t {
        assert Elements(xs) == Elements(t);
        var j :| 0 <= j < |t| && t[j] == xs[0];
        assert xs[0] == xs[j + 1];
      } else {
        assert xs[0] !in Elements(t);
        if Distinct(t) {
          forall i, j | 0 <= i < j < |xs| ensures xs[i] != xs[j] {
            if i > 0 {
              assert xs[i] == t[i - 1] && xs[j] == t[j - 1];
            } else {
              assert xs[j] == t[j - 1];
            }
          }
        } else {
          var i, j :| 0 <= i < j < |t| && t[i] == t[j];
          assert xs[i + 1] == xs[j + 1];
        }
      }
    }
  }
}

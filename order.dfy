/** Python's ordering of the grouping keys: strings compare by code point,
    lexicographically, and a key tuple compares element by element. The
    aggregation sorts its groups in this order before counting. */
module KeyOrder {

  /** `a < b` on Python strings. */
  predicate StrLess(a: string, b: string)
  {
    if b == [] then false
    else if a == [] then true
    else if a[0] != b[0] then a[0] < b[0]
    else StrLess(a[1..], b[1..])
  }

  lemma {:induction false} StrLessIrreflexive(a: string)
    ensures !StrLess(a, a)
  {
    if a != [] {
      StrLessIrreflexive(a[1..]);
    }
  }

  lemma {:induction false} StrLessTransitive(a: string, b: string, c: string)
    requires StrLess(a, b) && StrLess(b, c)
    ensures StrLess(a, c)
  {
    if a != [] && a[0] == b[0] && b[0] == c[0] {
      StrLessTransitive(a[1..], b[1..], c[1..]);
    }
  }

  /** Any two different strings are ordered one way, and only one way. */
  lemma {:induction false} StrLessTotal(a: string, b: string)
    ensures a != b ==> StrLess(a, b) || StrLess(b, a)
    ensures !(StrLess(a, b) && StrLess(b, a))
  {
    if a != [] && b != [] && a[0] == b[0] {
      StrLessTotal(a[1..], b[1..]);
      if a[1..] == b[1..] {
        assert a == [a[0]] + a[1..] && b == [b[0]] + b[1..];
      }
    }
  }

  /** `x < y` on Python tuples of strings (a one-column key is a bare string
      in the source, which orders the same way). */
  predicate KeyLess(x: seq<string>, y: seq<string>)
  {
    if y == [] then false
    else if x == [] then true
    else if x[0] != y[0] then StrLess(x[0], y[0])
    else KeyLess(x[1..], y[1..])
  }

  lemma {:induction false} KeyLessIrreflexive(x: seq<string>)
    ensures !KeyLess(x, x)
  {
    if x != [] {
      KeyLessIrreflexive(x[1..]);
    }
  }

  lemma {:induction false} KeyLessTransitive(x: seq<string>, y: seq<string>, z: seq<string>)
    requires KeyLess(x, y) && KeyLess(y, z)
    ensures KeyLess(x, z)
  {
    if x != [] && y != [] && z != [] {
      if x[0] == y[0] && y[0] == z[0] {
        KeyLessTransitive(x[1..], y[1..], z[1..]);
      } else if x[0] != y[0] && y[0] != z[0] {
        StrLessTransitive(x[0], y[0], z[0]);
        if x[0] == z[0] {
          StrLessTotal(x[0], y[0]);
        }
      }
    }
  }

  /** Any two different keys are ordered one way, and only one way. */
  lemma {:induction false} KeyLessTotal(x: seq<string>, y: seq<string>)
    ensures x != y ==> KeyLess(x, y) || KeyLess(y, x)
    ensures !(KeyLess(x, y) && KeyLess(y, x))
  {
    if x != [] && y != [] {
      if x[0] == y[0] {
        KeyLessTotal(x[1..], y[1..]);
        if x[1..] == y[1..] {
          assert x == [x[0]] + x[1..] && y == [y[0]] + y[1..];
        }
      } else {
        StrLessTotal(x[0], y[0]);
      }
    }
  }
}

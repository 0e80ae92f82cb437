/**
  * The order Polars uses for `min`/`max` over Utf8 columns: lexicographic
  * comparison of code points, a proper prefix sorting first. (UTF-8 byte
  * order and code-point order agree, so this is also the byte order.)
  */
module LexOrder {

  /** `a` sorts at or before `b`. */
  predicate LexLe(a: string, b: string)
    decreases |a|
  {
    |a| == 0 || (|b| > 0 && (a[0] < b[0] || (a[0] == b[0] && LexLe(a[1..], b[1..]))))
  }

  lemma {:induction false} LexLeReflexive(a: string)
    ensures LexLe(a, a)
  {
    if |a| > 0 {
      LexLeReflexive(a[1..]);
    }
  }

  lemma {:induction false} LexLeAntisymmetric(a: string, b: string)
    requires LexLe(a, b) && LexLe(b, a)
    ensures a == b
  {
    if |a| > 0 {
      assert |b| > 0 && a[0] == b[0];
      LexLeAntisymmetric(a[1..], b[1..]);
      assert a == [a[0]] + a[1..] && b == [b[0]] + b[1..];
    }
  }

  lemma {:induction false} LexLeTransitive(a: string, b: string, c: string)
    requires LexLe(a, b) && LexLe(b, c)
    ensures LexLe(a, c)
  {
    if |a| > 0 && a[0] == b[0] && b[0] == c[0] {
      LexLeTransitive(a[1..], b[1..], c[1..]);
    }
  }

  lemma {:induction false} LexLeTotal(a: string, b: string)
    ensures LexLe(a, b) || LexLe(b, a)
  {
    if |a| > 0 && |b| > 0 && a[0] == b[0] {
      LexLeTotal(a[1..], b[1..]);
    }
  }

  /** The smaller of two keys (Polars `min`). */
  function Min(a: string, b: string): (m: string)
    ensures m == a || m == b
    ensures LexLe(m, a) && LexLe(m, b)
  {
    LexLeTotal(a, b);
    LexLeReflexive(a);
    LexLeReflexive(b);
    if LexLe(a, b) then a else b
  }

  /** The larger of two keys (Polars `max`). */
  function Max(a: string, b: string): (m: string)
    ensures m == a || m == b
    ensures LexLe(a, m) && LexLe(b, m)
  {
    LexLeTotal(a, b);
    LexLeReflexive(a);
    LexLeReflexive(b);
    if LexLe(a, b) then b else a
  }
}

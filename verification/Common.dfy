/** Small building blocks shared by the models: options, ascending sequences of
    clock readings, and the half-open window filter every rate bound is stated with. */
module Common {

  datatype Option<+T> = None | Some(value: T)

  /** How many clock ticks make a second. */
  type Ticks = t: int | t > 0 witness 1

  function Max(a: int, b: int): int {
    if a >= b then a else b
  }

  predicate Ascending(s: seq<int>) {
    forall i, j :: 0 <= i < j < |s| ==> s[i] <= s[j]
  }

  predicate AtMost(s: seq<int>, hi: int) {
    forall i :: 0 <= i < |s| ==> s[i] <= hi
  }

  /** The readings of `s` that lie in the window (lo, hi], in order. */
  function Within(s: seq<int>, lo: int, hi: int): seq<int> {
    if s == [] then [] else
    (if lo < s[0] <= hi then [s[0]] else []) + Within(s[1..], lo, hi)
  }

  /** How many readings lie in the window of length `window` that ends at `t`, i.e. in (t - window, t]. */
  function CountEnding(s: seq<int>, t: int, window: int): nat {
    |Within(s, t - window, t)|
  }

  /** No window of the given length holds more than `bound` readings. */
  ghost predicate Bounded(s: seq<int>, bound: int, window: int) {
    forall t :: CountEnding(s, t, window) <= bound
  }

  lemma {:induction false} WithinConcat(a: seq<int>, b: seq<int>, lo: int, hi: int)
    ensures Within(a + b, lo, hi) == Within(a, lo, hi) + Within(b, lo, hi)
  {
    if a == [] {
      assert a + b == b;
    } else {
      assert (a + b)[1..] == a[1..] + b;
      WithinConcat(a[1..], b, lo, hi);
    }
  }

  lemma {:induction false} WithinAppend(s: seq<int>, x: int, lo: int, hi: int)
    ensures Within(s + [x], lo, hi) == Within(s, lo, hi) + (if lo < x <= hi then [x] else [])
  {
    WithinConcat(s, [x], lo, hi);
    assert [x][1..] == [];
  }

  lemma {:induction false} WithinAll(s: seq<int>, lo: int, hi: int)
    requires forall i :: 0 <= i < |s| ==> lo < s[i] <= hi
    ensures Within(s, lo, hi) == s
  {
    if s != [] {
      WithinAll(s[1..], lo, hi);
    }
  }

  lemma {:induction false} WithinNone(s: seq<int>, lo: int, hi: int)
    requires forall i :: 0 <= i < |s| ==> s[i] <= lo || s[i] > hi
    ensures Within(s, lo, hi) == []
  {
    if s != [] {
      WithinNone(s[1..], lo, hi);
    }
  }

  lemma {:induction false} WithinSize(s: seq<int>, lo: int, hi: int)
    ensures |Within(s, lo, hi)| <= |s|
  {
    if s != [] {
      WithinSize(s[1..], lo, hi);
    }
  }

  lemma {:induction false} WithinMembers(s: seq<int>, lo: int, hi: int)
    ensures forall i :: 0 <= i < |Within(s, lo, hi)| ==> lo < Within(s, lo, hi)[i] <= hi
    ensures forall x :: x in Within(s, lo, hi) <==> x in s && lo < x <= hi
    ensures Ascending(s) ==> Ascending(Within(s, lo, hi))
  {
    if s != [] {
      WithinMembers(s[1..], lo, hi);
      var rest := Within(s[1..], lo, hi);
      if Ascending(s) {
        assert Ascending(s[1..]);
        forall i | 0 <= i < |rest|
          ensures s[0] <= rest[i]
        {
          assert rest[i] in s[1..];
        }
      }
    }
  }

  lemma WithinOrderly(s: seq<int>, lo: int, hi: int)
    requires Ascending(s)
    ensures Ascending(Within(s, lo, hi)) && AtMost(Within(s, lo, hi), hi)
  {
    WithinMembers(s, lo, hi);
  }

  /** Narrowing a window twice is narrowing it once, when nothing is newer than the first upper edge. */
  lemma {:induction false} WithinNested(s: seq<int>, lo: int, hi: int, lo': int, hi': int)
    requires AtMost(s, hi) && lo <= lo' && hi <= hi'
    ensures Within(Within(s, lo, hi), lo', hi') == Within(s, lo', hi')
  {
    if s != [] {
      WithinNested(s[1..], lo, hi, lo', hi');
      WithinConcat(if lo < s[0] <= hi then [s[0]] else [], Within(s[1..], lo, hi), lo', hi');
      assert [s[0]][1..] == [];
    }
  }

  lemma {:induction false} WithinGrows(s: seq<int>, lo: int, hi: int, lo': int, hi': int)
    requires forall i :: 0 <= i < |s| && lo < s[i] <= hi ==> lo' < s[i] <= hi'
    ensures |Within(s, lo, hi)| <= |Within(s, lo', hi')|
  {
    if s != [] {
      WithinGrows(s[1..], lo, hi, lo', hi');
    }
  }

  /** Everything up to and including an aged-out reading has aged out too. */
  lemma WithinDropsPrefix(s: seq<int>, j: int, lo: int, hi: int)
    requires Ascending(s) && 0 <= j < |s| && s[j] <= lo
    ensures |Within(s, lo, hi)| <= |s| - j - 1
  {
    assert s == s[..j + 1] + s[j + 1..];
    WithinConcat(s[..j + 1], s[j + 1..], lo, hi);
    WithinNone(s[..j + 1], lo, hi);
    WithinSize(s[j + 1..], lo, hi);
  }

  /** A reading still in the window keeps every later reading with it. */
  lemma WithinKeepsSuffix(s: seq<int>, j: int, lo: int, hi: int)
    requires Ascending(s) && AtMost(s, hi) && 0 <= j < |s| && lo < s[j]
    ensures |Within(s, lo, hi)| >= |s| - j
  {
    assert s == s[..j] + s[j..];
    WithinConcat(s[..j], s[j..], lo, hi);
    WithinAll(s[j..], lo, hi);
  }

  lemma BoundedPrefix(s: seq<int>, x: int, bound: int, window: int)
    requires Bounded(s + [x], bound, window)
    ensures Bounded(s, bound, window)
  {
    forall t
      ensures CountEnding(s, t, window) <= bound
    {
      WithinAppend(s, x, t - window, t);
      assert CountEnding(s + [x], t, window) <= bound;
    }
  }

  // --- Division by a variable number of ticks --------------------------------

  lemma QuotientIs(x: int, d: int, q: int, m: int)
    requires d > 0 && 0 <= m < d && x == q * d + m
    ensures x / d == q && x % d == m
  {
    var q', m' := x / d, x % d;
    var gap := q - q';
    assert q * d - q' * d == gap * d;
    assert gap * d == m' - m;
    AtLeastOnce(gap, d);
    AtLeastOnce(-gap, d);
    assert -gap * d == m - m';
  }

  lemma AtLeastOnce(k: int, d: int)
    requires d > 0
    ensures k >= 1 ==> k * d >= d
  {
    if k >= 1 {
      assert k * d == (k - 1) * d + d;
    }
  }
}

/**
 * Scores as the search engine compares them: Python floats restricted to
 * -inf, a finite value and +inf, with the exact real-number order.
 */
module Scores {

  datatype Score = NegInf | Fin(x: real) | PosInf

  /** a <= b on extended reals. */
  predicate Le(a: Score, b: Score) {
    match a
    case NegInf => true
    case Fin(x) => !b.NegInf? && (b.Fin? ==> x <= b.x)
    case PosInf => b.PosInf?
  }

  /** a < b on extended reals. */
  predicate Lt(a: Score, b: Score) {
    !Le(b, a)
  }

  /** Python's max(a, b): keeps a unless b is strictly greater. */
  function Max(a: Score, b: Score): Score {
    if Lt(a, b) then b else a
  }

  /** Python's min(a, b): keeps a unless b is strictly smaller. */
  function Min(a: Score, b: Score): Score {
    if Lt(b, a) then b else a
  }

  /** The running maximum `best = max(best, v)` over s, starting at -inf. */
  function MaxOf(s: seq<Score>): Score {
    if s == [] then NegInf else Max(MaxOf(s[..|s| - 1]), s[|s| - 1])
  }

  /** MaxOf is the maximum of s: an upper bound of every element and one of them. */
  lemma {:induction false} MaxOfIsMaximum(s: seq<Score>)
    ensures forall i :: 0 <= i < |s| ==> Le(s[i], MaxOf(s))
    ensures s != [] ==> MaxOf(s) in s
  {
    if s != [] {
      var p := s[..|s| - 1];
      MaxOfIsMaximum(p);
      assert forall i :: 0 <= i < |p| ==> s[i] == p[i];
    }
  }

  /** The running minimum `best = min(best, v)` over s, starting at +inf. */
  function MinOf(s: seq<Score>): Score {
    if s == [] then PosInf else Min(MinOf(s[..|s| - 1]), s[|s| - 1])
  }

  /** MinOf is the minimum of s: a lower bound of every element and one of them. */
  lemma {:induction false} MinOfIsMinimum(s: seq<Score>)
    ensures forall i :: 0 <= i < |s| ==> Le(MinOf(s), s[i])
    ensures s != [] ==> MinOf(s) in s
  {
    if s != [] {
      var p := s[..|s| - 1];
      MinOfIsMinimum(p);
      assert forall i :: 0 <= i < |p| ==> s[i] == p[i];
    }
  }

  /**
   * The index Python's `max(d, key=lambda k: d[k])` picks when d's values,
   * in insertion order, are s: it walks the keys and replaces its candidate
   * only by a strictly greater one, so the FIRST maximal position wins.
   */
  function FirstArgMax(s: seq<Score>): (k: nat)
    requires s != []
    ensures k < |s| && s[k] == MaxOf(s)
    ensures forall j :: 0 <= j < k ==> Lt(s[j], s[k])
  {
    MaxOfIsMaximum(s[..|s| - 1]);
    if |s| == 1 then 0
    else
      var k := FirstArgMax(s[..|s| - 1]);
      if Lt(s[k], s[|s| - 1]) then |s| - 1 else k
  }

  /** Every prefix of a and of b has the same running maximum. */
  ghost predicate SamePrefixMaxima(a: seq<Score>, b: seq<Score>) {
    |a| == |b| && forall i :: 0 <= i <= |a| ==> MaxOf(a[..i]) == MaxOf(b[..i])
  }

  /**
   * The first-maximum choice depends only on the running maxima: two score
   * lists whose prefixes have the same maxima pick the same position.
   */
  lemma {:induction false} FirstArgMaxByPrefixMaxima(a: seq<Score>, b: seq<Score>)
    requires a != [] && SamePrefixMaxima(a, b)
    ensures FirstArgMax(a) == FirstArgMax(b)
  {
    var n := |a|;
    if n > 1 {
      var a', b' := a[..n - 1], b[..n - 1];
      forall i | 0 <= i <= n - 1
        ensures MaxOf(a'[..i]) == MaxOf(b'[..i])
      {
        assert a'[..i] == a[..i];
        assert b'[..i] == b[..i];
      }
      FirstArgMaxByPrefixMaxima(a', b');
      var k := FirstArgMax(a');
      assert a[..n] == a && b[..n] == b;
      var m := MaxOf(a');
      assert m == MaxOf(b') && a[k] == m && b[k] == m;
      // the last element replaces the candidate exactly when it raises the maximum
      assert Lt(m, a[n - 1]) <==> MaxOf(a) != m;
      assert Lt(m, b[n - 1]) <==> MaxOf(b) != m;
    }
  }
}

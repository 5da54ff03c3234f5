/** Option, the value the model uses where the source holds `null` or `undefined`. */
module Wrappers {
  datatype Option<T> = None | Some(value: T)
}

/**
 * The two array operations the engine leans on, `Array.prototype.filter` and
 * `Array.prototype.find`, as functions over sequences, with the facts the
 * engine's callers need: what survives a filter, in which order and at which
 * position, and which element a find returns.
 */
module Seqs {
  import opened Wrappers

  /** The elements of `s` that satisfy `keep`, in their original order. */
  function Filter<T>(s: seq<T>, keep: T -> bool): (r: seq<T>)
    ensures |r| <= |s|
    ensures forall x :: x in r ==> x in s && keep(x)
  {
    if s == [] then []
    else if keep(s[0]) then [s[0]] + Filter(s[1..], keep)
    else Filter(s[1..], keep)
  }

  /** The index of the first element of `s` that satisfies `p`, or None. */
  function Find<T>(s: seq<T>, p: T -> bool): (r: Option<nat>)
    ensures r.Some? ==> r.value < |s| && p(s[r.value])
    ensures r.Some? ==> forall j :: 0 <= j < r.value ==> !p(s[j])
    ensures r.None? ==> forall j :: 0 <= j < |s| ==> !p(s[j])
  {
    if s == [] then None
    else if p(s[0]) then Some(0)
    else match Find(s[1..], p)
      case Some(i) => Some(i + 1)
      case None => None
  }

  /** Filtering distributes over concatenation. */
  lemma {:induction false} FilterAppend<T>(a: seq<T>, b: seq<T>, keep: T -> bool)
    ensures Filter(a + b, keep) == Filter(a, keep) + Filter(b, keep)
  {
    if a == [] {
      assert a + b == b;
    } else {
      assert (a + b)[0] == a[0];
      assert (a + b)[1..] == a[1..] + b;
      FilterAppend(a[1..], b, keep);
    }
  }

  /** Every element that satisfies `keep` survives the filter. */
  lemma {:induction false} FilterKeeps<T>(s: seq<T>, keep: T -> bool, x: T)
    requires x in s && keep(x)
    ensures x in Filter(s, keep)
  {
    if s[0] != x {
      FilterKeeps(s[1..], keep, x);
    }
  }

  /** A filter that every element passes returns its input. */
  lemma {:induction false} FilterAll<T>(s: seq<T>, keep: T -> bool)
    requires forall j :: 0 <= j < |s| ==> keep(s[j])
    ensures Filter(s, keep) == s
  {
    if s != [] {
      FilterAll(s[1..], keep);
    }
  }

  /**
   * The kept element `s[i]` lands at position |Filter(s[..i], keep)| of the
   * result: the number of kept elements before it.
   */
  lemma FilterAt<T>(s: seq<T>, keep: T -> bool, i: nat)
    requires i < |s| && keep(s[i])
    ensures |Filter(s[..i], keep)| < |Filter(s, keep)|
    ensures Filter(s, keep)[|Filter(s[..i], keep)|] == s[i]
  {
    assert s == s[..i] + s[i..];
    FilterAppend(s[..i], s[i..], keep);
    assert s[i..][0] == s[i];
  }

  /**
   * Kept elements keep their relative order: the position of a kept `s[i]`
   * in the result is below that of any later element.
   */
  lemma FilterOrder<T>(s: seq<T>, keep: T -> bool, i: nat, j: nat)
    requires i < j <= |s| && keep(s[i])
    ensures |Filter(s[..i], keep)| < |Filter(s[..j], keep)|
  {
    assert s[..j] == s[..i] + s[i..j];
    FilterAppend(s[..i], s[i..j], keep);
    assert s[i..j][0] == s[i];
  }

  /**
   * Every entry of the result is a kept element of `s`, sitting at the
   * position FilterAt gives it. With FilterOrder, which makes those positions
   * strictly increasing, kept indices and result positions correspond one to
   * one: no element appears in the result more often than it is kept.
   */
  lemma {:induction false} FilterSource<T>(s: seq<T>, keep: T -> bool, k: nat)
    requires k < |Filter(s, keep)|
    ensures exists i ::
      0 <= i < |s| && keep(s[i]) && |Filter(s[..i], keep)| == k && Filter(s, keep)[k] == s[i]
  {
    assert s != [];
    var t := s[1..];
    if keep(s[0]) && k == 0 {
      assert s[..0] == [];
      assert Filter(s[..0], keep) == [];
    } else {
      var k' := if keep(s[0]) then k - 1 else k;
      FilterSource(t, keep, k');
      var i' :| 0 <= i' < |t| && keep(t[i']) && |Filter(t[..i'], keep)| == k' && Filter(t, keep)[k'] == t[i'];
      var pre := s[..i' + 1];
      assert pre != [] && pre[0] == s[0] && pre[1..] == t[..i'];
      assert |Filter(pre, keep)| == k;
      assert Filter(s, keep)[k] == s[i' + 1];
    }
  }

  /** Two pairs of filters that agree on every element give the same result. */
  lemma {:induction false} FilterSwap<T>(s: seq<T>, a: T -> bool, b: T -> bool, c: T -> bool, d: T -> bool)
    requires forall x :: x in s ==> (a(x) && b(x) <==> c(x) && d(x))
    ensures Filter(Filter(s, a), b) == Filter(Filter(s, c), d)
  {
    if s != [] {
      FilterSwap(s[1..], a, b, c, d);
    }
  }
}

/** Order-preserving filtering and first-match search over sequences, as
    the query filters and lookups of both backends use them. */
module Seqs {
  import opened Wrappers

  /** The elements of `s` that `keep` accepts, in order. */
  function Where<T(==,!new)>(s: seq<T>, keep: T -> bool): (r: seq<T>)
    ensures forall x :: x in r <==> x in s && keep(x)
    ensures forall i | 0 <= i < |r| :: keep(r[i])
    ensures |r| <= |s|
  {
    if s == [] then []
    else
      var rest := Where(s[1..], keep);
      assert forall x | x in s :: x == s[0] || x in s[1..];
      if keep(s[0]) then [s[0]] + rest else rest
  }

  /** Filtering keeps the order: the kept elements of a concatenation are
      those of the first part followed by those of the second. */
  lemma {:induction false} WhereAppend<T(!new)>(a: seq<T>, b: seq<T>, keep: T -> bool)
    ensures Where(a + b, keep) == Where(a, keep) + Where(b, keep)
  {
    if a == [] {
      assert a + b == b;
    } else {
      var x, tail := a[0], a[1..];
      assert a == [x] + tail;
      assert a + b == [x] + (tail + b);
      var kt, kb := Where(tail, keep), Where(b, keep);
      calc {
        Where(a + b, keep);
        { WhereCons(x, tail + b, keep); }
        if keep(x) then [x] + Where(tail + b, keep) else Where(tail + b, keep);
        { WhereAppend(tail, b, keep); }
        if keep(x) then [x] + (kt + kb) else kt + kb;
        { assert [x] + (kt + kb) == ([x] + kt) + kb; }
        (if keep(x) then [x] + kt else kt) + kb;
        { WhereCons(x, tail, keep); }
        Where(a, keep) + kb;
      }
    }
  }

  /** Filtering a list with one more element in front. */
  lemma WhereCons<T(!new)>(x: T, s: seq<T>, keep: T -> bool)
    ensures Where([x] + s, keep) == if keep(x) then [x] + Where(s, keep) else Where(s, keep)
  {
    assert ([x] + s)[1..] == s;
  }

  /** The first index whose element `keep` accepts, if any. */
  function FindIndex<T>(s: seq<T>, keep: T -> bool): (r: Option<nat>)
    ensures r.Some? ==> r.value < |s| && keep(s[r.value]) && forall j | 0 <= j < r.value :: !keep(s[j])
    ensures r.None? ==> forall j | 0 <= j < |s| :: !keep(s[j])
  {
    if s == [] then None
    else if keep(s[0]) then Some(0)
    else
      var r := FindIndex(s[1..], keep);
      if r.Some? then Some(r.value + 1) else None
  }
}

/** Sequence helpers that mirror JavaScript's array methods. */
module Seqs {

  /** `r` is `s` with some elements deleted and the rest kept in order. */
  ghost predicate SubsequenceOf<T>(r: seq<T>, s: seq<T>)
    decreases |s|
  {
    if r == [] then true
    else if s == [] then false
    else if r[0] == s[0] then SubsequenceOf(r[1..], s[1..])
    else SubsequenceOf(r, s[1..])
  }

  /** `Array.prototype.filter`: the elements of `s` that satisfy `p`, in their order.
      The result keeps every satisfying element as often as `s` holds it, drops every
      other one, and is a subsequence of `s` -- which pins it down completely. */
  function Filter<T(!new)>(s: seq<T>, p: T -> bool): (r: seq<T>)
    ensures forall x :: x in r <==> x in s && p(x)
    ensures forall x :: multiset(r)[x] == if p(x) then multiset(s)[x] else 0
    ensures SubsequenceOf(r, s)
    ensures |r| <= |s|
    ensures (forall i :: 0 <= i < |s| ==> p(s[i])) ==> r == s
  {
    if s == [] then []
    else
      var rest := Filter(s[1..], p);
      assert s == [s[0]] + s[1..];
      if p(s[0]) then [s[0]] + rest else rest
  }

  lemma {:induction false} FilterAppend<T(!new)>(s: seq<T>, x: T, p: T -> bool)
    ensures Filter(s + [x], p) == Filter(s, p) + (if p(x) then [x] else [])
  {
    if s == [] {
      assert s + [x] == [x];
      FilterCons([x], p);
      assert [x][1..] == [];
    } else {
      var t := s + [x];
      var head := if p(s[0]) then [s[0]] else [];
      var tail := if p(x) then [x] else [];
      assert t[0] == s[0] && t[1..] == s[1..] + [x];
      calc {
        Filter(t, p);
        { FilterCons(t, p); }
        head + Filter(s[1..] + [x], p);
        { FilterAppend(s[1..], x, p); }
        head + (Filter(s[1..], p) + tail);
        (head + Filter(s[1..], p)) + tail;
        { FilterCons(s, p); }
        Filter(s, p) + tail;
      }
    }
  }

  /** One step of the filter. */
  lemma FilterCons<T(!new)>(s: seq<T>, p: T -> bool)
    requires s != []
    ensures Filter(s, p) == (if p(s[0]) then [s[0]] else []) + Filter(s[1..], p)
  {
  }

  /** The filter of a two-element sequence. */
  lemma FilterPair<T(!new)>(a: T, b: T, p: T -> bool)
    ensures Filter([a, b], p) == (if p(a) then [a] else []) + (if p(b) then [b] else [])
  {
    FilterCons([a, b], p);
    assert [a, b][1..] == [b];
    FilterCons([b], p);
    assert [b][1..] == [];
  }

  /** Overwriting an element that `p` rejects with another one `p` rejects does not
      change what the filter keeps. */
  lemma {:induction false} FilterUpdateRejected<T(!new)>(s: seq<T>, i: nat, x: T, p: T -> bool)
    requires i < |s| && !p(s[i]) && !p(x)
    ensures Filter(s[i := x], p) == Filter(s, p)
  {
    var t := s[i := x];
    if i == 0 {
      assert t[1..] == s[1..];
      FilterCons(s, p);
      FilterCons(t, p);
    } else {
      var head := if p(s[0]) then [s[0]] else [];
      assert t[0] == s[0] && t[1..] == s[1..][i - 1 := x];
      calc {
        Filter(t, p);
        { FilterCons(t, p); }
        head + Filter(s[1..][i - 1 := x], p);
        { FilterUpdateRejected(s[1..], i - 1, x, p); }
        head + Filter(s[1..], p);
        { FilterCons(s, p); }
        Filter(s, p);
      }
    }
  }

  /** Deleting an element that `p` rejects does not change what the filter keeps. */
  lemma {:induction false} FilterRemoveRejected<T(!new)>(s: seq<T>, i: nat, p: T -> bool)
    requires i < |s| && !p(s[i])
    ensures Filter(s[..i] + s[i + 1..], p) == Filter(s, p)
  {
    if i == 0 {
      assert s[..0] + s[1..] == s[1..];
    } else {
      assert (s[..i] + s[i + 1..])[1..] == s[1..][..i - 1] + s[1..][i..];
      FilterRemoveRejected(s[1..], i - 1, p);
    }
  }

  /** `s.filter((_, k) => k !== i)`: the element at index `i` is dropped and the rest
      keep their order; an index outside `s` drops nothing. */
  function RemoveAt<T>(s: seq<T>, i: int): (r: seq<T>)
    ensures 0 <= i < |s| ==> r == s[..i] + s[i + 1..]
    ensures !(0 <= i < |s|) ==> r == s
  {
    if s == [] then []
    else if i == 0 then s[1..]
    else
      var rest := RemoveAt(s[1..], i - 1);
      assert 0 < i < |s| ==> s[..i] == [s[0]] + s[1..][..i - 1];
      [s[0]] + rest
  }
}

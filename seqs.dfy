/** Optional values (a JSON field that may be absent, a lookup that may miss). */
module Wrappers {
  datatype Option<+T> = None | Some(value: T)
}

/** Order-preserving filtering of sequences, the model of JavaScript's
    `Array.prototype.filter` and of deleting keys from an insertion-ordered map. */
module Seqs {

  /** No element occurs twice: each element is absent from the part before it. */
  predicate Distinct<T(==)>(s: seq<T>) {
    s == [] || (Distinct(s[..|s| - 1]) && s[|s| - 1] !in s[..|s| - 1])
  }

  /** In a sequence without repetitions, an element occurs neither before nor after its position. */
  lemma {:induction false} DistinctAt<T>(s: seq<T>, i: nat)
    requires Distinct(s) && i < |s|
    ensures s[i] !in s[..i] && s[i] !in s[i + 1..]
    ensures s[i..] == [s[i]] + s[i + 1..]
  {
    var init := s[..|s| - 1];
    if i < |s| - 1 {
      DistinctAt(init, i);
      assert init[..i] == s[..i];
      assert s[i + 1..] == init[i + 1..] + [s[|s| - 1]];
      assert init[i] in init;
    } else {
      assert s[..i] == init;
    }
  }

  /** Appending an element that does not occur keeps a sequence free of repetitions. */
  lemma DistinctAppend<T>(s: seq<T>, x: T)
    requires Distinct(s) && x !in s
    ensures Distinct(s + [x])
  {
    assert (s + [x])[..|s|] == s;
  }

  lemma AppendAssoc<T>(a: seq<T>, b: seq<T>, c: seq<T>)
    ensures a + (b + c) == (a + b) + c
  {
  }

  /** The elements of `s` that satisfy `keep`, in their original order. */
  function Filter<T(==,!new)>(keep: T -> bool, s: seq<T>): (r: seq<T>)
    ensures |r| <= |s|
    ensures forall x :: x in r <==> x in s && keep(x)
    ensures forall i :: 0 <= i < |r| ==> keep(r[i])
  {
    if s == [] then []
    else (if keep(s[0]) then [s[0]] else []) + Filter(keep, s[1..])
  }

  /** The index of the first element satisfying `p`, or `|s|` when there is none:
      the position `Array.prototype.find` stops at. */
  function FindIndex<T>(p: T -> bool, s: seq<T>): (r: nat)
    ensures r <= |s|
    ensures forall j :: 0 <= j < r ==> !p(s[j])
    ensures r < |s| ==> p(s[r])
  {
    if s == [] then 0
    else if p(s[0]) then 0
    else 1 + FindIndex(p, s[1..])
  }

  /** Filtering a concatenation filters each part: the kept elements stay in order. */
  lemma {:induction false} FilterConcat<T(!new)>(keep: T -> bool, a: seq<T>, b: seq<T>)
    ensures Filter(keep, a + b) == Filter(keep, a) + Filter(keep, b)
  {
    if a == [] {
      assert a + b == b;
    } else {
      assert (a + b)[1..] == a[1..] + b;
      FilterConcat(keep, a[1..], b);
    }
  }

  /** Filtering removes something exactly when some element is rejected,
      and otherwise returns its input unchanged. */
  lemma {:induction false} FilterShrinks<T(!new)>(keep: T -> bool, s: seq<T>)
    ensures |Filter(keep, s)| < |s| <==> exists i :: 0 <= i < |s| && !keep(s[i])
    ensures |Filter(keep, s)| == |s| ==> Filter(keep, s) == s
  {
    if s != [] {
      var rest := s[1..];
      FilterShrinks(keep, rest);
      if keep(s[0]) {
        assert Filter(keep, s) == [s[0]] + Filter(keep, rest);
        if exists i :: 0 <= i < |s| && !keep(s[i]) {
          var i :| 0 <= i < |s| && !keep(s[i]);
          assert !keep(rest[i - 1]);
        }
        if exists i :: 0 <= i < |rest| && !keep(rest[i]) {
          var i :| 0 <= i < |rest| && !keep(rest[i]);
          assert !keep(s[i + 1]);
        }
        assert s == [s[0]] + rest;
      } else {
        assert Filter(keep, s) == Filter(keep, rest);
        assert !keep(s[0]);
      }
    }
  }
}

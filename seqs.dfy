/** Order-preserving filtering of sequences: the `where(...)` of a query on a
    table and the `Array.prototype.filter` of the client. */
module Seqs {

  /** The elements of `s` that satisfy `p`, in their original order. */
  function Filter<T>(s: seq<T>, p: T -> bool): (r: seq<T>)
    ensures |r| <= |s|
  {
    if s == [] then [] else (if p(s[0]) then [s[0]] else []) + Filter(s[1..], p)
  }

  /** What a filter keeps: elements of the input that pass the test, and
      every element of the input that does. */
  lemma {:induction false} FilterMembership<T>(s: seq<T>, p: T -> bool)
    ensures forall i :: 0 <= i < |Filter(s, p)| ==> Filter(s, p)[i] in s && p(Filter(s, p)[i])
    ensures forall i :: 0 <= i < |s| && p(s[i]) ==> s[i] in Filter(s, p)
  {
    if s != [] {
      var tail := s[1..];
      FilterMembership(tail, p);
      var r := Filter(s, p);
      assert r == (if p(s[0]) then [s[0]] else []) + Filter(tail, p);
      forall i | 0 <= i < |r| ensures r[i] in s && p(r[i]) {
        if !(p(s[0]) && i == 0) {
          var t := Filter(tail, p);
          var m := if p(s[0]) then i - 1 else i;
          assert r[i] == t[m];
          var j :| 0 <= j < |tail| && tail[j] == t[m];
          assert s[j + 1] == tail[j];
        }
      }
      forall i | 0 <= i < |s| && p(s[i]) ensures s[i] in r {
        if i > 0 {
          assert s[i] == tail[i - 1];
        }
      }
    }
  }

  /** Filtering keeps relative order: the kept part of a concatenation is the
      concatenation of the kept parts. */
  lemma {:induction false} FilterConcat<T>(a: seq<T>, b: seq<T>, p: T -> bool)
    ensures Filter(a + b, p) == Filter(a, p) + Filter(b, p)
  {
    if a == [] {
      assert a + b == b;
    } else {
      var head := if p(a[0]) then [a[0]] else [];
      assert (a + b)[0] == a[0];
      assert (a + b)[1..] == a[1..] + b;
      FilterConcat(a[1..], b, p);
      assert Filter(a + b, p) == head + Filter(a[1..] + b, p);
      assert Filter(a, p) == head + Filter(a[1..], p);
    }
  }

  /** A filter that every element passes keeps the whole sequence. */
  lemma {:induction false} FilterKeepsAll<T>(s: seq<T>, p: T -> bool)
    requires forall i :: 0 <= i < |s| ==> p(s[i])
    ensures Filter(s, p) == s
  {
    if s != [] {
      FilterKeepsAll(s[1..], p);
    }
  }

  /** A filter keeps every element exactly when it keeps the length. */
  lemma {:induction false} FilterFullLength<T>(s: seq<T>, p: T -> bool)
    ensures |Filter(s, p)| == |s| <==> forall i :: 0 <= i < |s| ==> p(s[i])
  {
    if s != [] {
      FilterFullLength(s[1..], p);
      if !p(s[0]) {
        assert |Filter(s, p)| < |s|;
      } else if |Filter(s, p)| == |s| {
        forall i | 0 <= i < |s| ensures p(s[i]) {
          if i > 0 { assert s[i] == s[1..][i - 1]; }
        }
      } else {
        assert exists i :: 0 <= i < |s| - 1 && !p(s[1..][i]);
      }
    }
  }

  /** A filter that rejects exactly the element at index `i` removes that
      element and keeps the rest in order. */
  lemma {:induction false} FilterDropsOne<T>(s: seq<T>, p: T -> bool, i: nat)
    requires i < |s|
    requires forall j :: 0 <= j < |s| ==> (p(s[j]) <==> j != i)
    ensures Filter(s, p) == s[..i] + s[i + 1..]
  {
    var tail := s[1..];
    if i == 0 {
      forall j | 0 <= j < |tail| ensures p(tail[j]) {
        assert tail[j] == s[j + 1];
      }
      FilterKeepsAll(tail, p);
    } else {
      forall j | 0 <= j < |tail| ensures p(tail[j]) <==> j != i - 1 {
        assert tail[j] == s[j + 1];
      }
      FilterDropsOne(tail, p, i - 1);
      assert s[..i] == [s[0]] + tail[..i - 1];
      assert tail[i..] == s[i + 1..];
    }
  }

  /** Replacing one element changes the number of kept elements by what the
      filter says about the old and the new element. */
  lemma FilterLengthUpdate<T>(s: seq<T>, i: nat, x: T, p: T -> bool)
    requires i < |s|
    ensures |Filter(s[i := x], p)| + (if p(s[i]) then 1 else 0)
         == |Filter(s, p)| + (if p(x) then 1 else 0)
  {
    assert s == s[..i] + [s[i]] + s[i + 1..];
    assert s[i := x] == s[..i] + [x] + s[i + 1..];
    FilterConcat(s[..i] + [s[i]], s[i + 1..], p);
    FilterConcat(s[..i], [s[i]], p);
    FilterConcat(s[..i] + [x], s[i + 1..], p);
    FilterConcat(s[..i], [x], p);
    assert Filter([s[i]], p) == if p(s[i]) then [s[i]] else [];
    assert Filter([x], p) == if p(x) then [x] else [];
  }
}

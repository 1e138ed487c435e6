/** Sequence helpers shared by the catalog, selection and listing models:
    the set of values of a sequence, duplicate-freedom, order-preserving
    subsequences, and the two list edits the engine performs on the
    selection order (removing the first occurrence of an id, and dropping
    every id of a set). */
module Sequences {

  /** The set of values occurring in `s` (a JS `new Set(array)`). */
  function Elements(s: seq<int>): set<int>
  {
    set x | x in s
  }

  /** No value occurs twice in `s`. */
  predicate NoDup(s: seq<int>)
  {
    forall i, j :: 0 <= i < j < |s| ==> s[i] != s[j]
  }

  /** `a` is obtained from `b` by deleting some elements, so the elements of
      `a` keep their relative order from `b` (greedy matching). */
  ghost predicate IsSubsequence(a: seq<int>, b: seq<int>)
    decreases |b|
  {
    if a == [] then true
    else if b == [] then false
    else if a[0] == b[0] then IsSubsequence(a[1..], b[1..])
    else IsSubsequence(a, b[1..])
  }

  lemma {:induction false} SubsequenceRefl(s: seq<int>)
    ensures IsSubsequence(s, s)
    decreases |s|
  {
    if s != [] {
      SubsequenceRefl(s[1..]);
    }
  }

  /** Putting one more element in front of the larger sequence keeps the
      subsequence relation. */
  lemma {:induction false} SubsequenceConsRight(a: seq<int>, b: seq<int>, x: int)
    requires IsSubsequence(a, b)
    ensures IsSubsequence(a, [x] + b)
    decreases |b|, 1
  {
    assert ([x] + b)[1..] == b;
    if a != [] && a[0] == x {
      SubsequenceDropHead(a, b);
    }
  }

  /** Dropping the first element of the smaller sequence keeps the
      subsequence relation. */
  lemma {:induction false} SubsequenceDropHead(a: seq<int>, b: seq<int>)
    requires a != [] && IsSubsequence(a, b)
    ensures IsSubsequence(a[1..], b)
    decreases |b|, 0
  {
    assert b != [];
    assert [b[0]] + b[1..] == b;
    if a[0] == b[0] {
      SubsequenceConsRight(a[1..], b[1..], b[0]);
    } else {
      SubsequenceDropHead(a, b[1..]);
      SubsequenceConsRight(a[1..], b[1..], b[0]);
    }
  }

  /** A subsequence only holds values of the sequence it comes from. */
  lemma {:induction false} SubsequenceElements(a: seq<int>, b: seq<int>)
    requires IsSubsequence(a, b)
    ensures Elements(a) <= Elements(b)
    decreases |b|
  {
    if a != [] {
      assert b != [];
      assert Elements(b[1..]) <= Elements(b);
      if a[0] == b[0] {
        SubsequenceElements(a[1..], b[1..]);
        assert Elements(a) == {a[0]} + Elements(a[1..]) by {
          assert a == [a[0]] + a[1..];
          ElementsConcat([a[0]], a[1..]);
        }
      } else {
        SubsequenceElements(a, b[1..]);
      }
    }
  }

  /** A subsequence of a duplicate-free sequence is duplicate-free. */
  lemma {:induction false} SubsequenceNoDup(a: seq<int>, b: seq<int>)
    requires IsSubsequence(a, b) && NoDup(b)
    ensures NoDup(a)
    decreases |b|
  {
    if a != [] {
      assert b == [b[0]] + b[1..];
      NoDupConcat([b[0]], b[1..]);
      assert a == [a[0]] + a[1..];
      if a[0] == b[0] {
        SubsequenceNoDup(a[1..], b[1..]);
        SubsequenceElements(a[1..], b[1..]);
        assert b[0] in Elements([b[0]]);
        NoDupConcat([a[0]], a[1..]);
      } else {
        SubsequenceNoDup(a, b[1..]);
      }
    }
  }

  /** The elements of a concatenation. */
  lemma ElementsConcat(a: seq<int>, b: seq<int>)
    ensures Elements(a + b) == Elements(a) + Elements(b)
  {
    forall x | x in a + b ensures x in a || x in b { }
  }

  /** A concatenation is duplicate-free exactly when both halves are and
      they share no value. */
  lemma NoDupConcat(a: seq<int>, b: seq<int>)
    ensures NoDup(a + b) <==> NoDup(a) && NoDup(b) && Elements(a) !! Elements(b)
  {
    if NoDup(a + b) {
      forall i, j | 0 <= i < j < |a| ensures a[i] != a[j] {
        assert a[i] == (a + b)[i] && a[j] == (a + b)[j];
      }
      forall i, j | 0 <= i < j < |b| ensures b[i] != b[j] {
        assert b[i] == (a + b)[|a| + i] && b[j] == (a + b)[|a| + j];
      }
      forall i, j | 0 <= i < |a| && 0 <= j < |b| ensures a[i] != b[j] {
        assert a[i] == (a + b)[i] && b[j] == (a + b)[|a| + j];
      }
    }
    if NoDup(a) && NoDup(b) && Elements(a) !! Elements(b) {
      forall i, j | 0 <= i < j < |a + b| ensures (a + b)[i] != (a + b)[j] {
        if j < |a| {
          assert (a + b)[i] == a[i] && (a + b)[j] == a[j];
        } else if i >= |a| {
          assert (a + b)[i] == b[i - |a|] && (a + b)[j] == b[j - |a|];
        } else {
          assert (a + b)[i] == a[i] && (a + b)[j] == b[j - |a|];
          assert a[i] in Elements(a);
          assert a[i] !in Elements(b);
          assert b[j - |a|] in Elements(b);
        }
      }
    }
  }

  /** A duplicate-free sequence has as many elements as values. */
  lemma {:induction false} NoDupCard(s: seq<int>)
    requires NoDup(s)
    ensures |Elements(s)| == |s|
    decreases |s|
  {
    if s != [] {
      assert s == [s[0]] + s[1..];
      NoDupConcat([s[0]], s[1..]);
      ElementsConcat([s[0]], s[1..]);
      NoDupCard(s[1..]);
      assert Elements([s[0]]) == {s[0]};
    }
  }

  /** The array after `splice(indexOf(x), 1)`: the first occurrence of `x`
      is removed, nothing else changes; no occurrence means no change. */
  function RemoveFirst(s: seq<int>, x: int): seq<int>
  {
    if s == [] then []
    else if s[0] == x then s[1..]
    else [s[0]] + RemoveFirst(s[1..], x)
  }

  /** Exactly one occurrence of `x` goes, when there is one. */
  lemma {:induction false} RemoveFirstCount(s: seq<int>, x: int)
    ensures multiset(RemoveFirst(s, x)) == multiset(s) - multiset{x}
    ensures |RemoveFirst(s, x)| == if x in s then |s| - 1 else |s|
    ensures x !in s ==> RemoveFirst(s, x) == s
    decreases |s|
  {
    if s != [] {
      assert s == [s[0]] + s[1..];
      if s[0] != x {
        RemoveFirstCount(s[1..], x);
      }
    }
  }

  /** The remaining elements keep their relative order. */
  lemma {:induction false} RemoveFirstOrder(s: seq<int>, x: int)
    ensures IsSubsequence(RemoveFirst(s, x), s)
    decreases |s|
  {
    if s != [] {
      assert s == [s[0]] + s[1..];
      if s[0] == x {
        SubsequenceRefl(s[1..]);
        SubsequenceConsRight(s[1..], s[1..], s[0]);
      } else {
        var r := RemoveFirst(s[1..], x);
        RemoveFirstOrder(s[1..], x);
        assert ([s[0]] + r)[1..] == r;
      }
    }
  }

  /** In a duplicate-free sequence, removing the first occurrence removes
      the value. */
  lemma {:induction false} RemoveFirstNoDup(s: seq<int>, x: int)
    requires NoDup(s)
    ensures NoDup(RemoveFirst(s, x))
    ensures Elements(RemoveFirst(s, x)) == Elements(s) - {x}
    decreases |s|
  {
    if s != [] {
      assert s == [s[0]] + s[1..];
      NoDupConcat([s[0]], s[1..]);
      ElementsConcat([s[0]], s[1..]);
      assert Elements([s[0]]) == {s[0]};
      if s[0] != x {
        var r := RemoveFirst(s[1..], x);
        RemoveFirstNoDup(s[1..], x);
        NoDupConcat([s[0]], r);
        ElementsConcat([s[0]], r);
      }
    }
  }

  /** `RemoveFirst` is exactly the splice at the index of the first
      occurrence. */
  lemma {:induction false} RemoveFirstAt(s: seq<int>, x: int, k: nat)
    requires k < |s| && s[k] == x && x !in s[..k]
    ensures RemoveFirst(s, x) == s[..k] + s[k + 1..]
    decreases k
  {
    if k > 0 {
      assert s[0] in s[..k];
      assert s[1..][..k - 1] == s[1..k];
      RemoveFirstAt(s[1..], x, k - 1);
      assert s[..k] == [s[0]] + s[1..k];
    }
  }

  /** The array after `filter(id => !xs.has(id))`: the elements not in
      `xs`, in their original order. */
  function Without(s: seq<int>, xs: set<int>): seq<int>
  {
    if s == [] then []
    else if s[0] in xs then Without(s[1..], xs)
    else [s[0]] + Without(s[1..], xs)
  }

  lemma WithoutSpec(s: seq<int>, xs: set<int>)
    ensures Elements(Without(s, xs)) == Elements(s) - xs
    ensures IsSubsequence(Without(s, xs), s)
    ensures NoDup(s) ==> NoDup(Without(s, xs))
    ensures forall x :: multiset(Without(s, xs))[x] == if x in xs then 0 else multiset(s)[x]
  {
    WithoutShape(s, xs);
    WithoutCount(s, xs);
  }

  /** Filtering keeps the values outside the set, in their order. */
  lemma {:induction false} WithoutShape(s: seq<int>, xs: set<int>)
    ensures Elements(Without(s, xs)) == Elements(s) - xs
    ensures IsSubsequence(Without(s, xs), s)
    ensures NoDup(s) ==> NoDup(Without(s, xs))
    decreases |s|
  {
    if s != [] {
      var r := Without(s[1..], xs);
      WithoutShape(s[1..], xs);
      assert s == [s[0]] + s[1..];
      ElementsConcat([s[0]], s[1..]);
      NoDupConcat([s[0]], s[1..]);
      if s[0] in xs {
        SubsequenceConsRight(r, s[1..], s[0]);
      } else {
        ElementsConcat([s[0]], r);
        NoDupConcat([s[0]], r);
        assert ([s[0]] + r)[1..] == r;
      }
    }
  }

  /** Filtering keeps every copy of a value outside the set and no copy of
      a value inside it. */
  lemma {:induction false} WithoutCount(s: seq<int>, xs: set<int>)
    ensures forall x :: multiset(Without(s, xs))[x] == if x in xs then 0 else multiset(s)[x]
    decreases |s|
  {
    if s != [] {
      WithoutCount(s[1..], xs);
      assert s == [s[0]] + s[1..];
      assert multiset(s) == multiset{s[0]} + multiset(s[1..]);
      if s[0] !in xs {
        assert multiset([s[0]] + Without(s[1..], xs)) == multiset{s[0]} + multiset(Without(s[1..], xs));
      }
    }
  }

  /** Filtering distributes over concatenation. */
  lemma {:induction false} WithoutConcat(a: seq<int>, b: seq<int>, xs: set<int>)
    ensures Without(a + b, xs) == Without(a, xs) + Without(b, xs)
    decreases |a|
  {
    if a == [] {
      assert a + b == b;
    } else {
      assert (a + b)[0] == a[0] && (a + b)[1..] == a[1..] + b;
      WithoutConcat(a[1..], b, xs);
      if a[0] !in xs {
        assert [a[0]] + (Without(a[1..], xs) + Without(b, xs)) == ([a[0]] + Without(a[1..], xs)) + Without(b, xs);
      }
    }
  }

  /** Filtering out values that do not occur changes nothing. */
  lemma {:induction false} WithoutDisjoint(s: seq<int>, xs: set<int>)
    requires Elements(s) !! xs
    ensures Without(s, xs) == s
    decreases |s|
  {
    if s != [] {
      assert s[0] in Elements(s);
      assert Elements(s[1..]) <= Elements(s);
      WithoutDisjoint(s[1..], xs);
    }
  }

  /** Only the empty sequence has no values. */
  lemma ElementsEmpty(s: seq<int>)
    ensures Elements(s) == {} <==> s == []
  {
    if s != [] {
      assert s[0] in Elements(s);
    }
  }

  /** Filtering out every value of a sequence leaves nothing. */
  lemma WithoutAll(s: seq<int>)
    ensures Without(s, Elements(s)) == []
  {
    WithoutSpec(s, Elements(s));
    ElementsEmpty(Without(s, Elements(s)));
  }

  /** `Array.prototype.indexOf`: the index of the first occurrence of `x`,
      or -1 when there is none. */
  method IndexOf(s: seq<int>, x: int) returns (idx: int)
    ensures idx == -1 <==> x !in s
    ensures idx != -1 ==> 0 <= idx < |s| && s[idx] == x && x !in s[..idx]
  {
    var i := 0;
    while i < |s|
      invariant 0 <= i <= |s|
      invariant x !in s[..i]
    {
      if s[i] == x {
        return i;
      }
      assert s[..i + 1] == s[..i] + [s[i]];
      i := i + 1;
    }
    assert s[..i] == s;
    idx := -1;
  }
}

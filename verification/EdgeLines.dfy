/** The removal of adjacent duplicate edge lines. */
module EdgeLines {
  import opened Components

  /** What is left of a list when each run of equal neighbours is reduced to one. */
  function Compacted(s: seq<string>): (r: seq<string>)
    ensures |r| <= |s|
    ensures s != [] ==> r != [] && r[|r| - 1] == s[|s| - 1]
  {
    if s == [] then []
    else
      var r := Compacted(s[..|s| - 1]);
      var value := s[|s| - 1];
      if r == [] || r[|r| - 1] != value then r + [value] else r
  }

  /** Removes repeated neighbours in place: the result is the first `n` slots, and the slots after them keep
      their old values. */
  method Compact(values: array<string>) returns (n: nat)
    modifies values
    ensures n <= values.Length
    ensures values[..n] == Compacted(old(values[..]))
    ensures forall k :: n <= k < values.Length ==> values[k] == old(values[k])
  {
    n := 0;
    ghost var was := values[..];
    assert Compacted([]) == [];
    hide Compacted;
    for i := 0 to values.Length
      invariant n <= i
      invariant values[n..] == was[n..]
      invariant values[..n] == Compacted(was[..i])
    {
      var value := values[i];
      ghost var before := values[..];
      KeptStep(before, was, i, n);
      if n == 0 || values[n - 1] != value {
        values[n] := value;
        assert values[..] == before[n := value];
        n := n + 1;
      }
    }
    assert was[..values.Length] == was;
  }

  /** One turn of the loop: the slots before `n` hold the compacted part, the others still hold the list. */
  lemma KeptStep(values: seq<string>, was: seq<string>, i: nat, n: nat)
    requires n <= i < |was| == |values| && values[n..] == was[n..] && values[..n] == Compacted(was[..i])
    ensures values[i] == was[i]
    ensures if n == 0 || values[n - 1] != values[i]
            then (values[n := values[i]])[..n + 1] == Compacted(was[..i + 1])
                 && (values[n := values[i]])[n + 1..] == was[n + 1..]
            else values[..n] == Compacted(was[..i + 1])
  {
    CompactedStep(was, i);
    hide Compacted;
    assert values[i] == values[n..][i - n] && was[i] == was[n..][i - n];
  }

  lemma CompactedStep(s: seq<string>, i: nat)
    requires i < |s|
    ensures var r := Compacted(s[..i]);
            Compacted(s[..i + 1]) == if r == [] || r[|r| - 1] != s[i] then r + [s[i]] else r
  {
    assert s[..i + 1][..i] == s[..i];
  }

  ghost predicate Distinct(s: seq<string>) {
    forall i, j :: 0 <= i < j < |s| ==> s[i] != s[j]
  }

  /** Equal entries stand next to each other, as they do in every sorted list. */
  ghost predicate Grouped(s: seq<string>) {
    forall i, j, k :: 0 <= i < j < k < |s| && s[i] == s[k] ==> s[j] == s[i]
  }

  lemma {:induction false} CompactedElements(s: seq<string>)
    ensures Elements(Compacted(s)) == Elements(s)
  {
    if s == [] {
    } else {
      var t, x := s[..|s| - 1], s[|s| - 1];
      CompactedElements(t);
      assert s == t + [x];
      assert Elements(s) == Elements(t) + {x};
      var r := Compacted(t);
      assert Elements(r + [x]) == Elements(r) + {x};
      if r != [] {
        assert r[|r| - 1] in Elements(r);
      }
    }
  }

  /** Compaction keeps exactly the distinct lines when, and only when, equal lines were grouped beforehand. */
  lemma {:induction false} CompactedDistinctIffGrouped(s: seq<string>)
    ensures Distinct(Compacted(s)) <==> Grouped(s)
  {
    if s == [] {
    } else {
      var t, x := s[..|s| - 1], s[|s| - 1];
      assert s == t + [x];
      CompactedDistinctIffGrouped(t);
      CompactedElements(t);
      CompactedStep(s, |t|);
      assert s[..|s|] == s;
      hide Distinct, Grouped, Compacted;
      var r := Compacted(t);
      if t != [] && t[|t| - 1] == x {
        RepeatGrouped(t, x);
      } else {
        AppendDistinct(r, x);
        AppendGrouped(t, x);
        assert x in r <==> x in Elements(r);
        assert x in t <==> x in Elements(t);
      }
    }
  }

  lemma RepeatGrouped(t: seq<string>, x: string)
    requires t != [] && t[|t| - 1] == x
    ensures Grouped(t + [x]) <==> Grouped(t)
  {
    var s := t + [x];
    assert forall i :: 0 <= i < |t| ==> s[i] == t[i];
    if Grouped(t) {
      forall i, j, k | 0 <= i < j < k < |s| && s[i] == s[k]
        ensures s[j] == s[i]
      {
        if k == |t| && j < |t| - 1 {
          assert t[i] == t[|t| - 1];
        }
      }
    }
    if Grouped(s) {
      forall i, j, k | 0 <= i < j < k < |t| && t[i] == t[k]
        ensures t[j] == t[i]
      {
        assert s[i] == s[k];
      }
    }
  }

  lemma AppendDistinct(r: seq<string>, x: string)
    ensures Distinct(r + [x]) <==> Distinct(r) && x !in r
  {
    var s := r + [x];
    if Distinct(s) {
      assert forall i, j :: 0 <= i < j < |r| ==> s[i] == r[i] && s[j] == r[j];
      forall i | 0 <= i < |r|
        ensures r[i] != x
      {
        assert s[i] != s[|r|];
      }
    }
  }

  lemma AppendGrouped(t: seq<string>, x: string)
    requires t == [] || t[|t| - 1] != x
    ensures Grouped(t + [x]) <==> Grouped(t) && x !in t
  {
    var s := t + [x];
    if Grouped(s) {
      assert forall i, j, k :: 0 <= i < j < k < |t| ==> s[i] == t[i] && s[j] == t[j] && s[k] == t[k];
      forall i | 0 <= i < |t|
        ensures t[i] != x
      {
        var last := |t| - 1;
        assert s[i] == t[i] && s[last] == t[last] && s[|t|] == x;
      }
    }
  }

  /** The order of strings, as sorting uses it. */
  predicate AtMost(a: string, b: string) {
    a == [] || (b != [] && (a[0] < b[0] || (a[0] == b[0] && AtMost(a[1..], b[1..]))))
  }

  /** The first place where the strings differ is `i`, and there the first has the smaller character. */
  ghost predicate SmallerAt(a: string, b: string, i: int) {
    0 <= i < |a| && i < |b| && a[..i] == b[..i] && a[i] < b[i]
  }

  /** One string is at most another when it is a beginning of it, or has the smaller character where they first
      differ. */
  lemma {:induction false} AtMostMeaning(a: string, b: string)
    ensures AtMost(a, b) <==> a <= b || exists i :: SmallerAt(a, b, i)
  {
    if a != [] && b != [] && a[0] == b[0] {
      AtMostMeaning(a[1..], b[1..]);
      assert a == [a[0]] + a[1..] && b == [b[0]] + b[1..];
      if i :| SmallerAt(a[1..], b[1..], i) {
        assert a[..i + 1] == [a[0]] + a[1..][..i] && b[..i + 1] == [b[0]] + b[1..][..i];
        assert SmallerAt(a, b, i + 1);
      }
      if i :| SmallerAt(a, b, i) {
        assert i > 0 && a[1..][..i - 1] == a[..i][1..] && b[1..][..i - 1] == b[..i][1..];
        assert SmallerAt(a[1..], b[1..], i - 1);
      }
    } else if a != [] && b != [] {
      FirstDecides(a, b);
    }
  }

  lemma FirstDecides(a: string, b: string)
    requires a != [] && b != [] && a[0] != b[0]
    ensures !(a <= b) && (a[0] < b[0] <==> exists i :: SmallerAt(a, b, i))
  {
    if a[0] < b[0] {
      assert SmallerAt(a, b, 0);
    }
    if i :| SmallerAt(a, b, i) {
      assert i > 0 ==> a[..i][0] == b[..i][0];
    }
  }

  lemma {:induction false} AtMostSelf(a: string)
    ensures AtMost(a, a)
  {
    if a != [] {
      AtMostSelf(a[1..]);
    }
  }

  lemma {:induction false} AtMostTotal(a: string, b: string)
    ensures AtMost(a, b) || AtMost(b, a)
    ensures AtMost(a, b) && AtMost(b, a) ==> a == b
  {
    if a != [] && b != [] {
      AtMostTotal(a[1..], b[1..]);
      if a[0] == b[0] && a[1..] == b[1..] {
        assert a == [a[0]] + a[1..] && b == [b[0]] + b[1..];
      }
    }
  }

  lemma {:induction false} AtMostTrans(a: string, b: string, c: string)
    requires AtMost(a, b) && AtMost(b, c)
    ensures AtMost(a, c)
  {
    if a != [] && a[0] == b[0] == c[0] {
      AtMostTrans(a[1..], b[1..], c[1..]);
    }
  }

  ghost predicate Sorted(s: seq<string>) {
    forall i, j :: 0 <= i < j < |s| ==> AtMost(s[i], s[j])
  }

  /** The value put behind every entry it is not before. */
  function Insert(s: seq<string>, value: string): seq<string> {
    if s == [] || AtMost(s[|s| - 1], value) then s + [value] else Insert(s[..|s| - 1], value) + [s[|s| - 1]]
  }

  /** The sorted list of the same lines. */
  function SortLines(s: seq<string>): seq<string> {
    if s == [] then [] else Insert(SortLines(s[..|s| - 1]), s[|s| - 1])
  }

  lemma {:induction false} InsertKeeps(s: seq<string>, value: string)
    requires Sorted(s)
    ensures Sorted(Insert(s, value)) && multiset(Insert(s, value)) == multiset(s) + multiset{value}
  {
    hide AtMost;
    if s != [] {
      var t, last := s[..|s| - 1], s[|s| - 1];
      assert s == t + [last];
      if !AtMost(last, value) {
        InsertKeeps(t, value);
        AtMostTotal(last, value);
        forall x | x in Insert(t, value)
          ensures AtMost(x, last)
        {
          assert x in multiset(t) + multiset{value};
          if x != value {
            assert x in t;
          }
        }
      } else {
        forall i | 0 <= i < |t|
          ensures AtMost(s[i], value)
        {
          AtMostTrans(s[i], last, value);
        }
      }
    }
  }

  /** Sorting yields a sorted list of the same lines, each as often as before. */
  lemma {:induction false} SortSorts(s: seq<string>)
    ensures Sorted(SortLines(s)) && multiset(SortLines(s)) == multiset(s)
  {
    if s != [] {
      var t, last := s[..|s| - 1], s[|s| - 1];
      SortSorts(t);
      InsertKeeps(SortLines(t), last);
      assert s == t + [last];
    }
  }

  /** Two sorted lists of the same lines are one list, so it does not matter how the lines were sorted. */
  lemma {:induction false} SortedIsUnique(s: seq<string>, t: seq<string>)
    requires Sorted(s) && Sorted(t) && multiset(s) == multiset(t)
    ensures s == t
    decreases |s|
  {
    if s == [] {
      assert |multiset(t)| == 0;
    } else {
      SameSize(s, t);
      SameLast(s, t);
      WithoutLast(s);
      WithoutLast(t);
      hide Sorted;
      SortedIsUnique(s[..|s| - 1], t[..|t| - 1]);
    }
  }

  lemma SameSize(s: seq<string>, t: seq<string>)
    requires multiset(s) == multiset(t)
    ensures |s| == |t|
  {
    assert |multiset(s)| == |multiset(t)|;
  }

  lemma SameLast(s: seq<string>, t: seq<string>)
    requires Sorted(s) && Sorted(t) && multiset(s) == multiset(t) && s != [] && t != []
    ensures s[|s| - 1] == t[|t| - 1]
  {
    hide AtMost;
    var a, b := s[|s| - 1], t[|t| - 1];
    assert a in multiset(t) && b in multiset(s);
    LastIsGreatest(s, b);
    LastIsGreatest(t, a);
    AtMostTotal(a, b);
  }

  lemma WithoutLast(s: seq<string>)
    requires s != []
    ensures s == s[..|s| - 1] + [s[|s| - 1]]
    ensures multiset(s[..|s| - 1]) == multiset(s) - multiset{s[|s| - 1]}
    ensures Sorted(s) ==> Sorted(s[..|s| - 1])
  {
    hide AtMost;
    assert s == s[..|s| - 1] + [s[|s| - 1]];
  }

  lemma LastIsGreatest(s: seq<string>, x: string)
    requires Sorted(s) && x in s
    ensures AtMost(x, s[|s| - 1])
  {
    AtMostSelf(s[|s| - 1]);
  }

  lemma SortedIsGrouped(s: seq<string>)
    requires Sorted(s)
    ensures Grouped(s)
  {
    forall i, j, k | 0 <= i < j < k < |s| && s[i] == s[k]
      ensures s[j] == s[i]
    {
      AtMostTotal(s[i], s[j]);
    }
  }

  lemma {:induction false} CompactedStaysSorted(s: seq<string>)
    requires Sorted(s)
    ensures Sorted(Compacted(s))
  {
    hide AtMost;
    if s != [] {
      var t, last := s[..|s| - 1], s[|s| - 1];
      CompactedStaysSorted(t);
      CompactedElements(t);
      forall x | x in Compacted(t)
        ensures AtMost(x, last)
      {
        assert x in Elements(t);
      }
    }
  }

  /** Sorting and compacting leaves the distinct lines in order, whatever list they came in. */
  lemma CompactedLines(lines: seq<string>)
    ensures var r := Compacted(SortLines(lines));
            Sorted(r) && Distinct(r) && Elements(r) == Elements(lines) && |r| == |Elements(lines)|
  {
    var sorted := SortLines(lines);
    SortSorts(lines);
    SortedIsGrouped(sorted);
    CompactedDistinctIffGrouped(sorted);
    CompactedStaysSorted(sorted);
    CompactedElements(sorted);
    forall x
      ensures x in sorted <==> x in lines
    {
      assert x in multiset(sorted) <==> x in multiset(lines);
    }
    DistinctCount(Compacted(sorted));
  }
}

/** Keeping the elements of a sequence that a mask of booleans selects, in order.
    A pruning pass over an entity list leaves exactly such a selection. */
module Selection {

  /** The elements of `s` whose mask entry is true, in their original order. */
  function Select<T>(s: seq<T>, keep: seq<bool>): seq<T>
    requires |keep| == |s|
    decreases |s|
  {
    if s == [] then []
    else Select(s[..|s| - 1], keep[..|s| - 1]) + (if keep[|s| - 1] then [s[|s| - 1]] else [])
  }

  /** The number of true entries of a mask. */
  function CountTrue(m: seq<bool>): nat
    decreases |m|
  {
    if m == [] then 0 else CountTrue(m[..|m| - 1]) + (if m[|m| - 1] then 1 else 0)
  }

  /** The positions a mask selects, in increasing order. */
  function KeptIndices(m: seq<bool>): seq<nat>
    decreases |m|
  {
    if m == [] then [] else KeptIndices(m[..|m| - 1]) + (if m[|m| - 1] then [|m| - 1] else [])
  }

  /** No element occurs twice: the last element is not among the others, and
      those have no repetition either. */
  ghost predicate Distinct<T>(s: seq<T>)
    decreases |s|
  {
    s == [] || (s[|s| - 1] !in s[..|s| - 1] && Distinct(s[..|s| - 1]))
  }

  /** In a sequence without repetitions, different positions hold different elements. */
  lemma {:induction false} DistinctAt<T>(s: seq<T>)
    requires Distinct(s)
    ensures forall i, j :: 0 <= i < j < |s| ==> s[i] != s[j]
    decreases |s|
  {
    if s != [] {
      var n := |s| - 1;
      DistinctAt(s[..n]);
      forall i, j | 0 <= i < j < |s|
        ensures s[i] != s[j]
      {
        if j == n {
          assert s[i] in s[..n];
        } else {
          assert s[i] == s[..n][i] && s[j] == s[..n][j];
        }
      }
    }
  }

  /** Every prefix of a sequence without repetitions has none either. */
  lemma {:induction false} DistinctPrefix<T>(s: seq<T>, i: nat)
    requires Distinct(s) && i <= |s|
    ensures Distinct(s[..i])
    decreases |s|
  {
    if i < |s| {
      var n := |s| - 1;
      DistinctPrefix(s[..n], i);
      assert s[..n][..i] == s[..i];
    } else {
      assert s[..i] == s;
    }
  }

  /** Extending a sequence and its mask by one entry extends the selection by that
      entry exactly when it is selected; a pruning pass relies on this step. */
  lemma SelectSnoc<T>(s: seq<T>, keep: seq<bool>, x: T, b: bool)
    requires |keep| == |s|
    ensures Select(s + [x], keep + [b]) == Select(s, keep) + (if b then [x] else [])
    ensures CountTrue(keep + [b]) == CountTrue(keep) + (if b then 1 else 0)
  {
    assert (s + [x])[..|s|] == s;
    assert (keep + [b])[..|s|] == keep;
  }

  /** The same step for prefixes: extending the decided prefix by one position. */
  lemma SelectPrefixSnoc<T>(s: seq<T>, keep: seq<bool>, i: nat)
    requires |keep| == |s| && i < |s|
    ensures Select(s[..i + 1], keep[..i + 1]) == Select(s[..i], keep[..i]) + (if keep[i] then [s[i]] else [])
    ensures CountTrue(keep[..i + 1]) == CountTrue(keep[..i]) + (if keep[i] then 1 else 0)
  {
    SelectSnoc(s[..i], keep[..i], s[i], keep[i]);
    assert s[..i + 1] == s[..i] + [s[i]];
    assert keep[..i + 1] == keep[..i] + [keep[i]];
  }

  /** Selection keeps exactly as many elements as the mask has true entries, at the
      selected positions, in increasing order of position. */
  lemma {:induction false} SelectAtKeptIndices<T>(s: seq<T>, keep: seq<bool>)
    requires |keep| == |s|
    ensures |Select(s, keep)| == |KeptIndices(keep)| == CountTrue(keep)
    ensures forall k :: 0 <= k < |KeptIndices(keep)| ==>
      KeptIndices(keep)[k] < |s| && keep[KeptIndices(keep)[k]] && Select(s, keep)[k] == s[KeptIndices(keep)[k]]
    ensures forall k, l :: 0 <= k < l < |KeptIndices(keep)| ==> KeptIndices(keep)[k] < KeptIndices(keep)[l]
    decreases |s|
  {
    if s != [] {
      var n := |s| - 1;
      SelectAtKeptIndices(s[..n], keep[..n]);
    }
  }

  /** Selecting from a sequence without repetitions gives one without repetitions,
      made of elements of the original. */
  lemma {:induction false} SelectDistinct<T>(s: seq<T>, keep: seq<bool>)
    requires |keep| == |s| && Distinct(s)
    ensures Distinct(Select(s, keep))
    ensures forall x :: x in Select(s, keep) ==> x in s
    decreases |s|
  {
    if s != [] {
      var n := |s| - 1;
      SelectDistinct(s[..n], keep[..n]);
      var pre := Select(s[..n], keep[..n]);
      forall x | x in pre
        ensures x in s && x != s[n]
      {
        assert x in s[..n];
      }
      if keep[n] {
        var r := pre + [s[n]];
        assert r[..|r| - 1] == pre && r[|r| - 1] == s[n] && s[n] !in pre;
      } else {
        assert Select(s, keep) == pre;
      }
    }
  }

  /** A selection that keeps the first element starts with it. */
  lemma {:induction false} SelectKeepsFirst<T>(s: seq<T>, keep: seq<bool>)
    requires |keep| == |s| && s != [] && keep[0]
    ensures Select(s, keep) != [] && Select(s, keep)[0] == s[0]
    decreases |s|
  {
    var n := |s| - 1;
    if n > 0 {
      SelectKeepsFirst(s[..n], keep[..n]);
    }
  }

  /** Two masks that never select the same position select at most |a| positions
      between them. */
  lemma {:induction false} CountDisjoint(a: seq<bool>, b: seq<bool>)
    requires |a| == |b|
    requires forall k :: 0 <= k < |a| ==> !(a[k] && b[k])
    ensures CountTrue(a) + CountTrue(b) <= |a|
    decreases |a|
  {
    if a != [] {
      var n := |a| - 1;
      CountDisjoint(a[..n], b[..n]);
    }
  }

  /** A mask with a false entry has fewer true entries than entries. */
  lemma {:induction false} CountFalseAt(m: seq<bool>, k: nat)
    requires k < |m| && !m[k]
    ensures CountTrue(m) < |m|
    decreases |m|
  {
    var n := |m| - 1;
    if k < n {
      CountFalseAt(m[..n], k);
    } else {
      CountAtMostLength(m[..n]);
    }
  }

  /** A mask has at most as many true entries as entries. */
  lemma {:induction false} CountAtMostLength(m: seq<bool>)
    ensures CountTrue(m) <= |m|
    decreases |m|
  {
    if m != [] {
      CountAtMostLength(m[..|m| - 1]);
    }
  }
}

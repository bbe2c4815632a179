/**
 * The `states` type of the automaton package: a slice of state names that every
 * mutating operation leaves sorted by `strings.Compare`.  The Go type is a slice
 * updated through a pointer receiver; here it is the class `StateSet` whose one
 * field `elems` the methods reassign.  `sort.Sort` is specified, not modelled:
 * `SortSeq` is proved to return the one sorted permutation of its argument.
 */
module States {

  import opened Wrappers

  // ---------------------------------------------------------------------------
  // The order used by sort.Sort: `Less(i, j)` is `strings.Compare(a, b) < 0`
  // ---------------------------------------------------------------------------

  /** Lexicographic order on characters, a proper prefix coming first.  Go compares
      the UTF-8 bytes, which orders code points the same way. */
  predicate Less(a: string, b: string)
  {
    if |a| == 0 then |b| > 0
    else if |b| == 0 then false
    else if a[0] != b[0] then a[0] < b[0]
    else Less(a[1..], b[1..])
  }

  /** The textbook definition of the same order, independent of the recursion above. */
  ghost predicate Lexicographic(a: string, b: string)
  {
    (|a| < |b| && a == b[..|a|]) ||
    (exists k :: 0 <= k < |a| && k < |b| && a[..k] == b[..k] && a[k] < b[k])
  }

  lemma LessIsLexicographic(a: string, b: string)
    ensures Less(a, b) <==> Lexicographic(a, b)
  {
    if Less(a, b) {
      LessLexicographic(a, b);
    }
    if Lexicographic(a, b) {
      LexicographicLess(a, b);
    }
  }

  lemma {:induction false} LessLexicographic(a: string, b: string)
    requires Less(a, b)
    ensures Lexicographic(a, b)
    decreases |a|
  {
    if |a| == 0 {
      assert a == b[..0];
    } else if a[0] != b[0] {
      assert a[..0] == b[..0];
    } else {
      var a', b' := a[1..], b[1..];
      LessLexicographic(a', b');
      if |a'| < |b'| && a' == b'[..|a'|] {
        assert a == [a[0]] + a';
        assert b[..|a|] == [b[0]] + b'[..|a'|];
      } else {
        var k :| 0 <= k < |a'| && k < |b'| && a'[..k] == b'[..k] && a'[k] < b'[k];
        assert a[..k + 1] == [a[0]] + a'[..k];
        assert b[..k + 1] == [b[0]] + b'[..k];
        assert a[k + 1] == a'[k] && b[k + 1] == b'[k];
      }
    }
  }

  lemma {:induction false} LexicographicLess(a: string, b: string)
    requires Lexicographic(a, b)
    ensures Less(a, b)
    decreases |a|
  {
    if |a| > 0 {
      var a', b' := a[1..], b[1..];
      if |a| < |b| && a == b[..|a|] {
        assert a[0] == b[0];
        assert a' == b'[..|a'|];
        LexicographicLess(a', b');
      } else {
        var k :| 0 <= k < |a| && k < |b| && a[..k] == b[..k] && a[k] < b[k];
        if k > 0 {
          assert a[0] == a[..k][0] == b[..k][0] == b[0];
          assert a'[..k - 1] == a[..k][1..] && b'[..k - 1] == b[..k][1..];
          assert a'[k - 1] == a[k] && b'[k - 1] == b[k];
          LexicographicLess(a', b');
        }
      }
    }
  }

  lemma {:induction false} LessIrreflexive(a: string)
    ensures !Less(a, a)
    decreases |a|
  {
    if |a| > 0 {
      LessIrreflexive(a[1..]);
    }
  }

  lemma {:induction false} LessTransitive(a: string, b: string, c: string)
    requires Less(a, b) && Less(b, c)
    ensures Less(a, c)
    decreases |a|
  {
    if |a| > 0 && a[0] == b[0] && b[0] == c[0] {
      LessTransitive(a[1..], b[1..], c[1..]);
    }
  }

  /** Any two different names are ordered one way or the other. */
  lemma {:induction false} LessTotal(a: string, b: string)
    requires a != b
    ensures Less(a, b) || Less(b, a)
    decreases |a|
  {
    if |a| > 0 && |b| > 0 && a[0] == b[0] {
      assert a == [a[0]] + a[1..] && b == [b[0]] + b[1..];
      LessTotal(a[1..], b[1..]);
    }
  }

  lemma {:induction false} LessAsymmetric(a: string, b: string)
    requires Less(a, b)
    ensures !Less(b, a)
    decreases |a|
  {
    if |a| > 0 && a[0] == b[0] {
      LessAsymmetric(a[1..], b[1..]);
    }
  }

  // ---------------------------------------------------------------------------
  // Sortedness, duplicates and the elements of a slice
  // ---------------------------------------------------------------------------

  /** What sort.Sort guarantees: no element is Less than one before it. */
  ghost predicate Sorted(s: seq<string>)
  {
    forall i, j {:trigger Less(s[j], s[i])} :: 0 <= i < j < |s| ==> !Less(s[j], s[i])
  }

  /** The form a state set is kept in: strictly increasing, hence duplicate-free. */
  ghost predicate StrictlySorted(s: seq<string>)
  {
    forall i, j {:trigger Less(s[i], s[j])} :: 0 <= i < j < |s| ==> Less(s[i], s[j])
  }

  ghost predicate NoDup<T>(s: seq<T>)
  {
    forall i, j :: 0 <= i < j < |s| ==> s[i] != s[j]
  }

  ghost function Elements<T>(s: seq<T>): set<T>
  {
    set x | x in s
  }

  lemma StrictlySortedIff(s: seq<string>)
    ensures StrictlySorted(s) <==> Sorted(s) && NoDup(s)
  {
    if StrictlySorted(s) {
      forall i, j | 0 <= i < j < |s| ensures !Less(s[j], s[i]) && s[i] != s[j] {
        LessAsymmetric(s[i], s[j]);
      }
    }
    if Sorted(s) && NoDup(s) {
      forall i, j | 0 <= i < j < |s| ensures Less(s[i], s[j]) {
        LessTotal(s[i], s[j]);
      }
    }
  }

  lemma {:induction false} NoDupMultiset<T>(s: seq<T>, x: T)
    requires NoDup(s)
    ensures multiset(s)[x] == if x in s then 1 else 0
  {
    if s != [] {
      assert s == [s[0]] + s[1..];
      assert NoDup(s[1..]) by {
        forall i, j | 0 <= i < j < |s[1..]| ensures s[1..][i] != s[1..][j] {
          assert s[1..][i] == s[i + 1] && s[1..][j] == s[j + 1];
        }
      }
      NoDupMultiset(s[1..], x);
      assert x == s[0] ==> x !in s[1..];
    }
  }

  /** Duplicate-free slices with the same elements are permutations of each other. */
  lemma SameElementsSameMultiset<T>(a: seq<T>, b: seq<T>)
    requires NoDup(a) && NoDup(b) && Elements(a) == Elements(b)
    ensures multiset(a) == multiset(b)
  {
    forall x ensures multiset(a)[x] == multiset(b)[x] {
      NoDupMultiset(a, x);
      NoDupMultiset(b, x);
      assert x in a <==> x in Elements(a);
      assert x in b <==> x in Elements(b);
    }
  }

  /** The smallest element comes first in a sorted slice. */
  lemma SortedHead(a: seq<string>, x: string)
    requires Sorted(a) && x in a
    ensures !Less(x, a[0])
  {
    var k :| 0 <= k < |a| && a[k] == x;
    if k == 0 {
      LessIrreflexive(x);
    }
  }

  lemma SortedTail(a: seq<string>)
    requires Sorted(a) && a != []
    ensures Sorted(a[1..])
  {
    forall i, j | 0 <= i < j < |a[1..]| ensures !Less(a[1..][j], a[1..][i]) {
      assert a[1..][j] == a[j + 1] && a[1..][i] == a[i + 1];
    }
  }

  lemma MultisetTail<T>(a: seq<T>)
    requires a != []
    ensures multiset(a[1..]) == multiset(a) - multiset{a[0]}
  {
    assert a == [a[0]] + a[1..];
  }

  /** A sorted permutation is unique: this is what makes "the result of sort.Sort" well defined. */
  lemma {:induction false} SortedUnique(a: seq<string>, b: seq<string>)
    requires Sorted(a) && Sorted(b) && multiset(a) == multiset(b)
    ensures a == b
    decreases |a|
  {
    assert |a| == |multiset(a)| == |multiset(b)| == |b|;
    if a != [] {
      assert a[0] in multiset(b) && b[0] in multiset(a);
      SortedHead(b, a[0]);
      SortedHead(a, b[0]);
      if a[0] != b[0] {
        LessTotal(a[0], b[0]);
        assert false;
      }
      MultisetTail(a);
      MultisetTail(b);
      SortedTail(a);
      SortedTail(b);
      SortedUnique(a[1..], b[1..]);
      assert a == [a[0]] + a[1..] && b == [b[0]] + b[1..];
    }
  }

  /** For strictly sorted slices, equality of slices is equality of the sets they hold. */
  lemma StrictlySortedSetEquality(a: seq<string>, b: seq<string>)
    requires StrictlySorted(a) && StrictlySorted(b)
    ensures a == b <==> Elements(a) == Elements(b)
  {
    if Elements(a) == Elements(b) {
      StrictlySortedIff(a);
      StrictlySortedIff(b);
      SameElementsSameMultiset(a, b);
      SortedUnique(a, b);
    }
  }

  // ---------------------------------------------------------------------------
  // sort.Sort as a function
  // ---------------------------------------------------------------------------

  /** A name no greater than the head of a sorted slice can go in front of it. */
  lemma InsertFront(x: string, s: seq<string>)
    requires Sorted(s) && s != [] && !Less(s[0], x)
    ensures Sorted([x] + s)
  {
    forall i, j | 0 <= i < j < |[x] + s| ensures !Less(([x] + s)[j], ([x] + s)[i]) {
      if i == 0 && Less(s[j - 1], x) && j - 1 > 0 {
        LessTotal(s[j - 1], s[0]);
        LessTransitive(s[0], s[j - 1], x);
      }
    }
  }

  /** The head of a sorted slice stays in front of the tail with a greater name inserted. */
  lemma InsertBehind(x: string, s: seq<string>, rest: seq<string>)
    requires Sorted(s) && s != [] && Less(s[0], x)
    requires Sorted(rest) && multiset(rest) == multiset(s[1..]) + multiset{x}
    ensures Sorted([s[0]] + rest)
  {
    forall i, j | 0 <= i < j < |[s[0]] + rest| ensures !Less(([s[0]] + rest)[j], ([s[0]] + rest)[i]) {
      if i == 0 {
        var y := rest[j - 1];
        assert y in multiset(rest);
        if y == x {
          LessAsymmetric(s[0], x);
        } else {
          assert y in multiset(s[1..]);
          var k :| 0 <= k < |s[1..]| && s[1..][k] == y;
          assert s[k + 1] == y;
        }
      }
    }
  }

  function Insert(x: string, s: seq<string>): (r: seq<string>)
    ensures multiset(r) == multiset(s) + multiset{x}
    ensures Sorted(s) ==> Sorted(r)
  {
    if s == [] then [x]
    else if !Less(s[0], x) then
      assert Sorted(s) ==> Sorted([x] + s) by {
        if Sorted(s) {
          InsertFront(x, s);
        }
      }
      [x] + s
    else
      var rest := Insert(x, s[1..]);
      assert Sorted(s) ==> Sorted([s[0]] + rest) by {
        if Sorted(s) {
          SortedTail(s);
          InsertBehind(x, s, rest);
        }
      }
      MultisetTail(s);
      [s[0]] + rest
  }

  /** `sort.Sort`: the sorted permutation of its argument (insertion sort as the witness). */
  function SortSeq(s: seq<string>): (r: seq<string>)
    ensures multiset(r) == multiset(s)
    ensures Sorted(r)
  {
    if s == [] then [] else
      assert s == [s[0]] + s[1..];
      Insert(s[0], SortSeq(s[1..]))
  }

  lemma SortSeqOfSorted(s: seq<string>)
    requires Sorted(s)
    ensures SortSeq(s) == s
  {
    SortedUnique(SortSeq(s), s);
  }

  lemma MultisetElements(a: seq<string>, b: seq<string>)
    requires multiset(a) == multiset(b)
    ensures Elements(a) == Elements(b)
  {
    forall x ensures x in Elements(a) <==> x in Elements(b) {
      assert x in a <==> x in multiset(a);
      assert x in b <==> x in multiset(b);
    }
  }

  lemma ElementsConcat<T>(a: seq<T>, b: seq<T>)
    ensures Elements(a + b) == Elements(a) + Elements(b)
  {
    forall x ensures x in Elements(a + b) <==> x in Elements(a) + Elements(b) {
      assert x in a + b <==> x in a || x in b;
    }
  }

  lemma ElementsSnoc<T>(xs: seq<T>)
    requires xs != []
    ensures Elements(xs) == Elements(xs[..|xs| - 1]) + {xs[|xs| - 1]}
  {
    assert xs == xs[..|xs| - 1] + [xs[|xs| - 1]];
    ElementsConcat(xs[..|xs| - 1], [xs[|xs| - 1]]);
  }

  /** Rearranging a duplicate-free slice keeps it duplicate-free. */
  lemma MultisetNoDup<T>(a: seq<T>, b: seq<T>)
    requires NoDup(a) && multiset(a) == multiset(b)
    ensures NoDup(b)
  {
    forall i, j | 0 <= i < j < |b| ensures b[i] != b[j] {
      NoDupMultiset(a, b[i]);
      if b[i] == b[j] {
        TwoOccurrences(b, i, j);
      }
    }
  }

  lemma TwoOccurrences<T>(b: seq<T>, i: nat, j: nat)
    requires i < j < |b| && b[i] == b[j]
    ensures multiset(b)[b[i]] >= 2
  {
    assert b == b[..i] + [b[i]] + b[i + 1..j] + [b[j]] + b[j + 1..];
  }

  lemma AppendNoDup<T>(ss: seq<T>, s: T)
    requires NoDup(ss) && s !in ss
    ensures NoDup(ss + [s])
  {
  }

  /** Sorting a duplicate-free slice gives a strictly increasing one. */
  lemma SortSeqStrict(s: seq<string>)
    requires NoDup(s)
    ensures StrictlySorted(SortSeq(s))
  {
    MultisetNoDup(s, SortSeq(s));
    StrictlySortedIff(SortSeq(s));
  }

  // ---------------------------------------------------------------------------
  // add and addmany as functions of the old contents
  // ---------------------------------------------------------------------------

  /** The contents after `add(s)`: unchanged when `s` is present, else `s` appended and sorted. */
  function Added(ss: seq<string>, s: string): (r: seq<string>)
    ensures Elements(r) == Elements(ss) + {s}
    ensures multiset(ss) <= multiset(r) && |ss| <= |r|
    ensures s !in ss ==> Sorted(r) && multiset(r) == multiset(ss) + multiset{s}
    ensures StrictlySorted(ss) ==> StrictlySorted(r)
  {
    if s in ss then ss else
      var r := SortSeq(ss + [s]);
      assert multiset(ss + [s]) == multiset(ss) + multiset{s};
      assert Elements(r) == Elements(ss) + {s} by {
        MultisetElements(r, ss + [s]);
        ElementsConcat(ss, [s]);
      }
      assert StrictlySorted(ss) ==> StrictlySorted(r) by {
        if StrictlySorted(ss) {
          StrictlySortedIff(ss);
          AppendNoDup(ss, s);
          SortSeqStrict(ss + [s]);
        }
      }
      r
  }

  /** Adding a name that is already there changes nothing: `add` is idempotent. */
  lemma AddIdempotent(ss: seq<string>, s: string)
    ensures Added(Added(ss, s), s) == Added(ss, s)
  {
    assert s in Elements(Added(ss, s));
  }

  /** The contents after the loop of `addmany`, before its final sort: one `add` per name. */
  function AddedAll(ss: seq<string>, xs: seq<string>): (r: seq<string>)
    ensures Elements(r) == Elements(ss) + Elements(xs)
    ensures |ss| <= |r|
    ensures StrictlySorted(ss) ==> StrictlySorted(r)
    decreases |xs|
  {
    if xs == [] then ss else
      var init := xs[..|xs| - 1];
      var prev := AddedAll(ss, init);
      var r := Added(prev, xs[|xs| - 1]);
      assert StrictlySorted(ss) ==> StrictlySorted(r) by {
        if StrictlySorted(ss) {
          assert StrictlySorted(prev);
        }
      }
      ElementsSnoc(xs);
      r
  }

  /** The contents after `addmany(xs)`; a nil `xs` (the empty slice here) returns straight away. */
  function AddedMany(ss: seq<string>, xs: seq<string>): (r: seq<string>)
    ensures Elements(r) == Elements(ss) + Elements(xs)
    ensures |ss| <= |r|
    ensures xs != [] ==> Sorted(r)
    ensures StrictlySorted(ss) ==> StrictlySorted(r)
  {
    if xs == [] then ss else
      var all := AddedAll(ss, xs);
      var r := SortSeq(all);
      assert Elements(r) == Elements(all) by {
        MultisetElements(r, all);
      }
      assert |all| == |multiset(all)| == |multiset(r)| == |r|;
      assert StrictlySorted(ss) ==> StrictlySorted(r) by {
        if StrictlySorted(ss) {
          StrictlySortedIff(all);
          SortSeqOfSorted(all);
        }
      }
      r
  }

  /** On a kept set the final sort of `addmany` changes nothing: it is the repeated single add. */
  lemma AddManyIsRepeatedAdd(ss: seq<string>, xs: seq<string>)
    requires StrictlySorted(ss)
    ensures AddedMany(ss, xs) == AddedAll(ss, xs)
  {
    if xs != [] {
      StrictlySortedIff(AddedAll(ss, xs));
      SortSeqOfSorted(AddedAll(ss, xs));
    }
  }

  /** The contents after `addmany` on a kept set are the one sorted duplicate-free union. */
  lemma AddManyNone(ss: seq<string>)
    ensures AddedMany(ss, []) == ss
  {
  }

  lemma AddManyUnion(ss: seq<string>, xs: seq<string>, u: seq<string>)
    requires StrictlySorted(ss)
    ensures StrictlySorted(AddedMany(ss, xs))
    ensures Elements(AddedMany(ss, xs)) == Elements(ss) + Elements(xs)
    ensures StrictlySorted(u) && Elements(u) == Elements(ss) + Elements(xs) ==> u == AddedMany(ss, xs)
  {
    if StrictlySorted(u) && Elements(u) == Elements(ss) + Elements(xs) {
      StrictlySortedSetEquality(u, AddedMany(ss, xs));
    }
  }

  // ---------------------------------------------------------------------------
  // remove: the loop as written, and what it removes
  // ---------------------------------------------------------------------------

  /** The slice without any occurrence of `s`. */
  function Without(ss: seq<string>, s: string): (r: seq<string>)
    ensures Elements(r) == Elements(ss) - {s}
  {
    if ss == [] then [] else
      var head := if ss[0] == s then [] else [ss[0]];
      var r := head + Without(ss[1..], s);
      assert Elements(ss) == Elements([ss[0]]) + Elements(ss[1..]) by {
        assert ss == [ss[0]] + ss[1..];
        ElementsConcat([ss[0]], ss[1..]);
      }
      ElementsConcat(head, Without(ss[1..], s));
      r
  }

  lemma {:induction false} WithoutConcat(a: seq<string>, b: seq<string>, s: string)
    ensures Without(a + b, s) == Without(a, s) + Without(b, s)
    decreases |a|
  {
    if a == [] {
      assert a + b == b;
    } else {
      assert (a + b)[0] == a[0];
      assert (a + b)[1..] == a[1..] + b;
      WithoutConcat(a[1..], b, s);
    }
  }

  lemma {:induction false} WithoutAbsent(ss: seq<string>, s: string)
    requires s !in ss
    ensures Without(ss, s) == ss
  {
    if ss != [] {
      WithoutAbsent(ss[1..], s);
      assert ss == [ss[0]] + ss[1..];
    }
  }

  /** Deleting one occurrence of `s` does not change what is left without `s`. */
  lemma WithoutDropMatch(e: seq<string>, i: nat, s: string)
    requires i < |e| && e[i] == s
    ensures Without(e[..i] + e[i + 1..], s) == Without(e, s)
  {
    var a, b := e[..i], e[i + 1..];
    assert e == a + [s] + b;
    WithoutConcat(a + [s], b, s);
    WithoutConcat(a, [s], s);
    assert [s][1..] == [];
    assert Without([s], s) == [];
    assert Without(a + [s], s) == Without(a, s);
    WithoutConcat(a, b, s);
  }

  /**
   * The loop of `remove(s)` at index `i`: `n` is the iteration count fixed when the
   * range began, `cur` the slice, which shrinks on every match.  The flag is true when
   * the loop indexes past the end of `cur`, where Go panics.
   */
  function RemoveSteps(cur: seq<string>, s: string, i: nat, n: nat): (seq<string>, bool)
    decreases n - i
  {
    if i >= n then (cur, false)
    else if i >= |cur| then (cur, true)
    else if cur[i] == s then RemoveSteps(cur[..i] + cur[i + 1..], s, i + 1, n)
    else RemoveSteps(cur, s, i + 1, n)
  }

  /** `remove(s)` panics exactly when `s` occurs before the last position. */
  ghost predicate RemovePanics(ss: seq<string>, s: string)
  {
    exists k :: 0 <= k < |ss| - 1 && ss[k] == s
  }

  lemma {:induction false} RemoveStepsShrunk(cur: seq<string>, s: string, i: nat, n: nat)
    requires |cur| < n && i < n
    ensures RemoveSteps(cur, s, i, n).1
    decreases n - i
  {
    if i < |cur| {
      if cur[i] == s {
        RemoveStepsShrunk(cur[..i] + cur[i + 1..], s, i + 1, n);
      } else {
        RemoveStepsShrunk(cur, s, i + 1, n);
      }
    }
  }

  lemma {:induction false} RemoveStepsIntact(ss: seq<string>, s: string, i: nat)
    requires i <= |ss|
    ensures RemoveSteps(ss, s, i, |ss|).1 <==> exists k :: i <= k < |ss| - 1 && ss[k] == s
    ensures !RemoveSteps(ss, s, i, |ss|).1 ==>
              RemoveSteps(ss, s, i, |ss|).0 == if i < |ss| && ss[|ss| - 1] == s then ss[..|ss| - 1] else ss
    decreases |ss| - i
  {
    var n := |ss|;
    if i < n {
      if ss[i] == s {
        if i < n - 1 {
          RemoveStepsShrunk(ss[..i] + ss[i + 1..], s, i + 1, n);
        }
      } else {
        RemoveStepsIntact(ss, s, i + 1);
      }
    }
  }

  /** Without a panic, `remove(s)` has deleted `s` and kept every other element. */
  lemma RemoveAsWritten(ss: seq<string>, s: string)
    ensures RemoveSteps(ss, s, 0, |ss|).1 <==> RemovePanics(ss, s)
    ensures !RemovePanics(ss, s) ==> RemoveSteps(ss, s, 0, |ss|).0 == Without(ss, s)
  {
    RemoveStepsIntact(ss, s, 0);
    if !RemovePanics(ss, s) && ss != [] {
      var n := |ss|;
      assert s !in ss[..n - 1];
      WithoutAbsent(ss[..n - 1], s);
      assert ss == ss[..n - 1] + [ss[n - 1]];
      WithoutConcat(ss[..n - 1], [ss[n - 1]], s);
    }
  }

  /** The input that shows the panic: removing the first of two names. */
  lemma RemoveFirstOfTwoPanics()
    ensures RemoveSteps(["abc", "def"], "abc", 0, 2).1
  {
    RemoveAsWritten(["abc", "def"], "abc");
    assert ["abc", "def"][0] == "abc";
  }

  lemma {:induction false} WithoutNoDup(ss: seq<string>, s: string)
    requires NoDup(ss)
    ensures NoDup(Without(ss, s))
  {
    if ss != [] {
      assert NoDup(ss[1..]) by {
        forall i, j | 0 <= i < j < |ss[1..]| ensures ss[1..][i] != ss[1..][j] {
          assert ss[1..][i] == ss[i + 1] && ss[1..][j] == ss[j + 1];
        }
      }
      WithoutNoDup(ss[1..], s);
      var w := Without(ss[1..], s);
      if ss[0] != s {
        assert ss[0] !in ss[1..];
        assert ss[0] !in Elements(w);
        assert ss[0] !in w;
        AppendNoDup(w, ss[0]);
        assert NoDup([ss[0]] + w);
      }
    }
  }

  /** What the corrected removal leaves: a kept set minus `s`, every other name kept. */
  lemma RemoveAllResult(ss: seq<string>, s: string)
    requires StrictlySorted(ss)
    ensures StrictlySorted(SortSeq(Without(ss, s)))
    ensures Elements(SortSeq(Without(ss, s))) == Elements(ss) - {s}
  {
    var w := Without(ss, s);
    MultisetElements(SortSeq(w), w);
    StrictlySortedIff(ss);
    WithoutNoDup(ss, s);
    SortSeqStrict(w);
  }

  // ---------------------------------------------------------------------------
  // equal
  // ---------------------------------------------------------------------------

  /** `equal`: same length and the same name at every position. */
  method Equal(a: seq<string>, b: seq<string>) returns (r: bool)
    ensures r <==> a == b
  {
    if |a| != |b| {
      return false;
    }
    for i := 0 to |a|
      invariant forall k :: 0 <= k < i ==> a[k] == b[k]
    {
      if a[i] != b[i] {
        return false;
      }
    }
    return true;
  }

  // ---------------------------------------------------------------------------
  // The slice type with its pointer-receiver methods
  // ---------------------------------------------------------------------------

  class StateSet {
    var elems: seq<string>

    /** A `states` value made from a slice literal. */
    constructor (init: seq<string>)
      ensures elems == init
    {
      elems := init;
    }

    /** `add`: a linear search for `s`, then append and sort when it is missing. */
    method Add(s: string)
      modifies this
      ensures elems == Added(old(elems), s)
    {
      for i := 0 to |elems|
        invariant s !in elems[..i]
      {
        if elems[i] == s {
          return;
        }
      }
      assert elems[..|elems|] == elems;
      elems := SortSeq(elems + [s]);
    }

    /** `addmany`: nothing for a nil slice, else one `add` per name and a final sort. */
    method AddMany(xs: seq<string>)
      modifies this
      ensures elems == AddedMany(old(elems), xs)
    {
      if xs == [] {
        return;
      }
      for i := 0 to |xs|
        invariant elems == AddedAll(old(elems), xs[..i])
      {
        assert xs[..i + 1][..i] == xs[..i];
        Add(xs[i]);
      }
      assert xs[..|xs|] == xs;
      elems := SortSeq(elems);
    }

    /**
     * `remove` as written: the range bound is the original length while a match
     * shrinks the slice, so a match before the last position ends in an index out of
     * range; `panicked` reports that, with the slice as the panic leaves it.
     */
    method Remove(s: string) returns (panicked: bool)
      modifies this
      ensures panicked == RemoveSteps(old(elems), s, 0, |old(elems)|).1
      ensures elems == if panicked then RemoveSteps(old(elems), s, 0, |old(elems)|).0
                       else SortSeq(RemoveSteps(old(elems), s, 0, |old(elems)|).0)
    {
      var n := |elems|;
      for i := 0 to n
        invariant RemoveSteps(elems, s, i, n) == RemoveSteps(old(elems), s, 0, n)
      {
        if i >= |elems| {
          return true;
        }
        if elems[i] == s {
          elems := elems[..i] + elems[i + 1..];
        }
      }
      elems := SortSeq(elems);
      return false;
    }

    /** The corrected removal: every occurrence of `s` goes, then the slice is sorted. */
    method RemoveAll(s: string)
      modifies this
      ensures elems == SortSeq(Without(old(elems), s))
    {
      var i := 0;
      while i < |elems|
        invariant i <= |elems|
        invariant Without(elems, s) == Without(old(elems), s)
        invariant s !in elems[..i]
        decreases |elems| - i
      {
        if elems[i] == s {
          WithoutDropMatch(elems, i, s);
          assert (elems[..i] + elems[i + 1..])[..i] == elems[..i];
          elems := elems[..i] + elems[i + 1..];
        } else {
          assert elems[..i + 1] == elems[..i] + [elems[i]];
          i := i + 1;
        }
      }
      assert elems[..i] == elems;
      WithoutAbsent(elems, s);
      elems := SortSeq(elems);
    }
  }

  lemma SortedSingle(x: string)
    ensures SortSeq([x]) == [x]
  {
    assert [x][1..] == [];
  }

  /** The contents the three adds of states_test.go go through. */
  lemma TestSetAdds()
    ensures Added([], "def") == ["def"]
    ensures Added(["def"], "abc") == ["abc", "def"]
    ensures Added(["abc", "def"], "def") == ["abc", "def"]
  {
    SortedSingle("def");
    assert Less("abc", "def");
    assert Sorted(["abc", "def"]);
    assert ["def"] + ["abc"] == ["def", "abc"];
    assert multiset(["def", "abc"]) == multiset(["abc", "def"]);
    SortedUnique(SortSeq(["def", "abc"]), ["abc", "def"]);
  }

  /** The two removes of states_test.go: neither panics, the second changes nothing. */
  lemma TestSetRemoves()
    ensures RemoveSteps(["abc", "def"], "def", 0, 2) == (["abc"], false)
    ensures RemoveSteps(["abc"], "xyz", 0, 1) == (["abc"], false)
    ensures SortSeq(["abc"]) == ["abc"]
  {
    assert ["abc", "def"][1] == "def" && ["abc", "def"][0] != "def";
    assert ["abc", "def"][..1] + ["abc", "def"][2..] == ["abc"];
    assert ["abc"][0] != "xyz";
    SortedSingle("abc");
  }

  /** The scenario of states_test.go: three adds, then two removes that do not panic. */
  method TestSet() returns (afterAdds: seq<string>, afterRemoves: seq<string>, panicked: bool)
    ensures afterAdds == ["abc", "def"]
    ensures afterRemoves == ["abc"] && !panicked
  {
    TestSetAdds();
    TestSetRemoves();
    var s := new StateSet([]);
    s.Add("def");
    s.Add("abc");
    s.Add("def");
    afterAdds := s.elems;
    var p1 := s.Remove("def");
    var p2 := s.Remove("xyz");
    afterRemoves := s.elems;
    panicked := p1 || p2;
  }
}

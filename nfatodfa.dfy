/**
 * The subset construction of nfatodfa.go.  A worklist of compound states starts
 * from `[InitialState]` (no epsilon closure), each one is expanded on every symbol
 * of the alphabet through `NFA.Next`, a result not yet in the list (compared with
 * `equal`) is appended, and each compound state is named by concatenating its names.
 */
module NfaToDfa {

  import opened Wrappers
  import opened States
  import opened Nfa

  type DTable = map<string, map<Rune, string>>

  /** The record `NFAtoDFA` returns, with the six fields it sets. */
  datatype DFA = DFA(acceptingStates: seq<string>, alphabet: seq<Rune>, currentState: string,
                     initialState: string, states: seq<string>, transition: DTable)

  // ---------------------------------------------------------------------------
  // Names of compound states
  // ---------------------------------------------------------------------------

  /** `strings.Join(ss, "")`. */
  function Join(ss: seq<string>): string
  {
    if ss == [] then "" else ss[0] + Join(ss[1..])
  }

  lemma JoinSingle(x: string)
    ensures Join([x]) == x
  {
    assert [x][1..] == [];
  }

  /** Every name is one character long. */
  ghost predicate OneCharNames(ss: seq<string>)
  {
    forall x :: x in ss ==> |x| == 1
  }

  lemma {:induction false} JoinOneCharLength(ss: seq<string>)
    requires OneCharNames(ss)
    ensures |Join(ss)| == |ss|
    decreases |ss|
  {
    if ss != [] {
      assert ss[0] in ss;
      assert OneCharNames(ss[1..]) by {
        forall x | x in ss[1..] ensures |x| == 1 {
          assert x in ss;
        }
      }
      JoinOneCharLength(ss[1..]);
    }
  }

  /** On one-character names the compound name determines the compound state. */
  lemma {:induction false} JoinOneCharInjective(a: seq<string>, b: seq<string>)
    requires OneCharNames(a) && OneCharNames(b)
    requires Join(a) == Join(b)
    ensures a == b
    decreases |a|
  {
    JoinOneCharLength(a);
    JoinOneCharLength(b);
    if a != [] {
      assert a[0] in a && b[0] in b;
      assert Join(a)[0] == a[0][0] && Join(b)[0] == b[0][0];
      assert a[0] == [a[0][0]] && b[0] == [b[0][0]];
      assert Join(a[1..]) == Join(a)[1..] && Join(b[1..]) == Join(b)[1..];
      assert OneCharNames(a[1..]) by {
        forall x | x in a[1..] ensures |x| == 1 {
          assert x in a;
        }
      }
      assert OneCharNames(b[1..]) by {
        forall x | x in b[1..] ensures |x| == 1 {
          assert x in b;
        }
      }
      JoinOneCharInjective(a[1..], b[1..]);
      assert a == [a[0]] + a[1..] && b == [b[0]] + b[1..];
    }
  }

  /** In general the name does not determine the state: `["ab"]` and `["a", "b"]` share one. */
  lemma JoinNotInjective()
    ensures Join(["ab"]) == Join(["a", "b"]) && ["ab"] != ["a", "b"]
  {
    JoinSingle("ab");
    assert ["a", "b"][1..] == ["b"];
    JoinSingle("b");
    assert |["ab"]| != |["a", "b"]|;
  }

  /** A list of non-empty names joins to the empty name iff it is empty. */
  lemma JoinNoneEmpty(ss: seq<string>)
    requires forall x :: x in ss ==> x != ""
    ensures Join(ss) == "" <==> ss == []
  {
    if ss != [] {
      assert ss[0] in ss;
    }
  }

  /** A list of non-empty names that joins to a one-character name is that name alone. */
  lemma JoinOneChar(ss: seq<string>, x: string)
    requires |x| == 1 && Join(ss) == x && forall y :: y in ss ==> y != ""
    ensures ss == [x]
  {
    JoinNoneEmpty(ss);
    assert ss[0] in ss;
    var rest := ss[1..];
    forall y | y in rest ensures y != "" {
      assert y in ss;
    }
    assert Join(ss) == ss[0] + Join(rest);
    assert |Join(rest)| == 0;
    JoinNoneEmpty(rest);
    assert ss[0] + Join(rest) == ss[0];
    assert ss == [ss[0]] + rest;
  }

  /** The lists of non-empty names that join to `"ab"`: `["ab"]` and `["a", "b"]`. */
  lemma JoinTwoChars(ss: seq<string>)
    requires Join(ss) == "ab" && forall y :: y in ss ==> y != ""
    ensures ss == ["ab"] || ss == ["a", "b"]
  {
    JoinNoneEmpty(ss);
    assert ss[0] in ss;
    var rest := ss[1..];
    forall y | y in rest ensures y != "" {
      assert y in ss;
    }
    assert ss == [ss[0]] + rest;
    assert Join(ss) == ss[0] + Join(rest);
    assert ss[0] + Join(rest) == "ab";
    if |ss[0]| == 2 {
      assert ss[0] == (ss[0] + Join(rest))[..2];
      assert |Join(rest)| == 0;
      JoinNoneEmpty(rest);
      assert ss == [ss[0]];
      assert ss[0] == "ab";
    } else {
      assert ss[0] == (ss[0] + Join(rest))[..1] == "a";
      assert Join(rest) == (ss[0] + Join(rest))[1..] == "b";
      JoinOneChar(rest, "b");
      assert ss == ["a"] + ["b"];
    }
  }

  /** Different entries of the list have different names. */
  ghost predicate JoinInjective(entries: seq<seq<string>>)
  {
    forall k, l :: 0 <= k < |entries| && 0 <= l < |entries| && Join(entries[k]) == Join(entries[l]) ==> k == l
  }

  // ---------------------------------------------------------------------------
  // The table as a function of the worklist
  // ---------------------------------------------------------------------------

  /** One cell write of the symbol loop, creating the row `name` when it is missing. */
  function WriteCell(tt: DTable, name: string, a: Rune, target: string): DTable
  {
    var row := if name in tt then tt[name] else map[];
    tt[name := row[a := target]]
  }

  /** `Next` from current states `s`, as a function of the symbol. */
  function NextOf(t: Table, s: seq<string>): Rune -> seq<string>
  {
    a => Step(t, s, a)
  }

  /** The writes of the symbol loop for a compound state named `name`, over `syms`; `f` is `Next` from it. */
  function Written(tt: DTable, name: string, f: Rune -> seq<string>, syms: seq<Rune>): DTable
    decreases |syms|
  {
    if syms == [] then tt else
      var a := syms[|syms| - 1];
      WriteCell(Written(tt, name, f, syms[..|syms| - 1]), name, a, Join(f(a)))
  }

  /** `ys` holds `f` of each of the first `|ys|` elements of `xs`. */
  ghost predicate Pointwise<A, B>(f: A -> B, xs: seq<A>, ys: seq<B>)
  {
    |ys| <= |xs| && forall m :: 0 <= m < |ys| ==> ys[m] == f(xs[m])
  }

  lemma PointwiseSnoc<A, B>(f: A -> B, xs: seq<A>, ys: seq<B>, y: B)
    requires Pointwise(f, xs, ys) && |ys| < |xs| && y == f(xs[|ys|])
    ensures Pointwise(f, xs, ys + [y])
  {
    forall m | 0 <= m < |ys + [y]| ensures (ys + [y])[m] == f(xs[m]) {
      if m < |ys| {
        assert (ys + [y])[m] == ys[m];
      }
    }
  }

  /** `reached` holds what `Next` returns from `s` on each of the first `|reached|` symbols. */
  ghost predicate Records(t: Table, s: seq<string>, syms: seq<Rune>, reached: seq<seq<string>>)
  {
    Pointwise(NextOf(t, s), syms, reached)
  }

  lemma RecordsSnoc(t: Table, s: seq<string>, syms: seq<Rune>, reached: seq<seq<string>>, nxt: seq<string>)
    requires Records(t, s, syms, reached) && |reached| < |syms| && nxt == Step(t, s, syms[|reached|])
    ensures Records(t, s, syms, reached + [nxt])
  {
    PointwiseSnoc(NextOf(t, s), syms, reached, nxt);
  }

  /** The writes of the first `k` passes of the symbol loop, given what `Next` returned on each. */
  function Cells(tt: DTable, name: string, syms: seq<Rune>, nexts: seq<seq<string>>, k: nat): DTable
    requires k <= |syms| && k <= |nexts|
  {
    if k == 0 then tt else WriteCell(Cells(tt, name, syms, nexts, k - 1), name, syms[k - 1], Join(nexts[k - 1]))
  }

  lemma WrittenSnoc(tt: DTable, name: string, f: Rune -> seq<string>, syms: seq<Rune>, k: nat)
    requires k < |syms|
    ensures Written(tt, name, f, syms[..k + 1]) ==
            WriteCell(Written(tt, name, f, syms[..k]), name, syms[k], Join(f(syms[k])))
  {
    assert syms[..k + 1][..k] == syms[..k];
  }

  /** When `nexts` holds `f` of each symbol, the recorded writes are those of `Written`. */
  lemma {:induction false} CellsWritten(tt: DTable, name: string, f: Rune -> seq<string>, syms: seq<Rune>,
                                        nexts: seq<seq<string>>, k: nat)
    requires k <= |nexts| && Pointwise(f, syms, nexts)
    ensures Cells(tt, name, syms, nexts, k) == Written(tt, name, f, syms[..k])
  {
    if k > 0 {
      CellsWritten(tt, name, f, syms, nexts, k - 1);
      WrittenSnoc(tt, name, f, syms, k - 1);
      assert nexts[k - 1] == f(syms[k - 1]);
    }
  }

  /** Recording one more `Next` result writes one more cell. */
  lemma CellsStep(tt: DTable, name: string, syms: seq<Rune>, nexts: seq<seq<string>>, nxt: seq<string>)
    requires |nexts| < |syms|
    ensures Cells(tt, name, syms, nexts + [nxt], |nexts + [nxt]|) ==
            WriteCell(Cells(tt, name, syms, nexts, |nexts|), name, syms[|nexts|], Join(nxt))
  {
    CellsSnoc(tt, name, syms, nexts, nxt, |nexts|);
  }

  /** Recording one more `Next` result leaves the earlier writes as they were. */
  lemma {:induction false} CellsSnoc(tt: DTable, name: string, syms: seq<Rune>, nexts: seq<seq<string>>,
                                     nxt: seq<string>, k: nat)
    requires k <= |syms| && k <= |nexts|
    ensures Cells(tt, name, syms, nexts + [nxt], k) == Cells(tt, name, syms, nexts, k)
  {
    if k > 0 {
      CellsSnoc(tt, name, syms, nexts, nxt, k - 1);
      assert (nexts + [nxt])[k - 1] == nexts[k - 1];
    }
  }

  /** The symbol loop adds the row `name`, unless there are no symbols, and no other row. */
  lemma {:induction false} WrittenKeys(tt: DTable, name: string, f: Rune -> seq<string>, syms: seq<Rune>)
    ensures Written(tt, name, f, syms).Keys == if syms == [] then tt.Keys else tt.Keys + {name}
    decreases |syms|
  {
    if syms != [] {
      WrittenKeys(tt, name, f, syms[..|syms| - 1]);
    }
  }

  /** The symbol loop leaves every other row as it was. */
  lemma {:induction false} WrittenOther(tt: DTable, name: string, f: Rune -> seq<string>, syms: seq<Rune>, n: string)
    requires n in tt && n != name
    ensures n in Written(tt, name, f, syms) && Written(tt, name, f, syms)[n] == tt[n]
    decreases |syms|
  {
    if syms != [] {
      WrittenOther(tt, name, f, syms[..|syms| - 1], n);
    }
  }

  /** After the symbol loop, row `name` maps each symbol to the name of `Next` on it. */
  lemma {:induction false} WrittenAt(tt: DTable, name: string, f: Rune -> seq<string>, syms: seq<Rune>, a: Rune)
    requires a in syms
    ensures name in Written(tt, name, f, syms)
    ensures a in Written(tt, name, f, syms)[name]
    ensures Written(tt, name, f, syms)[name][a] == Join(f(a))
    decreases |syms|
  {
    var init := syms[..|syms| - 1];
    if a != syms[|syms| - 1] {
      assert a in init by {
        var j :| 0 <= j < |syms| && syms[j] == a;
        assert init[j] == a;
      }
      WrittenAt(tt, name, f, init, a);
    }
  }

  /** An entry of row `name` after the symbol loop was written by it or was there before. */
  lemma {:induction false} WrittenValues(tt: DTable, name: string, f: Rune -> seq<string>, syms: seq<Rune>, a: Rune)
    requires name in Written(tt, name, f, syms) && a in Written(tt, name, f, syms)[name]
    ensures var r := Written(tt, name, f, syms);
            (a in syms && r[name][a] == Join(f(a))) || (name in tt && a in tt[name] && r[name][a] == tt[name][a])
    decreases |syms|
  {
    if syms != [] {
      var init := syms[..|syms| - 1];
      var last := syms[|syms| - 1];
      if a != last {
        var prev := Written(tt, name, f, init);
        assert name in prev && a in prev[name];
        WrittenValues(tt, name, f, init, a);
        if a in init {
          var j :| 0 <= j < |init| && init[j] == a;
          assert syms[j] == a;
        }
      }
    }
  }

  /** The table after the symbol loop has run for every entry of `entries`, in order. */
  function Filled(t: Table, entries: seq<seq<string>>, syms: seq<Rune>): DTable
    decreases |entries|
  {
    if entries == [] then map[] else
      var last := entries[|entries| - 1];
      Written(Filled(t, entries[..|entries| - 1], syms), Join(last), NextOf(t, last), syms)
  }

  /** The names of the entries of the list. */
  ghost function JoinedNames(entries: seq<seq<string>>): set<string>
  {
    set k | 0 <= k < |entries| :: Join(entries[k])
  }

  lemma JoinedNamesSnoc(entries: seq<seq<string>>)
    requires entries != []
    ensures JoinedNames(entries) == JoinedNames(entries[..|entries| - 1]) + {Join(entries[|entries| - 1])}
  {
    var init := entries[..|entries| - 1];
    forall x | x in JoinedNames(entries) ensures x in JoinedNames(init) + {Join(entries[|entries| - 1])} {
      var k :| 0 <= k < |entries| && Join(entries[k]) == x;
      if k < |init| {
        assert init[k] == entries[k];
      }
    }
    forall x | x in JoinedNames(init) ensures x in JoinedNames(entries) {
      var k :| 0 <= k < |init| && Join(init[k]) == x;
      assert entries[k] == init[k];
    }
  }

  /** The names of the entries that contain an accepting state. */
  ghost function AcceptNames(entries: seq<seq<string>>, accepting: seq<string>): set<string>
  {
    set k | 0 <= k < |entries| && Meets(entries[k], accepting) :: Join(entries[k])
  }

  /** The table has a row for every entry, unless the alphabet is empty, and no other row. */
  lemma {:induction false} FilledKeys(t: Table, entries: seq<seq<string>>, syms: seq<Rune>)
    ensures Filled(t, entries, syms).Keys == if syms == [] then {} else JoinedNames(entries)
    decreases |entries|
  {
    if entries != [] {
      var init := entries[..|entries| - 1];
      FilledKeys(t, init, syms);
      WrittenKeys(Filled(t, init, syms), Join(entries[|entries| - 1]), NextOf(t, entries[|entries| - 1]), syms);
      JoinedNamesSnoc(entries);
    }
  }

  /** Every entry of row `n` is the name of `Next` on that symbol from some entry named `n`. */
  lemma {:induction false} FilledTargets(t: Table, entries: seq<seq<string>>, syms: seq<Rune>, n: string, a: Rune)
    requires n in Filled(t, entries, syms) && a in Filled(t, entries, syms)[n]
    ensures a in syms
    ensures exists k :: 0 <= k < |entries| && Join(entries[k]) == n && Filled(t, entries, syms)[n][a] == Join(Step(t, entries[k], a))
    decreases |entries|
  {
    var init := entries[..|entries| - 1];
    var last := entries[|entries| - 1];
    var prev := Filled(t, init, syms);
    var r := Filled(t, entries, syms);
    if n == Join(last) {
      WrittenValues(prev, n, NextOf(t, last), syms, a);
    } else {
      WrittenKeys(prev, Join(last), NextOf(t, last), syms);
      WrittenOther(prev, Join(last), NextOf(t, last), syms, n);
    }
    if n == Join(last) && a in syms && r[n][a] == Join(Step(t, last, a)) {
      assert last == entries[|entries| - 1];
    } else {
      assert n in prev && a in prev[n] && r[n][a] == prev[n][a];
      FilledTargets(t, init, syms, n, a);
      var k :| 0 <= k < |init| && Join(init[k]) == n && prev[n][a] == Join(Step(t, init[k], a));
      assert init[k] == entries[k];
    }
  }

  /** Every row of the table has an entry for every symbol. */
  lemma {:induction false} FilledRowsFull(t: Table, entries: seq<seq<string>>, syms: seq<Rune>, n: string, a: Rune)
    requires n in Filled(t, entries, syms) && a in syms
    ensures a in Filled(t, entries, syms)[n]
    decreases |entries|
  {
    var init := entries[..|entries| - 1];
    var last := entries[|entries| - 1];
    var prev := Filled(t, init, syms);
    if n == Join(last) {
      WrittenAt(prev, n, NextOf(t, last), syms, a);
    } else {
      WrittenKeys(prev, Join(last), NextOf(t, last), syms);
      WrittenOther(prev, Join(last), NextOf(t, last), syms, n);
      FilledRowsFull(t, init, syms, n, a);
    }
  }

  /** When the names are distinct, each entry's row holds `Next` of that entry on every symbol. */
  lemma {:induction false} FilledAt(t: Table, entries: seq<seq<string>>, syms: seq<Rune>, k: nat, a: Rune)
    requires JoinInjective(entries) && k < |entries| && a in syms
    ensures Join(entries[k]) in Filled(t, entries, syms)
    ensures a in Filled(t, entries, syms)[Join(entries[k])]
    ensures Filled(t, entries, syms)[Join(entries[k])][a] == Join(Step(t, entries[k], a))
    decreases |entries|
  {
    var init := entries[..|entries| - 1];
    if k < |entries| - 1 {
      assert JoinInjective(init) by {
        forall i, j | 0 <= i < |init| && 0 <= j < |init| && Join(init[i]) == Join(init[j]) ensures i == j {
          assert init[i] == entries[i] && init[j] == entries[j];
        }
      }
      assert init[k] == entries[k];
      FilledAt(t, init, syms, k, a);
      var last := entries[|entries| - 1];
      assert Join(init[k]) != Join(last);
      WrittenOther(Filled(t, init, syms), Join(last), NextOf(t, last), syms, Join(init[k]));
    } else {
      WrittenAt(Filled(t, init, syms), Join(entries[k]), NextOf(t, entries[k]), syms, a);
    }
  }

  // ---------------------------------------------------------------------------
  // The worklist
  // ---------------------------------------------------------------------------

  /** The names a compound state can contain: the initial state and every target of the table. */
  ghost function Universe(t: Table, initial: string): set<string>
  {
    {initial} + AllTargets(t)
  }

  /** Sorted lists of names from `u`, no two alike: what bounds the length of the list. */
  ghost predicate DistinctSubsets(entries: seq<seq<string>>, u: set<string>)
  {
    && (forall k :: 0 <= k < |entries| ==> StrictlySorted(entries[k]) && Elements(entries[k]) <= u)
    && (forall k, l :: 0 <= k < l < |entries| ==> entries[k] != entries[l])
  }

  /** The list starts at `[initial]` and holds `Next` of each of its entries on each symbol. */
  ghost predicate ClosedList(t: Table, initial: string, alphabet: seq<Rune>, entries: seq<seq<string>>)
  {
    && |entries| > 0 && entries[0] == [initial]
    && (forall k, a {:trigger Step(t, entries[k], a)} :: 0 <= k < |entries| && a in alphabet ==> Step(t, entries[k], a) in entries)
  }

  /** Entry `l` is `Next` of an earlier entry on some symbol. */
  ghost predicate FoundFrom(t: Table, alphabet: seq<Rune>, entries: seq<seq<string>>, l: nat)
    requires l < |entries|
  {
    exists k, a :: 0 <= k < l && a in alphabet && entries[l] == Step(t, entries[k], a)
  }

  /** `x` is `Next` of `s` on some symbol of the alphabet. */
  ghost predicate FromEntry(t: Table, alphabet: seq<Rune>, s: seq<string>, x: seq<string>)
  {
    exists a :: a in alphabet && x == Step(t, s, a)
  }

  /** Every entry after the first is `Next` of an earlier entry on some symbol. */
  ghost predicate Discovered(t: Table, alphabet: seq<Rune>, entries: seq<seq<string>>)
  {
    forall l :: 0 < l < |entries| ==> FoundFrom(t, alphabet, entries, l)
  }

  /** The subsets of `u`. */
  ghost function Powerset(u: set<string>): set<set<string>>
  {
    set s: set<string> | s <= u
  }

  function Pow2(n: nat): nat
  {
    if n == 0 then 1 else 2 * Pow2(n - 1)
  }

  lemma {:induction false} SubsetCardinality<T>(a: set<T>, b: set<T>)
    requires a <= b
    ensures |a| <= |b|
    decreases a
  {
    if a != {} {
      var x :| x in a;
      SubsetCardinality(a - {x}, b - {x});
    }
  }

  /** The sets of `ss`, each with `x` added. */
  ghost function WithElement(ss: set<set<string>>, x: string): set<set<string>>
  {
    set s | s in ss :: s + {x}
  }

  /** The image of a set under a function. */
  ghost function Image<A, B>(ss: set<A>, f: A -> B): set<B>
  {
    set a | a in ss :: f(a)
  }

  /** An injective map keeps the size of a set. */
  lemma {:induction false} ImageSize<A, B>(ss: set<A>, f: A -> B)
    requires forall a, b :: a in ss && b in ss && f(a) == f(b) ==> a == b
    ensures |Image(ss, f)| == |ss|
    decreases ss
  {
    if ss != {} {
      var a0 :| a0 in ss;
      var rest := ss - {a0};
      ImageSize(rest, f);
      assert Image(ss, f) == Image(rest, f) + {f(a0)};
      assert f(a0) !in Image(rest, f);
    }
  }

  lemma WithElementSize(ss: set<set<string>>, x: string)
    requires forall s :: s in ss ==> x !in s
    ensures |WithElement(ss, x)| == |ss|
  {
    var f := (s: set<string>) => s + {x};
    forall a, b | a in ss && b in ss && f(a) == f(b) ensures a == b {
      assert a == f(a) - {x} && b == f(b) - {x};
    }
    ImageSize(ss, f);
    assert WithElement(ss, x) == Image(ss, f);
  }

  /** The subsets of `u` are those without `x` and those same sets with `x` added. */
  lemma PowersetSplit(u: set<string>, x: string)
    requires x in u
    ensures Powerset(u) == Powerset(u - {x}) + WithElement(Powerset(u - {x}), x)
    ensures Powerset(u - {x}) * WithElement(Powerset(u - {x}), x) == {}
  {
    var without := Powerset(u - {x});
    forall s | s in Powerset(u) ensures s in without + WithElement(without, x) {
      if x in s {
        var s' := s - {x};
        assert s' in without;
        assert s == s' + {x};
      } else {
        assert s <= u - {x};
      }
    }
    forall s | s in WithElement(without, x) ensures s in Powerset(u) && s !in without {
      var s' :| s' in without && s == s' + {x};
      assert x in s;
    }
  }

  /** A set of `n` names has `2^n` subsets. */
  lemma {:induction false} PowersetSize(u: set<string>)
    ensures |Powerset(u)| == Pow2(|u|)
    decreases |u|
  {
    if u == {} {
      forall s | s in Powerset(u) ensures s == {} {
      }
      assert Powerset(u) == {{}};
    } else {
      var x :| x in u;
      var v := u - {x};
      PowersetSize(v);
      PowersetSplit(u, x);
      var without := Powerset(v);
      var with := WithElement(without, x);
      assert forall s :: s in without ==> x !in s;
      WithElementSize(without, x);
      assert |without * with| == 0;
      assert |without + with| == |without| + |with|;
      assert |v| == |u| - 1;
    }
  }

  /** The element sets of the entries, one per entry. */
  ghost function SetsOf(entries: seq<seq<string>>): set<set<string>>
  {
    set k | 0 <= k < |entries| :: Elements(entries[k])
  }

  lemma SetsOfSnoc(entries: seq<seq<string>>)
    requires entries != []
    ensures SetsOf(entries) == SetsOf(entries[..|entries| - 1]) + {Elements(entries[|entries| - 1])}
  {
    var init := entries[..|entries| - 1];
    forall x | x in SetsOf(entries) ensures x in SetsOf(init) + {Elements(entries[|entries| - 1])} {
      var k :| 0 <= k < |entries| && Elements(entries[k]) == x;
      if k < |init| {
        assert init[k] == entries[k];
      }
    }
    forall x | x in SetsOf(init) ensures x in SetsOf(entries) {
      var k :| 0 <= k < |init| && Elements(init[k]) == x;
      assert entries[k] == init[k];
    }
  }

  lemma {:induction false} SetsOfDistinct(entries: seq<seq<string>>)
    requires forall k :: 0 <= k < |entries| ==> StrictlySorted(entries[k])
    requires forall k, l :: 0 <= k < l < |entries| ==> entries[k] != entries[l]
    ensures |SetsOf(entries)| == |entries|
    decreases |entries|
  {
    if entries != [] {
      var init := entries[..|entries| - 1];
      var last := entries[|entries| - 1];
      SetsOfDistinct(init);
      SetsOfSnoc(entries);
      assert Elements(last) !in SetsOf(init) by {
        forall k | 0 <= k < |init| ensures Elements(init[k]) != Elements(last) {
          assert init[k] == entries[k];
          StrictlySortedSetEquality(init[k], last);
        }
      }
    }
  }

  /** Distinct sorted lists of names from `u` number at most `2^|u|`. */
  lemma DistinctSubsetsBound(entries: seq<seq<string>>, u: set<string>)
    requires forall k :: 0 <= k < |entries| ==> StrictlySorted(entries[k]) && Elements(entries[k]) <= u
    requires forall k, l :: 0 <= k < l < |entries| ==> entries[k] != entries[l]
    ensures |entries| <= |Powerset(u)| == Pow2(|u|)
  {
    SetsOfDistinct(entries);
    assert SetsOf(entries) <= Powerset(u);
    SubsetCardinality(SetsOf(entries), Powerset(u));
    PowersetSize(u);
  }

  /** The worklist, hence the loop, has at most `2^n` entries for a universe of `n` names. */
  lemma WorklistBound(t: Table, initial: string, compound: seq<seq<string>>)
    requires DistinctSubsets(compound, Universe(t, initial))
    ensures |compound| <= Pow2(|Universe(t, initial)|)
  {
    DistinctSubsetsBound(compound, Universe(t, initial));
  }

  /** Every name the table leads to is a row of the table (its `States`). */
  lemma TableClosed(t: Table, initial: string, alphabet: seq<Rune>, compound: seq<seq<string>>, n: string, a: Rune)
    requires ClosedList(t, initial, alphabet, compound)
    requires n in Filled(t, compound, alphabet) && a in Filled(t, compound, alphabet)[n]
    ensures Filled(t, compound, alphabet)[n][a] in Filled(t, compound, alphabet)
  {
    FilledTargets(t, compound, alphabet, n, a);
    var k :| 0 <= k < |compound| && Filled(t, compound, alphabet)[n][a] == Join(Step(t, compound[k], a));
    var l :| 0 <= l < |compound| && compound[l] == Step(t, compound[k], a);
    FilledKeys(t, compound, alphabet);
    assert Join(compound[l]) in JoinedNames(compound);
  }

  /** With one-character names throughout, distinct entries have distinct names. */
  lemma OneCharJoinInjective(t: Table, initial: string, compound: seq<seq<string>>)
    requires DistinctSubsets(compound, Universe(t, initial))
    requires forall x :: x in Universe(t, initial) ==> |x| == 1
    ensures JoinInjective(compound)
  {
    forall k, l | 0 <= k < |compound| && 0 <= l < |compound| && Join(compound[k]) == Join(compound[l])
      ensures k == l
    {
      assert OneCharNames(compound[k]) by {
        forall x | x in compound[k] ensures |x| == 1 {
          assert x in Elements(compound[k]);
        }
      }
      assert OneCharNames(compound[l]) by {
        forall x | x in compound[l] ensures |x| == 1 {
          assert x in Elements(compound[l]);
        }
      }
      JoinOneCharInjective(compound[k], compound[l]);
    }
  }

  // ---------------------------------------------------------------------------
  // The DFA agrees with the NFA
  // ---------------------------------------------------------------------------

  /** Following a table from state `q` on a word; a missing row or entry is a dead end. */
  function Walk(tr: DTable, q: string, w: seq<Rune>): Option<string>
    decreases |w|
  {
    if w == [] then Some(q)
    else if q in tr && w[0] in tr[q] then Walk(tr, tr[q][w[0]], w[1..])
    else None
  }

  /** Row `Join(S)` of `tr` maps each symbol to the name of `Next` from `S`, for each entry `S`. */
  ghost predicate Represents(tr: DTable, t: Table, alphabet: seq<Rune>, compound: seq<seq<string>>)
  {
    forall k, a {:trigger Step(t, compound[k], a)} :: 0 <= k < |compound| && a in alphabet ==>
      Join(compound[k]) in tr && a in tr[Join(compound[k])] && tr[Join(compound[k])][a] == Join(Step(t, compound[k], a))
  }

  lemma FilledRepresents(t: Table, alphabet: seq<Rune>, compound: seq<seq<string>>)
    requires JoinInjective(compound)
    ensures Represents(Filled(t, compound, alphabet), t, alphabet, compound)
  {
    forall k, a | 0 <= k < |compound| && a in alphabet
      ensures var tr := Filled(t, compound, alphabet);
              Join(compound[k]) in tr && a in tr[Join(compound[k])] && tr[Join(compound[k])][a] == Join(Step(t, compound[k], a))
    {
      FilledAt(t, compound, alphabet, k, a);
    }
  }

  /** From any entry, walking such a table follows `Next` symbol by symbol. */
  lemma {:induction false} WalkFollowsRun(tr: DTable, t: Table, initial: string, alphabet: seq<Rune>,
                                          compound: seq<seq<string>>, k: nat, w: seq<Rune>)
    requires ClosedList(t, initial, alphabet, compound) && Represents(tr, t, alphabet, compound)
    requires k < |compound|
    requires forall m :: 0 <= m < |w| ==> w[m] in alphabet
    ensures Run(t, compound[k], w) in compound
    ensures Walk(tr, Join(compound[k]), w) == Some(Join(Run(t, compound[k], w)))
    decreases |w|
  {
    if w != [] {
      var a := w[0];
      assert a in alphabet;
      var l :| 0 <= l < |compound| && compound[l] == Step(t, compound[k], a);
      assert forall m :: 0 <= m < |w[1..]| ==> w[1..][m] == w[m + 1];
      WalkFollowsRun(tr, t, initial, alphabet, compound, l, w[1..]);
    }
  }

  /**
   * On a word over the alphabet, the DFA walk from the initial state ends in the name of
   * the states `Next` reaches, and that name is accepting iff one of those states is.
   */
  lemma DfaAgreesWithNfa(t: Table, initial: string, alphabet: seq<Rune>, accepting: seq<string>,
                         compound: seq<seq<string>>, dfaAccepting: seq<string>, w: seq<Rune>)
    requires ClosedList(t, initial, alphabet, compound) && JoinInjective(compound)
    requires Elements(dfaAccepting) == AcceptNames(compound, accepting)
    requires forall m :: 0 <= m < |w| ==> w[m] in alphabet
    ensures Walk(Filled(t, compound, alphabet), initial, w) == Some(Join(Run(t, [initial], w)))
    ensures Join(Run(t, [initial], w)) in dfaAccepting <==> Meets(Run(t, [initial], w), accepting)
  {
    JoinSingle(initial);
    FilledRepresents(t, alphabet, compound);
    WalkFollowsRun(Filled(t, compound, alphabet), t, initial, alphabet, compound, 0, w);
    var end := Run(t, [initial], w);
    var l :| 0 <= l < |compound| && compound[l] == end;
    if Join(end) in dfaAccepting {
      assert Join(end) in Elements(dfaAccepting);
      var j :| 0 <= j < |compound| && Meets(compound[j], accepting) && Join(compound[j]) == Join(end);
      assert j == l;
    }
    if Meets(end, accepting) {
      assert Join(compound[l]) in AcceptNames(compound, accepting);
    }
  }

  // ---------------------------------------------------------------------------
  // The construction
  // ---------------------------------------------------------------------------

  /** The search for the new set among the ones found so far, with `equal`. */
  method Contains(entries: seq<seq<string>>, nxt: seq<string>) returns (already: bool)
    ensures already <==> nxt in entries
  {
    already := false;
    for k := 0 to |entries|
      invariant nxt !in entries[..k]
    {
      var same := Equal(entries[k], nxt);
      if same {
        already := true;
        break;
      }
    }
    assert entries[..|entries|] == entries;
  }

  /** Appending `nxt` when it is new keeps the worklist duplicate-free and every reached entry on it. */
  lemma Admitted<T>(entries: seq<T>, before: seq<T>, grown: seq<T>, reached: seq<T>, nxt: T)
    requires |entries| <= |before| && before[..|entries|] == entries
    requires forall m, l :: 0 <= m < l < |before| ==> before[m] != before[l]
    requires forall m :: 0 <= m < |reached| ==> reached[m] in before
    requires forall l :: |entries| <= l < |before| ==> before[l] in reached
    requires grown == if nxt in before then before else before + [nxt]
    ensures |entries| <= |grown| && grown[..|entries|] == entries
    ensures forall m, l :: 0 <= m < l < |grown| ==> grown[m] != grown[l]
    ensures forall m :: 0 <= m < |reached + [nxt]| ==> (reached + [nxt])[m] in grown
    ensures forall l :: |entries| <= l < |grown| ==> grown[l] in reached + [nxt]
  {
    if nxt !in before {
      assert grown[..|before|] == before;
      assert grown[..|entries|] == before[..|entries|];
      assert grown[|before|] == nxt;
    }
    assert forall x :: x in before ==> x in grown;
    forall m | 0 <= m < |reached + [nxt]| ensures (reached + [nxt])[m] in grown {
      if m < |reached| {
        assert (reached + [nxt])[m] == reached[m];
      }
    }
    forall l | |entries| <= l < |grown| ensures grown[l] in reached + [nxt] {
      if l < |before| {
        assert grown[l] == before[l];
        assert before[l] in reached;
      }
    }
  }

  /** One symbol of the inner loop: `Next` from entry `i`, appended to the worklist when it is new. */
  method VisitSymbol(work: NFA, newstates: seq<seq<string>>, i: nat, alpha: Rune)
      returns (grown: seq<seq<string>>, nxt: seq<string>)
    modifies work`currentStates
    requires i < |newstates|
    ensures nxt == Step(work.transition, newstates[i], alpha)
    ensures grown == if nxt in newstates then newstates else newstates + [nxt]
  {
    work.currentStates := newstates[i];
    nxt := work.Next(alpha);
    var already := Contains(newstates, nxt);
    grown := newstates;
    if !already {
      grown := grown + [nxt];
    }
  }

  /**
   * The state of the symbol loop for entry `s` after `|reached|` symbols: `Next` was taken on
   * each, the worklist grew from `entries` by exactly the new results, and the row was written.
   */
  ghost predicate Expanding(t: Table, s: seq<string>, alphabet: seq<Rune>, entries: seq<seq<string>>,
                            grown: seq<seq<string>>, reached: seq<seq<string>>, tt: DTable, name: string, filled: DTable)
  {
    && Records(t, s, alphabet, reached)
    && |entries| <= |grown| && grown[..|entries|] == entries
    && (forall m, l :: 0 <= m < l < |grown| ==> grown[m] != grown[l])
    && (forall m :: 0 <= m < |reached| ==> reached[m] in grown)
    && (forall l :: |entries| <= l < |grown| ==> grown[l] in reached)
    && filled == Cells(tt, name, alphabet, reached, |reached|)
  }

  /** One more symbol keeps the loop's state. */
  lemma ExpandingSnoc(t: Table, s: seq<string>, alphabet: seq<Rune>, entries: seq<seq<string>>,
                      before: seq<seq<string>>, grown: seq<seq<string>>, reached: seq<seq<string>>,
                      nxt: seq<string>, tt: DTable, name: string, filled: DTable)
    requires Expanding(t, s, alphabet, entries, before, reached, tt, name, filled) && |reached| < |alphabet|
    requires nxt == Step(t, s, alphabet[|reached|])
    requires grown == if nxt in before then before else before + [nxt]
    ensures Expanding(t, s, alphabet, entries, grown, reached + [nxt], tt, name,
                      WriteCell(filled, name, alphabet[|reached|], Join(nxt)))
  {
    Admitted(entries, before, grown, reached, nxt);
    RecordsSnoc(t, s, alphabet, reached, nxt);
    CellsStep(tt, name, alphabet, reached, nxt);
  }

  /** Once `reached` holds `Next` for every symbol, the worklist holds them all and nothing else new. */
  lemma Covered(t: Table, s: seq<string>, alphabet: seq<Rune>, reached: seq<seq<string>>,
                entries: seq<seq<string>>, grown: seq<seq<string>>)
    requires |reached| == |alphabet|
    requires forall m :: 0 <= m < |alphabet| ==> reached[m] in grown
    requires Records(t, s, alphabet, reached)
    requires forall l :: |entries| <= l < |grown| ==> grown[l] in reached
    ensures forall a :: a in alphabet ==> Step(t, s, a) in grown
    ensures forall l :: |entries| <= l < |grown| ==> FromEntry(t, alphabet, s, grown[l])
  {
    forall a | a in alphabet ensures Step(t, s, a) in grown {
      var m :| 0 <= m < |alphabet| && alphabet[m] == a;
      assert reached[m] in grown;
    }
    forall l | |entries| <= l < |grown| ensures FromEntry(t, alphabet, s, grown[l]) {
      var m :| 0 <= m < |reached| && reached[m] == grown[l];
      assert alphabet[m] in alphabet;
    }
  }

  method ExpandEntry(work: NFA, entries: seq<seq<string>>, i: nat, tt: DTable)
      returns (grown: seq<seq<string>>, filled: DTable)
    modifies work`currentStates
    requires i < |entries|
    requires forall k, l :: 0 <= k < l < |entries| ==> entries[k] != entries[l]
    ensures |entries| <= |grown| && grown[..|entries|] == entries
    ensures forall k, l :: 0 <= k < l < |grown| ==> grown[k] != grown[l]
    ensures forall a :: a in work.alphabet ==> Step(work.transition, entries[i], a) in grown
    ensures forall l :: |entries| <= l < |grown| ==> FromEntry(work.transition, work.alphabet, entries[i], grown[l])
    ensures filled == Written(tt, Join(entries[i]), NextOf(work.transition, entries[i]), work.alphabet)
  {
    grown := entries;
    filled := tt;
    var newstate := Join(entries[i]);
    var alphabet := work.alphabet;
    ghost var t := work.transition;
    ghost var s := entries[i];
    ghost var reached: seq<seq<string>> := [];
    for k := 0 to |alphabet|
      invariant work.alphabet == alphabet && work.transition == t
      invariant |reached| == k && Expanding(t, s, alphabet, entries, grown, reached, tt, newstate, filled)
    {
      var alpha := alphabet[k];
      ghost var before := grown;
      PrefixAgrees(entries, before, i);
      var nxt;
      grown, nxt := VisitSymbol(work, grown, i, alpha);
      ExpandingSnoc(t, s, alphabet, entries, before, grown, reached, nxt, tt, newstate, filled);
      reached := reached + [nxt];
      filled := WriteCell(filled, newstate, alpha, Join(nxt));
    }
    CellsWritten(tt, newstate, NextOf(t, s), alphabet, reached, |alphabet|);
    assert alphabet[..|alphabet|] == alphabet;
    Covered(t, s, alphabet, reached, entries, grown);
  }

  /** One more member of the entry meets the accepting states iff it is one of them or an earlier one does. */
  lemma MeetsSnoc(entry: seq<string>, p: nat, accepting: seq<string>)
    requires p < |entry|
    ensures Meets(entry[..p + 1], accepting) <==> Meets(entry[..p], accepting) || entry[p] in accepting
  {
    assert entry[..p + 1] == entry[..p] + [entry[p]];
  }

  /** The accepting loop for one entry: `add` its name once some member is accepting. */
  method NoteAccepting(acc: StateSet, newstate: string, entry: seq<string>, accepting: seq<string>)
    modifies acc
    ensures acc.elems == if Meets(entry, accepting) then Added(old(acc.elems), newstate) else old(acc.elems)
  {
    ghost var added := Added(acc.elems, newstate);
    AddIdempotent(acc.elems, newstate);
    for p := 0 to |entry|
      invariant acc.elems == if Meets(entry[..p], accepting) then added else old(acc.elems)
    {
      ghost var before := acc.elems;
      for q := 0 to |accepting|
        invariant acc.elems == before
        invariant entry[p] !in accepting[..q]
      {
        if entry[p] == accepting[q] {
          acc.Add(newstate);
          break;
        }
      }
      assert accepting[..|accepting|] == accepting;
      MeetsSnoc(entry, p, accepting);
    }
    assert entry[..|entry|] == entry;
  }

  /** The names of the table's rows, in whatever order the map produces them. */
  method KeysOf(tt: DTable) returns (names: seq<string>)
    ensures NoDup(names) && Elements(names) == tt.Keys
  {
    names := [];
    var left := tt.Keys;
    while left != {}
      invariant left <= tt.Keys
      invariant NoDup(names) && Elements(names) == tt.Keys - left
      decreases left
    {
      var n :| n in left;
      assert Elements(names + [n]) == Elements(names) + {n};
      names := names + [n];
      left := left - {n};
    }
  }

  lemma AcceptNamesSnoc(entries: seq<seq<string>>, i: nat, accepting: seq<string>)
    requires i < |entries|
    ensures AcceptNames(entries[..i + 1], accepting) ==
            AcceptNames(entries[..i], accepting) + (if Meets(entries[i], accepting) then {Join(entries[i])} else {})
  {
    var longer := entries[..i + 1];
    var shorter := entries[..i];
    forall k | 0 <= k < i ensures longer[k] == shorter[k] {
    }
    assert longer[i] == entries[i];
  }

  /** Adding the name of entry `i` when it meets an accepting state keeps the set of accepting names. */
  lemma AcceptedStep(before: seq<string>, after: seq<string>, entries: seq<seq<string>>, i: nat, accepting: seq<string>)
    requires i < |entries|
    requires StrictlySorted(before) && Elements(before) == AcceptNames(entries[..i], accepting)
    requires after == if Meets(entries[i], accepting) then Added(before, Join(entries[i])) else before
    ensures StrictlySorted(after) && Elements(after) == AcceptNames(entries[..i + 1], accepting)
  {
    AcceptNamesSnoc(entries, i, accepting);
  }

  /** The table grows by the row of one more entry. */
  lemma FilledSnoc(t: Table, entries: seq<seq<string>>, i: nat, syms: seq<Rune>)
    requires i < |entries|
    ensures Filled(t, entries[..i + 1], syms) == Written(Filled(t, entries[..i], syms), Join(entries[i]), NextOf(t, entries[i]), syms)
  {
    assert entries[..i + 1][..i] == entries[..i];
  }

  /** A list that extends `a` agrees with it up to and at position `i`. */
  lemma PrefixAgrees<T>(a: seq<T>, b: seq<T>, i: nat)
    requires |a| <= |b| && b[..|a|] == a && i < |a|
    ensures b[..i] == a[..i] && b[i] == a[i]
  {
    assert b[..i] == b[..|a|][..i];
  }

  /** The loop invariant: the entries before `done` have been expanded. */
  ghost predicate Entries(t: Table, initial: string, alphabet: seq<Rune>, entries: seq<seq<string>>, done: nat)
  {
    && 0 < |entries| && done <= |entries| && entries[0] == [initial]
    && DistinctSubsets(entries, Universe(t, initial))
    && (forall k, a {:trigger Step(t, entries[k], a)} :: 0 <= k < done && a in alphabet ==> Step(t, entries[k], a) in entries)
    && Discovered(t, alphabet, entries)
  }

  /** The worklist `[[initial]]` satisfies the loop invariant before any entry is expanded. */
  lemma EntriesStart(t: Table, initial: string, alphabet: seq<Rune>)
    ensures Entries(t, initial, alphabet, [[initial]], 0)
    ensures 1 <= |Powerset(Universe(t, initial))|
  {
    assert Elements([initial]) == {initial};
    DistinctSubsetsBound([[initial]], Universe(t, initial));
  }

  /** Once every entry is expanded, the worklist is closed and made of distinct subsets. */
  lemma EntriesDone(t: Table, initial: string, alphabet: seq<Rune>, entries: seq<seq<string>>)
    requires Entries(t, initial, alphabet, entries, |entries|)
    ensures DistinctSubsets(entries, Universe(t, initial))
    ensures ClosedList(t, initial, alphabet, entries)
    ensures Discovered(t, alphabet, entries)
  {
  }

  /** Expanding entry `i` keeps the loop invariant, one entry further on. */
  lemma EntriesStep(t: Table, initial: string, alphabet: seq<Rune>, entries: seq<seq<string>>, i: nat, grown: seq<seq<string>>)
    requires Entries(t, initial, alphabet, entries, i) && i < |entries|
    requires |entries| <= |grown| && grown[..|entries|] == entries
    requires forall k, l :: 0 <= k < l < |grown| ==> grown[k] != grown[l]
    requires forall a :: a in alphabet ==> Step(t, entries[i], a) in grown
    requires forall l :: |entries| <= l < |grown| ==> FromEntry(t, alphabet, entries[i], grown[l])
    ensures Entries(t, initial, alphabet, grown, i + 1)
  {
    GrownSubsets(t, initial, alphabet, entries, i, grown);
    GrownClosed(t, initial, alphabet, entries, i, grown);
    GrownDiscovered(t, alphabet, entries, i, grown);
  }

  /** The new entries are sorted subsets of the universe, as `Next` results are. */
  lemma GrownSubsets(t: Table, initial: string, alphabet: seq<Rune>, entries: seq<seq<string>>, i: nat, grown: seq<seq<string>>)
    requires DistinctSubsets(entries, Universe(t, initial)) && i < |entries|
    requires |entries| <= |grown| && grown[..|entries|] == entries
    requires forall l :: |entries| <= l < |grown| ==> FromEntry(t, alphabet, entries[i], grown[l])
    ensures forall k :: 0 <= k < |grown| ==> StrictlySorted(grown[k]) && Elements(grown[k]) <= Universe(t, initial)
  {
    forall k | 0 <= k < |grown| ensures StrictlySorted(grown[k]) && Elements(grown[k]) <= Universe(t, initial) {
      if k >= |entries| {
        assert FromEntry(t, alphabet, entries[i], grown[k]);
        var a :| a in alphabet && grown[k] == Step(t, entries[i], a);
        StepSorted(t, entries[i], a);
        StepWithin(t, entries[i], a);
      } else {
        assert grown[k] == entries[k];
      }
    }
  }

  /** Entries `0..i` have all their `Next` results on the grown list. */
  lemma GrownClosed(t: Table, initial: string, alphabet: seq<Rune>, entries: seq<seq<string>>, i: nat, grown: seq<seq<string>>)
    requires Entries(t, initial, alphabet, entries, i) && i < |entries|
    requires |entries| <= |grown| && grown[..|entries|] == entries
    requires forall a :: a in alphabet ==> Step(t, entries[i], a) in grown
    ensures forall k, a {:trigger Step(t, grown[k], a)} :: 0 <= k < i + 1 && a in alphabet ==> Step(t, grown[k], a) in grown
  {
    forall k, a | 0 <= k < i + 1 && a in alphabet ensures Step(t, grown[k], a) in grown {
      assert grown[k] == entries[k];
      if k < i {
        assert Step(t, entries[k], a) in entries;
        assert forall x :: x in entries ==> x in grown;
      }
    }
  }

  /** Every entry after the first was found from an earlier one, old entries as before. */
  lemma GrownDiscovered(t: Table, alphabet: seq<Rune>, entries: seq<seq<string>>, i: nat, grown: seq<seq<string>>)
    requires Discovered(t, alphabet, entries) && i < |entries|
    requires |entries| <= |grown| && grown[..|entries|] == entries
    requires forall l :: |entries| <= l < |grown| ==> FromEntry(t, alphabet, entries[i], grown[l])
    ensures Discovered(t, alphabet, grown)
  {
    forall l | 0 < l < |grown|
      ensures FoundFrom(t, alphabet, grown, l)
    {
      if l < |entries| {
        assert FoundFrom(t, alphabet, entries, l);
        var k, a :| 0 <= k < l && a in alphabet && entries[l] == Step(t, entries[k], a);
        assert grown[k] == entries[k] && grown[l] == entries[l];
      } else {
        assert FromEntry(t, alphabet, entries[i], grown[l]);
        var a :| a in alphabet && grown[l] == Step(t, entries[i], a);
        assert grown[i] == entries[i];
      }
    }
  }


  /** One pass of the outer loop: expand entry `i` on every symbol, then note whether it is accepting. */
  method VisitEntry(work: NFA, acc: StateSet, ghost t: Table, initial: string, alphabet: seq<Rune>,
                    accepting: seq<string>, newstates: seq<seq<string>>, i: nat, tt: DTable)
      returns (grown: seq<seq<string>>, filled: DTable)
    modifies work`currentStates, acc
    requires work.transition == t && work.alphabet == alphabet && work.acceptingStates == accepting
    requires Entries(t, initial, alphabet, newstates, i) && i < |newstates|
    requires tt == Filled(t, newstates[..i], alphabet)
    requires StrictlySorted(acc.elems) && Elements(acc.elems) == AcceptNames(newstates[..i], accepting)
    ensures Entries(t, initial, alphabet, grown, i + 1)
    ensures |grown| <= |Powerset(Universe(t, initial))|
    ensures filled == Filled(t, grown[..i + 1], alphabet)
    ensures StrictlySorted(acc.elems) && Elements(acc.elems) == AcceptNames(grown[..i + 1], accepting)
  {
    var newstate := Join(newstates[i]);
    grown, filled := ExpandEntry(work, newstates, i, tt);
    PrefixAgrees(newstates, grown, i);
    FilledSnoc(t, grown, i, alphabet);
    EntriesStep(t, initial, alphabet, newstates, i, grown);
    DistinctSubsetsBound(grown, Universe(t, initial));
    ghost var before := acc.elems;
    NoteAccepting(acc, newstate, grown[i], accepting);
    AcceptedStep(before, acc.elems, grown, i, accepting);
  }

  /** The worklist loop of `NFAtoDFA`, run on the private copy `work` of the automaton. */
  method Explore(work: NFA, acc: StateSet) returns (newstates: seq<seq<string>>, transitionTable: DTable)
    modifies work`currentStates, acc
    requires acc.elems == []
    ensures Entries(work.transition, work.initialState, work.alphabet, newstates, |newstates|)
    ensures transitionTable == Filled(work.transition, newstates, work.alphabet)
    ensures StrictlySorted(acc.elems) && Elements(acc.elems) == AcceptNames(newstates, work.acceptingStates)
  {
    var alphabet := work.alphabet;
    var initial := work.initialState;
    var accepting := work.acceptingStates;
    ghost var t := work.transition;
    ghost var u := Universe(t, initial);
    newstates := [[initial]];
    transitionTable := map[];
    var i := 0;
    EntriesStart(t, initial, alphabet);
    while i < |newstates|
      invariant work.transition == t && work.alphabet == alphabet && work.acceptingStates == accepting
      invariant work.initialState == initial
      invariant Entries(t, initial, alphabet, newstates, i)
      invariant |newstates| <= |Powerset(u)|
      invariant transitionTable == Filled(t, newstates[..i], alphabet)
      invariant StrictlySorted(acc.elems)
      invariant Elements(acc.elems) == AcceptNames(newstates[..i], accepting)
      decreases |Powerset(u)| - i
    {
      newstates, transitionTable := VisitEntry(work, acc, t, initial, alphabet, accepting, newstates, i, transitionTable);
      i := i + 1;
    }
    assert newstates[..i] == newstates;
  }

  /**
   * `NFAtoDFA`.  The NFA is received by value, so its `Next` runs on a private copy.
   * `compound` is the final worklist: the entries the produced table stands for.
   */
  method NFAtoDFA(nfa: NFA) returns (dfa: DFA, ghost compound: seq<seq<string>>)
    ensures DistinctSubsets(compound, Universe(nfa.transition, nfa.initialState))
    ensures ClosedList(nfa.transition, nfa.initialState, nfa.alphabet, compound)
    ensures Discovered(nfa.transition, nfa.alphabet, compound)
    ensures dfa.transition == Filled(nfa.transition, compound, nfa.alphabet)
    ensures StrictlySorted(dfa.acceptingStates)
    ensures Elements(dfa.acceptingStates) == AcceptNames(compound, nfa.acceptingStates)
    ensures NoDup(dfa.states) && Elements(dfa.states) == dfa.transition.Keys
    ensures dfa.alphabet == nfa.alphabet
    ensures dfa.initialState == nfa.initialState && dfa.currentState == nfa.initialState
  {
    var alphabet := nfa.alphabet;
    var initial := nfa.initialState;
    var accepting := nfa.acceptingStates;
    var work := new NFA(nfa.states, alphabet, initial, accepting, nfa.currentStates, nfa.transition);
    var acceptingStates := new StateSet([]);
    var newstates, transitionTable := Explore(work, acceptingStates);
    EntriesDone(nfa.transition, initial, alphabet, newstates);
    var newstatenames := KeysOf(transitionTable);
    compound := newstates;
    dfa := DFA(acceptingStates.elems, alphabet, initial, initial, newstatenames, transitionTable);
  }

  // ---------------------------------------------------------------------------
  // The scenario of nfatodfa_test.go
  // ---------------------------------------------------------------------------

  /** The test table once its labels are parsed: rows `f` and `n`. */
  function TestTable(): Table { map["f" := TestRowF(), "n" := TestRowN()] }

  const Zero: Rune := '0' as int as Rune
  const One: Rune := '1' as int as Rune

  /** The moves of the test table from each of its compound states. */
  lemma TestSuccessors(r: Rune)
    ensures Successors(TestTable(), ["f"], r) == Elements(Targets(TestTable(), "f", r))
    ensures Successors(TestTable(), ["n"], r) == Elements(Targets(TestTable(), "n", r))
    ensures Successors(TestTable(), ["f", "n"], r) ==
            Elements(Targets(TestTable(), "f", r)) + Elements(Targets(TestTable(), "n", r))
  {
    var t := TestTable();
    assert Successors(t, [], r) == {};
    SuccessorsSnoc(t, [], "f", r);
    SuccessorsSnoc(t, [], "n", r);
    SuccessorsSnoc(t, ["f"], "n", r);
    assert [] + ["f"] == ["f"] && [] + ["n"] == ["n"] && ["f"] + ["n"] == ["f", "n"];
  }

  /** The test table has no epsilon moves, so `Next` is the sorted set of direct moves. */
  lemma TestStep(t: Table, cur: seq<string>, r: Rune, u: seq<string>)
    requires t == TestTable()
    requires StrictlySorted(u) && Elements(u) == Successors(t, cur, r)
    ensures Step(t, cur, r) == u
  {
    assert NoEpsilonMoves(t) by {
      forall c | c in t ensures Epsilon !in t[c] {
        assert c == "f" || c == "n";
      }
    }
    StepNoEpsilonUnique(t, cur, r, u);
  }

  /** `Next` on the test table from `[f]` on '0' gives `[f, n]`. */
  lemma TestStepFZero(t: Table, cur: seq<string>, u: seq<string>)
    requires t == TestTable() && cur == ["f"] && u == ["f", "n"]
    ensures Step(t, cur, Zero) == u
  {
    TestSuccessors(Zero);
    assert Less("f", "n");
    assert Elements(["f", "n"]) == {"f", "n"};
    TestStep(t, ["f"], Zero, ["f", "n"]);
  }

  /** `Next` on the test table from `[f]` on '1' gives `[n]`. */
  lemma TestStepFOne(t: Table, cur: seq<string>, u: seq<string>)
    requires t == TestTable() && cur == ["f"] && u == ["n"]
    ensures Step(t, cur, One) == u
  {
    TestSuccessors(One);
    assert Elements(["n"]) == {"n"};
    TestStep(t, ["f"], One, ["n"]);
  }

  /** `Next` on the test table from `[f, n]` on '0' gives `[f, n]`. */
  lemma TestStepFNZero(t: Table, cur: seq<string>, u: seq<string>)
    requires t == TestTable() && cur == ["f", "n"] && u == ["f", "n"]
    ensures Step(t, cur, Zero) == u
  {
    TestSuccessors(Zero);
    assert Less("f", "n");
    assert Elements(["f", "n"]) == {"f", "n"};
    TestStep(t, ["f", "n"], Zero, ["f", "n"]);
  }

  /** `Next` on the test table from `[f, n]` on '1' gives `[n]`. */
  lemma TestStepFNOne(t: Table, cur: seq<string>, u: seq<string>)
    requires t == TestTable() && cur == ["f", "n"] && u == ["n"]
    ensures Step(t, cur, One) == u
  {
    TestSuccessors(One);
    assert Elements(["n"]) == {"n"};
    TestStep(t, ["f", "n"], One, ["n"]);
  }

  /** `Next` on the test table from `[n]` on '0' gives `[f]`. */
  lemma TestStepNZero(t: Table, cur: seq<string>, u: seq<string>)
    requires t == TestTable() && cur == ["n"] && u == ["f"]
    ensures Step(t, cur, Zero) == u
  {
    TestSuccessors(Zero);
    assert Elements(["f"]) == {"f"};
    TestStep(t, ["n"], Zero, ["f"]);
  }

  /** `Next` on the test table from `[n]` on '1' gives `[n]`. */
  lemma TestStepNOne(t: Table, cur: seq<string>, u: seq<string>)
    requires t == TestTable() && cur == ["n"] && u == ["n"]
    ensures Step(t, cur, One) == u
  {
    TestSuccessors(One);
    assert Elements(["n"]) == {"n"};
    TestStep(t, ["n"], One, ["n"]);
  }

  /** Feeding `[a] + w` is one `Next` on `a`, then `w`. */
  lemma RunCons(t: Table, cur: seq<string>, a: Rune, w: seq<Rune>)
    ensures Run(t, cur, [a] + w) == Run(t, Step(t, cur, a), w)
  {
    assert ([a] + w)[1..] == w;
  }

  /** Feeding `w + [a]` is feeding `w`, then one `Next` on `a`. */
  lemma {:induction false} RunSnoc(t: Table, cur: seq<string>, w: seq<Rune>, a: Rune)
    ensures Run(t, cur, w + [a]) == Step(t, Run(t, cur, w), a)
    decreases |w|
  {
    if w == [] {
      RunCons(t, cur, a, []);
      assert [] + [a] == [a] + [];
    } else {
      assert (w + [a])[0] == w[0] && (w + [a])[1..] == w[1..] + [a];
      RunSnoc(t, Step(t, cur, w[0]), w[1..], a);
    }
  }

  /**
   * The run of the test on any table where `f`, `n` and `fn` move as in the test table: the
   * word ends in `n`, one more `zero` in `f`.
   */
  lemma RunOfTestWord(t: Table, f: seq<string>, n: seq<string>, fn: seq<string>, zero: Rune, one: Rune)
    requires Step(t, f, zero) == fn && Step(t, f, one) == n
    requires Step(t, fn, zero) == fn && Step(t, fn, one) == n
    requires Step(t, n, zero) == f && Step(t, n, one) == n
    ensures Run(t, f, [zero, zero, one, zero, zero, one, zero, one]) == n
    ensures Run(t, f, [zero, zero, one, zero, zero, one, zero, one, zero]) == f
  {
    // The current states along the word: f fn fn n f fn n f n.
    var u: seq<Rune> := [];
    RunCons(t, f, one, u);
    u := [one] + u;
    RunCons(t, n, zero, u);
    u := [zero] + u;
    RunCons(t, fn, one, u);
    u := [one] + u;
    RunCons(t, f, zero, u);
    u := [zero] + u;
    RunCons(t, n, zero, u);
    u := [zero] + u;
    RunCons(t, fn, one, u);
    u := [one] + u;
    RunCons(t, fn, zero, u);
    u := [zero] + u;
    RunCons(t, f, zero, u);
    u := [zero] + u;
    assert u == [zero, zero, one, zero, zero, one, zero, one];
    RunSnoc(t, f, u, zero);
    assert u + [zero] == [zero, zero, one, zero, zero, one, zero, one, zero];
  }

  /** The NFA run of the test: the word ends in `[n]`, one more `'0'` in `[f]`. */
  lemma TestRun(t: Table, f: seq<string>, n: seq<string>, fn: seq<string>)
    requires t == TestTable() && f == ["f"] && n == ["n"] && fn == ["f", "n"]
    ensures Run(t, f, [Zero, Zero, One, Zero, Zero, One, Zero, One]) == n
    ensures Run(t, f, [Zero, Zero, One, Zero, Zero, One, Zero, One, Zero]) == f
  {
    TestStepFZero(t, f, fn);
    TestStepFOne(t, f, n);
    TestStepFNZero(t, fn, fn);
    TestStepFNOne(t, fn, n);
    TestStepNZero(t, n, f);
    TestStepNOne(t, n, n);
    RunOfTestWord(t, f, n, fn, Zero, One);
  }

  /** Every name of the test table is `f` or `n`, so compound names are one character per state. */
  lemma TestUniverse(t: Table)
    requires t == TestTable()
    ensures Universe(t, "f") == {"f", "n"}
  {
    forall x | x in AllTargets(t) ensures x == "f" || x == "n" {
      var c, r :| c in t && r in t[c] && x in t[c][r];
      assert c == "f" || c == "n";
      assert r == Zero || r == One;
    }
    assert "n" in t["f"][One];
  }

  /** The symbols of the test table are `'0'` and `'1'`. */
  lemma TestSymbols(t: Table)
    requires t == TestTable()
    ensures SymbolsOf(t, t.Keys) == {Zero, One}
  {
    assert Zero in t["f"] && One in t["f"];
  }

  /** The eight-symbol word of the test leads the DFA to `"n"`, which is not accepting. */
  lemma TestWalkToN(t: Table, alphabet: seq<Rune>, compound: seq<seq<string>>, accepting: seq<string>)
    requires t == TestTable() && Elements(alphabet) == {Zero, One}
    requires DistinctSubsets(compound, Universe(t, "f")) && ClosedList(t, "f", alphabet, compound)
    requires Elements(accepting) == AcceptNames(compound, ["f"])
    ensures Walk(Filled(t, compound, alphabet), "f", [Zero, Zero, One, Zero, Zero, One, Zero, One]) == Some("n")
    ensures "n" !in accepting
  {
    TestUniverse(t);
    OneCharJoinInjective(t, "f", compound);
    var w := [Zero, Zero, One, Zero, Zero, One, Zero, One];
    assert forall m :: 0 <= m < |w| ==> w[m] in Elements(alphabet);
    DfaAgreesWithNfa(t, "f", alphabet, ["f"], compound, accepting, w);
    assert Run(t, ["f"], w) == ["n"] by {
      TestRun(t, ["f"], ["n"], ["f", "n"]);
    }
    JoinSingle("n");
  }

  /** One more `'0'` leads it to `"f"`, which is accepting. */
  lemma TestWalkToF(t: Table, alphabet: seq<Rune>, compound: seq<seq<string>>, accepting: seq<string>)
    requires t == TestTable() && Elements(alphabet) == {Zero, One}
    requires DistinctSubsets(compound, Universe(t, "f")) && ClosedList(t, "f", alphabet, compound)
    requires Elements(accepting) == AcceptNames(compound, ["f"])
    ensures Walk(Filled(t, compound, alphabet), "f", [Zero, Zero, One, Zero, Zero, One, Zero, One, Zero]) == Some("f")
    ensures "f" in accepting
  {
    TestUniverse(t);
    OneCharJoinInjective(t, "f", compound);
    var w := [Zero, Zero, One, Zero, Zero, One, Zero, One];
    var w' := w + [Zero];
    assert forall m :: 0 <= m < |w'| ==> w'[m] in Elements(alphabet);
    assert w' == [Zero, Zero, One, Zero, Zero, One, Zero, One, Zero];
    DfaAgreesWithNfa(t, "f", alphabet, ["f"], compound, accepting, w');
    assert Run(t, ["f"], w') == ["f"] by {
      TestRun(t, ["f"], ["n"], ["f", "n"]);
    }
    JoinSingle("f");
    assert "f" in ["f"];
  }

  /**
   * The walks of the test on the table `NFAtoDFA` builds from the test automaton, over an
   * alphabet of `'0'` and `'1'`: the test feeds the first symbol of `"0100101"` once
   * before its loop and then all seven, ending in `n`, which is not accepting; one more `'0'`
   * leads to the accepting `f`.
   */
  lemma TestWalks(t: Table, alphabet: seq<Rune>, compound: seq<seq<string>>, accepting: seq<string>)
    requires t == TestTable() && Elements(alphabet) == {Zero, One}
    requires DistinctSubsets(compound, Universe(t, "f")) && ClosedList(t, "f", alphabet, compound)
    requires Elements(accepting) == AcceptNames(compound, ["f"])
    ensures Walk(Filled(t, compound, alphabet), "f", [Zero, Zero, One, Zero, Zero, One, Zero, One]) == Some("n")
    ensures "n" !in accepting
    ensures Walk(Filled(t, compound, alphabet), "f", [Zero, Zero, One, Zero, Zero, One, Zero, One, Zero]) == Some("f")
    ensures "f" in accepting
  {
    TestWalkToN(t, alphabet, compound, accepting);
    TestWalkToF(t, alphabet, compound, accepting);
  }

  /**
   * The scenario of nfatodfa_test.go: the table is parsed by `NFAfromTable` and converted, and
   * the walks of `TestWalks` are those of the produced DFA.
   */
  method TestNFAtoDFA() returns (dfa: DFA, ghost compound: seq<seq<string>>)
    ensures Walk(dfa.transition, dfa.initialState, [Zero, Zero, One, Zero, Zero, One, Zero, One]) == Some("n")
    ensures "n" !in dfa.acceptingStates
    ensures Walk(dfa.transition, dfa.initialState, [Zero, Zero, One, Zero, Zero, One, Zero, One, Zero]) == Some("f")
    ensures "f" in dfa.acceptingStates
  {
    var table := map[">*f" := TestRowF(), "n" := TestRowN()];
    ScanTestTable();
    assert Elements([">*f", "n"]) == table.Keys;
    var res := NFAFromTable(table, [">*f", "n"]);
    var nfa := res.value;
    TestSymbols(nfa.transition);
    dfa, compound := NFAtoDFA(nfa);
    TestWalks(nfa.transition, nfa.alphabet, compound, dfa.acceptingStates);
  }

  // ---------------------------------------------------------------------------
  // Two compound states with one name
  // ---------------------------------------------------------------------------

  const Two: Rune := '2' as int as Rune

  /** The rows of an automaton whose compound states `[a, b]` and `[ab]` are both named `"ab"`. */
  function CollisionRowS(): Row { map[One := ["a", "b"], Two := ["ab"]] }
  function CollisionRowAb(): Row { map[One := ["s"]] }

  /** That table once its labels are parsed: `s` (initial and accepting) and `ab`. */
  function CollisionTable(): Table { map["s" := CollisionRowS(), "ab" := CollisionRowAb()] }

  lemma CollisionSuccessors(r: Rune)
    ensures Successors(CollisionTable(), ["s"], r) == Elements(Targets(CollisionTable(), "s", r))
    ensures Successors(CollisionTable(), ["ab"], r) == Elements(Targets(CollisionTable(), "ab", r))
    ensures Successors(CollisionTable(), ["a", "b"], r) == {}
  {
    var t := CollisionTable();
    assert Successors(t, [], r) == {};
    SuccessorsSnoc(t, [], "s", r);
    SuccessorsSnoc(t, [], "ab", r);
    SuccessorsSnoc(t, [], "a", r);
    SuccessorsSnoc(t, ["a"], "b", r);
    assert [] + ["s"] == ["s"] && [] + ["ab"] == ["ab"] && [] + ["a"] == ["a"] && ["a"] + ["b"] == ["a", "b"];
  }

  /** The table has no epsilon moves, so `Next` is the sorted set of direct moves. */
  lemma CollisionStep(t: Table, cur: seq<string>, r: Rune, u: seq<string>)
    requires t == CollisionTable()
    requires StrictlySorted(u) && Elements(u) == Successors(t, cur, r)
    ensures Step(t, cur, r) == u
  {
    assert NoEpsilonMoves(t) by {
      forall c | c in t ensures Epsilon !in t[c] {
        assert c == "s" || c == "ab";
      }
    }
    StepNoEpsilonUnique(t, cur, r, u);
  }

  lemma CollisionStepSOne(t: Table, cur: seq<string>, u: seq<string>)
    requires t == CollisionTable() && cur == ["s"] && u == ["a", "b"]
    ensures Step(t, cur, One) == u
  {
    CollisionSuccessors(One);
    assert Less("a", "b");
    assert Elements(["a", "b"]) == {"a", "b"};
    CollisionStep(t, ["s"], One, ["a", "b"]);
  }

  lemma CollisionStepSTwo(t: Table, cur: seq<string>, u: seq<string>)
    requires t == CollisionTable() && cur == ["s"] && u == ["ab"]
    ensures Step(t, cur, Two) == u
  {
    CollisionSuccessors(Two);
    assert Elements(["ab"]) == {"ab"};
    CollisionStep(t, ["s"], Two, ["ab"]);
  }

  lemma CollisionStepABOne(t: Table, cur: seq<string>, u: seq<string>)
    requires t == CollisionTable() && cur == ["a", "b"] && u == []
    ensures Step(t, cur, One) == u
  {
    CollisionSuccessors(One);
    CollisionStep(t, ["a", "b"], One, []);
  }

  lemma CollisionStepAbOne(t: Table, cur: seq<string>, u: seq<string>)
    requires t == CollisionTable() && cur == ["ab"] && u == ["s"]
    ensures Step(t, cur, One) == u
  {
    CollisionSuccessors(One);
    assert Elements(["s"]) == {"s"};
    CollisionStep(t, ["ab"], One, ["s"]);
  }

  /** The names of the table are `s`, `a`, `b` and `ab`; none is empty. */
  lemma CollisionUniverse(t: Table)
    requires t == CollisionTable()
    ensures "" !in Universe(t, "s")
  {
    forall x | x in AllTargets(t) ensures x in {"s", "a", "b", "ab"} {
      var c, r :| c in t && r in t[c] && x in t[c][r];
      assert c == "s" || c == "ab";
      assert c == "s" ==> r == One || r == Two;
      assert c == "ab" ==> r == One;
    }
  }

  /** What the collision lemmas assume of the table and of the list `NFAtoDFA` builds from it. */
  ghost predicate CollisionList(t: Table, alphabet: seq<Rune>, compound: seq<seq<string>>)
  {
    && One in alphabet && Two in alphabet
    && Step(t, ["s"], One) == ["a", "b"] && Step(t, ["s"], Two) == ["ab"]
    && Step(t, ["a", "b"], One) == [] && Step(t, ["ab"], One) == ["s"]
    && "" !in Universe(t, "s")
    && DistinctSubsets(compound, Universe(t, "s")) && ClosedList(t, "s", alphabet, compound)
  }

  lemma CollisionNonEmptyNames(t: Table, alphabet: seq<Rune>, compound: seq<seq<string>>, k: nat)
    requires CollisionList(t, alphabet, compound) && k < |compound|
    ensures forall y :: y in compound[k] ==> y != ""
  {
    forall y | y in compound[k] ensures y != "" {
      assert y in Elements(compound[k]);
    }
  }

  lemma CollisionAllNamesNonEmpty(t: Table, alphabet: seq<Rune>, compound: seq<seq<string>>)
    requires CollisionList(t, alphabet, compound)
    ensures forall k, y :: 0 <= k < |compound| && y in compound[k] ==> y != ""
  {
    forall k | 0 <= k < |compound| ensures forall y :: y in compound[k] ==> y != "" {
      CollisionNonEmptyNames(t, alphabet, compound, k);
    }
  }

  /** With non-empty names throughout, only `[x]` is named `x`, so row `x` holds the moves of `[x]`. */
  lemma FilledOneCharRow(t: Table, entries: seq<seq<string>>, syms: seq<Rune>, x: string, a: Rune)
    requires |x| == 1 && [x] in entries && a in syms
    requires forall k, y :: 0 <= k < |entries| && y in entries[k] ==> y != ""
    ensures x in Filled(t, entries, syms) && a in Filled(t, entries, syms)[x]
    ensures Filled(t, entries, syms)[x][a] == Join(Step(t, [x], a))
  {
    JoinSingle(x);
    FilledKeys(t, entries, syms);
    var i :| 0 <= i < |entries| && entries[i] == [x];
    assert x in JoinedNames(entries) by {
      assert Join(entries[i]) == x;
    }
    FilledRowsFull(t, entries, syms, x, a);
    FilledTargets(t, entries, syms, x, a);
    var k :| 0 <= k < |entries| && Join(entries[k]) == x && Filled(t, entries, syms)[x][a] == Join(Step(t, entries[k], a));
    JoinOneChar(entries[k], x);
  }

  /** A one-character row `x` on `a` is the name of the move of `[x]` on `a`. */
  lemma FilledOneCharRowIs(t: Table, entries: seq<seq<string>>, syms: seq<Rune>, x: string, a: Rune,
                           next: seq<string>, name: string)
    requires |x| == 1 && [x] in entries && a in syms
    requires forall k, y :: 0 <= k < |entries| && y in entries[k] ==> y != ""
    requires Step(t, [x], a) == next && Join(next) == name
    ensures x in Filled(t, entries, syms) && a in Filled(t, entries, syms)[x]
    ensures Filled(t, entries, syms)[x][a] == name
  {
    FilledOneCharRow(t, entries, syms, x, a);
  }

  /** Only `[s]` is named `"s"`, so its row holds its own moves: `"ab"` on both symbols. */
  lemma CollisionRowOfS(t: Table, alphabet: seq<Rune>, compound: seq<seq<string>>)
    requires CollisionList(t, alphabet, compound)
    ensures var tr := Filled(t, compound, alphabet);
            "s" in tr && One in tr["s"] && Two in tr["s"] && tr["s"][One] == "ab" && tr["s"][Two] == "ab"
  {
    CollisionAllNamesNonEmpty(t, alphabet, compound);
    assert compound[0] == ["s"];
    JoinSingle("ab");
    assert Join(["a", "b"]) == "ab";
    FilledOneCharRowIs(t, compound, alphabet, "s", One, ["a", "b"], "ab");
    FilledOneCharRowIs(t, compound, alphabet, "s", Two, ["ab"], "ab");
  }

  /** When only `u` and `v` are named `x`, row `x` on `a` is the name of the move of one of them. */
  lemma FilledRowOfTwo(t: Table, entries: seq<seq<string>>, syms: seq<Rune>, x: string, a: Rune,
                       u: seq<string>, v: seq<string>, nu: string, nv: string)
    requires u in entries && Join(u) == x && a in syms
    requires forall k :: 0 <= k < |entries| && Join(entries[k]) == x ==> entries[k] == u || entries[k] == v
    requires Join(Step(t, u, a)) == nu && Join(Step(t, v, a)) == nv
    ensures x in Filled(t, entries, syms) && a in Filled(t, entries, syms)[x]
    ensures Filled(t, entries, syms)[x][a] == nu || Filled(t, entries, syms)[x][a] == nv
  {
    FilledKeys(t, entries, syms);
    var i :| 0 <= i < |entries| && entries[i] == u;
    assert x in JoinedNames(entries) by {
      assert Join(entries[i]) == x;
    }
    FilledRowsFull(t, entries, syms, x, a);
    FilledTargets(t, entries, syms, x, a);
  }

  /** Only `[ab]` and `[a, b]` are named `"ab"`. */
  lemma CollisionNamedAb(t: Table, alphabet: seq<Rune>, compound: seq<seq<string>>)
    requires CollisionList(t, alphabet, compound)
    ensures forall k :: 0 <= k < |compound| && Join(compound[k]) == "ab" ==>
              compound[k] == ["ab"] || compound[k] == ["a", "b"]
  {
    forall k | 0 <= k < |compound| && Join(compound[k]) == "ab"
      ensures compound[k] == ["ab"] || compound[k] == ["a", "b"]
    {
      CollisionNonEmptyNames(t, alphabet, compound, k);
      JoinTwoChars(compound[k]);
    }
  }

  /** Row `"ab"` on `'1'` holds the move of `[ab]`, to `"s"`, or that of `[a, b]`, to `""`. */
  lemma CollisionRowOfAb(t: Table, alphabet: seq<Rune>, compound: seq<seq<string>>)
    requires CollisionList(t, alphabet, compound)
    ensures var tr := Filled(t, compound, alphabet);
            "ab" in tr && One in tr["ab"] && (tr["ab"][One] == "s" || tr["ab"][One] == "")
  {
    assert Step(t, compound[0], One) in compound;
    CollisionNamedAb(t, alphabet, compound);
    JoinSingle("s");
    assert Join(["a", "b"]) == "ab";
    FilledRowOfTwo(t, compound, alphabet, "ab", One, ["a", "b"], ["ab"], "", "s");
  }

  /** `"s"` is an accepting name of the DFA and `""` is not. */
  lemma CollisionAccepting(t: Table, alphabet: seq<Rune>, compound: seq<seq<string>>, dfaAccepting: seq<string>)
    requires CollisionList(t, alphabet, compound)
    requires Elements(dfaAccepting) == AcceptNames(compound, ["s"])
    ensures "s" in dfaAccepting && "" !in dfaAccepting
  {
    JoinSingle("s");
    assert Meets(compound[0], ["s"]) by {
      assert "s" in compound[0] && "s" in ["s"];
    }
    assert "s" in Elements(dfaAccepting);
    forall j | 0 <= j < |compound| && Join(compound[j]) == "" ensures !Meets(compound[j], ["s"]) {
      CollisionNonEmptyNames(t, alphabet, compound, j);
      JoinNoneEmpty(compound[j]);
    }
    assert "" !in Elements(dfaAccepting);
  }

  /** A walk of two symbols. */
  lemma WalkTwo(tr: DTable, q: string, a: Rune, b: Rune)
    requires q in tr && a in tr[q] && tr[q][a] in tr && b in tr[tr[q][a]]
    ensures Walk(tr, q, [a, b]) == Some(tr[tr[q][a]][b])
  {
    assert [a, b][0] == a && [a, b][1..] == [b] && [b][0] == b && [b][1..] == [];
    assert Walk(tr, tr[q][a], [b]) == Walk(tr, tr[tr[q][a]][b], []);
  }

  /** A run of two symbols. */
  lemma RunTwo(t: Table, cur: seq<string>, a: Rune, b: Rune)
    ensures Run(t, cur, [a, b]) == Step(t, Step(t, cur, a), b)
  {
    assert [a, b][0] == a && [a, b][1..] == [b] && [b][0] == b && [b][1..] == [];
    assert Run(t, Step(t, cur, a), [b]) == Run(t, Step(t, Step(t, cur, a), b), []);
  }

  /**
   * Wherever `[a, b]` and `[ab]` both reach the list, the row `"ab"` holds the moves of the
   * later one only, so one of the words `11` and `21` walks to a name whose acceptance differs
   * from that of the NFA run.
   */
  lemma CollidingRows(t: Table, alphabet: seq<Rune>, compound: seq<seq<string>>, dfaAccepting: seq<string>)
    requires CollisionList(t, alphabet, compound)
    requires Elements(dfaAccepting) == AcceptNames(compound, ["s"])
    ensures var tr := Filled(t, compound, alphabet);
            || (Walk(tr, "s", [One, One]) == Some("s") && "s" in dfaAccepting && Run(t, ["s"], [One, One]) == [])
            || (Walk(tr, "s", [Two, One]) == Some("") && "" !in dfaAccepting && Run(t, ["s"], [Two, One]) == ["s"])
  {
    var tr := Filled(t, compound, alphabet);
    CollisionRowOfS(t, alphabet, compound);
    CollisionRowOfAb(t, alphabet, compound);
    CollisionAccepting(t, alphabet, compound, dfaAccepting);
    WalkTwo(tr, "s", One, One);
    WalkTwo(tr, "s", Two, One);
    RunTwo(t, ["s"], One, One);
    RunTwo(t, ["s"], Two, One);
  }

  /** The moves and names of the table that `CollidingRows` needs. */
  lemma CollisionFacts(t: Table, s: seq<string>, ab: seq<string>, aAndB: seq<string>, none: seq<string>)
    requires t == CollisionTable() && s == ["s"] && ab == ["ab"] && aAndB == ["a", "b"] && none == []
    ensures Step(t, s, One) == aAndB && Step(t, s, Two) == ab
    ensures Step(t, aAndB, One) == none && Step(t, ab, One) == s
  {
    CollisionStepSOne(t, s, aAndB);
    CollisionStepSTwo(t, s, ab);
    CollisionStepABOne(t, aAndB, none);
    CollisionStepAbOne(t, ab, s);
  }

  /** `CollidingRows` on the table itself, for any order of its two symbols. */
  lemma JoinCollision(t: Table, alphabet: seq<Rune>, compound: seq<seq<string>>, dfaAccepting: seq<string>)
    requires t == CollisionTable() && Elements(alphabet) == {One, Two}
    requires DistinctSubsets(compound, Universe(t, "s")) && ClosedList(t, "s", alphabet, compound)
    requires Elements(dfaAccepting) == AcceptNames(compound, ["s"])
    ensures var tr := Filled(t, compound, alphabet);
            || (Walk(tr, "s", [One, One]) == Some("s") && "s" in dfaAccepting && Run(t, ["s"], [One, One]) == [])
            || (Walk(tr, "s", [Two, One]) == Some("") && "" !in dfaAccepting && Run(t, ["s"], [Two, One]) == ["s"])
  {
    CollisionFacts(t, ["s"], ["ab"], ["a", "b"], []);
    CollisionUniverse(t);
    assert One in Elements(alphabet) && Two in Elements(alphabet);
    CollidingRows(t, alphabet, compound, dfaAccepting);
  }

  /** The symbols of the table are `'1'` and `'2'`. */
  lemma CollisionSymbols(t: Table)
    requires t == CollisionTable()
    ensures SymbolsOf(t, t.Keys) == {One, Two}
  {
    assert One in t["s"] && Two in t["s"];
  }

  /**
   * `NFAfromTable` and `NFAtoDFA` on the table `">*s"`, `"ab"`: in the DFA, either `11` leads
   * to an accepting state while the NFA run is empty, or `21` leads to a non-accepting state
   * while the NFA run is `[s]`.
   */
  method CollisionNFAtoDFA() returns (dfa: DFA, ghost compound: seq<seq<string>>)
    ensures || (Walk(dfa.transition, dfa.initialState, [One, One]) == Some("s") && "s" in dfa.acceptingStates
                && Run(CollisionTable(), ["s"], [One, One]) == [])
            || (Walk(dfa.transition, dfa.initialState, [Two, One]) == Some("") && "" !in dfa.acceptingStates
                && Run(CollisionTable(), ["s"], [Two, One]) == ["s"])
  {
    var table := map[">*s" := CollisionRowS(), "ab" := CollisionRowAb()];
    ScanMarkedThenPlain("s", "ab", CollisionRowS(), CollisionRowAb());
    assert ">*" + "s" == ">*s";
    assert Elements([">*s", "ab"]) == table.Keys;
    var res := NFAFromTable(table, [">*s", "ab"]);
    var nfa := res.value;
    CollisionSymbols(nfa.transition);
    dfa, compound := NFAtoDFA(nfa);
    JoinCollision(nfa.transition, nfa.alphabet, compound, dfa.acceptingStates);
  }
}

/**
 * The NFA record of nfa.go, its table builder `NFAfromTable` and its simulation
 * (`Reset`, `IsAccepted`, `Next`).  Epsilon is rune 0.  `Next` is modelled as
 * written: the union of the direct successors followed by two passes of epsilon
 * expansion, each pass over as many positions as the set had when it began.
 */
module Nfa {

  import opened Wrappers
  import opened States

  /** Go's `rune`, a 32-bit signed integer. */
  newtype Rune = r: int | -0x8000_0000 <= r < 0x8000_0000

  /** The rune `Next` treats as a spontaneous move. */
  const Epsilon: Rune := 0

  type Row = map<Rune, seq<string>>
  type Table = map<string, Row>

  /** The names a table lists for state `c` on `r`; a missing row or entry lists none. */
  function Targets(t: Table, c: string, r: Rune): seq<string>
  {
    if c in t && r in t[c] then t[c][r] else []
  }

  /** Every name that some current state reaches by one `r` move. */
  ghost function Successors(t: Table, cur: seq<string>, r: Rune): set<string>
  {
    set c, x | c in cur && x in Targets(t, c, r) :: x
  }

  /** Every name that appears as a target anywhere in the table. */
  ghost function AllTargets(t: Table): set<string>
  {
    set c, r, x | c in t && r in t[c] && x in t[c][r] :: x
  }

  /** No row has an entry for rune 0. */
  ghost predicate NoEpsilonMoves(t: Table)
  {
    forall c :: c in t ==> Epsilon !in t[c]
  }

  /** Each name of `p` is an epsilon target of the one before it. */
  ghost predicate EpsilonChain(t: Table, p: seq<string>)
  {
    forall k :: 0 <= k < |p| - 1 ==> p[k + 1] in Targets(t, p[k], Epsilon)
  }

  /** `x` is reached from a name in `from` by zero or more epsilon moves. */
  ghost predicate EpsilonReachable(t: Table, from: set<string>, x: string)
  {
    exists p :: |p| > 0 && p[0] in from && EpsilonChain(t, p) && p[|p| - 1] == x
  }

  /** Some current state is also an accepting state. */
  ghost predicate Meets(cur: seq<string>, accepting: seq<string>)
  {
    exists x :: x in cur && x in accepting
  }

  // ---------------------------------------------------------------------------
  // Next as a function of the table and the current states
  // ---------------------------------------------------------------------------

  lemma SuccessorsSnoc(t: Table, cur: seq<string>, c: string, r: Rune)
    ensures Successors(t, cur + [c], r) == Successors(t, cur, r) + Elements(Targets(t, c, r))
  {
    forall x ensures x in Successors(t, cur + [c], r) <==> x in Successors(t, cur, r) + Elements(Targets(t, c, r)) {
      if x in Successors(t, cur + [c], r) {
        var c' :| c' in cur + [c] && x in Targets(t, c', r);
        if c' != c {
          assert c' in cur;
        }
      }
      if x in Elements(Targets(t, c, r)) {
        assert c in cur + [c];
      }
      if x in Successors(t, cur, r) {
        var c' :| c' in cur && x in Targets(t, c', r);
        assert c' in cur + [c];
      }
    }
  }

  /** The body of either loop of `Next` for state `c`: `addmany` of its `r` entry, when it has a row with one. */
  function AddMoves(t: Table, ss: seq<string>, c: string, r: Rune): seq<string>
  {
    if c in t && r in t[c] then AddedMany(ss, t[c][r]) else ss
  }

  /** Skipping a missing row or entry is the same as adding its (no) targets. */
  lemma AddMovesTargets(t: Table, ss: seq<string>, c: string, r: Rune)
    ensures AddMoves(t, ss, c, r) == AddedMany(ss, Targets(t, c, r))
  {
    AddManyNone(ss);
  }

  /** The first loop of `Next`: `addmany` of the `r` targets of each current state in turn. */
  function Gathered(t: Table, cur: seq<string>, r: Rune): (nxts: seq<string>)
    decreases |cur|
  {
    if cur == [] then [] else
      var init := cur[..|cur| - 1];
      AddMoves(t, Gathered(t, init, r), cur[|cur| - 1], r)
  }

  /**
   * One epsilon pass of `Next` from position `i` on: `n` positions were fixed when the
   * pass began, and each reads the set as it is now, grown and re-sorted.
   */
  function ClosePass(t: Table, ss: seq<string>, i: nat, n: nat): (r: seq<string>)
    requires n <= |ss|
    decreases n - i
  {
    if i >= n then ss
    else ClosePass(t, AddMoves(t, ss, ss[i], Epsilon), i + 1, n)
  }

  /** What `Next(r)` returns from current states `cur`: the direct successors, then two passes. */
  function Step(t: Table, cur: seq<string>, r: Rune): seq<string>
  {
    var direct := Gathered(t, cur, r);
    var once := ClosePass(t, direct, 0, |direct|);
    ClosePass(t, once, 0, |once|)
  }

  /** The current states after feeding a word to `Next`, one rune at a time. */
  function Run(t: Table, cur: seq<string>, w: seq<Rune>): seq<string>
    decreases |w|
  {
    if w == [] then cur else Run(t, Step(t, cur, w[0]), w[1..])
  }

  // ---------------------------------------------------------------------------
  // What Next promises
  // ---------------------------------------------------------------------------

  /** The first loop collects exactly the direct successors, sorted and without repeats. */
  lemma {:induction false} GatheredSorted(t: Table, cur: seq<string>, r: Rune)
    ensures StrictlySorted(Gathered(t, cur, r))
    ensures Elements(Gathered(t, cur, r)) == Successors(t, cur, r)
    decreases |cur|
  {
    if cur != [] {
      var init := cur[..|cur| - 1];
      GatheredSorted(t, init, r);
      AddMovesTargets(t, Gathered(t, init, r), cur[|cur| - 1], r);
      assert cur == init + [cur[|cur| - 1]];
      SuccessorsSnoc(t, init, cur[|cur| - 1], r);
    }
  }

  /** The first loop after one more current state. */
  lemma GatheredSnoc(t: Table, cur: seq<string>, j: nat, r: Rune)
    requires j < |cur|
    ensures Gathered(t, cur[..j + 1], r) == AddMoves(t, Gathered(t, cur[..j], r), cur[j], r)
  {
    assert cur[..j + 1][..j] == cur[..j];
  }

  /** An epsilon pass only adds names, and keeps the set sorted and without repeats. */
  lemma {:induction false} ClosePassGrows(t: Table, ss: seq<string>, i: nat, n: nat)
    requires n <= |ss|
    ensures |ss| <= |ClosePass(t, ss, i, n)|
    ensures Elements(ss) <= Elements(ClosePass(t, ss, i, n))
    ensures StrictlySorted(ss) ==> StrictlySorted(ClosePass(t, ss, i, n))
    decreases n - i
  {
    if i < n {
      var more := AddMoves(t, ss, ss[i], Epsilon);
      AddMovesTargets(t, ss, ss[i], Epsilon);
      assert |ss| <= |more| && Elements(ss) <= Elements(more);
      ClosePassGrows(t, more, i + 1, n);
    }
  }

  /** `Next(r)` returns a sorted, duplicate-free set holding every direct `r` successor. */
  lemma StepSorted(t: Table, cur: seq<string>, r: Rune)
    ensures StrictlySorted(Step(t, cur, r))
    ensures Successors(t, cur, r) <= Elements(Step(t, cur, r))
  {
    var direct := Gathered(t, cur, r);
    GatheredSorted(t, cur, r);
    ClosePassGrows(t, direct, 0, |direct|);
    var once := ClosePass(t, direct, 0, |direct|);
    ClosePassGrows(t, once, 0, |once|);
  }

  lemma ReachableStart(t: Table, from: set<string>, x: string)
    requires x in from
    ensures EpsilonReachable(t, from, x)
  {
    assert EpsilonChain(t, [x]);
  }

  lemma ReachableExtend(t: Table, from: set<string>, y: string, x: string)
    requires EpsilonReachable(t, from, y) && x in Targets(t, y, Epsilon)
    ensures EpsilonReachable(t, from, x)
  {
    var p :| |p| > 0 && p[0] in from && EpsilonChain(t, p) && p[|p| - 1] == y;
    var q := p + [x];
    assert EpsilonChain(t, q) by {
      forall k | 0 <= k < |q| - 1 ensures q[k + 1] in Targets(t, q[k], Epsilon) {
        if k < |p| - 1 {
          assert q[k] == p[k] && q[k + 1] == p[k + 1];
        }
      }
    }
    assert q[0] == p[0] && q[|q| - 1] == x;
  }

  lemma {:induction false} ClosePassSound(t: Table, ss: seq<string>, i: nat, n: nat, from: set<string>)
    requires n <= |ss|
    requires forall y :: y in ss ==> EpsilonReachable(t, from, y)
    ensures forall x :: x in ClosePass(t, ss, i, n) ==> EpsilonReachable(t, from, x)
    decreases n - i
  {
    if i < n {
      var more := Targets(t, ss[i], Epsilon);
      var ss' := AddMoves(t, ss, ss[i], Epsilon);
      AddMovesTargets(t, ss, ss[i], Epsilon);
      forall y | y in ss' ensures EpsilonReachable(t, from, y) {
        assert y in Elements(ss');
        if y !in ss {
          assert y in more;
          ReachableExtend(t, from, ss[i], y);
        }
      }
      ClosePassSound(t, ss', i + 1, n, from);
    }
  }

  /** Soundness: every name `Next(r)` returns is one `r` move and some epsilon moves away. */
  lemma StepSound(t: Table, cur: seq<string>, r: Rune)
    ensures forall x :: x in Step(t, cur, r) ==> EpsilonReachable(t, Successors(t, cur, r), x)
  {
    var from := Successors(t, cur, r);
    var direct := Gathered(t, cur, r);
    GatheredSorted(t, cur, r);
    forall y | y in direct ensures EpsilonReachable(t, from, y) {
      assert y in Elements(direct);
      ReachableStart(t, from, y);
    }
    ClosePassSound(t, direct, 0, |direct|, from);
    var once := ClosePass(t, direct, 0, |direct|);
    ClosePassSound(t, once, 0, |once|, from);
  }

  /** A position with no epsilon moves leaves the set as it is. */
  lemma ClosePassSkip(t: Table, ss: seq<string>, i: nat, n: nat)
    requires i < n <= |ss| && (ss[i] !in t || Epsilon !in t[ss[i]])
    ensures ClosePass(t, ss, i, n) == ClosePass(t, ss, i + 1, n)
  {
  }

  lemma {:induction false} ClosePassNoEpsilon(t: Table, ss: seq<string>, i: nat, n: nat)
    requires n <= |ss| && NoEpsilonMoves(t)
    ensures ClosePass(t, ss, i, n) == ss
    decreases n - i
  {
    if i < n {
      assert ss[i] in t ==> Epsilon !in t[ss[i]];
      ClosePassSkip(t, ss, i, n);
      ClosePassNoEpsilon(t, ss, i + 1, n);
    }
  }

  /** Without rune-0 entries `Next(r)` is exactly the sorted union of the direct successors. */
  lemma StepNoEpsilon(t: Table, cur: seq<string>, r: Rune)
    requires NoEpsilonMoves(t)
    ensures Step(t, cur, r) == Gathered(t, cur, r)
    ensures Elements(Step(t, cur, r)) == Successors(t, cur, r)
  {
    var direct := Gathered(t, cur, r);
    GatheredSorted(t, cur, r);
    ClosePassNoEpsilon(t, direct, 0, |direct|);
  }

  /** From no current state `Next` reaches none, whatever the table. */

  /** Without epsilon moves, `Next` is the one strictly sorted slice holding the direct successors. */
  lemma StepNoEpsilonUnique(t: Table, cur: seq<string>, r: Rune, u: seq<string>)
    requires NoEpsilonMoves(t)
    requires StrictlySorted(u) && Elements(u) == Successors(t, cur, r)
    ensures Step(t, cur, r) == u
  {
    StepNoEpsilon(t, cur, r);
    StepSorted(t, cur, r);
    StrictlySortedSetEquality(Step(t, cur, r), u);
  }
  lemma StepFromEmpty(t: Table, r: Rune)
    ensures Step(t, [], r) == []
  {
  }

  lemma {:induction false} ClosePassWithin(t: Table, ss: seq<string>, i: nat, n: nat)
    requires n <= |ss| && Elements(ss) <= AllTargets(t)
    ensures Elements(ClosePass(t, ss, i, n)) <= AllTargets(t)
    decreases n - i
  {
    if i < n {
      var more := Targets(t, ss[i], Epsilon);
      assert Elements(more) <= AllTargets(t);
      AddMovesTargets(t, ss, ss[i], Epsilon);
      ClosePassWithin(t, AddMoves(t, ss, ss[i], Epsilon), i + 1, n);
    }
  }

  /** Every name `Next` returns is a target listed somewhere in the table. */
  lemma StepWithin(t: Table, cur: seq<string>, r: Rune)
    ensures Elements(Step(t, cur, r)) <= AllTargets(t)
  {
    var direct := Gathered(t, cur, r);
    GatheredSorted(t, cur, r);
    assert Elements(direct) <= AllTargets(t);
    ClosePassWithin(t, direct, 0, |direct|);
    ClosePassWithin(t, ClosePass(t, direct, 0, |direct|), 0, |ClosePass(t, direct, 0, |direct|)|);
  }

  /** The chain a -1-> x -0-> y -0-> z -0-> w, on which the two passes stop short of w. */
  function ChainTable(): Table
  {
    map["a" := map[1 := ["x"]], "x" := map[Epsilon := ["y"]], "y" := map[Epsilon := ["z"]], "z" := map[Epsilon := ["w"]]]
  }

  lemma StepUnfold(t: Table, cur: seq<string>, r: Rune)
    ensures Step(t, cur, r) ==
            ClosePass(t, ClosePass(t, Gathered(t, cur, r), 0, |Gathered(t, cur, r)|), 0,
                      |ClosePass(t, Gathered(t, cur, r), 0, |Gathered(t, cur, r)|)|)
  {
  }

  /** One position of an epsilon pass, as a lemma so the chain example can take it step by step. */
  lemma ClosePassUnfold(t: Table, ss: seq<string>, i: nat, n: nat)
    requires i < n <= |ss|
    ensures ClosePass(t, ss, i, n) == ClosePass(t, AddMoves(t, ss, ss[i], Epsilon), i + 1, n)
  {
  }

  lemma ChainDirect()
    ensures Gathered(ChainTable(), ["a"], 1) == ["x"]
  {
    assert ["a"][..0] == [];
    assert "a" in ChainTable() && 1 in ChainTable()["a"] && ChainTable()["a"][1] == ["x"];
    AddManyUnion([], ["x"], ["x"]);
  }

  lemma ChainAddX()
    ensures AddedMany(["x"], ["y"]) == ["x", "y"]
  {
    assert Less("x", "y");
    assert StrictlySorted(["x", "y"]);
    assert Elements(["x", "y"]) == Elements(["x"]) + Elements(["y"]);
    AddManyUnion(["x"], ["y"], ["x", "y"]);
  }

  lemma ChainFirstPass()
    ensures ClosePass(ChainTable(), ["x"], 0, 1) == ["x", "y"]
  {
    var t := ChainTable();
    var x: seq<string> := ["x"];
    var xy: seq<string> := ["x", "y"];
    assert x[0] in t && Epsilon in t[x[0]] && t[x[0]][Epsilon] == ["y"];
    ChainAddX();
    ClosePassUnfold(t, x, 0, 1);
    assert ClosePass(t, xy, 1, 1) == xy;
  }

  lemma ChainAddY()
    ensures AddedMany(["x", "y"], ["y"]) == ["x", "y"]
  {
    assert Less("x", "y");
    assert StrictlySorted(["x", "y"]);
    assert Elements(["x", "y"]) == Elements(["x", "y"]) + Elements(["y"]);
    AddManyUnion(["x", "y"], ["y"], ["x", "y"]);
  }

  lemma ChainAddZ()
    ensures AddedMany(["x", "y"], ["z"]) == ["x", "y", "z"]
  {
    assert Less("x", "y") && Less("y", "z") && Less("x", "z");
    assert StrictlySorted(["x", "y"]) && StrictlySorted(["x", "y", "z"]);
    assert Elements(["x", "y", "z"]) == Elements(["x", "y"]) + Elements(["z"]);
    AddManyUnion(["x", "y"], ["z"], ["x", "y", "z"]);
  }

  lemma ChainSecondPass()
    ensures ClosePass(ChainTable(), ["x", "y"], 0, 2) == ["x", "y", "z"]
  {
    var t := ChainTable();
    var xy: seq<string> := ["x", "y"];
    var xyz: seq<string> := ["x", "y", "z"];
    assert "x" in t && Epsilon in t["x"] && t["x"][Epsilon] == ["y"];
    assert "y" in t && Epsilon in t["y"] && t["y"][Epsilon] == ["z"];
    ClosePassUnfold(t, xy, 0, 2);
    ChainAddY();
    assert ClosePass(t, xy, 0, 2) == ClosePass(t, xy, 1, 2);
    ClosePassUnfold(t, xy, 1, 2);
    ChainAddZ();
    assert ClosePass(t, xy, 1, 2) == ClosePass(t, xyz, 2, 2);
  }

  lemma ChainMissesW(s: seq<string>)
    requires s == ["x", "y", "z"]
    ensures "z" in s && "w" !in s
  {
    assert "w" != "x" && "w" != "y" && "w" != "z";
  }

  /** Two bounded passes are not an epsilon closure: `w` is an epsilon move from `z` but missing. */
  lemma StepIsNotClosure()
    ensures Step(ChainTable(), ["a"], 1) == ["x", "y", "z"]
    ensures "z" in Step(ChainTable(), ["a"], 1) && "w" in Targets(ChainTable(), "z", Epsilon)
    ensures "w" !in Step(ChainTable(), ["a"], 1)
  {
    var t := ChainTable();
    ChainDirect();
    var direct := Gathered(t, ["a"], 1);
    ChainFirstPass();
    var once := ClosePass(t, direct, 0, |direct|);
    assert once == ["x", "y"];
    ChainSecondPass();
    assert ClosePass(t, once, 0, |once|) == ["x", "y", "z"];
    StepUnfold(t, ["a"], 1);
    ChainMissesW(Step(t, ["a"], 1));
  }

  // ---------------------------------------------------------------------------
  // NFAfromTable as a function of the table and of the order its keys are visited in
  // ---------------------------------------------------------------------------

  datatype BuildError = DuplicateStateRow(state: string)

  /** The variables of the first loop of `NFAfromTable`. */
  datatype Scan = Scan(table: Table, states: seq<string>, initial: string, accepting: seq<string>)

  /** A row label the loop can read: Go indexes its first byte, and again after a leading '>'. */
  predicate Readable(key: string)
  {
    |key| > 0 && (key[0] == '>' ==> |key| > 1)
  }

  /** The state name a row label stands for: a leading '>' goes, then a leading '*'. */
  function StripMarkers(key: string): string
    requires Readable(key)
  {
    var l := if key[0] == '>' then key[1..] else key;
    if l[0] == '*' then l[1..] else l
  }

  /**
   * One iteration of the first loop on original key `key`.  A key deleted by an
   * earlier rewrite before its turn is not produced by the range; a present key is
   * re-stored without its '>' and then without its '*'.
   */
  function ScanRow(p: Scan, key: string): Result<Scan, BuildError>
    requires Readable(key)
  {
    if key !in p.table then Ok(p) else
      var t1 := if key[0] == '>' then p.table[key[1..] := p.table[key]] - {key} else p.table;
      var s1 := if key[0] == '>' then key[1..] else key;
      var i1 := if key[0] == '>' then s1 else p.initial;
      assert s1 in t1 by {
        assert key[0] == '>' ==> |key[1..]| != |key|;
      }
      var t2 := if s1[0] == '*' then t1[s1[1..] := t1[s1]] - {s1} else t1;
      var i2 := if s1[0] == '*' && i1 == s1 then s1[1..] else i1;
      var name := if s1[0] == '*' then s1[1..] else s1;
      var a2 := if s1[0] == '*' then p.accepting + [name] else p.accepting;
      if name in p.states then Err(DuplicateStateRow(name))
      else Ok(Scan(t2, p.states + [name], i2, a2))
  }

  /** The whole first loop over the keys in the order the range produces them. */
  function ScanRows(p: Scan, keys: seq<string>): Result<Scan, BuildError>
    requires forall k :: k in keys ==> Readable(k)
    decreases |keys|
  {
    if keys == [] then Ok(p) else
      match ScanRow(p, keys[0])
      case Err(e) => Err(e)
      case Ok(q) => ScanRows(q, keys[1..])
  }

  /** The scan the loop starts from. */
  function StartScan(t: Table): Scan
  {
    Scan(t, [], "", [])
  }

  /** The runes that are keys of the rows named in `names`. */
  ghost function SymbolsOf(t: Table, names: set<string>): set<Rune>
  {
    set n, r | n in names && n in t && r in t[n] :: r
  }

  // ---------------------------------------------------------------------------
  // What the label parsing promises
  // ---------------------------------------------------------------------------

  /** `">*x"`: `x` is stored, initial and accepting; both `">*x"` and `"*x"` leave the table. */
  lemma ScanBothMarkers(p: Scan, key: string)
    requires |key| > 1 && key[0] == '>' && key[1] == '*'
    requires key in p.table && key[2..] !in p.states
    ensures ScanRow(p, key) ==
            Ok(Scan((p.table - {key, key[1..]})[key[2..] := p.table[key]], p.states + [key[2..]], key[2..], p.accepting + [key[2..]]))
  {
    assert key[1..][1..] == key[2..];
    var t1 := p.table[key[1..] := p.table[key]] - {key};
    var t2 := t1[key[2..] := t1[key[1..]]] - {key[1..]};
    assert t2 == (p.table - {key, key[1..]})[key[2..] := p.table[key]] by {
      assert |key[2..]| < |key[1..]| < |key|;
    }
  }

  /** `">x"`: `x` is stored and initial, not accepting. */
  lemma ScanInitialMarker(p: Scan, key: string)
    requires |key| > 1 && key[0] == '>' && key[1] != '*'
    requires key in p.table && key[1..] !in p.states
    ensures ScanRow(p, key) == Ok(Scan((p.table - {key})[key[1..] := p.table[key]], p.states + [key[1..]], key[1..], p.accepting))
  {
    var t1 := p.table[key[1..] := p.table[key]] - {key};
    assert t1 == (p.table - {key})[key[1..] := p.table[key]] by {
      assert |key[1..]| < |key|;
    }
  }

  /**
   * `"*x"`: `x` is stored and accepting; the initial state changes only when it is the
   * label `"*x"` itself.  A '>' after the '*' is part of the name.
   */
  lemma ScanAcceptingMarker(p: Scan, key: string)
    requires |key| > 0 && key[0] == '*'
    requires key in p.table && key[1..] !in p.states
    ensures ScanRow(p, key) ==
            Ok(Scan((p.table - {key})[key[1..] := p.table[key]], p.states + [key[1..]],
                    if p.initial == key then key[1..] else p.initial, p.accepting + [key[1..]]))
  {
    var t1 := p.table[key[1..] := p.table[key]] - {key};
    assert t1 == (p.table - {key})[key[1..] := p.table[key]] by {
      assert |key[1..]| < |key|;
    }
  }

  /** A label without markers is its own name and leaves the table as it is. */
  lemma ScanNoMarker(p: Scan, x: string)
    requires |x| > 0 && x[0] != '>' && x[0] != '*' && x in p.table && x !in p.states
    ensures ScanRow(p, x) == Ok(Scan(p.table, p.states + [x], p.initial, p.accepting))
  {
  }

  /** A row whose stripped label is already a state fails with `DuplicateStateRow`. */
  lemma ScanDuplicate(p: Scan, key: string)
    requires Readable(key) && key in p.table && StripMarkers(key) in p.states
    ensures ScanRow(p, key) == Err(DuplicateStateRow(StripMarkers(key)))
  {
  }

  /** The states the loop has collected so far stay duplicate-free. */
  lemma {:induction false} ScanRowsNoDup(p: Scan, keys: seq<string>)
    requires forall k :: k in keys ==> Readable(k)
    requires NoDup(p.states)
    ensures ScanRows(p, keys).Ok? ==> NoDup(ScanRows(p, keys).value.states)
    decreases |keys|
  {
    if keys != [] {
      match ScanRow(p, keys[0])
      case Err(_) =>
      case Ok(q) =>
        assert NoDup(q.states);
        ScanRowsNoDup(q, keys[1..]);
    }
  }

  /** One row either adds its stripped name to the states or fails naming a state already there. */
  lemma ScanRowOutcome(p: Scan, key: string)
    requires Readable(key)
    ensures ScanRow(p, key).Ok? ==> key !in p.table || ScanRow(p, key).value.states == p.states + [StripMarkers(key)]
    ensures ScanRow(p, key).Err? ==>
              key in p.table && StripMarkers(key) in p.states &&
              ScanRow(p, key).error == DuplicateStateRow(StripMarkers(key))
  {
  }

  /** A duplicate-row error names a state two keys strip to (or one already collected). */
  lemma {:induction false} ScanRowsError(p: Scan, keys: seq<string>)
    requires forall k :: k in keys ==> Readable(k)
    ensures ScanRows(p, keys).Err? ==>
              var s := ScanRows(p, keys).error.state;
              (s in p.states && exists i :: 0 <= i < |keys| && StripMarkers(keys[i]) == s) ||
              (exists i, j :: 0 <= i < j < |keys| && StripMarkers(keys[i]) == s && StripMarkers(keys[j]) == s)
    decreases |keys|
  {
    if keys != [] {
      assert keys[0] in keys;
      ScanRowOutcome(p, keys[0]);
      match ScanRow(p, keys[0])
      case Err(e) =>
        assert StripMarkers(keys[0]) == e.state;
      case Ok(q) =>
        ScanRowsError(q, keys[1..]);
        if ScanRows(q, keys[1..]).Err? {
          ScanRowsErrorLift(p, q, keys);
        }
    }
  }

  /** The error case of `ScanRowsError` after a row that succeeded, moved back by one key. */
  lemma ScanRowsErrorLift(p: Scan, q: Scan, keys: seq<string>)
    requires keys != [] && forall k :: k in keys ==> Readable(k)
    requires q.states == p.states || q.states == p.states + [StripMarkers(keys[0])]
    requires ScanRows(q, keys[1..]).Err?
    requires var s := ScanRows(q, keys[1..]).error.state;
             var rest := keys[1..];
             (s in q.states && exists i :: 0 <= i < |rest| && StripMarkers(rest[i]) == s) ||
             (exists i, j :: 0 <= i < j < |rest| && StripMarkers(rest[i]) == s && StripMarkers(rest[j]) == s)
    ensures var s := ScanRows(q, keys[1..]).error.state;
            (s in p.states && exists i :: 0 <= i < |keys| && StripMarkers(keys[i]) == s) ||
            (exists i, j :: 0 <= i < j < |keys| && StripMarkers(keys[i]) == s && StripMarkers(keys[j]) == s)
  {
    var s := ScanRows(q, keys[1..]).error.state;
    var rest := keys[1..];
    if s in q.states && exists i :: 0 <= i < |rest| && StripMarkers(rest[i]) == s {
      var i :| 0 <= i < |rest| && StripMarkers(rest[i]) == s;
      assert StripMarkers(keys[i + 1]) == s;
      if s !in p.states {
        assert s == StripMarkers(keys[0]);
      }
    } else {
      var i, j :| 0 <= i < j < |rest| && StripMarkers(rest[i]) == s && StripMarkers(rest[j]) == s;
      assert StripMarkers(keys[i + 1]) == s && StripMarkers(keys[j + 1]) == s;
    }
  }

  /** The names of a sequence of labels, in order. */
  function Names(keys: seq<string>): seq<string>
    requires forall k :: k in keys ==> Readable(k)
  {
    if keys == [] then [] else [StripMarkers(keys[0])] + Names(keys[1..])
  }

  /** A key that `key`'s rewrite does not delete stays in the table. */
  lemma ScanRowKeeps(p: Scan, key: string, other: string)
    requires Readable(key) && key in p.table && other in p.table && other != key
    requires ScanRow(p, key).Ok?
    requires !(key[0] == '>' && other == key[1..] && other[0] == '*')
    ensures other in ScanRow(p, key).value.table
  {
    if key[0] == '>' {
      assert other != key[1..][1..] || other in ScanRow(p, key).value.table;
    }
  }

  /** A key whose '>' rewrite deletes the `"*…"` key `k` stands for the same name as `k`. */
  lemma StripShared(key: string, k: string)
    requires Readable(key) && Readable(k)
    ensures key[0] == '>' && k == key[1..] && k[0] == '*' ==> StripMarkers(key) == StripMarkers(k)
  {
  }

  /** The conditions of `ScanRowsDistinct` for the keys still to come. */
  ghost predicate DistinctRows(p: Scan, keys: seq<string>)
  {
    && (forall k :: k in keys ==> Readable(k) && k in p.table)
    && NoDup(keys)
    && (forall i, j :: 0 <= i < j < |keys| ==> StripMarkers(keys[i]) != StripMarkers(keys[j]))
    && (forall k :: k in keys ==> StripMarkers(k) !in p.states)
  }

  /** One row of a table with distinct names succeeds and leaves the rest with distinct names. */
  lemma DistinctRowsStep(p: Scan, keys: seq<string>)
    requires keys != [] && DistinctRows(p, keys)
    ensures ScanRow(p, keys[0]).Ok?
    ensures ScanRow(p, keys[0]).value.states == p.states + [StripMarkers(keys[0])]
    ensures ScanRows(p, keys) == ScanRows(ScanRow(p, keys[0]).value, keys[1..])
    ensures DistinctRows(ScanRow(p, keys[0]).value, keys[1..])
  {
    var key := keys[0];
    var rest := keys[1..];
    assert key in keys;
    assert ScanRow(p, key).Ok?;
    var q := ScanRow(p, key).value;
    forall k | k in rest ensures Readable(k) && k in q.table {
      var j :| 0 <= j < |rest| && rest[j] == k;
      assert keys[j + 1] == k;
      StripShared(key, k);
      ScanRowKeeps(p, key, k);
    }
    forall i, j | 0 <= i < j < |rest| ensures rest[i] != rest[j] && StripMarkers(rest[i]) != StripMarkers(rest[j]) {
      assert rest[i] == keys[i + 1] && rest[j] == keys[j + 1];
    }
    forall k | k in rest ensures StripMarkers(k) !in q.states {
      var j :| 0 <= j < |rest| && rest[j] == k;
      assert keys[j + 1] == k;
    }
  }

  /**
   * When the keys strip to pairwise different names, none of them is lost to an earlier
   * rewrite: the loop succeeds and collects exactly those names, in order.
   */
  lemma {:induction false} ScanRowsDistinct(p: Scan, keys: seq<string>)
    requires DistinctRows(p, keys)
    ensures ScanRows(p, keys).Ok?
    ensures ScanRows(p, keys).value.states == p.states + Names(keys)
    decreases |keys|
  {
    if keys != [] {
      DistinctRowsStep(p, keys);
      var q := ScanRow(p, keys[0]).value;
      ScanRowsDistinct(q, keys[1..]);
      assert Names(keys) == [StripMarkers(keys[0])] + Names(keys[1..]);
      assert q.states + Names(keys[1..]) == p.states + Names(keys);
    }
  }

  /** No label with '>' leaves the initial state empty, and that is not an error. */
  lemma {:induction false} ScanRowsNoInitial(p: Scan, keys: seq<string>)
    requires forall k :: k in keys ==> Readable(k) && k[0] != '>'
    requires p.initial == ""
    ensures ScanRows(p, keys).Ok? ==> ScanRows(p, keys).value.initial == ""
    decreases |keys|
  {
    if keys != [] {
      match ScanRow(p, keys[0])
      case Err(_) =>
      case Ok(q) =>
        assert q.initial == "";
        ScanRowsNoInitial(q, keys[1..]);
    }
  }

  /** A table of a row `">*x"` and a plain row `y`, scanned in that order: `x` is initial and accepting. */
  lemma ScanMarkedThenPlain(x: string, y: string, rx: Row, ry: Row)
    requires |y| > 0 && y[0] != '>' && y[0] != '*' && y != x
    ensures ScanRows(StartScan(map[">*" + x := rx, y := ry]), [">*" + x, y]) ==
            Ok(Scan(map[x := rx, y := ry], [x, y], x, [x]))
  {
    var key := ">*" + x;
    var t0 := map[key := rx, y := ry];
    assert key[0] == '>' && key[1] == '*' && key[1..] == "*" + x && key[2..] == x;
    assert y != key && y != key[1..] by {
      assert y[0] != key[0] && y[0] != key[1..][0];
    }
    ScanBothMarkers(StartScan(t0), key);
    var t1 := map[x := rx, y := ry];
    assert (t0 - {key, key[1..]})[key[2..] := t0[key]] == t1;
    var q := Scan(t1, [x], x, [x]);
    assert ScanRow(StartScan(t0), key) == Ok(q) by {
      assert StartScan(t0).states + [x] == [x] && StartScan(t0).accepting + [x] == [x];
    }
    ScanNoMarker(q, y);
    assert [x] + [y] == [x, y];
    assert [key, y][0] == key && [key, y][1..] == [y];
    assert ScanRows(StartScan(t0), [key, y]) == ScanRows(q, [y]);
    assert [y][0] == y && [y][1..] == [];
    assert ScanRows(q, [y]) == ScanRows(Scan(t1, [x, y], x, [x]), []);
  }

  /** The rows of the table in nfatodfa_test.go, labelled the way the test labels them. */
  function TestRowF(): Row { map['0' as int as Rune := ["f", "n"], '1' as int as Rune := ["n"]] }
  function TestRowN(): Row { map['0' as int as Rune := ["f"], '1' as int as Rune := ["n"]] }

  /** The marked key `>*f`: both markers are stripped, `f` is initial and accepting. */
  lemma ScanTestFirst()
    ensures ScanRow(StartScan(map[">*f" := TestRowF(), "n" := TestRowN()]), ">*f") ==
            Ok(Scan(map["f" := TestRowF(), "n" := TestRowN()], ["f"], "f", ["f"]))
  {
    var t0 := map[">*f" := TestRowF(), "n" := TestRowN()];
    assert ">*f"[1..] == "*f" && ">*f"[2..] == "f";
    ScanBothMarkers(StartScan(t0), ">*f");
    var t1 := (t0 - {">*f", "*f"})["f" := TestRowF()];
    assert t1 == map["f" := TestRowF(), "n" := TestRowN()];
    assert StartScan(t0).states == [] && StartScan(t0).accepting == [];
    assert t0[">*f"] == TestRowF();
    assert (t0 - {">*f", ">*f"[1..]})[">*f"[2..] := t0[">*f"]] == t1;
    var e := Scan((t0 - {">*f", ">*f"[1..]})[">*f"[2..] := t0[">*f"]], StartScan(t0).states + [">*f"[2..]], ">*f"[2..], StartScan(t0).accepting + [">*f"[2..]]);
    assert ScanRow(StartScan(t0), ">*f") == Ok(e);
    assert e.states == ["f"];
  }

  /** The plain key `n` is collected as it is. */
  lemma ScanTestSecond()
    ensures ScanRow(Scan(map["f" := TestRowF(), "n" := TestRowN()], ["f"], "f", ["f"]), "n") ==
            Ok(Scan(map["f" := TestRowF(), "n" := TestRowN()], ["f", "n"], "f", ["f"]))
  {
    var q := Scan(map["f" := TestRowF(), "n" := TestRowN()], ["f"], "f", ["f"]);
    ScanNoMarker(q, "n");
    assert q.states + ["n"] == ["f", "n"];
  }

  /** The test table `">*f"`, `"n"` parses to initial and accepting `f`, states `f` and `n`. */
  lemma ScanTestTable()
    ensures ScanRows(StartScan(map[">*f" := TestRowF(), "n" := TestRowN()]), [">*f", "n"]) ==
            Ok(Scan(map["f" := TestRowF(), "n" := TestRowN()], ["f", "n"], "f", ["f"]))
  {
    ScanMarkedThenPlain("f", "n", TestRowF(), TestRowN());
    assert ">*" + "f" == ">*f";
  }


  // ---------------------------------------------------------------------------
  // The NFA record and its methods
  // ---------------------------------------------------------------------------

  class NFA {
    var states: seq<string>
    var alphabet: seq<Rune>
    var initialState: string
    var acceptingStates: seq<string>
    var currentStates: seq<string>
    var transition: Table

    /** An `NFA` struct literal. */
    constructor (states: seq<string>, alphabet: seq<Rune>, initialState: string,
                 acceptingStates: seq<string>, currentStates: seq<string>, transition: Table)
      ensures this.states == states && this.alphabet == alphabet && this.initialState == initialState
      ensures this.acceptingStates == acceptingStates && this.currentStates == currentStates
      ensures this.transition == transition
    {
      this.states := states;
      this.alphabet := alphabet;
      this.initialState := initialState;
      this.acceptingStates := acceptingStates;
      this.currentStates := currentStates;
      this.transition := transition;
    }

    /** `Reset`: the current states become exactly the initial state, with no epsilon closure. */
    method Reset() returns (cur: seq<string>)
      modifies this`currentStates
      ensures currentStates == [initialState] && cur == currentStates
    {
      currentStates := [initialState];
      cur := currentStates;
    }

    /** `IsAccepted`: a nested search for a current state among the accepting ones. */
    method IsAccepted() returns (accepted: bool)
      ensures accepted <==> Meets(currentStates, acceptingStates)
    {
      for i := 0 to |acceptingStates|
        invariant forall x :: x in acceptingStates[..i] ==> x !in currentStates
      {
        for j := 0 to |currentStates|
          invariant forall k :: 0 <= k < j ==> currentStates[k] != acceptingStates[i]
        {
          if acceptingStates[i] == currentStates[j] {
            assert acceptingStates[i] in currentStates;
            return true;
          }
        }
        assert acceptingStates[..i + 1] == acceptingStates[..i] + [acceptingStates[i]];
      }
      assert acceptingStates[..|acceptingStates|] == acceptingStates;
      return false;
    }

    /** `Next(r)`: the new current states are `Step` of the old ones, and are returned. */
    method Next(r: Rune) returns (reached: seq<string>)
      modifies this`currentStates
      ensures reached == Step(transition, old(currentStates), r)
      ensures currentStates == reached
    {
      var nxts := new StateSet([]);
      for j := 0 to |currentStates|
        invariant currentStates == old(currentStates)
        invariant nxts.elems == Gathered(transition, currentStates[..j], r)
      {
        GatheredSnoc(transition, currentStates, j, r);
        var cstate := currentStates[j];
        if cstate !in transition {
          continue;
        }
        var row := transition[cstate];
        if r !in row {
          continue;
        }
        nxts.AddMany(row[r]);
      }
      assert currentStates[..|currentStates|] == currentStates;
      // two epsilon passes, not an iteration to a fixpoint
      EpsilonPass(nxts);
      EpsilonPass(nxts);
      currentStates := nxts.elems;
      reached := nxts.elems;
    }

    /**
     * One of the two identical epsilon loops of `Next`: the bound is the size of the set
     * when the loop starts, and position `i` reads the set as it is by then.
     */
    method EpsilonPass(nxts: StateSet)
      modifies nxts
      ensures nxts.elems == ClosePass(transition, old(nxts.elems), 0, |old(nxts.elems)|)
    {
      ghost var start := nxts.elems;
      var n := |nxts.elems|;
      for i := 0 to n
        invariant n <= |nxts.elems|
        invariant ClosePass(transition, nxts.elems, i, n) == ClosePass(transition, start, 0, n)
      {
        ClosePassUnfold(transition, nxts.elems, i, n);
        var name := nxts.elems[i];
        if name !in transition {
          continue;
        }
        var row := transition[name];
        if Epsilon !in row {
          continue;
        }
        nxts.AddMany(row[Epsilon]);
      }
    }
  }

  /**
   * The first loop of `NFAfromTable`, over the keys in `order` (the order Go's range
   * happens to produce): markers are stripped from the keys, the names collected.
   */
  method ScanTable(table: Table, order: seq<string>) returns (res: Result<Scan, BuildError>)
    requires forall k :: k in order ==> Readable(k)
    ensures res == ScanRows(StartScan(table), order)
  {
    var tt := table;
    var states: seq<string> := [];
    var initialState := "";
    var acceptingStates: seq<string> := [];
    for j := 0 to |order|
      invariant ScanRows(StartScan(table), order) == ScanRows(Scan(tt, states, initialState, acceptingStates), order[j..])
    {
      assert order[j..][0] == order[j] && order[j..][1..] == order[j + 1..];
      var state := order[j];
      assert Readable(state);
      if state !in tt {
        continue;
      }
      if state[0] == '>' {
        tt := tt[state[1..] := tt[state]] - {state};
        state := state[1..];
        initialState := state;
      }
      assert state in tt;
      if state[0] == '*' {
        tt := tt[state[1..] := tt[state]] - {state};
        if initialState == state {
          initialState := state[1..];
        }
        state := state[1..];
        acceptingStates := acceptingStates + [state];
      }
      for k := 0 to |states|
        invariant forall m :: 0 <= m < k ==> states[m] != state
      {
        if states[k] == state {
          return Err(DuplicateStateRow(state));
        }
      }
      states := states + [state];
    }
    assert order[|order|..] == [];
    return Ok(Scan(tt, states, initialState, acceptingStates));
  }

  /**
   * The second loop of `NFAfromTable`: every rune that is a key of some row, once each,
   * in whatever order the rows and their entries come.
   */
  method CollectAlphabet(tt: Table) returns (alphabet: seq<Rune>)
    ensures NoDup(alphabet)
    ensures Elements(alphabet) == SymbolsOf(tt, tt.Keys)
  {
    alphabet := [];
    var rowsLeft := tt.Keys;
    while rowsLeft != {}
      invariant rowsLeft <= tt.Keys
      invariant NoDup(alphabet)
      invariant Elements(alphabet) == SymbolsOf(tt, tt.Keys - rowsLeft)
      decreases rowsLeft
    {
      var name :| name in rowsLeft;
      var row := tt[name];
      var symsLeft := row.Keys;
      while symsLeft != {}
        invariant symsLeft <= row.Keys
        invariant NoDup(alphabet)
        invariant Elements(alphabet) == SymbolsOf(tt, tt.Keys - rowsLeft) + (row.Keys - symsLeft)
        decreases symsLeft
      {
        var r :| r in symsLeft;
        var got := false;
        for k := 0 to |alphabet|
          invariant r !in alphabet[..k]
        {
          if r == alphabet[k] {
            got := true;
            break;
          }
        }
        if !got {
          assert alphabet[..|alphabet|] == alphabet;
          assert Elements(alphabet + [r]) == Elements(alphabet) + {r};
          alphabet := alphabet + [r];
        } else {
          assert r in Elements(alphabet);
        }
        symsLeft := symsLeft - {r};
      }
      assert SymbolsOf(tt, tt.Keys - (rowsLeft - {name})) == SymbolsOf(tt, tt.Keys - rowsLeft) + row.Keys;
      rowsLeft := rowsLeft - {name};
    }
    assert tt.Keys - {} == tt.Keys;
  }

  /**
   * `NFAfromTable`: the key scan, then the alphabet; the current states start as the
   * initial state alone.  `order` lists every key of the table once.
   */
  method NFAFromTable(table: Table, order: seq<string>) returns (res: Result<NFA, BuildError>)
    requires NoDup(order) && Elements(order) == table.Keys
    requires forall k :: k in table ==> Readable(k)
    ensures ScanRows(StartScan(table), order).Err? ==> res == Err(ScanRows(StartScan(table), order).error)
    ensures ScanRows(StartScan(table), order).Ok? ==>
              var p := ScanRows(StartScan(table), order).value;
              && res.Ok? && fresh(res.value)
              && res.value.transition == p.table && res.value.states == p.states
              && res.value.initialState == p.initial && res.value.acceptingStates == p.accepting
              && res.value.currentStates == [p.initial]
              && NoDup(res.value.alphabet) && Elements(res.value.alphabet) == SymbolsOf(p.table, p.table.Keys)
  {
    assert forall k :: k in order ==> k in Elements(order);
    var scan := ScanTable(table, order);
    if scan.Err? {
      return Err(scan.error);
    }
    var p := scan.value;
    var alphabet := CollectAlphabet(p.table);
    var nfa := new NFA(p.states, alphabet, p.initial, p.accepting, [p.initial], p.table);
    return Ok(nfa);
  }
}

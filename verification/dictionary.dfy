/**
  The branch dictionary: every recorded (branch line, target line) pair gets an
  identifier `br_N` from one counter shared by the whole file, walking the
  completed scopes from the last completed to the first. An origin line that
  is already present has its whole target map replaced. The dictionary file
  lists the entries in ascending order of origin, then target.
 */
module Dictionary {
  import opened Text
  import opened Discovery

  /** The identifier of the n-th branch edge. */
  function BrId(n: nat): string {
    "br_" + NatToString(n)
  }

  lemma BrIdInjective(m: nat, n: nat)
    ensures BrId(m) == BrId(n) <==> m == n
  {
    if BrId(m) == BrId(n) {
      assert NatToString(m) == BrId(m)[3..];
      assert NatToString(n) == BrId(n)[3..];
      NatToStringInjective(m, n);
    }
  }

  /** Index `i` holds the last occurrence of its value. */
  predicate LastOccurrence(targets: seq<nat>, i: int) {
    0 <= i < |targets| && forall j :: i < j < |targets| ==> targets[j] != targets[i]
  }

  /**
    The inner loop for one scope, numbers only: target i (in recording order)
    gets `count + i + 1`, and a repeated target keeps the number of its last
    occurrence (`NumberTargetsLast`). Every target is numbered, and the numbers
    used lie in (`count`, `count + |targets|`].
   */
  function NumberTargets(targets: seq<nat>, count: nat): (m: map<nat, nat>)
    ensures m.Keys == set i | 0 <= i < |targets| :: targets[i]
    ensures forall t :: t in m ==> count < m[t] <= count + |targets|
    decreases |targets|
  {
    if targets == [] then map[]
    else
      var n := |targets| - 1;
      var m0 := NumberTargets(targets[..n], count);
      assert (set i | 0 <= i < |targets| :: targets[i]) == (set i | 0 <= i < n :: targets[..n][i]) + {targets[n]} by {
        assert forall i :: 0 <= i < n ==> targets[..n][i] == targets[i];
      }
      m0[targets[n] := count + |targets|]
  }

  /** A target's number is fixed by its last occurrence. */
  lemma {:induction false} NumberTargetsLast(targets: seq<nat>, count: nat, i: nat)
    requires LastOccurrence(targets, i)
    ensures targets[i] in NumberTargets(targets, count)
    ensures NumberTargets(targets, count)[targets[i]] == count + i + 1
    decreases |targets|
  {
    var n := |targets| - 1;
    NumberTargetsSnoc(targets, count);
    if i < n {
      assert targets[i] != targets[n];
      assert LastOccurrence(targets[..n], i);
      NumberTargetsLast(targets[..n], count, i);
      assert targets[..n][i] == targets[i];
    }
  }

  /** The last target is numbered last, over the numbering of the others. */
  lemma NumberTargetsSnoc(targets: seq<nat>, count: nat)
    requires targets != []
    ensures NumberTargets(targets, count)
            == NumberTargets(targets[..|targets| - 1], count)[targets[|targets| - 1] := count + |targets|]
  {
  }

  /** Two targets of one scope never share a number. */
  lemma {:induction false} NumberTargetsInjective(targets: seq<nat>, count: nat, t1: nat, t2: nat)
    requires t1 in NumberTargets(targets, count) && t2 in NumberTargets(targets, count)
    requires NumberTargets(targets, count)[t1] == NumberTargets(targets, count)[t2]
    ensures t1 == t2
    decreases |targets|
  {
    var n := |targets| - 1;
    var m0 := NumberTargets(targets[..n], count);
    if t1 != targets[n] && t2 != targets[n] {
      NumberTargetsInjective(targets[..n], count, t1, t2);
    }
  }

  /** Sum of the target counts of the scopes. */
  function TotalTargets(bps: seq<BranchPointInfo>): nat {
    if bps == [] then 0 else |bps[0].targetLineNumbers| + TotalTargets(bps[1..])
  }

  lemma {:induction false} TotalTargetsAppend(a: seq<BranchPointInfo>, b: seq<BranchPointInfo>)
    ensures TotalTargets(a + b) == TotalTargets(a) + TotalTargets(b)
    decreases |a|
  {
    if a == [] {
      assert a + b == b;
    } else {
      assert (a + b)[1..] == a[1..] + b;
      TotalTargetsAppend(a[1..], b);
    }
  }

  /** Origin lines of the scopes. */
  function Origins(bps: seq<BranchPointInfo>): set<nat> {
    set i | 0 <= i < |bps| :: bps[i].branchPoint
  }

  /** Numbered dictionary: origin line to target line to identifier number. */
  type NumDict = map<nat, map<nat, nat>>

  /** Every number in use is in [1, `count`]. */
  predicate NumbersUpTo(d: NumDict, count: nat) {
    forall o, t :: o in d && t in d[o] ==> 1 <= d[o][t] <= count
  }

  /** No number is used for two (origin, target) pairs. */
  predicate DistinctNumbers(d: NumDict) {
    forall o1, t1, o2, t2 :: o1 in d && t1 in d[o1] && o2 in d && t2 in d[o2] && d[o1][t1] == d[o2][t2]
      ==> o1 == o2 && t1 == t2
  }

  /** No later scope in `bps` has the origin of scope `i`. */
  predicate LastWithOrigin(bps: seq<BranchPointInfo>, i: int) {
    0 <= i < |bps| && forall j :: i < j < |bps| ==> bps[j].branchPoint != bps[i].branchPoint
  }

  lemma OriginsCons(bps: seq<BranchPointInfo>)
    requires bps != []
    ensures Origins(bps) == {bps[0].branchPoint} + Origins(bps[1..])
  {
    assert forall i :: 0 < i < |bps| ==> bps[i] == bps[1..][i - 1];
    assert forall i :: 0 <= i < |bps[1..]| ==> bps[1..][i] == bps[i + 1];
  }

  /**
    The numbered dictionary fold over scopes in processing order, starting at
    `count`: each scope's map replaces whatever its origin held before. The
    counter advances by the number of recorded targets; the origins it ends
    with are given by `NumberScopesKeys`.
   */
  function NumberScopes(bps: seq<BranchPointInfo>, count: nat, d: NumDict): (r: (NumDict, nat))
    ensures r.1 == count + TotalTargets(bps)
    decreases |bps|
  {
    if bps == [] then (d, count)
    else
      var b := bps[0];
      NumberScopes(bps[1..], count + |b.targetLineNumbers|, d[b.branchPoint := NumberTargets(b.targetLineNumbers, count)])
  }

  /** The origins after the fold are those already present plus the scopes' branch lines. */
  lemma {:induction false} NumberScopesKeys(bps: seq<BranchPointInfo>, count: nat, d: NumDict)
    ensures NumberScopes(bps, count, d).0.Keys == d.Keys + Origins(bps)
    decreases |bps|
  {
    if bps == [] {
      assert Origins(bps) == {};
    } else {
      var b := bps[0];
      OriginsCons(bps);
      NumberScopesCons(bps, count, d);
      NumberScopesKeys(bps[1..], count + |b.targetLineNumbers|, d[b.branchPoint := NumberTargets(b.targetLineNumbers, count)]);
    }
  }

  /** Adding one scope's numbering above `count` keeps the numbers distinct. */
  lemma AddScopeDistinct(d: NumDict, count: nat, b: BranchPointInfo)
    requires NumbersUpTo(d, count) && DistinctNumbers(d)
    ensures NumbersUpTo(d[b.branchPoint := NumberTargets(b.targetLineNumbers, count)], count + |b.targetLineNumbers|)
    ensures DistinctNumbers(d[b.branchPoint := NumberTargets(b.targetLineNumbers, count)])
  {
    var m := NumberTargets(b.targetLineNumbers, count);
    var d1 := d[b.branchPoint := m];
    forall o1, t1, o2, t2 | o1 in d1 && t1 in d1[o1] && o2 in d1 && t2 in d1[o2] && d1[o1][t1] == d1[o2][t2]
      ensures o1 == o2 && t1 == t2
    {
      if o1 == b.branchPoint && o2 == b.branchPoint {
        NumberTargetsInjective(b.targetLineNumbers, count, t1, t2);
      }
    }
  }

  /** The fold uses every number at most once, all of them up to the final counter. */
  lemma {:induction false} NumberScopesDistinct(bps: seq<BranchPointInfo>, count: nat, d: NumDict)
    requires NumbersUpTo(d, count) && DistinctNumbers(d)
    ensures NumbersUpTo(NumberScopes(bps, count, d).0, NumberScopes(bps, count, d).1)
    ensures DistinctNumbers(NumberScopes(bps, count, d).0)
    decreases |bps|
  {
    if bps != [] {
      var b := bps[0];
      var d1 := d[b.branchPoint := NumberTargets(b.targetLineNumbers, count)];
      AddScopeDistinct(d, count, b);
      assert NumberScopes(bps, count, d) == NumberScopes(bps[1..], count + |b.targetLineNumbers|, d1);
      NumberScopesDistinct(bps[1..], count + |b.targetLineNumbers|, d1);
    }
  }

  /** An origin not met by the fold keeps its map. */
  lemma {:induction false} NumberScopesKeeps(bps: seq<BranchPointInfo>, count: nat, d: NumDict, o: nat)
    requires o in d && o !in Origins(bps)
    ensures o in NumberScopes(bps, count, d).0
    ensures NumberScopes(bps, count, d).0[o] == d[o]
    decreases |bps|
  {
    NumberScopesKeys(bps, count, d);
    if bps != [] {
      var b := bps[0];
      OriginsCons(bps);
      NumberScopesKeeps(bps[1..], count + |b.targetLineNumbers|, d[b.branchPoint := NumberTargets(b.targetLineNumbers, count)], o);
    }
  }

  /**
    The map an origin ends up with is the numbering of the LAST scope with
    that origin in processing order, numbered from the counter as it stood
    when that scope was reached.
   */
  lemma {:induction false} NumberScopesLast(bps: seq<BranchPointInfo>, count: nat, d: NumDict, i: nat)
    requires LastWithOrigin(bps, i)
    ensures bps[i].branchPoint in NumberScopes(bps, count, d).0
    ensures NumberScopes(bps, count, d).0[bps[i].branchPoint]
              == NumberTargets(bps[i].targetLineNumbers, count + TotalTargets(bps[..i]))
    decreases |bps|
  {
    if i == 0 {
      NumberScopesLastHead(bps, count, d);
    } else {
      var b := bps[0];
      var tail := bps[1..];
      LastWithOriginTail(bps, i);
      NumberScopesLast(tail, count + |b.targetLineNumbers|, d[b.branchPoint := NumberTargets(b.targetLineNumbers, count)], i - 1);
      NumberScopesLastStep(bps, count, d, i);
    }
  }

  /** The inductive step of `NumberScopesLast`: what the tail's fold gives the whole fold. */
  lemma NumberScopesLastStep(bps: seq<BranchPointInfo>, count: nat, d: NumDict, i: nat)
    requires 0 < i < |bps|
    requires var b := bps[0];
             var tail := bps[1..];
             var r := NumberScopes(tail, count + |b.targetLineNumbers|, d[b.branchPoint := NumberTargets(b.targetLineNumbers, count)]).0;
             && tail[i - 1].branchPoint in r
             && r[tail[i - 1].branchPoint]
                  == NumberTargets(tail[i - 1].targetLineNumbers, count + |b.targetLineNumbers| + TotalTargets(tail[..i - 1]))
    ensures bps[i].branchPoint in NumberScopes(bps, count, d).0
    ensures NumberScopes(bps, count, d).0[bps[i].branchPoint]
              == NumberTargets(bps[i].targetLineNumbers, count + TotalTargets(bps[..i]))
  {
    NumberScopesCons(bps, count, d);
    TotalTargetsPrefix(bps, i);
    assert bps[1..][i - 1] == bps[i];
  }

  /** The first scope processed keeps its map when no later scope shares its origin. */
  lemma NumberScopesLastHead(bps: seq<BranchPointInfo>, count: nat, d: NumDict)
    requires LastWithOrigin(bps, 0)
    ensures bps[0].branchPoint in NumberScopes(bps, count, d).0
    ensures NumberScopes(bps, count, d).0[bps[0].branchPoint]
              == NumberTargets(bps[0].targetLineNumbers, count + TotalTargets(bps[..0]))
  {
    var b := bps[0];
    var count1 := count + |b.targetLineNumbers|;
    var d1 := d[b.branchPoint := NumberTargets(b.targetLineNumbers, count)];
    NumberScopesCons(bps, count, d);
    LastNotLater(bps);
    NumberScopesKeeps(bps[1..], count1, d1, b.branchPoint);
    assert bps[..0] == [];
  }

  lemma NumberScopesCons(bps: seq<BranchPointInfo>, count: nat, d: NumDict)
    requires bps != []
    ensures NumberScopes(bps, count, d)
            == NumberScopes(bps[1..], count + |bps[0].targetLineNumbers|,
                            d[bps[0].branchPoint := NumberTargets(bps[0].targetLineNumbers, count)])
  {
  }

  lemma LastNotLater(bps: seq<BranchPointInfo>)
    requires LastWithOrigin(bps, 0)
    ensures bps[0].branchPoint !in Origins(bps[1..])
  {
    forall j | 0 <= j < |bps[1..]| ensures bps[1..][j].branchPoint != bps[0].branchPoint {
      assert bps[1..][j] == bps[j + 1];
    }
  }

  lemma LastWithOriginTail(bps: seq<BranchPointInfo>, i: nat)
    requires LastWithOrigin(bps, i) && i > 0
    ensures LastWithOrigin(bps[1..], i - 1) && bps[1..][i - 1] == bps[i]
  {
    forall j | i - 1 < j < |bps[1..]| ensures bps[1..][j].branchPoint != bps[1..][i - 1].branchPoint {
      assert bps[1..][j] == bps[j + 1];
    }
  }

  lemma TotalTargetsPrefix(bps: seq<BranchPointInfo>, i: nat)
    requires 0 < i <= |bps|
    ensures TotalTargets(bps[..i]) == |bps[0].targetLineNumbers| + TotalTargets(bps[1..][..i - 1])
  {
    assert bps[..i][1..] == bps[1..][..i - 1];
  }

  /** The dictionary of identifiers. */
  type BranchDictionary = map<nat, map<nat, string>>

  function RenderTargets(m: map<nat, nat>): (r: map<nat, string>)
    ensures r.Keys == m.Keys
    ensures forall t :: t in m ==> r[t] == BrId(m[t])
  {
    map t | t in m :: BrId(m[t])
  }

  function Render(d: NumDict): (r: BranchDictionary)
    ensures r.Keys == d.Keys
    ensures forall o :: o in d ==> r[o] == RenderTargets(d[o])
  {
    map o | o in d :: RenderTargets(d[o])
  }

  /** Scope `i` is the first completed scope with its origin. */
  predicate FirstWithOrigin(bps: seq<BranchPointInfo>, i: int) {
    0 <= i < |bps| && forall j :: 0 <= j < i ==> bps[j].branchPoint != bps[i].branchPoint
  }

  function Reverse(bps: seq<BranchPointInfo>): (r: seq<BranchPointInfo>)
    ensures |r| == |bps|
    ensures forall i :: 0 <= i < |bps| ==> r[i] == bps[|bps| - 1 - i]
  {
    seq(|bps|, i requires 0 <= i < |bps| => bps[|bps| - 1 - i])
  }

  lemma {:induction false} TotalTargetsReverse(bps: seq<BranchPointInfo>)
    ensures TotalTargets(Reverse(bps)) == TotalTargets(bps)
    decreases |bps|
  {
    if bps != [] {
      var n := |bps| - 1;
      assert Reverse(bps) == [bps[n]] + Reverse(bps[..n]);
      TotalTargetsAppend([bps[n]], Reverse(bps[..n]));
      TotalTargetsReverse(bps[..n]);
      assert bps == bps[..n] + [bps[n]];
      TotalTargetsAppend(bps[..n], [bps[n]]);
      assert TotalTargets([bps[n]]) == |bps[n].targetLineNumbers|;
    }
  }

  /**
    `addBranchesToDictionary` on numbers, with the counter starting at 0: the
    scopes are processed last-completed first; the final counter is the number
    of recorded targets and the origins are the completed scopes' branch lines.
   */
  function AddBranchesToDictionaryNumbers(bps: seq<BranchPointInfo>): (r: (NumDict, nat))
    ensures r.1 == TotalTargets(bps)
    ensures r.0.Keys == Origins(bps)
  {
    var rs := Reverse(bps);
    assert Origins(rs) == Origins(bps) by {
      assert forall i :: 0 <= i < |bps| ==> bps[i] == rs[|bps| - 1 - i];
    }
    TotalTargetsReverse(bps);
    NumberScopesKeys(rs, 0, map[]);
    NumberScopes(rs, 0, map[])
  }

  /** The first completed scope with an origin is the last one processed with it. */
  lemma FirstBecomesLast(bps: seq<BranchPointInfo>, i: nat)
    requires FirstWithOrigin(bps, i)
    ensures LastWithOrigin(Reverse(bps), |bps| - 1 - i)
    ensures Reverse(bps)[|bps| - 1 - i] == bps[i]
  {
    var rs := Reverse(bps);
    var ri := |bps| - 1 - i;
    forall j | ri < j < |rs| ensures rs[j].branchPoint != rs[ri].branchPoint {
      assert rs[j] == bps[|bps| - 1 - j];
    }
  }

  /** Processing in reverse, the scopes before the reversed position of `i` are the scopes completed after `i`. */
  lemma ReversePrefix(bps: seq<BranchPointInfo>, i: nat)
    requires i < |bps|
    ensures Reverse(bps)[..|bps| - 1 - i] == Reverse(bps[i + 1..])
  {
    var a, b := Reverse(bps)[..|bps| - 1 - i], Reverse(bps[i + 1..]);
    forall k | 0 <= k < |a| ensures a[k] == b[k] {
      assert b[k] == bps[i + 1..][|bps| - i - 2 - k];
    }
  }

  /** `addBranchesToDictionary`: the rendered dictionary and the final counter. */
  function AddBranchesToDictionary(bps: seq<BranchPointInfo>): (r: (BranchDictionary, nat))
    ensures r.1 == TotalTargets(bps)
    ensures r.0.Keys == Origins(bps)
  {
    var nd := AddBranchesToDictionaryNumbers(bps);
    (Render(nd.0), nd.1)
  }

  /**
    An origin's targets in the dictionary are exactly the targets of the FIRST
    completed scope with that origin: the maps of later-completed scopes with
    the same origin are replaced.
   */
  lemma DictionaryKeepsFirstScope(bps: seq<BranchPointInfo>, i: nat)
    requires FirstWithOrigin(bps, i)
    ensures bps[i].branchPoint in AddBranchesToDictionary(bps).0
    ensures forall t :: t in AddBranchesToDictionary(bps).0[bps[i].branchPoint] <==> t in bps[i].targetLineNumbers
    ensures AddBranchesToDictionary(bps).0[bps[i].branchPoint]
            == RenderTargets(NumberTargets(bps[i].targetLineNumbers, TotalTargets(bps[i + 1..])))
  {
    DictionaryNumbersFirstScope(bps, i);
    var ts := bps[i].targetLineNumbers;
    forall t ensures t in (set j | 0 <= j < |ts| :: ts[j]) <==> t in ts {
      if t in ts {
        var j :| 0 <= j < |ts| && ts[j] == t;
      }
    }
  }

  /**
    The first completed scope with an origin is numbered after every scope
    completed later: its targets are numbered from the count of targets
    recorded by those scopes.
   */
  lemma DictionaryNumbersFirstScope(bps: seq<BranchPointInfo>, i: nat)
    requires FirstWithOrigin(bps, i)
    ensures bps[i].branchPoint in AddBranchesToDictionary(bps).0
    ensures AddBranchesToDictionary(bps).0[bps[i].branchPoint]
            == RenderTargets(NumberTargets(bps[i].targetLineNumbers, TotalTargets(bps[i + 1..])))
  {
    var rs := Reverse(bps);
    FirstBecomesLast(bps, i);
    assert bps[i].branchPoint in Origins(bps);
    NumberScopesLast(rs, 0, map[], |bps| - 1 - i);
    ReversePrefix(bps, i);
    TotalTargetsReverse(bps[i + 1..]);
  }

  /**
    Each target of the first completed scope with an origin is given
    `br_` followed by the next counter value: the targets recorded by scopes
    completed later, plus its position in its scope, plus one. A target
    recorded twice keeps the identifier of its last occurrence.
   */
  lemma DictionaryTargetId(bps: seq<BranchPointInfo>, i: nat, j: nat)
    requires FirstWithOrigin(bps, i) && LastOccurrence(bps[i].targetLineNumbers, j)
    ensures bps[i].branchPoint in AddBranchesToDictionary(bps).0
    ensures bps[i].targetLineNumbers[j] in AddBranchesToDictionary(bps).0[bps[i].branchPoint]
    ensures AddBranchesToDictionary(bps).0[bps[i].branchPoint][bps[i].targetLineNumbers[j]]
            == BrId(TotalTargets(bps[i + 1..]) + j + 1)
  {
    DictionaryNumbersFirstScope(bps, i);
    NumberTargetsLast(bps[i].targetLineNumbers, TotalTargets(bps[i + 1..]), j);
  }

  /**
    Every identifier in the dictionary is `br_N` for some N between 1 and the
    final counter, and no identifier labels two (origin, target) pairs.
   */
  lemma DictionaryIdsUnique(bps: seq<BranchPointInfo>)
    ensures var r := AddBranchesToDictionary(bps);
            forall o, t :: o in r.0 && t in r.0[o] ==> exists n :: 1 <= n <= r.1 && r.0[o][t] == BrId(n)
    ensures var d := AddBranchesToDictionary(bps).0;
            forall o1, t1, o2, t2 :: o1 in d && t1 in d[o1] && o2 in d && t2 in d[o2] && d[o1][t1] == d[o2][t2]
              ==> o1 == o2 && t1 == t2
  {
    var rs := Reverse(bps);
    NumberScopesDistinct(rs, 0, map[]);
    var nd := AddBranchesToDictionaryNumbers(bps);
    var r := AddBranchesToDictionary(bps);
    forall o, t | o in r.0 && t in r.0[o] ensures exists n :: 1 <= n <= r.1 && r.0[o][t] == BrId(n) {
      assert r.0[o][t] == BrId(nd.0[o][t]);
    }
    forall o1, t1, o2, t2 | o1 in r.0 && t1 in r.0[o1] && o2 in r.0 && t2 in r.0[o2] && r.0[o1][t1] == r.0[o2][t2]
      ensures o1 == o2 && t1 == t2
    {
      BrIdInjective(nd.0[o1][t1], nd.0[o2][t2]);
    }
  }

  /** The least element of a non-empty set of lines. */
  function MinOf(s: set<nat>): (m: nat)
    requires s != {}
    ensures m in s && forall x :: x in s ==> m <= x
  {
    MinExists(s);
    var m :| m in s && forall x :: x in s ==> m <= x;
    m
  }

  lemma {:induction false} MinExists(s: set<nat>)
    requires s != {}
    ensures exists m :: m in s && forall x :: x in s ==> m <= x
    decreases |s|
  {
    var y :| y in s;
    if s != {y} {
      var rest := s - {y};
      MinExists(rest);
      var m :| m in rest && forall x :: x in rest ==> m <= x;
      LowerOfTwo(s, y, m);
    } else {
      assert forall x :: x in s ==> y <= x;
    }
  }

  /** The smaller of `y` and the least element of the rest of `s` is least in `s`. */
  lemma LowerOfTwo(s: set<nat>, y: nat, m: nat)
    requires y in s && m in s - {y} && forall x :: x in s - {y} ==> m <= x
    ensures exists w :: w in s && forall x :: x in s ==> w <= x
  {
    var w := if y < m then y else m;
    forall x | x in s ensures w <= x {
      if x != y {
        assert x in s - {y};
      }
    }
    assert w in s;
  }

  /** The elements of a set of lines in ascending order, as a `std::map` iterates its keys. */
  function SortedKeys(s: set<nat>): (r: seq<nat>)
    ensures |r| == |s|
    ensures forall x :: x in r <==> x in s
    ensures forall i, j :: 0 <= i < j < |r| ==> r[i] < r[j]
    decreases |s|
  {
    if s == {} then []
    else
      var m := MinOf(s);
      var rest := SortedKeys(s - {m});
      SortedCons(s, m, rest);
      [m] + rest
  }

  /** Putting the least element in front of the sorted rest sorts the whole set. */
  lemma SortedCons(s: set<nat>, m: nat, rest: seq<nat>)
    requires m in s && forall x :: x in s ==> m <= x
    requires |rest| == |s - {m}|
    requires forall x :: x in rest <==> x in s - {m}
    requires forall i, j :: 0 <= i < j < |rest| ==> rest[i] < rest[j]
    ensures |[m] + rest| == |s|
    ensures forall x :: x in [m] + rest <==> x in s
    ensures forall i, j :: 0 <= i < j < |[m] + rest| ==> ([m] + rest)[i] < ([m] + rest)[j]
  {
    var r := [m] + rest;
    forall i, j | 0 <= i < j < |r| ensures r[i] < r[j] {
      if i == 0 {
        assert r[j] == rest[j - 1] && rest[j - 1] in s - {m};
      } else {
        assert r[i] == rest[i - 1] && r[j] == rest[j - 1];
      }
    }
  }

  /** One written entry: origin line, target line, identifier. */
  datatype Entry = Entry(origin: nat, target: nat, id: string)

  /** Written before: smaller origin, or the same origin and a smaller target. */
  predicate EntryBefore(e: Entry, f: Entry) {
    e.origin < f.origin || (e.origin == f.origin && e.target < f.target)
  }

  predicate SortedEntries(es: seq<Entry>) {
    forall i, j :: 0 <= i < j < |es| ==> EntryBefore(es[i], es[j])
  }

  /** The entries of one origin, targets ascending. */
  function Row(d: BranchDictionary, o: nat): (r: seq<Entry>)
    requires o in d
    ensures |r| == |d[o]|
    ensures forall i :: 0 <= i < |r| ==> r[i] == Entry(o, SortedKeys(d[o].Keys)[i], d[o][SortedKeys(d[o].Keys)[i]])
  {
    var ts := SortedKeys(d[o].Keys);
    seq(|ts|, i requires 0 <= i < |ts| => Entry(o, ts[i], d[o][ts[i]]))
  }

  /** A row holds exactly the origin's targets with their identifiers, targets ascending. */
  lemma RowContents(d: BranchDictionary, o: nat)
    requires o in d
    ensures forall e :: e in Row(d, o) <==> e.origin == o && e.target in d[o] && e.id == d[o][e.target]
    ensures SortedEntries(Row(d, o))
  {
    var ts := SortedKeys(d[o].Keys);
    var r := Row(d, o);
    forall e | e in r ensures e.origin == o && e.target in d[o] && e.id == d[o][e.target] {
      var i :| 0 <= i < |r| && r[i] == e;
    }
    forall e: Entry | e.origin == o && e.target in d[o] && e.id == d[o][e.target] ensures e in r {
      var i :| 0 <= i < |ts| && ts[i] == e.target;
      assert r[i] == e;
    }
  }

  /** The rows of the listed origins, in order. */
  function Rows(d: BranchDictionary, origins: seq<nat>): (r: seq<Entry>)
    requires forall i :: 0 <= i < |origins| ==> origins[i] in d
    ensures forall e :: e in r <==> e.origin in origins && e.target in d[e.origin] && e.id == d[e.origin][e.target]
    decreases |origins|
  {
    if origins == [] then []
    else
      RowContents(d, origins[0]);
      Row(d, origins[0]) + Rows(d, origins[1..])
  }

  lemma SortedAppend(a: seq<Entry>, b: seq<Entry>)
    requires SortedEntries(a) && SortedEntries(b)
    requires forall e, f :: e in a && f in b ==> EntryBefore(e, f)
    ensures SortedEntries(a + b)
  {
    forall i, j | 0 <= i < j < |a + b| ensures EntryBefore((a + b)[i], (a + b)[j]) {
      if i < |a| && j >= |a| {
        assert (a + b)[i] in a && (a + b)[j] in b;
      }
    }
  }

  /** Rows of strictly ascending origins are in (origin, target) order. */
  lemma {:induction false} RowsSorted(d: BranchDictionary, origins: seq<nat>)
    requires forall i :: 0 <= i < |origins| ==> origins[i] in d
    requires forall i, j :: 0 <= i < j < |origins| ==> origins[i] < origins[j]
    ensures SortedEntries(Rows(d, origins))
    decreases |origins|
  {
    if origins != [] {
      RowsSorted(d, origins[1..]);
      forall f | f in Rows(d, origins[1..]) ensures origins[0] < f.origin {
        var k :| 0 <= k < |origins[1..]| && origins[1..][k] == f.origin;
        assert origins[1..][k] == origins[k + 1];
      }
      RowContents(d, origins[0]);
      SortedAppend(Row(d, origins[0]), Rows(d, origins[1..]));
    }
  }

  /**
    The entries of the dictionary file in the order they are written: every
    (origin, target) pair of the dictionary with its identifier, each once, in
    ascending (origin, target) order.
   */
  function DictEntries(d: BranchDictionary): (r: seq<Entry>)
    ensures forall e :: e in r <==> e.origin in d && e.target in d[e.origin] && e.id == d[e.origin][e.target]
    ensures SortedEntries(r)
  {
    var os := SortedKeys(d.Keys);
    RowsSorted(d, os);
    Rows(d, os)
  }

  /** The header line of the dictionary file. */
  function DictTitle(filename: string): string {
    "Branch Dictionary for: " + filename
  }

  /** The rule under the header: 23 dashes and one more per character of the file name. */
  function DictRule(filename: string): string {
    "-----------------------" + Repeat('-', |filename|)
  }

  /** The rule is all dashes and exactly as long as the title. */
  lemma RuleUnderlinesTitle(filename: string)
    ensures |DictRule(filename)| == |DictTitle(filename)|
    ensures forall i :: 0 <= i < |DictRule(filename)| ==> DictRule(filename)[i] == '-'
  {
  }

  /** One line: `<id>: <file>, <origin>, <target>`. */
  function EntryLine(filename: string, e: Entry): string {
    e.id + ": " + filename + ", " + NatToString(e.origin) + ", " + NatToString(e.target)
  }

  /** Path of the dictionary file. */
  function DictPath(filename: string): string {
    "out/" + filename + ".branch_dict"
  }

  /**
    `createDictionaryFile`: the title, the rule, then one line per entry of
    `DictEntries`, in that order.
   */
  function CreateDictionaryFile(filename: string, d: BranchDictionary): (lines: seq<string>)
    ensures |lines| >= 2 && lines[0] == DictTitle(filename) && lines[1] == DictRule(filename)
    ensures lines[2..] == EntryLines(filename, DictEntries(d))
  {
    var es := EntryLines(filename, DictEntries(d));
    assert ([DictTitle(filename), DictRule(filename)] + es)[2..] == es;
    [DictTitle(filename), DictRule(filename)] + es
  }

  function EntryLines(filename: string, es: seq<Entry>): (r: seq<string>)
    ensures |r| == |es|
    ensures forall i :: 0 <= i < |es| ==> r[i] == EntryLine(filename, es[i])
  {
    seq(|es|, i requires 0 <= i < |es| => EntryLine(filename, es[i]))
  }

  /** The text of the dictionary file: its lines, each followed by a newline. */
  function DictionaryFileText(filename: string, d: BranchDictionary): string {
    Unlines(CreateDictionaryFile(filename, d))
  }
}

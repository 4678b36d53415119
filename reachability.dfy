/**
 * Where the player can walk and climb (src/puzzle_solver.rs:170-224): the one-step
 * moves of `get_reachable_at` and the worklist closure of `get_reachable_recursive`.
 */
module Reachability {
  import opened CellPositions
  import opened PuzzleConfigurations
  import opened SolverPhysics

  /** The five cells one step away, in the order lines 172-190 try them. */
  function StepTargets(pos: CellPosition): seq<CellPosition>
  {
    [pos.Add(-1, 0), pos.Add(1, 0), pos.Add(0, -1), pos.Add(-1, -1), pos.Add(1, -1)]
  }

  /** A step moves one column at most and either stays on its row or climbs one row. */
  predicate OneStep(p: CellPosition, q: CellPosition)
  {
    q != p && -1 <= q.x - p.x <= 1 && (q.y == p.y || q.y == p.y - 1)
  }

  /** The cells of `ts` that offer a foothold, in their order. */
  function Footholds(c: PuzzleConfiguration, levels: seq<int>, ts: seq<CellPosition>): seq<CellPosition>
    requires LevelsFit(c, levels)
    decreases |ts|
  {
    if ts == [] then []
    else Keep(c, levels, ts[0]) + Footholds(c, levels, ts[1..])
  }

  /** `[t]` when `t` offers a foothold, and nothing otherwise. */
  function Keep(c: PuzzleConfiguration, levels: seq<int>, t: CellPosition): seq<CellPosition>
    requires LevelsFit(c, levels)
  {
    if HasFoothold(c, levels, t) then [t] else []
  }

  /** `Footholds` keeps exactly the cells of `ts` that offer a foothold. */
  lemma {:induction false} FootholdsFilters(c: PuzzleConfiguration, levels: seq<int>, ts: seq<CellPosition>)
    requires LevelsFit(c, levels)
    ensures forall q :: q in Footholds(c, levels, ts) <==> q in ts && HasFoothold(c, levels, q)
    decreases |ts|
  {
    if ts != [] {
      FootholdsFilters(c, levels, ts[1..]);
      assert ts == [ts[0]] + ts[1..];
    }
  }

  /**
   * Lines 170-191: the cells one step from `pos` that offer a foothold: left, right, up,
   * up-left, up-right, in that order.
   */
  function ReachableAt(c: PuzzleConfiguration, levels: seq<int>, pos: CellPosition): seq<CellPosition>
    requires LevelsFit(c, levels)
  {
    Footholds(c, levels, StepTargets(pos))
  }

  /** A cell is listed by `ReachableAt` exactly when it is one of the five targets and offers a foothold. */
  lemma ReachableAtIsSteps(c: PuzzleConfiguration, levels: seq<int>, pos: CellPosition)
    requires LevelsFit(c, levels)
    ensures forall q :: q in ReachableAt(c, levels, pos) <==> q in StepTargets(pos) && HasFoothold(c, levels, q)
  {
    FootholdsFilters(c, levels, StepTargets(pos));
  }

  /** Filtering from entry `i` on tests entry `i` and filters the rest. */
  lemma FootholdsFrom(c: PuzzleConfiguration, levels: seq<int>, ts: seq<CellPosition>, i: int)
    requires LevelsFit(c, levels) && 0 <= i < |ts|
    ensures Footholds(c, levels, ts[i..]) == Keep(c, levels, ts[i]) + Footholds(c, levels, ts[i + 1..])
  {
    assert ts[i..][0] == ts[i] && ts[i..][1..] == ts[i + 1..];
  }

  /** The filter of the five targets, written out as the five tests of lines 172-190. */
  lemma ReachableAtUnrolled(c: PuzzleConfiguration, levels: seq<int>, pos: CellPosition)
    requires LevelsFit(c, levels)
    ensures ReachableAt(c, levels, pos) ==
      Keep(c, levels, pos.Add(-1, 0)) + (Keep(c, levels, pos.Add(1, 0)) + (Keep(c, levels, pos.Add(0, -1)) +
      (Keep(c, levels, pos.Add(-1, -1)) + Keep(c, levels, pos.Add(1, -1)))))
  {
    var ts := StepTargets(pos);
    assert Footholds(c, levels, ts[5..]) == [] by {
      assert ts[5..] == [];
    }
    FootholdsFrom(c, levels, ts, 4);
    assert Footholds(c, levels, ts[4..]) == Keep(c, levels, ts[4]);
    FootholdsFrom(c, levels, ts, 3);
    FootholdsFrom(c, levels, ts, 2);
    FootholdsFrom(c, levels, ts, 1);
    FootholdsFrom(c, levels, ts, 0);
    assert ts[0..] == ts;
  }

  /** `q` is one step from `p`. */
  predicate Step(c: PuzzleConfiguration, levels: seq<int>, p: CellPosition, q: CellPosition)
    requires LevelsFit(c, levels)
  {
    q in ReachableAt(c, levels, p)
  }

  /** A step moves at most one column, stays on its row or climbs one, and lands on a foothold inside the box. */
  lemma StepIsOneStep(c: PuzzleConfiguration, levels: seq<int>, p: CellPosition, q: CellPosition)
    requires LevelsFit(c, levels) && Step(c, levels, p, q)
    ensures OneStep(p, q) && HasFoothold(c, levels, q) && InFootholdBox(c, q)
  {
    ReachableAtIsSteps(c, levels, p);
  }

  /**
   * Lines 206-217: appends, in order, each entry of `rs` not already listed (comparing
   * against the list as it grows).
   */
  function AppendNew(list: seq<CellPosition>, rs: seq<CellPosition>): seq<CellPosition>
    decreases |rs|
  {
    if rs == [] then list
    else AppendNew(if rs[0] in list then list else list + [rs[0]], rs[1..])
  }

  /** `AppendNew` only appends: the old list is a prefix of the new one. */
  lemma {:induction false} AppendNewExtends(list: seq<CellPosition>, rs: seq<CellPosition>)
    ensures |list| <= |AppendNew(list, rs)|
    ensures forall k :: 0 <= k < |list| ==> AppendNew(list, rs)[k] == list[k]
    decreases |rs|
  {
    if rs != [] {
      var list' := if rs[0] in list then list else list + [rs[0]];
      AppendNewExtends(list', rs[1..]);
    }
  }

  /** After `AppendNew` the list holds exactly the cells of both arguments. */
  lemma {:induction false} AppendNewMembers(list: seq<CellPosition>, rs: seq<CellPosition>)
    ensures forall q :: q in AppendNew(list, rs) <==> q in list || q in rs
    decreases |rs|
  {
    if rs != [] {
      var list' := if rs[0] in list then list else list + [rs[0]];
      AppendNewMembers(list', rs[1..]);
      assert rs == [rs[0]] + rs[1..];
    }
  }

  /** Every appended entry comes from `rs`. */
  lemma {:induction false} AppendNewAddsFrom(list: seq<CellPosition>, rs: seq<CellPosition>)
    ensures forall k :: |list| <= k < |AppendNew(list, rs)| ==> AppendNew(list, rs)[k] in rs
    decreases |rs|
  {
    if rs != [] {
      var list' := if rs[0] in list then list else list + [rs[0]];
      AppendNewAddsFrom(list', rs[1..]);
      AppendNewExtends(list', rs[1..]);
      var r := AppendNew(list', rs[1..]);
      forall k | |list| <= k < |r| ensures r[k] in rs {
        if k < |list'| {
          assert r[k] == list'[k] == rs[0];
        } else {
          assert r[k] in rs[1..];
        }
      }
    }
  }

  /** `AppendNew` lists nothing twice when the old list did not. */
  lemma {:induction false} AppendNewKeepsDistinct(list: seq<CellPosition>, rs: seq<CellPosition>)
    requires NoDuplicates(list)
    ensures NoDuplicates(AppendNew(list, rs))
    decreases |rs|
  {
    if rs != [] {
      var list' := if rs[0] in list then list else list + [rs[0]];
      AppendNewKeepsDistinct(list', rs[1..]);
    }
  }

  function Elems(list: seq<CellPosition>): set<CellPosition>
  {
    set q | q in list
  }

  /** The cells `InFootholdBox` admits, as a finite set. */
  ghost function FootholdBox(c: PuzzleConfiguration): set<CellPosition>
  {
    set x, y | 0 <= x < c.width && -1 <= y < c.height :: CellPosition(x, y)
  }

  /** Every entry after the first is a foothold. */
  predicate TailFootholds(c: PuzzleConfiguration, levels: seq<int>, list: seq<CellPosition>)
    requires LevelsFit(c, levels)
  {
    forall k :: 1 <= k < |list| ==> HasFoothold(c, levels, list[k])
  }

  /** Appending the steps from one entry keeps the tail footholds, and shrinks the unlisted part of the box unless nothing was added. */
  lemma AppendStepsProgress(c: PuzzleConfiguration, levels: seq<int>, list: seq<CellPosition>, ci: int)
    requires LevelsFit(c, levels) && 0 <= ci < |list| && TailFootholds(c, levels, list)
    ensures var next := AppendNew(list, ReachableAt(c, levels, list[ci]));
      && |list| <= |next|
      && TailFootholds(c, levels, next)
      && Elems(list) <= Elems(next)
      && (next == list || FootholdBox(c) - Elems(next) < FootholdBox(c) - Elems(list))
  {
    AppendStepsKeepFootholds(c, levels, list, ci);
    AppendStepsShrinkBox(c, levels, list, ci);
  }

  lemma AppendStepsKeepFootholds(c: PuzzleConfiguration, levels: seq<int>, list: seq<CellPosition>, ci: int)
    requires LevelsFit(c, levels) && 0 <= ci < |list| && TailFootholds(c, levels, list)
    ensures TailFootholds(c, levels, AppendNew(list, ReachableAt(c, levels, list[ci])))
  {
    var rs := ReachableAt(c, levels, list[ci]);
    var next := AppendNew(list, rs);
    AppendNewExtends(list, rs);
    AppendNewAddsFrom(list, rs);
    ReachableAtIsSteps(c, levels, list[ci]);
    forall k | 1 <= k < |next| ensures HasFoothold(c, levels, next[k]) {
      if k < |list| {
        assert next[k] == list[k];
      } else {
        assert next[k] in rs;
      }
    }
  }

  lemma AppendStepsShrinkBox(c: PuzzleConfiguration, levels: seq<int>, list: seq<CellPosition>, ci: int)
    requires LevelsFit(c, levels) && 0 <= ci < |list|
    ensures var next := AppendNew(list, ReachableAt(c, levels, list[ci]));
      && |list| <= |next|
      && Elems(list) <= Elems(next)
      && (next == list || FootholdBox(c) - Elems(next) < FootholdBox(c) - Elems(list))
  {
    var rs := ReachableAt(c, levels, list[ci]);
    var next := AppendNew(list, rs);
    AppendNewExtends(list, rs);
    assert Elems(list) <= Elems(next) by {
      AppendNewMembers(list, rs);
    }
    if |next| > |list| {
      var q := next[|list|];
      assert q in rs by {
        AppendNewAddsFrom(list, rs);
      }
      assert HasFoothold(c, levels, q) by {
        ReachableAtIsSteps(c, levels, list[ci]);
      }
      assert q == CellPosition(q.x, q.y) && q in FootholdBox(c);
      assert q !in Elems(list) by {
        AppendNewAddsOnlyFresh(list, rs);
      }
      assert q in Elems(next);
      assert q in FootholdBox(c) - Elems(list);
    } else {
      assert next == list;
    }
  }

  /** The entries `AppendNew` adds were not listed before. */
  lemma {:induction false} AppendNewAddsOnlyFresh(list: seq<CellPosition>, rs: seq<CellPosition>)
    ensures forall k :: |list| <= k < |AppendNew(list, rs)| ==> AppendNew(list, rs)[k] !in list
    decreases |rs|
  {
    if rs != [] {
      var list' := if rs[0] in list then list else list + [rs[0]];
      AppendNewAddsOnlyFresh(list', rs[1..]);
      AppendNewExtends(list', rs[1..]);
      var r := AppendNew(list', rs[1..]);
      assert r == AppendNew(list, rs);
      forall k | |list| <= k < |r| ensures r[k] !in list {
        if k < |list'| {
          assert r[k] == list'[k] == rs[0];
        }
      }
    }
  }

  /**
   * The worklist loop of lines 201-221 from state (`list`, `ci`): take the steps from
   * entry `ci`, append the new ones, move on; stop when every entry has been expanded.
   */
  function Explore(c: PuzzleConfiguration, levels: seq<int>, list: seq<CellPosition>, ci: int): (r: seq<CellPosition>)
    requires LevelsFit(c, levels) && 0 <= ci <= |list| && TailFootholds(c, levels, list)
    ensures |list| <= |r|
    ensures forall k :: 0 <= k < |list| ==> r[k] == list[k]
    ensures TailFootholds(c, levels, r)
    decreases FootholdBox(c) - Elems(list), |list| - ci
  {
    if ci == |list| then list
    else
      AppendStepsProgress(c, levels, list, ci);
      var next := AppendNew(list, ReachableAt(c, levels, list[ci]));
      AppendNewExtends(list, ReachableAt(c, levels, list[ci]));
      var r := Explore(c, levels, next, ci + 1);
      r
  }

  /** Lines 194-224: every cell reachable from `pos` by steps, `pos` first, in discovery order. */
  function ReachableFrom(c: PuzzleConfiguration, levels: seq<int>, pos: CellPosition): (r: seq<CellPosition>)
    requires LevelsFit(c, levels)
    ensures |r| >= 1 && r[0] == pos
    ensures forall k :: 1 <= k < |r| ==> HasFoothold(c, levels, r[k])
  {
    Explore(c, levels, [pos], 0)
  }

  /** The steps from every entry before `n` are listed. */
  ghost predicate ClosedBefore(c: PuzzleConfiguration, levels: seq<int>, list: seq<CellPosition>, n: int)
    requires LevelsFit(c, levels)
  {
    forall j, q {:trigger Step(c, levels, list[j], q)} :: 0 <= j < n && j < |list| && Step(c, levels, list[j], q) ==> q in list
  }

  /** Entry `k` is one step from an earlier entry. */
  ghost predicate StepsFromEarlier(c: PuzzleConfiguration, levels: seq<int>, list: seq<CellPosition>, k: int)
    requires LevelsFit(c, levels) && 0 <= k < |list|
  {
    exists j :: 0 <= j < k && Step(c, levels, list[j], list[k])
  }

  /** Every entry after the first is a step from an earlier one. */
  ghost predicate Discovered(c: PuzzleConfiguration, levels: seq<int>, list: seq<CellPosition>)
    requires LevelsFit(c, levels)
  {
    forall k :: 1 <= k < |list| ==> StepsFromEarlier(c, levels, list, k)
  }

  /** Expanding entry `ci` lists its steps, so the steps of entries up to `ci` are listed. */
  lemma AppendKeepsClosed(c: PuzzleConfiguration, levels: seq<int>, list: seq<CellPosition>, ci: int)
    requires LevelsFit(c, levels) && 0 <= ci < |list|
    requires ClosedBefore(c, levels, list, ci)
    ensures ClosedBefore(c, levels, AppendNew(list, ReachableAt(c, levels, list[ci])), ci + 1)
  {
    var next := AppendNew(list, ReachableAt(c, levels, list[ci]));
    AppendNewExtends(list, ReachableAt(c, levels, list[ci]));
    forall j, q | 0 <= j < ci + 1 && j < |next| && Step(c, levels, next[j], q) ensures q in next {
      assert next[j] == list[j];
      StepIsListed(c, levels, list, ci, j, q);
    }
  }

  lemma StepIsListed(c: PuzzleConfiguration, levels: seq<int>, list: seq<CellPosition>, ci: int, j: int, q: CellPosition)
    requires LevelsFit(c, levels) && 0 <= j <= ci < |list|
    requires ClosedBefore(c, levels, list, ci)
    requires Step(c, levels, list[j], q)
    ensures q in AppendNew(list, ReachableAt(c, levels, list[ci]))
  {
    var rs := ReachableAt(c, levels, list[ci]);
    assert q in list || q in rs by {
      if j == ci {
        assert q in rs;
      }
    }
    AppendNewMembers(list, rs);
  }

  /** The entries appended by expanding entry `ci` are steps from it. */
  lemma AppendKeepsDiscovered(c: PuzzleConfiguration, levels: seq<int>, list: seq<CellPosition>, ci: int)
    requires LevelsFit(c, levels) && 0 <= ci < |list|
    requires Discovered(c, levels, list)
    ensures Discovered(c, levels, AppendNew(list, ReachableAt(c, levels, list[ci])))
  {
    var next := AppendNew(list, ReachableAt(c, levels, list[ci]));
    AppendNewExtends(list, ReachableAt(c, levels, list[ci]));
    AppendNewAddsFrom(list, ReachableAt(c, levels, list[ci]));
    forall k | 1 <= k < |next| ensures StepsFromEarlier(c, levels, next, k) {
      if k < |list| {
        assert StepsFromEarlier(c, levels, list, k);
        var j :| 0 <= j < k && Step(c, levels, list[j], list[k]);
        assert next[j] == list[j];
        assert next[k] == list[k];
      } else {
        assert next[ci] == list[ci];
        assert Step(c, levels, next[ci], next[k]);
      }
    }
  }

  lemma {:induction false} ExploreCloses(c: PuzzleConfiguration, levels: seq<int>, list: seq<CellPosition>, ci: int)
    requires LevelsFit(c, levels) && 0 <= ci <= |list| && TailFootholds(c, levels, list)
    requires ClosedBefore(c, levels, list, ci)
    ensures ClosedBefore(c, levels, Explore(c, levels, list, ci), |Explore(c, levels, list, ci)|)
    decreases FootholdBox(c) - Elems(list), |list| - ci
  {
    if ci < |list| {
      AppendStepsProgress(c, levels, list, ci);
      AppendKeepsClosed(c, levels, list, ci);
      ExploreCloses(c, levels, AppendNew(list, ReachableAt(c, levels, list[ci])), ci + 1);
    }
  }

  lemma {:induction false} ExploreDiscovers(c: PuzzleConfiguration, levels: seq<int>, list: seq<CellPosition>, ci: int)
    requires LevelsFit(c, levels) && 0 <= ci <= |list| && TailFootholds(c, levels, list)
    requires Discovered(c, levels, list)
    ensures Discovered(c, levels, Explore(c, levels, list, ci))
    decreases FootholdBox(c) - Elems(list), |list| - ci
  {
    if ci < |list| {
      AppendStepsProgress(c, levels, list, ci);
      AppendKeepsDiscovered(c, levels, list, ci);
      ExploreDiscovers(c, levels, AppendNew(list, ReachableAt(c, levels, list[ci])), ci + 1);
    }
  }

  lemma {:induction false} ExploreKeepsDistinct(c: PuzzleConfiguration, levels: seq<int>, list: seq<CellPosition>, ci: int)
    requires LevelsFit(c, levels) && 0 <= ci <= |list| && TailFootholds(c, levels, list)
    requires NoDuplicates(list)
    ensures NoDuplicates(Explore(c, levels, list, ci))
    decreases FootholdBox(c) - Elems(list), |list| - ci
  {
    if ci < |list| {
      AppendStepsProgress(c, levels, list, ci);
      AppendNewKeepsDistinct(list, ReachableAt(c, levels, list[ci]));
      ExploreKeepsDistinct(c, levels, AppendNew(list, ReachableAt(c, levels, list[ci])), ci + 1);
    }
  }

  /** Every step from a reachable cell leads to a reachable cell. */
  lemma ReachableIsClosed(c: PuzzleConfiguration, levels: seq<int>, pos: CellPosition, p: CellPosition, q: CellPosition)
    requires LevelsFit(c, levels)
    requires p in ReachableFrom(c, levels, pos) && Step(c, levels, p, q)
    ensures q in ReachableFrom(c, levels, pos)
  {
    ExploreCloses(c, levels, [pos], 0);
  }

  /** Each cell is listed once. */
  lemma ReachableIsDistinct(c: PuzzleConfiguration, levels: seq<int>, pos: CellPosition)
    requires LevelsFit(c, levels)
    ensures NoDuplicates(ReachableFrom(c, levels, pos))
  {
    ExploreKeepsDistinct(c, levels, [pos], 0);
  }

  /** Each listed cell after `pos` is one step from a cell listed before it. */
  lemma ReachableIsDiscovered(c: PuzzleConfiguration, levels: seq<int>, pos: CellPosition)
    requires LevelsFit(c, levels)
    ensures Discovered(c, levels, ReachableFrom(c, levels, pos))
  {
    ExploreDiscovers(c, levels, [pos], 0);
  }

  /**
   * The list is the least set holding `pos` and closed under steps: any such set contains
   * every listed cell.
   */
  lemma ReachableIsLeast(c: PuzzleConfiguration, levels: seq<int>, pos: CellPosition, s: set<CellPosition>)
    requires LevelsFit(c, levels)
    requires pos in s
    requires forall p, q {:trigger Step(c, levels, p, q)} :: p in s && Step(c, levels, p, q) ==> q in s
    ensures forall q :: q in ReachableFrom(c, levels, pos) ==> q in s
  {
    var r := ReachableFrom(c, levels, pos);
    ReachableIsDiscovered(c, levels, pos);
    PrefixInSet(c, levels, r, s, |r|);
  }

  lemma {:induction false} PrefixInSet(c: PuzzleConfiguration, levels: seq<int>, r: seq<CellPosition>,
                                        s: set<CellPosition>, n: int)
    requires LevelsFit(c, levels) && 0 <= n <= |r| && |r| >= 1 && r[0] in s
    requires Discovered(c, levels, r)
    requires forall p, q {:trigger Step(c, levels, p, q)} :: p in s && Step(c, levels, p, q) ==> q in s
    ensures forall k :: 0 <= k < n ==> r[k] in s
    decreases n
  {
    if n > 1 {
      PrefixInSet(c, levels, r, s, n - 1);
      assert StepsFromEarlier(c, levels, r, n - 1);
      var j :| 0 <= j < n - 1 && Step(c, levels, r[j], r[n - 1]);
      assert r[j] in s;
      forall k | 0 <= k < n ensures r[k] in s {
        if k == n - 1 {
          assert Step(c, levels, r[j], r[k]);
        }
      }
    }
  }

  /** Steps never go down a row, so no reachable cell lies below the start. */
  lemma ReachableNeverDescends(c: PuzzleConfiguration, levels: seq<int>, pos: CellPosition)
    requires LevelsFit(c, levels)
    ensures forall q :: q in ReachableFrom(c, levels, pos) ==> q.y <= pos.y
  {
    var r := ReachableFrom(c, levels, pos);
    ReachableIsDiscovered(c, levels, pos);
    AboveByIndex(c, levels, r, pos, |r|);
  }

  lemma {:induction false} AboveByIndex(c: PuzzleConfiguration, levels: seq<int>, r: seq<CellPosition>,
                                         pos: CellPosition, n: int)
    requires LevelsFit(c, levels) && 0 <= n <= |r| && |r| >= 1 && r[0] == pos
    requires Discovered(c, levels, r)
    ensures forall k :: 0 <= k < n ==> r[k].y <= pos.y
    decreases n
  {
    if n > 1 {
      AboveByIndex(c, levels, r, pos, n - 1);
      assert r[n - 1].y <= pos.y by {
        assert StepsFromEarlier(c, levels, r, n - 1);
        var j :| 0 <= j < n - 1 && Step(c, levels, r[j], r[n - 1]);
        assert r[j].y <= pos.y;
        StepIsOneStep(c, levels, r[j], r[n - 1]);
      }
    }
  }
}

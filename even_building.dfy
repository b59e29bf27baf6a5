/**
 * Even building: N houses are added one at a time to the lots of a colour
 * group, in place, so that after every addition no lot has more than one
 * house above another and every lot holds between 0 and 4 houses.
 */
module EvenBuilding {
  import opened Wrappers

  /** The most houses a lot holds before a hotel. */
  const MaxHouses: int := 4

  function MinOf(s: seq<int>): int
    requires |s| > 0
  {
    if |s| == 1 then s[0]
    else
      var m := MinOf(s[1..]);
      if s[0] <= m then s[0] else m
  }

  function MaxOf(s: seq<int>): int
    requires |s| > 0
  {
    if |s| == 1 then s[0]
    else
      var m := MaxOf(s[1..]);
      if s[0] >= m then s[0] else m
  }

  /** The folded minimum is an element of the group and no element is below it. */
  lemma {:induction false} MinOfIsLeast(s: seq<int>)
    requires |s| > 0
    ensures (exists k :: 0 <= k < |s| && s[k] == MinOf(s)) && forall k :: 0 <= k < |s| ==> MinOf(s) <= s[k]
  {
    if |s| > 1 {
      MinOfIsLeast(s[1..]);
      assert forall k :: 1 <= k < |s| ==> s[k] == s[1..][k - 1];
      var k :| 0 <= k < |s| - 1 && s[1..][k] == MinOf(s[1..]);
      assert s[k + 1] == MinOf(s[1..]);
    } else {
      assert s[0] == MinOf(s);
    }
  }

  /** The folded maximum is an element of the group and no element is above it. */
  lemma {:induction false} MaxOfIsGreatest(s: seq<int>)
    requires |s| > 0
    ensures (exists k :: 0 <= k < |s| && s[k] == MaxOf(s)) && forall k :: 0 <= k < |s| ==> s[k] <= MaxOf(s)
  {
    if |s| > 1 {
      MaxOfIsGreatest(s[1..]);
      assert forall k :: 1 <= k < |s| ==> s[k] == s[1..][k - 1];
      var k :| 0 <= k < |s| - 1 && s[1..][k] == MaxOf(s[1..]);
      assert s[k + 1] == MaxOf(s[1..]);
    } else {
      assert s[0] == MaxOf(s);
    }
  }

  /** No lot is more than one house above any other. */
  ghost predicate Even(s: seq<int>)
  {
    forall i, j :: 0 <= i < |s| && 0 <= j < |s| ==> s[i] - s[j] <= 1
  }

  /** Every lot holds between 0 and 4 houses. */
  ghost predicate Bounded(s: seq<int>)
  {
    forall i :: 0 <= i < |s| ==> 0 <= s[i] <= MaxHouses
  }

  /**
   * The group's constraint, computed as the source does from the minimum
   * and the maximum; an empty group passes.
   */
  predicate IsConsistent(s: seq<int>)
  {
    |s| == 0 || (MaxOf(s) - MinOf(s) <= 1 && forall i :: 0 <= i < |s| ==> 0 <= s[i] <= MaxHouses)
  }

  /** The minimum/maximum test holds exactly when the group is even and bounded. */
  lemma ConsistentMeans(s: seq<int>)
    ensures IsConsistent(s) <==> Even(s) && Bounded(s)
  {
    if |s| > 0 {
      MinOfIsLeast(s);
      MaxOfIsGreatest(s);
      var lo, hi := MinOf(s), MaxOf(s);
      if Even(s) {
        var i :| 0 <= i < |s| && s[i] == hi;
        var j :| 0 <= j < |s| && s[j] == lo;
        assert s[i] - s[j] <= 1;
      }
    }
  }

  function Sum(s: seq<int>): int
  {
    if |s| == 0 then 0 else s[0] + Sum(s[1..])
  }

  /** Adding one house to lot `j` adds one to the total. */
  lemma {:induction false} SumIncrement(s: seq<int>, j: nat)
    requires j < |s|
    ensures Sum(s[j := s[j] + 1]) == Sum(s) + 1
  {
    if j > 0 {
      SumIncrement(s[1..], j - 1);
      assert s[j := s[j] + 1][1..] == s[1..][j - 1 := s[1..][j - 1] + 1];
    }
  }

  /** A bounded group holds at most four houses per lot. */
  lemma {:induction false} BoundedSum(s: seq<int>)
    requires Bounded(s)
    ensures Sum(s) <= MaxHouses * |s|
  {
    if |s| > 0 {
      assert Bounded(s[1..]) by {
        assert forall i :: 0 <= i < |s| - 1 ==> s[1..][i] == s[i + 1];
      }
      BoundedSum(s[1..]);
    }
  }

  /** A group where every lot has at least `c` houses holds at least `c` per lot. */
  lemma {:induction false} LowerSum(s: seq<int>, c: int)
    requires forall i :: 0 <= i < |s| ==> c <= s[i]
    ensures c * |s| <= Sum(s)
  {
    if |s| > 0 {
      assert forall i :: 0 <= i < |s| - 1 ==> s[1..][i] == s[i + 1];
      LowerSum(s[1..], c);
    }
  }

  /**
   * A consistent group with room left can take one more house on some lot
   * and stay consistent: any lot with the fewest houses will do.
   */
  lemma RoomForOneMore(s: seq<int>)
    requires IsConsistent(s) && |s| > 0 && Sum(s) < MaxHouses * |s|
    ensures exists j :: 0 <= j < |s| && IsConsistent(s[j := s[j] + 1])
  {
    ConsistentMeans(s);
    MinOfIsLeast(s);
    var m := MinOf(s);
    var j :| 0 <= j < |s| && s[j] == m;
    if m >= MaxHouses {
      LowerSum(s, MaxHouses);
    }
    var t := s[j := s[j] + 1];
    assert Even(t) by {
      forall k, l | 0 <= k < |t| && 0 <= l < |t| ensures t[k] - t[l] <= 1 {
        assert s[k] - s[j] <= 1 && s[l] >= m;
      }
    }
    ConsistentMeans(t);
  }

  /**
   * The search as a function of the group's contents: place the remaining
   * houses one by one, trying lots in index order after each placement and
   * keeping the first complete placement. `idx` is the lot the previous
   * house went to; a search starting past the last lot fails.
   */
  function Search(s: seq<int>, idx: nat, placed: nat, n: nat): (r: Option<seq<int>>)
    requires placed <= n
    decreases n - placed, 1
    ensures r.Some? ==> |r.value| == |s| && Sum(r.value) == Sum(s) + (n - placed)
    ensures r.Some? ==> forall i :: 0 <= i < |s| ==> s[i] <= r.value[i]
    ensures r.Some? && placed < n ==> IsConsistent(r.value)
  {
    if placed == n then Some(s)
    else if idx >= |s| then None
    else TryFrom(s, 0, placed, n)
  }

  /** The loop over lots `j..` of one search level, each tried by adding a house to it. */
  function TryFrom(s: seq<int>, j: nat, placed: nat, n: nat): (r: Option<seq<int>>)
    requires placed < n && j <= |s|
    decreases n - placed, 0, |s| - j
    ensures r.Some? ==> |r.value| == |s| && Sum(r.value) == Sum(s) + (n - placed)
    ensures r.Some? ==> forall i :: 0 <= i < |s| ==> s[i] <= r.value[i]
    ensures r.Some? ==> IsConsistent(r.value)
  {
    if j == |s| then None
    else
      var t := s[j := s[j] + 1];
      SumIncrement(s, j);
      if IsConsistent(t) && Search(t, j, placed + 1, n).Some? then Search(t, j, placed + 1, n)
      else TryFrom(s, j + 1, placed, n)
  }

  /** Some single house can be added while keeping the group consistent. */
  ghost predicate CanStart(s: seq<int>)
  {
    exists j :: 0 <= j < |s| && IsConsistent(s[j := s[j] + 1])
  }

  /**
   * When the search can succeed, without reference to its order: nothing is
   * left to place, or some first house keeps the group consistent and all
   * the houses fit under the cap of four per lot.
   */
  ghost predicate Feasible(s: seq<int>, remaining: nat)
  {
    remaining == 0 || (CanStart(s) && Sum(s) + remaining <= MaxHouses * |s|)
  }

  /** Adding a house to lot `k` keeps the group consistent and the search goes on to succeed. */
  ghost predicate Leads(s: seq<int>, k: nat, placed: nat, n: nat)
    requires placed < n && k < |s|
  {
    IsConsistent(s[k := s[k] + 1]) && Search(s[k := s[k] + 1], k, placed + 1, n).Some?
  }

  /** A search level succeeds exactly when some lot from `j` on leads to success. */
  lemma {:induction false} TryFromSome(s: seq<int>, j: nat, placed: nat, n: nat)
    requires placed < n && j <= |s|
    decreases |s| - j
    ensures TryFrom(s, j, placed, n).Some? <==> exists k :: j <= k < |s| && Leads(s, k, placed, n)
  {
    if j < |s| {
      TryFromSome(s, j + 1, placed, n);
      if Leads(s, j, placed, n) {
        assert TryFrom(s, j, placed, n).Some?;
      } else {
        assert TryFrom(s, j, placed, n) == TryFrom(s, j + 1, placed, n);
        assert forall k :: j <= k < |s| && Leads(s, k, placed, n) ==> j + 1 <= k;
      }
    }
  }

  /** One step of a search level: the level's result is lot `j`'s branch if that succeeds, else the rest. */
  lemma TryFromStep(s: seq<int>, j: nat, placed: nat, n: nat)
    requires placed < n && j < |s|
    ensures Leads(s, j, placed, n) ==> TryFrom(s, j, placed, n) == Search(s[j := s[j] + 1], j, placed + 1, n)
    ensures !Leads(s, j, placed, n) ==> TryFrom(s, j, placed, n) == TryFrom(s, j + 1, placed, n)
  {
  }

  /** A search that succeeds was feasible. */
  lemma {:induction false} SearchFeasible(s: seq<int>, idx: nat, placed: nat, n: nat)
    requires placed <= n && Search(s, idx, placed, n).Some?
    decreases n - placed
    ensures Feasible(s, n - placed)
  {
    if placed < n {
      TryFromSome(s, 0, placed, n);
      var k :| 0 <= k < |s| && Leads(s, k, placed, n);
      var t := s[k := s[k] + 1];
      SumIncrement(s, k);
      ConsistentMeans(t);
      BoundedSum(t);
      if placed + 1 < n {
        SearchFeasible(t, k, placed + 1, n);
      }
    }
  }

  /** A feasible search succeeds. */
  lemma {:induction false} FeasibleSearch(s: seq<int>, idx: nat, placed: nat, n: nat)
    requires placed <= n && (idx < |s| || |s| == 0) && Feasible(s, n - placed)
    decreases n - placed
    ensures Search(s, idx, placed, n).Some?
  {
    if placed < n {
      var k :| 0 <= k < |s| && IsConsistent(s[k := s[k] + 1]);
      var t := s[k := s[k] + 1];
      SumIncrement(s, k);
      if placed + 1 < n {
        RoomForOneMore(t);
      }
      FeasibleSearch(t, k, placed + 1, n);
      assert Leads(s, k, placed, n);
      TryFromSome(s, 0, placed, n);
    }
  }

  /**
   * The search succeeds exactly when the placement is feasible: the depth
   * first order never misses a distribution that exists.
   */
  lemma SearchComplete(s: seq<int>, idx: nat, placed: nat, n: nat)
    requires placed <= n && (idx < |s| || |s| == 0)
    ensures Search(s, idx, placed, n).Some? <==> Feasible(s, n - placed)
  {
    if Search(s, idx, placed, n).Some? {
      SearchFeasible(s, idx, placed, n);
    }
    if Feasible(s, n - placed) {
      FeasibleSearch(s, idx, placed, n);
    }
  }

  /**
   * The recursive search on the group `a`, in place: adds a house to lot
   * `j`, recurses if the group stays consistent, and takes the house back
   * when that branch fails. On success the array holds the placement found;
   * on failure it is exactly as it was.
   */
  method Backtrack(a: array<int>, idx: nat, placed: nat, n: nat) returns (ok: bool, best: Option<seq<int>>)
    requires placed <= n
    modifies a
    decreases n - placed
    ensures best == Search(old(a[..]), idx, placed, n) && (ok <==> best.Some?)
    ensures ok ==> a[..] == best.value
    ensures !ok ==> a[..] == old(a[..])
  {
    if placed == n {
      return true, Some(a[..]);
    }
    if idx >= a.Length {
      return false, None;
    }
    ghost var s0 := a[..];
    for j := 0 to a.Length
      invariant a[..] == s0
      invariant TryFrom(s0, j, placed, n) == TryFrom(s0, 0, placed, n)
    {
      TryFromStep(s0, j, placed, n);
      a[j] := a[j] + 1;
      assert a[..] == s0[j := s0[j] + 1];
      if IsConsistent(a[..]) {
        ok, best := Backtrack(a, j, placed + 1, n);
        if ok {
          return;
        }
      }
      a[j] := a[j] - 1;
      assert a[..] == s0;
    }
    return false, None;
  }

  /**
   * Places `n` houses on a copy of the group's current counts. It succeeds
   * exactly when the placement is feasible; the placement found adds
   * exactly `n` houses, never removes one, and is consistent when `n > 0`.
   */
  method Distribute(current: seq<int>, n: nat) returns (ok: bool, best: Option<seq<int>>)
    ensures ok <==> best.Some?
    ensures ok <==> Feasible(current, n)
    ensures ok ==> |best.value| == |current| && Sum(best.value) == Sum(current) + n
    ensures ok ==> forall i :: 0 <= i < |current| ==> current[i] <= best.value[i]
    ensures ok && n > 0 ==> IsConsistent(best.value)
  {
    var a := new int[|current|](i requires 0 <= i < |current| => current[i]);
    assert a[..] == current;
    ok, best := Backtrack(a, 0, 0, n);
    SearchComplete(current, 0, 0, n);
  }

  /** Three empty lots given three houses end with one house each. */
  lemma ThreeEmptyLots()
    ensures Search([0, 0, 0], 0, 0, 3) == Some([1, 1, 1])
  {
    SecondHouse();
    assert IsConsistent([1, 0, 0]) by {
      assert MaxOf([1, 0, 0]) == 1 && MinOf([1, 0, 0]) == 0 by {
        assert [1, 0, 0][1..] == [0, 0] && [0, 0][1..] == [0];
      }
    }
    assert [0, 0, 0][0 := 1] == [1, 0, 0];
    assert Leads([0, 0, 0], 0, 0, 3);
  }

  lemma SecondHouse()
    ensures Search([1, 0, 0], 0, 1, 3) == Some([1, 1, 1])
  {
    var s := [1, 0, 0];
    ThirdHouse();
    SecondHouseGroups();
    assert s[0] + 1 == 2 && s[1] + 1 == 1;
    assert s[0 := 2] == [2, 0, 0] && s[1 := 1] == [1, 1, 0];
    assert Search(s, 0, 1, 3) == TryFrom(s, 0, 1, 3);
    assert !Leads(s, 0, 1, 3);
    TryFromStep(s, 0, 1, 3);
    assert Leads(s, 1, 1, 3);
    TryFromStep(s, 1, 1, 3);
  }

  lemma SecondHouseGroups()
    ensures !IsConsistent([2, 0, 0]) && IsConsistent([1, 1, 0])
  {
    assert MaxOf([2, 0, 0]) == 2 && MinOf([2, 0, 0]) == 0 by {
      assert [2, 0, 0][1..] == [0, 0] && [0, 0][1..] == [0];
    }
    assert MaxOf([1, 1, 0]) == 1 && MinOf([1, 1, 0]) == 0 by {
      assert [1, 1, 0][1..] == [1, 0] && [1, 0][1..] == [0];
    }
  }

  lemma ThirdHouse()
    ensures Search([1, 1, 0], 1, 2, 3) == Some([1, 1, 1])
  {
    assert !IsConsistent([2, 1, 0]) by {
      assert MaxOf([2, 1, 0]) == 2 && MinOf([2, 1, 0]) == 0 by {
        assert [2, 1, 0][1..] == [1, 0] && [1, 0][1..] == [0];
      }
    }
    assert !IsConsistent([1, 2, 0]) by {
      assert MaxOf([1, 2, 0]) == 2 && MinOf([1, 2, 0]) == 0 by {
        assert [1, 2, 0][1..] == [2, 0] && [2, 0][1..] == [0];
      }
    }
    assert IsConsistent([1, 1, 1]) by {
      assert MaxOf([1, 1, 1]) == 1 && MinOf([1, 1, 1]) == 1 by {
        assert [1, 1, 1][1..] == [1, 1] && [1, 1][1..] == [1];
      }
    }
    assert [1, 1, 0][0 := 2] == [2, 1, 0] && [1, 1, 0][1 := 2] == [1, 2, 0] && [1, 1, 0][2 := 1] == [1, 1, 1];
    TryFromStep([1, 1, 0], 0, 2, 3);
    TryFromStep([1, 1, 0], 1, 2, 3);
    TryFromStep([1, 1, 0], 2, 2, 3);
  }
}

/** `sorted(records, key=lambda r: r._time._ticks)`: Python's sort is stable, so records with
    equal times keep their order. Modelled as an insertion sort that places each record after
    every earlier one that is not slower. */
module Ranking {
  import opened Records

  predicate Sorted(s: seq<Record>) {
    forall i, j | 0 <= i < j < |s| :: s[i].ticks <= s[j].ticks
  }

  /** The records of `s` whose time is exactly `t`, in their order in `s`. */
  function WithTicks(s: seq<Record>, t: nat): (r: seq<Record>)
  {
    if s == [] then []
    else
      var rest := WithTicks(s[..|s| - 1], t);
      if s[|s| - 1].ticks == t then rest + [s[|s| - 1]] else rest
  }

  /** Inserts `x` into `s` just after the last record whose time is at most `x`'s (at the
      front when there is none): into a sorted `s`, after every record not slower than `x`. */
  function Insert(s: seq<Record>, x: Record): (r: seq<Record>)
    ensures multiset(r) == multiset(s) + multiset{x}
  {
    if s == [] || s[|s| - 1].ticks <= x.ticks then s + [x]
    else
      assert s == s[..|s| - 1] + [s[|s| - 1]];
      Insert(s[..|s| - 1], x) + [s[|s| - 1]]
  }

  /** The stable sort by ticks. */
  function SortByTicks(s: seq<Record>): (r: seq<Record>)
    ensures multiset(r) == multiset(s)
  {
    if s == [] then []
    else
      assert s == s[..|s| - 1] + [s[|s| - 1]];
      Insert(SortByTicks(s[..|s| - 1]), s[|s| - 1])
  }

  lemma WithTicksSingle(x: Record, t: nat)
    ensures WithTicks([x], t) == if x.ticks == t then [x] else []
  {
    assert [x][..0] == [];
  }

  lemma {:induction false} WithTicksAppend(s: seq<Record>, u: seq<Record>, t: nat)
    ensures WithTicks(s + u, t) == WithTicks(s, t) + WithTicks(u, t)
  {
    if u == [] {
      assert s + u == s;
    } else {
      var init := u[..|u| - 1];
      assert (s + u)[..|s + u| - 1] == s + init;
      WithTicksAppend(s, init, t);
    }
  }

  /** Insertion keeps a sequence sorted. */
  lemma {:induction false} InsertSorted(s: seq<Record>, x: Record)
    requires Sorted(s)
    ensures Sorted(Insert(s, x))
  {
    if s != [] && s[|s| - 1].ticks > x.ticks {
      var init, last := s[..|s| - 1], s[|s| - 1];
      var r := Insert(init, x);
      assert Insert(s, x) == r + [last];
      assert Sorted(init);
      InsertSorted(init, x);
      hide Insert;
      forall i, j | 0 <= i < j < |r| + 1
        ensures (r + [last])[i].ticks <= (r + [last])[j].ticks
      {
        if j == |r| {
          assert r[i] in multiset(init) + multiset{x} by {
            assert r[i] in multiset(r);
          }
          if r[i] != x {
            assert r[i] in init;
          }
        }
      }
    }
  }

  /** Insertion puts `x` after every record of the same time. */
  lemma {:induction false} InsertStable(s: seq<Record>, x: Record, t: nat)
    ensures WithTicks(Insert(s, x), t) == WithTicks(s, t) + WithTicks([x], t)
  {
    if s == [] || s[|s| - 1].ticks <= x.ticks {
      assert Insert(s, x) == s + [x];
      WithTicksAppend(s, [x], t);
    } else {
      var init, last := s[..|s| - 1], s[|s| - 1];
      assert s == init + [last];
      assert Insert(s, x) == Insert(init, x) + [last];
      var w, wx, wl := WithTicks(init, t), WithTicks([x], t), WithTicks([last], t);
      assert wx == [] || wl == [] by {
        WithTicksSingle(x, t);
        WithTicksSingle(last, t);
      }
      InsertStable(init, x, t);
      WithTicksAppend(Insert(init, x), [last], t);
      WithTicksAppend(init, [last], t);
      hide *;
      if wx == [] {
        assert w + wx + wl == w + wl == w + wl + wx;
      } else {
        assert w + wx + wl == w + wx == w + wl + wx;
      }
    }
  }

  /** The result is sorted by ticks. */
  lemma {:induction false} SortedByTicks(s: seq<Record>)
    ensures Sorted(SortByTicks(s))
  {
    if s != [] {
      SortedByTicks(s[..|s| - 1]);
      InsertSorted(SortByTicks(s[..|s| - 1]), s[|s| - 1]);
    }
  }

  /** The sort is stable: the records of each time appear in their original order. */
  lemma {:induction false} SortIsStable(s: seq<Record>, t: nat)
    ensures WithTicks(SortByTicks(s), t) == WithTicks(s, t)
  {
    if s != [] {
      var init, last := s[..|s| - 1], s[|s| - 1];
      assert s == init + [last];
      assert SortByTicks(s) == Insert(SortByTicks(init), last);
      hide *;
      SortIsStable(init, t);
      InsertStable(SortByTicks(init), last, t);
      WithTicksAppend(init, [last], t);
    }
  }

  /** What `sorted(s, key=ticks)` promises, in one statement: a stable sort by ticks. */
  lemma SortByTicksSpec(s: seq<Record>)
    ensures Sorted(SortByTicks(s))
    ensures multiset(SortByTicks(s)) == multiset(s)
    ensures forall t :: WithTicks(SortByTicks(s), t) == WithTicks(s, t)
  {
    SortedByTicks(s);
    forall t
      ensures WithTicks(SortByTicks(s), t) == WithTicks(s, t)
    {
      SortIsStable(s, t);
    }
  }
}

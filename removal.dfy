/**
 * `remove_meetings` and `remove_weekly_meetings` (bot.py, lines 217-267): check every
 * argument names a 1-based position, sort the positions in reverse, and pop them one by one.
 */
module Removal {
  import opened Base
  import opened Text
  import opened Timeline

  /** An argument the removal accepts: digits naming a position from 1 to `n`. */
  predicate ValidPosition(arg: string, n: nat) {
    IsNumeric(arg) && 1 <= ParseNat(arg) <= n
  }

  predicate AllValid(args: seq<string>, n: nat) {
    forall i :: 0 <= i < |args| ==> ValidPosition(args[i], n)
  }

  /** The positions the arguments name, in argument order. */
  function Positions(args: seq<string>, n: nat): (ps: seq<nat>)
    requires AllValid(args, n)
    ensures |ps| == |args| && forall i :: 0 <= i < |ps| ==> 1 <= ps[i] <= n
  {
    seq(|args|, i requires 0 <= i < |args| => ParseNat(args[i]))
  }

  lemma PositionsSnoc(args: seq<string>, i: nat, n: nat)
    requires i < |args| && AllValid(args[..i + 1], n)
    ensures AllValid(args[..i], n)
    ensures Positions(args[..i + 1], n) == Positions(args[..i], n) + [ParseNat(args[i])]
  {
    assert args[..i + 1] == args[..i] + [args[i]];
    assert forall k :: 0 <= k < i ==> args[..i + 1][k] == args[..i][k];
  }

  predicate NonIncreasing(s: seq<int>) {
    forall i, j :: 0 <= i < j < |s| ==> s[i] >= s[j]
  }

  predicate StrictlyDescending(s: seq<int>) {
    forall i, j :: 0 <= i < j < |s| ==> s[i] > s[j]
  }

  function InsertDescending(x: nat, r: seq<nat>): (r': seq<nat>)
    requires NonIncreasing(r)
    ensures NonIncreasing(r') && multiset(r') == multiset(r) + multiset{x}
  {
    if |r| == 0 || x >= r[0] then [x] + r
    else
      var rest := InsertDescending(x, r[1..]);
      assert r == [r[0]] + r[1..];
      HeadBound(x, r, rest);
      NonIncreasingCons(r[0], rest);
      [r[0]] + rest
  }

  /** Whatever is inserted behind a larger head stays at most that head. */
  lemma HeadBound(x: nat, r: seq<nat>, rest: seq<nat>)
    requires |r| > 0 && NonIncreasing(r) && x < r[0]
    requires multiset(rest) == multiset(r[1..]) + multiset{x}
    ensures forall j :: 0 <= j < |rest| ==> r[0] >= rest[j]
  {
    forall j | 0 <= j < |rest| ensures r[0] >= rest[j] {
      assert rest[j] in multiset(rest);
      if rest[j] != x {
        assert rest[j] in r[1..];
      }
    }
  }

  lemma NonIncreasingCons(h: nat, rest: seq<nat>)
    requires NonIncreasing(rest) && forall j :: 0 <= j < |rest| ==> h >= rest[j]
    ensures NonIncreasing([h] + rest)
  {
  }

  /** `list.sort(reverse=True)`: the same numbers, largest first. */
  function SortDescending(xs: seq<nat>): (r: seq<nat>)
    ensures NonIncreasing(r) && multiset(r) == multiset(xs)
  {
    if |xs| == 0 then []
    else
      assert xs == [xs[0]] + xs[1..];
      InsertDescending(xs[0], SortDescending(xs[1..]))
  }

  /** Sorting keeps every number within the bounds the input respected. */
  lemma SortWithin(xs: seq<nat>, lo: int, hi: int)
    requires forall i :: 0 <= i < |xs| ==> lo <= xs[i] <= hi
    ensures forall i :: 0 <= i < |SortDescending(xs)| ==> lo <= SortDescending(xs)[i] <= hi
  {
    var r := SortDescending(xs);
    forall i | 0 <= i < |r| ensures lo <= r[i] <= hi {
      assert r[i] in multiset(xs);
      var j :| 0 <= j < |xs| && xs[j] == r[i];
    }
  }

  /** The same numbers, as a set, before and after sorting. */
  lemma SortSameSet(xs: seq<nat>)
    ensures forall p :: p in SortDescending(xs) <==> p in xs
  {
    var r := SortDescending(xs);
    forall p ensures p in r <==> p in xs {
      assert p in r <==> p in multiset(r);
      assert p in xs <==> p in multiset(xs);
    }
  }

  lemma {:induction false} InsertDescendingStrict(x: nat, r: seq<nat>)
    requires StrictlyDescending(r) && x !in r
    ensures StrictlyDescending(InsertDescending(x, r))
  {
    if |r| > 0 && x < r[0] {
      InsertDescendingStrict(x, r[1..]);
      var rest := InsertDescending(x, r[1..]);
      forall j | 0 <= j < |rest| ensures r[0] > rest[j] {
        assert rest[j] in multiset(rest);
      }
    }
  }

  /** Distinct positions sort into a strictly descending list. */
  lemma {:induction false} SortDistinct(xs: seq<nat>)
    requires Distinct(xs)
    ensures StrictlyDescending(SortDescending(xs))
  {
    if |xs| > 0 {
      assert Distinct(xs[1..]) by {
        assert xs == [xs[0]] + xs[1..];
        DistinctAppend([xs[0]], xs[1..]);
      }
      SortDistinct(xs[1..]);
      var sorted := SortDescending(xs[1..]);
      assert xs[0] !in xs[1..];
      assert xs[0] !in multiset(sorted);
      InsertDescendingStrict(xs[0], sorted);
    }
  }

  /**
   * The pop loop: every `pop(p - 1)` in turn. The flag is false when a pop was out of range
   * (`IndexError`); the list is then as it was when the error was raised.
   */
  function PopEach<T>(s: seq<T>, ps: seq<nat>): (seq<T>, bool)
    requires forall i :: 0 <= i < |ps| ==> ps[i] >= 1
    ensures multiset(PopEach(s, ps).0) <= multiset(s)
    ensures PopEach(s, ps).1 ==> |PopEach(s, ps).0| == |s| - |ps|
  {
    if |ps| == 0 then (s, true)
    else if ps[0] - 1 < |s| then PopEach(Popped(s, ps[0] - 1), ps[1..])
    else (s, false)
  }

  /** The entries of `s` whose 0-based positions are not in `gone`, in their order. */
  function Without<T>(s: seq<T>, gone: set<int>): seq<T> {
    if |s| == 0 then []
    else Without(s[..|s| - 1], gone) + (if |s| - 1 in gone then [] else [s[|s| - 1]])
  }

  /** The 0-based positions named by 1-based ones. */
  function ZeroBased(ps: seq<nat>): set<int> {
    set p | p in ps :: p - 1
  }

  lemma {:induction false} WithoutAppend<T>(a: seq<T>, b: seq<T>, gone: set<int>)
    requires forall d :: d in gone ==> d < |a|
    ensures Without(a + b, gone) == Without(a, gone) + b
  {
    if |b| > 0 {
      var b' := b[..|b| - 1];
      assert (a + b)[..|a + b| - 1] == a + b';
      WithoutAppend(a, b', gone);
      assert b' + [b[|b| - 1]] == b;
    } else {
      assert a + b == a;
    }
  }

  lemma {:induction false} WithoutIgnores<T>(a: seq<T>, gone: set<int>, x: int)
    requires x >= |a|
    ensures Without(a, gone + {x}) == Without(a, gone)
  {
    if |a| > 0 {
      WithoutIgnores(a[..|a| - 1], gone, x);
    }
  }

  /** Popping the highest position to remove is removing it by position. */
  lemma PopHighest<T>(s: seq<T>, k: nat, gone: set<int>)
    requires k < |s|
    requires forall d :: d in gone ==> d < k
    ensures Without(Popped(s, k), gone) == Without(s, gone + {k})
  {
    var front, back, upto := s[..k], s[k + 1..], s[..k + 1];
    assert Popped(s, k) == front + back;
    WithoutAppend(front, back, gone);
    assert s == upto + back;
    WithoutAppend(upto, back, gone + {k});
    assert upto[..|upto| - 1] == front;
    assert Without(upto, gone + {k}) == Without(front, gone + {k});
    WithoutIgnores(front, gone, k);
  }

  /**
   * Popping strictly descending in-range positions one by one removes exactly the entries at
   * those original positions and keeps the rest in order.
   */
  lemma {:induction false} PopEachDistinct<T>(s: seq<T>, ps: seq<nat>)
    requires StrictlyDescending(ps)
    requires forall i :: 0 <= i < |ps| ==> 1 <= ps[i] <= |s|
    ensures PopEach(s, ps) == (Without(s, ZeroBased(ps)), true)
  {
    if |ps| == 0 {
      assert ZeroBased(ps) == {};
      WithoutNothing(s);
    } else {
      var k := ps[0] - 1;
      var rest := ps[1..];
      PopEachDistinct(Popped(s, k), rest);
      RestBelow(ps);
      PopHighest(s, k, ZeroBased(rest));
      ZeroBasedCons(ps);
    }
  }

  /** The positions after the first of a strictly descending list all lie below it. */
  lemma RestBelow(ps: seq<nat>)
    requires |ps| > 0 && StrictlyDescending(ps)
    ensures forall d :: d in ZeroBased(ps[1..]) ==> d < ps[0] - 1
  {
    forall d | d in ZeroBased(ps[1..]) ensures d < ps[0] - 1 {
      var p :| p in ps[1..] && d == p - 1;
      var j :| 0 <= j < |ps[1..]| && ps[1..][j] == p;
      assert ps[j + 1] == p;
    }
  }

  lemma ZeroBasedCons(ps: seq<nat>)
    requires |ps| > 0
    ensures ZeroBased(ps) == ZeroBased(ps[1..]) + {ps[0] as int - 1}
  {
    var rest := ps[1..];
    assert ps == [ps[0]] + rest;
    forall d ensures d in ZeroBased(ps) <==> d in ZeroBased(rest) + {ps[0] as int - 1} {
      if d in ZeroBased(ps) {
        var p :| p in ps && d == p - 1;
        if p != ps[0] {
          assert p in rest;
        }
      }
      if d == ps[0] as int - 1 {
        assert ps[0] in ps;
      }
      if d in ZeroBased(rest) {
        var p :| p in rest && d == p - 1;
        assert p in ps;
      }
    }
  }

  lemma {:induction false} WithoutNothing<T>(s: seq<T>)
    ensures Without(s, {}) == s
  {
    if |s| > 0 {
      WithoutNothing(s[..|s| - 1]);
      assert s[..|s| - 1] + [s[|s| - 1]] == s;
    }
  }

  /** Whatever positions are popped, a strictly ascending list stays strictly ascending. */
  lemma {:induction false} PopEachAscending(s: seq<int>, ps: seq<nat>)
    requires forall i :: 0 <= i < |ps| ==> ps[i] >= 1
    requires StrictlyAscending(s)
    ensures StrictlyAscending(PopEach(s, ps).0)
  {
    if |ps| > 0 && ps[0] - 1 < |s| {
      PoppedAscending(s, ps[0] - 1);
      PopEachAscending(Popped(s, ps[0] - 1), ps[1..]);
    }
  }

  /** The positions the removal pops, in the order it pops them: the reverse sort. */
  function PopOrder(args: seq<string>, n: nat): (ps: seq<nat>)
    requires AllValid(args, n)
    ensures forall i :: 0 <= i < |ps| ==> 1 <= ps[i] <= n
  {
    SortWithin(Positions(args, n), 1, n);
    SortDescending(Positions(args, n))
  }

  /** With no position named twice, the removal pops exactly the named entries. */
  lemma RemovalDistinct<T>(s: seq<T>, args: seq<string>)
    requires AllValid(args, |s|) && Distinct(Positions(args, |s|))
    ensures PopEach(s, PopOrder(args, |s|)) == (Without(s, ZeroBased(Positions(args, |s|))), true)
  {
    var positions := Positions(args, |s|);
    var order := PopOrder(args, |s|);
    SortDistinct(positions);
    PopEachDistinct(s, order);
    SortSameSet(positions);
    assert ZeroBased(order) == ZeroBased(positions);
  }

  /**
   * `remove_meetings` / `remove_weekly_meetings` on the list `s`: returns False and changes
   * nothing unless every argument is a valid position; otherwise pops the sorted positions.
   */
  method RemoveByPositions<T>(s: seq<T>, args: seq<string>) returns (outcome: Outcome, r: seq<T>)
    ensures !AllValid(args, |s|) ==> outcome == Returned(false) && r == s
    ensures AllValid(args, |s|) ==>
              var popped := PopEach(s, PopOrder(args, |s|));
              r == popped.0 && outcome == (if popped.1 then Returned(true) else Raised(IndexError))
    ensures AllValid(args, |s|) && Distinct(Positions(args, |s|)) ==>
              outcome == Returned(true) && r == Without(s, ZeroBased(Positions(args, |s|)))
  {
    var indexes: seq<nat> := [];
    for i := 0 to |args|
      invariant AllValid(args[..i], |s|)
      invariant indexes == Positions(args[..i], |s|)
    {
      if IsNumeric(args[i]) {
        var index := ParseNat(args[i]);
        if 1 <= index <= |s| {
          assert args[..i + 1] == args[..i] + [args[i]];
          PositionsSnoc(args, i, |s|);
          indexes := indexes + [index];
          continue;
        }
      }
      return Returned(false), s;
    }
    assert args[..|args|] == args;
    if Distinct(indexes) {
      RemovalDistinct(s, args);
    }
    var ok;
    ok, r := PopAll(s, PopOrder(args, |s|));
    outcome := if ok then Returned(true) else Raised(IndexError);
  }

  /** The `for index in indexes: lst.pop(index - 1)` loop, stopping at the first failed pop. */
  method PopAll<T>(s: seq<T>, ps: seq<nat>) returns (ok: bool, r: seq<T>)
    requires forall i :: 0 <= i < |ps| ==> ps[i] >= 1
    ensures (r, ok) == PopEach(s, ps)
  {
    r := s;
    for j := 0 to |ps|
      invariant PopEach(s, ps) == PopEach(r, ps[j..])
    {
      if ps[j] - 1 >= |r| {
        return false, r;
      }
      assert ps[j..][1..] == ps[j + 1..];
      r := Popped(r, ps[j] - 1);
    }
    ok := true;
  }

  /** Finding: a repeated position pops twice, so a second entry goes with the first. */
  lemma RepeatedPositionPopsTwice()
    ensures PopEach([10, 20, 30], [1, 1]) == ([30], true)
  {
    assert Popped([10, 20, 30], 0) == [20, 30];
    assert Popped([20, 30], 0) == [30];
    assert [1, 1][1..][1..] == [];
  }

  /** The reverse sort keeps both copies of a repeated position. */
  lemma RepeatedPositionSorted()
    ensures SortDescending([1, 1]) == [1, 1]
  {
    assert [1, 1][1..] == [1];
    assert [1][1..] == [];
  }

  /** Removing position 1 alone keeps the second and third entries. */
  lemma RemoveFirstOnly()
    ensures Without([10, 20, 30], {0}) == [20, 30]
  {
    assert [10, 20, 30][..2] == [10, 20];
    assert [10, 20][..1] == [10];
    assert [10][..0] == [];
  }

  /** ... while the one entry the user named is position 1 alone. */
  lemma RepeatedPositionNamesOne()
    ensures ZeroBased([1, 1]) == {0}
  {
    ZeroBasedCons([1, 1]);
    ZeroBasedCons([1]);
    assert ZeroBased([]) == {};
  }

  /** Finding: repeating the position of the only entry pops an empty list (`IndexError`). */
  lemma RepeatedPositionRaises()
    ensures PopEach([10], [1, 1]) == ([], false)
  {
  }

  /** Each position once, in the order of its first occurrence. */
  function Dedup(xs: seq<nat>): (r: seq<nat>)
    ensures Distinct(r)
    ensures forall x :: x in r <==> x in xs
  {
    if |xs| == 0 then []
    else
      var r := Dedup(xs[..|xs| - 1]);
      assert xs == xs[..|xs| - 1] + [xs[|xs| - 1]];
      if xs[|xs| - 1] in r then r else r + [xs[|xs| - 1]]
  }

  /**
   * The intended removal: drop repeated positions before the reverse sort, so every listed
   * entry is removed once and nothing else is.
   */
  function RemoveAtPositions<T>(s: seq<T>, ps: seq<nat>): seq<T>
    requires forall i :: 0 <= i < |ps| ==> 1 <= ps[i]
  {
    DedupWithin(ps, 1);
    SortWithin(Dedup(ps), 1, Max(ps));
    PopEach(s, SortDescending(Dedup(ps))).0
  }

  function Max(ps: seq<nat>): (m: nat)
    ensures forall i :: 0 <= i < |ps| ==> ps[i] <= m
  {
    if |ps| == 0 then 0 else var m := Max(ps[1..]); if ps[0] > m then ps[0] else m
  }

  lemma DedupWithin(ps: seq<nat>, lo: int)
    requires forall i :: 0 <= i < |ps| ==> lo <= ps[i]
    ensures forall i :: 0 <= i < |Dedup(ps)| ==> lo <= Dedup(ps)[i] <= Max(ps)
  {
    var r := Dedup(ps);
    forall i | 0 <= i < |r| ensures lo <= r[i] <= Max(ps) {
      assert r[i] in ps;
    }
  }

  /** With the correction, repeats no longer matter: exactly the listed positions go. */
  lemma RemoveAtPositionsSpec<T>(s: seq<T>, ps: seq<nat>)
    requires forall i :: 0 <= i < |ps| ==> 1 <= ps[i] <= |s|
    ensures RemoveAtPositions(s, ps) == Without(s, ZeroBased(ps))
  {
    var unique := SortDescending(Dedup(ps));
    UniqueOrder(ps, |s|);
    PopEachDistinct(s, unique);
  }

  /** The deduplicated positions, sorted, are strictly descending, in range, and name the same entries. */
  lemma UniqueOrder(ps: seq<nat>, n: nat)
    requires forall i :: 0 <= i < |ps| ==> 1 <= ps[i] <= n
    ensures var unique := SortDescending(Dedup(ps));
            StrictlyDescending(unique)
            && (forall i :: 0 <= i < |unique| ==> 1 <= unique[i] <= n)
            && ZeroBased(unique) == ZeroBased(ps)
  {
    var d := Dedup(ps);
    forall i | 0 <= i < |d| ensures 1 <= d[i] <= n {
      assert d[i] in ps;
    }
    SortWithin(d, 1, n);
    SortDistinct(d);
    SortSameSet(d);
    SameElementsZeroBased(SortDescending(d), ps);
  }

  /** Lists with the same elements name the same 0-based positions. */
  lemma SameElementsZeroBased(a: seq<nat>, b: seq<nat>)
    requires forall p :: p in a <==> p in b
    ensures ZeroBased(a) == ZeroBased(b)
  {
  }
}

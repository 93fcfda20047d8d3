/**
 * The coin-change exercise of `moedas.cpp`: a greedy method that takes the
 * largest coins first, and an exhaustive backtracking search for the fewest
 * coins. A `std::map<int, int>` of counts is a `map<int, int>` read through
 * `operator[]`, so an absent key reads as 0 and `m[c]++` inserts it.
 * Both algorithms loop forever (or recurse without end) on a coin that is not
 * positive, so every coin is required to be positive.
 */
module CoinChange {

  datatype Option<T> = None | Some(value: T)

  /** `INT_MAX`, the exhaustive search's "no combination found". */
  const INT_MAX: int := 0x7FFF_FFFF

  predicate PositiveCoins(coins: seq<int>) {
    forall i :: 0 <= i < |coins| ==> coins[i] > 0
  }

  function Sum(s: seq<int>): int {
    if s == [] then 0 else s[0] + Sum(s[1..])
  }

  lemma {:induction false} SumAppend(s: seq<int>, t: seq<int>)
    ensures Sum(s + t) == Sum(s) + Sum(t)
  {
    if s == [] {
      assert s + t == t;
    } else {
      assert (s + t)[1..] == s[1..] + t;
      SumAppend(s[1..], t);
    }
  }

  /** `m[c]` as `operator[]` reads it: an absent key counts 0. */
  function Get(m: map<int, int>, c: int): int {
    if c in m then m[c] else 0
  }

  /** `m[c]++`: the key is inserted with 0 first when it is absent. */
  function Bump(m: map<int, int>, c: int): (r: map<int, int>)
    ensures r.Keys == m.Keys + {c}
    ensures Get(r, c) == Get(m, c) + 1
    ensures forall d :: d != c ==> Get(r, d) == Get(m, d)
  {
    m[c := Get(m, c) + 1]
  }

  /** `m` holds, for every coin value, how often it occurs in `s`. */
  ghost predicate Tallies(m: map<int, int>, s: seq<int>) {
    forall c :: Get(m, c) == multiset(s)[c]
  }

  lemma BumpTallies(m: map<int, int>, s: seq<int>, c: int)
    requires Tallies(m, s)
    ensures Tallies(Bump(m, c), s + [c])
  {
    assert multiset(s + [c]) == multiset(s) + multiset{c};
  }

  /**
   * `count` and `m` are what `greedyChange` reports for the picks `s`: their
   * number, and a map holding only the coins picked, each with its tally.
   */
  ghost predicate Counted(count: int, m: map<int, int>, s: seq<int>) {
    count == |s| && Tallies(m, s) && forall c :: c in m ==> m[c] > 0
  }

  lemma BumpCounted(count: int, m: map<int, int>, s: seq<int>, c: int)
    requires Counted(count, m, s)
    ensures Counted(count + 1, Bump(m, c), s + [c])
  {
    BumpTallies(m, s, c);
  }

  // ---------------------------------------------------------------------
  // greedyChange
  // ---------------------------------------------------------------------

  /** The inner `while (value >= coins[i])`: coin `c` taken as long as it fits in `v`. */
  function TakeWhileFits(c: int, v: int): seq<int>
    requires c > 0
    decreases v
  {
    if v >= c then [c] + TakeWhileFits(c, v - c) else []
  }

  /** The outer loop over `coins[k-1]`, ..., `coins[0]`, starting from the amount `v`. */
  function GreedyFrom(coins: seq<int>, k: nat, v: int): seq<int>
    requires PositiveCoins(coins) && k <= |coins|
  {
    if k == 0 then []
    else
      var t := TakeWhileFits(coins[k - 1], v);
      t + GreedyFrom(coins, k - 1, v - Sum(t))
  }

  /** The coins `greedyChange(coins, value)` picks, in the order it picks them. */
  function GreedyPicks(coins: seq<int>, value: int): seq<int>
    requires PositiveCoins(coins)
  {
    GreedyFrom(coins, |coins|, value)
  }

  lemma {:induction false} TakeFacts(c: int, v: int)
    requires c > 0
    ensures forall x :: x in TakeWhileFits(c, v) ==> x == c
    ensures Sum(TakeWhileFits(c, v)) >= 0
    ensures v - Sum(TakeWhileFits(c, v)) < c
    ensures v >= 0 ==> v - Sum(TakeWhileFits(c, v)) >= 0
    ensures v < c ==> TakeWhileFits(c, v) == []
    decreases v
  {
    if v >= c {
      TakeFacts(c, v - c);
      var t := TakeWhileFits(c, v - c);
      assert ([c] + t)[1..] == t;
    }
  }

  /**
   * What the greedy scan pays: only coins of `coins[..k]`, never more than `v`
   * when `v >= 0`, and with a remainder below every coin it scanned.
   */
  lemma GreedyFromFacts(coins: seq<int>, k: nat, v: int)
    requires PositiveCoins(coins) && k <= |coins|
    ensures forall x :: x in GreedyFrom(coins, k, v) ==> x in coins[..k]
    ensures Sum(GreedyFrom(coins, k, v)) >= 0
    ensures forall j :: 0 <= j < k ==> v - Sum(GreedyFrom(coins, k, v)) < coins[j]
    ensures v >= 0 ==> v - Sum(GreedyFrom(coins, k, v)) >= 0
    ensures v < 0 ==> GreedyFrom(coins, k, v) == []
  {
    GreedyFromCoins(coins, k, v);
    GreedyFromSum(coins, k, v);
  }

  /** The greedy scan of `coins[..k]` takes only coins of `coins[..k]`. */
  lemma {:induction false} GreedyFromCoins(coins: seq<int>, k: nat, v: int)
    requires PositiveCoins(coins) && k <= |coins|
    ensures forall x :: x in GreedyFrom(coins, k, v) ==> x in coins[..k]
  {
    if k > 0 {
      var k1 := k - 1;
      var c := coins[k1];
      var t := TakeWhileFits(c, v);
      var w := v - Sum(t);
      var rest := GreedyFrom(coins, k1, w);
      assert GreedyFrom(coins, k, v) == t + rest;
      TakeFacts(c, v);
      GreedyFromCoins(coins, k1, w);
      forall x | x in t + rest ensures x in coins[..k] {
        if x in t {
          assert coins[..k][k1] == c;
        } else {
          assert x in coins[..k1];
          var i :| 0 <= i < k1 && coins[..k1][i] == x;
          assert coins[..k][i] == x;
        }
      }
    }
  }

  /** What the greedy scan of `coins[..k]` pays out of `v`, and what it leaves. */
  lemma {:induction false} GreedyFromSum(coins: seq<int>, k: nat, v: int)
    requires PositiveCoins(coins) && k <= |coins|
    ensures Sum(GreedyFrom(coins, k, v)) >= 0
    ensures forall j :: 0 <= j < k ==> v - Sum(GreedyFrom(coins, k, v)) < coins[j]
    ensures v >= 0 ==> v - Sum(GreedyFrom(coins, k, v)) >= 0
    ensures v < 0 ==> GreedyFrom(coins, k, v) == []
  {
    if k > 0 {
      var k1 := k - 1;
      var c := coins[k1];
      var t := TakeWhileFits(c, v);
      var w := v - Sum(t);
      var rest := GreedyFrom(coins, k1, w);
      var g := t + rest;
      assert GreedyFrom(coins, k, v) == g;
      TakeFacts(c, v);
      GreedyFromSum(coins, k1, w);
      SumAppend(t, rest);
      assert v - Sum(g) == w - Sum(rest);
      forall j | 0 <= j < k ensures w - Sum(rest) < coins[j] {
        if j == k1 {
          assert w < c && Sum(rest) >= 0;
        }
      }
    }
  }

  /** The greedy remainder is below every coin, and is 0 whenever a coin of value 1 exists. */
  lemma GreedyRemainder(coins: seq<int>, value: int)
    requires PositiveCoins(coins) && value >= 0
    ensures 0 <= value - Sum(GreedyPicks(coins, value))
    ensures forall j :: 0 <= j < |coins| ==> value - Sum(GreedyPicks(coins, value)) < coins[j]
    ensures 1 in coins ==> Sum(GreedyPicks(coins, value)) == value
  {
    GreedyFromFacts(coins, |coins|, value);
    assert coins[..|coins|] == coins;
  }

  /** The inner `while (value >= coins[i])`: coin `c` counted once per time it fits in `v`. */
  method TakeCoins(ghost coins: seq<int>, ghost i: int, c: int, v: int, count: int, m: map<int, int>, ghost picks: seq<int>)
    returns (v': int, count': int, m': map<int, int>, ghost picks': seq<int>)
    requires PositiveCoins(coins) && 0 <= i < |coins| && c == coins[i]
    requires c > 0 && Counted(count, m, picks)
    ensures picks' + GreedyFrom(coins, i, v') == picks + GreedyFrom(coins, i + 1, v)
    ensures v' == v - Sum(TakeWhileFits(c, v))
    ensures picks' == picks + TakeWhileFits(c, v)
    ensures Counted(count', m', picks')
  {
    GreedyStep(coins, i, i + 1, v, picks, c);
    v', count', m', picks' := v, count, m, picks;
    while v' >= c
      invariant picks' + TakeWhileFits(c, v') == picks + TakeWhileFits(c, v)
      invariant v' - Sum(TakeWhileFits(c, v')) == v - Sum(TakeWhileFits(c, v))
      invariant Counted(count', m', picks')
      decreases v'
    {
      var v1 := v' - c;
      TakeStep(c, v', v1);
      BumpCounted(count', m', picks', c);
      v' := v1;
      count' := count' + 1;
      m' := Bump(m', c);
      picks' := picks' + [c];
    }
    assert TakeWhileFits(c, v') == [];
  }

  /** `greedyChange(coins, value)`: the coin count and the count of each coin used. */
  method GreedyChange(coins: seq<int>, value: int) returns (coinCount: int, coinCountMap: map<int, int>)
    requires PositiveCoins(coins)
    ensures Counted(coinCount, coinCountMap, GreedyPicks(coins, value))
  {
    var v := value;
    coinCount := 0;
    coinCountMap := map[];
    ghost var picks: seq<int> := [];
    var i := |coins| - 1;
    while i >= 0
      invariant -1 <= i < |coins|
      invariant picks + GreedyFrom(coins, i + 1, v) == GreedyPicks(coins, value)
      invariant Counted(coinCount, coinCountMap, picks)
    {
      var c := coins[i];
      v, coinCount, coinCountMap, picks := TakeCoins(coins, i, c, v, coinCount, coinCountMap, picks);
      i := i - 1;
    }
    assert GreedyFrom(coins, 0, v) == [];
  }

  /** One turn of the inner loop: the coin taken first, the amount left the same. */
  lemma TakeStep(c: int, v: int, v1: int)
    requires c > 0 && v >= c && v1 == v - c
    ensures TakeWhileFits(c, v) == [c] + TakeWhileFits(c, v1)
    ensures Sum(TakeWhileFits(c, v)) == c + Sum(TakeWhileFits(c, v1))
    ensures forall p: seq<int> :: p + TakeWhileFits(c, v) == (p + [c]) + TakeWhileFits(c, v1)
  {
    var t := TakeWhileFits(c, v1);
    assert ([c] + t)[1..] == t;
  }

  /** One turn of the outer loop: the scan from `coins[k]` down takes `coins[k]` first. */
  lemma GreedyStep(coins: seq<int>, k: nat, k1: nat, v: int, picks: seq<int>, c: int)
    requires PositiveCoins(coins) && k < |coins| && k1 == k + 1 && c == coins[k]
    ensures picks + GreedyFrom(coins, k1, v) ==
      (picks + TakeWhileFits(c, v)) + GreedyFrom(coins, k, v - Sum(TakeWhileFits(c, v)))
  {
    var t := TakeWhileFits(c, v);
    var r := GreedyFrom(coins, k, v - Sum(t));
    assert GreedyFrom(coins, k1, v) == t + r;
    assert picks + (t + r) == (picks + t) + r;
  }

  // ---------------------------------------------------------------------
  // findMinCoins / exhaustiveChange
  // ---------------------------------------------------------------------

  /** Coin value `x` is one of `coins[index..]`. */
  ghost predicate Offers(coins: seq<int>, index: nat, x: int) {
    exists j :: index <= j < |coins| && coins[j] == x
  }

  /** `p` is a way to pay `value` with coins of `coins[index..]`, each usable any number of times. */
  ghost predicate IsChange(coins: seq<int>, index: nat, value: int, p: seq<int>) {
    (forall x :: x in p ==> Offers(coins, index, x)) && Sum(p) == value
  }

  function Succ(a: Option<nat>): Option<nat> {
    if a.Some? then Some(a.value + 1) else None
  }

  function MinOpt(a: Option<nat>, b: Option<nat>): Option<nat> {
    if a.None? then b
    else if b.None? then a
    else if a.value <= b.value then a else b
  }

  /**
   * The fewest coins the search below `findMinCoins(coins, index, value, …)` reaches a
   * zero amount with: take `coins[index]` once more, or move on to `coins[index + 1]`.
   */
  function MinCount(coins: seq<int>, index: nat, value: int): Option<nat>
    requires PositiveCoins(coins)
    decreases value, |coins| - index
  {
    if value == 0 then Some(0)
    else if value < 0 || index >= |coins| then None
    else MinOpt(Succ(MinCount(coins, index, value - coins[index])), MinCount(coins, index + 1, value))
  }

  lemma {:induction false} SumOfOffered(coins: seq<int>, index: nat, p: seq<int>)
    requires PositiveCoins(coins)
    requires forall x :: x in p ==> Offers(coins, index, x)
    ensures Sum(p) >= 0
    ensures p != [] ==> Sum(p) > 0
  {
    if p != [] {
      assert p[0] in p;
      assert forall x :: x in p[1..] ==> x in p;
      SumOfOffered(coins, index, p[1..]);
    }
  }

  lemma SumRemove(p: seq<int>, i: nat)
    requires i < |p|
    ensures Sum(p) == p[i] + Sum(p[..i] + p[i + 1..])
  {
    var j := i + 1;
    var a, b := p[..i], p[j..];
    assert p == a + ([p[i]] + b);
    SumAppend(a, [p[i]] + b);
    SumAppend(a, b);
    assert ([p[i]] + b)[1..] == b;
  }

  /** No way of paying `value` from `coins[index..]` uses fewer coins than `MinCount`. */
  lemma {:induction false} MinCountIsMinimal(coins: seq<int>, index: nat, value: int, p: seq<int>)
    requires PositiveCoins(coins) && IsChange(coins, index, value, p)
    ensures MinCount(coins, index, value).Some?
    ensures MinCount(coins, index, value).value <= |p|
    decreases value, |coins| - index
  {
    SumOfOffered(coins, index, p);
    if value != 0 {
      assert p != [] && p[0] in p;
      assert index < |coins|;
      var c := coins[index];
      if c in p {
        var i :| 0 <= i < |p| && p[i] == c;
        var q := p[..i] + p[i + 1..];
        SumRemove(p, i);
        assert forall x :: x in q ==> x in p;
        MinCountIsMinimal(coins, index, value - c, q);
      } else {
        forall x | x in p ensures Offers(coins, index + 1, x) {
          var j :| index <= j < |coins| && coins[j] == x;
          assert j != index;
        }
        MinCountIsMinimal(coins, index + 1, value, p);
      }
    }
  }

  /** `MinCount` is reached: some way of paying `value` from `coins[index..]` uses exactly that many coins. */
  lemma {:induction false} MinCountIsAttained(coins: seq<int>, index: nat, value: int) returns (p: seq<int>)
    requires PositiveCoins(coins) && MinCount(coins, index, value).Some?
    ensures IsChange(coins, index, value, p) && |p| == MinCount(coins, index, value).value
    decreases value, |coins| - index
  {
    if value == 0 {
      p := [];
    } else {
      var c := coins[index];
      var a := MinCount(coins, index, value - c);
      var b := MinCount(coins, index + 1, value);
      if a.Some? && (b.None? || a.value + 1 <= b.value) {
        var q := MinCountIsAttained(coins, index, value - c);
        p := [c] + q;
        assert p[1..] == q;
        assert Offers(coins, index, c);
      } else {
        p := MinCountIsAttained(coins, index + 1, value);
        forall x | x in p ensures Offers(coins, index, x) {
          var j :| index + 1 <= j < |coins| && coins[j] == x;
        }
      }
    }
  }

  /**
   * `findMinCoins(coins, index, value, currentCoins, minCoins, coinCountMap, bestCoinCountMap)`,
   * the three reference parameters being passed in and returned. `pick` names the coins
   * added below this call on the way to a new best.
   */
  method FindMinCoins(coins: seq<int>, index: nat, value: int, currentCoins: int, minCoins: int,
                      coinCountMap: map<int, int>, bestCoinCountMap: map<int, int>)
    returns (minOut: int, mapOut: map<int, int>, bestOut: map<int, int>, ghost pick: seq<int>)
    requires PositiveCoins(coins)
    ensures var m := MinCount(coins, index, value);
      minOut == if m.Some? && currentCoins + m.value < minCoins then currentCoins + m.value else minCoins
    ensures forall c :: Get(mapOut, c) == Get(coinCountMap, c)
    ensures coinCountMap.Keys <= mapOut.Keys
    ensures minOut < minCoins ==>
      IsChange(coins, index, value, pick) && |pick| == minOut - currentCoins &&
      forall c :: Get(bestOut, c) == Get(coinCountMap, c) + multiset(pick)[c]
    ensures minOut >= minCoins ==> bestOut == bestCoinCountMap
    decreases value, |coins| - index
  {
    if value == 0 {
      mapOut, pick := coinCountMap, [];
      if currentCoins < minCoins {
        minOut, bestOut := currentCoins, coinCountMap;
      } else {
        minOut, bestOut := minCoins, bestCoinCountMap;
      }
      return;
    }
    if value < 0 || index >= |coins| {
      minOut, mapOut, bestOut, pick := minCoins, coinCountMap, bestCoinCountMap, [];
      return;
    }
    var c := coins[index];
    var map1 := Bump(coinCountMap, c);
    var min1, map2, best1, pick1 := FindMinCoins(coins, index, value - c, currentCoins + 1, minCoins, map1, bestCoinCountMap);
    var map3 := map2[c := map2[c] - 1];
    var min2, map4, best2, pick2 := FindMinCoins(coins, index + 1, value, currentCoins, min1, map3, best1);
    minOut, mapOut, bestOut := min2, map4, best2;
    if min2 < min1 {
      pick := pick2;
      forall x | x in pick2 ensures Offers(coins, index, x) {
        var j :| index + 1 <= j < |coins| && coins[j] == x;
      }
    } else {
      pick := [c] + pick1;
      if min1 < minCoins {
        assert pick[1..] == pick1;
        assert Offers(coins, index, c);
        assert multiset(pick) == multiset{c} + multiset(pick1);
      }
    }
  }

  /** `exhaustiveChange(coins, value)`: the fewest coins over every combination, or `INT_MAX`. */
  method ExhaustiveChange(coins: seq<int>, value: int) returns (minCoins: int, best: map<int, int>)
    requires PositiveCoins(coins)
    ensures var m := MinCount(coins, 0, value);
      minCoins == if m.Some? && m.value < INT_MAX then m.value else INT_MAX
    ensures minCoins < INT_MAX ==>
      exists p :: IsChange(coins, 0, value, p) && |p| == minCoins && Tallies(best, p)
    ensures minCoins == INT_MAX ==> best == map[]
  {
    var coinCountMap: map<int, int> := map[];
    var bestCoinCountMap: map<int, int> := map[];
    var mapOut;
    ghost var pick;
    minCoins, mapOut, best, pick := FindMinCoins(coins, 0, value, 0, INT_MAX, coinCountMap, bestCoinCountMap);
    if minCoins < INT_MAX {
      assert Tallies(best, pick);
    }
  }

  /** When the greedy method pays the value exactly, the exhaustive count is never larger. */
  lemma GreedyNeverBeatsExhaustive(coins: seq<int>, value: int)
    requires PositiveCoins(coins)
    requires Sum(GreedyPicks(coins, value)) == value
    ensures MinCount(coins, 0, value).Some?
    ensures MinCount(coins, 0, value).value <= |GreedyPicks(coins, value)|
  {
    var g := GreedyPicks(coins, value);
    GreedyFromFacts(coins, |coins|, value);
    assert coins[..|coins|] == coins;
    forall x | x in g ensures Offers(coins, 0, x) {
      var j :| 0 <= j < |coins| && coins[j] == x;
    }
    MinCountIsMinimal(coins, 0, value, g);
  }

  /** The program's coin sets all contain a 1, so the greedy method always pays exactly there. */
  lemma GreedyPaysExactlyWithUnitCoin(coins: seq<int>, value: int)
    requires PositiveCoins(coins) && value >= 0 && 1 in coins
    ensures Sum(GreedyPicks(coins, value)) == value
    ensures MinCount(coins, 0, value).Some?
    ensures MinCount(coins, 0, value).value <= |GreedyPicks(coins, value)|
  {
    GreedyRemainder(coins, value);
    GreedyNeverBeatsExhaustive(coins, value);
  }
}

/** The best single buy-then-sell profit of stockChallenge.py. */
module StockChallenge {

  /** `prices[y] - prices[x]` for every later day `y` whose price is higher
      than on day `x`, for `y` from `from` on. */
  function ProfitsAfter(prices: seq<int>, x: nat, from: nat): (ps: seq<int>)
    requires x < |prices|
    ensures forall v :: v in ps <==>
      exists y :: from <= y < |prices| && prices[y] > prices[x] && v == prices[y] - prices[x]
    decreases |prices| - from
  {
    if from >= |prices| then []
    else
      var rest := ProfitsAfter(prices, x, from + 1);
      if prices[from] > prices[x] then [prices[from] - prices[x]] + rest else rest
  }

  /** The comprehension of `get_max_profit`: for every buying day `x` from
      `from` on, the profits of selling later at a higher price. */
  function Profits(prices: seq<int>, from: nat): (ps: seq<int>)
    ensures forall v :: v in ps <==>
      exists x, y :: from <= x < y < |prices| && prices[y] > prices[x] && v == prices[y] - prices[x]
    decreases |prices| - from
  {
    if from >= |prices| then []
    else ProfitsAfter(prices, from, from + 1) + Profits(prices, from + 1)
  }

  /** Python's `max` over a non-empty list. */
  function Max(s: seq<int>): (m: int)
    requires s != []
    ensures m in s
    ensures forall v :: v in s ==> v <= m
  {
    if |s| == 1 then s[0]
    else
      var m := Max(s[1..]);
      assert forall v :: v in s ==> v == s[0] || v in s[1..];
      if s[0] > m then s[0] else m
  }

  /** `get_max_profit(prices)`. */
  function MaxProfit(prices: seq<int>): int
  {
    var ps := Profits(prices, 0);
    if ps != [] then Max(ps) else 0
  }

  /** The result is never negative, bounds the gain of every pair of a buying
      day and a later selling day, and is either 0 or the gain of such a
      pair; it is 0 exactly when the price never rises. */
  lemma MaxProfitSpec(prices: seq<int>)
    ensures MaxProfit(prices) >= 0
    ensures forall x, y :: 0 <= x < y < |prices| ==> prices[y] - prices[x] <= MaxProfit(prices)
    ensures MaxProfit(prices) == 0 ||
      exists x, y :: 0 <= x < y < |prices| && prices[y] - prices[x] == MaxProfit(prices)
    ensures MaxProfit(prices) == 0 <==> forall x, y :: 0 <= x < y < |prices| ==> prices[y] <= prices[x]
  {
    var ps := Profits(prices, 0);
    forall x, y | 0 <= x < y < |prices| ensures prices[y] - prices[x] <= MaxProfit(prices) {
      if prices[y] > prices[x] {
        assert prices[y] - prices[x] in ps;
      }
    }
    if ps != [] {
      var v := Max(ps);
      var x, y :| 0 <= x < y < |prices| && prices[y] > prices[x] && v == prices[y] - prices[x];
    }
  }

  /** Buying at 1 and selling at 6 is the best trade. */
  lemma RisingExample()
    ensures MaxProfit([7, 1, 5, 3, 6, 4]) == 5
  {
    var p := [7, 1, 5, 3, 6, 4];
    MaxProfitSpec(p);
    assert p[4] - p[1] == 5;
  }

  /** Falling prices give no trade. */
  lemma FallingExample()
    ensures MaxProfit([7, 6, 4, 3, 1]) == 0
  {
    MaxProfitSpec([7, 6, 4, 3, 1]);
  }
}

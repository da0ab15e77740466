/**
 * The portfolio ledger of server/pkg/models/portfolio.go (copied in
 * server/bot.go): cash, one `Holding` object per ticker held, and the
 * guarded `Buy`, `Sell` and `Execute` that change them in place.
 */
module Portfolios {
  import opened Wrappers

  /** `Transaction`: shares, price per share, ticker and "buy" or "sell". */
  datatype Transaction = Transaction(numShares: real, unitCost: real, ticker: string, action: string)

  /**
   * What `Buy`, `Sell` and `Execute` report: success, one of their errors,
   * or `Panic` for the nil dereference of `Sell` on a ticker not held.
   */
  datatype Outcome = Ok | NotEnoughCash | NegativeShares | NotEnoughShares | InvalidAction | Panic

  /** A holding as a value: the shares held and the purchase value per share. */
  datatype Position = Position(numShares: real, purchaseValue: real)

  /** The state the ledger operations read and write. */
  datatype Ledger = Ledger(cash: real, positions: map<string, Position>)

  /** A ledger operation's result: the ledger after it and what it reported. */
  datatype Step = Step(ledger: Ledger, outcome: Outcome)

  /** No holding has a negative number of shares. */
  predicate NonNegative(l: Ledger)
  {
    forall t :: t in l.positions ==> l.positions[t].numShares >= 0.0
  }

  /**
   * The purchase value `Buy` assigns to a held ticker, as written: `held` is
   * the share count after it was already increased by `bought`, so
   * the old count is weighted as `held` and the new shares count twice in the
   * divisor. None when that divisor is zero, where the float division yields NaN.
   */
  function AsWrittenAverage(purchaseValue: real, held: real, bought: real, unitCost: real): (r: Option<real>)
    ensures r.None? <==> held + bought == 0.0
  {
    if held + bought == 0.0 then None
    else Some((purchaseValue * held + bought * unitCost) / (held + bought))
  }

  /** The purchase value the model assigns: the as-written formula, with the purchase value kept where it has no divisor. */
  function Averaged(purchaseValue: real, held: real, bought: real, unitCost: real): real
  {
    if held + bought == 0.0 then purchaseValue
    else (purchaseValue * held + bought * unitCost) / (held + bought)
  }

  /** Where the as-written value exists the model's is the same; where it is NaN the old value stays. */
  lemma AveragedAgrees(purchaseValue: real, held: real, bought: real, unitCost: real)
    ensures var w := AsWrittenAverage(purchaseValue, held, bought, unitCost);
      Averaged(purchaseValue, held, bought, unitCost) == if w.Some? then w.value else purchaseValue
  {
  }

  /** `Buy` as a function of the ledger: the cash check first, then the sign check. */
  function AfterBuy(l: Ledger, tx: Transaction): (s: Step)
    ensures s.outcome.Ok? || s.outcome.NotEnoughCash? || s.outcome.NegativeShares?
    ensures s.outcome.Ok? <==> l.cash >= tx.numShares * tx.unitCost && tx.numShares >= 0.0
    ensures s.outcome.NegativeShares? <==> l.cash >= tx.numShares * tx.unitCost && tx.numShares < 0.0
    ensures !s.outcome.Ok? ==> s.ledger == l
  {
    if l.cash < tx.numShares * tx.unitCost then Step(l, NotEnoughCash)
    else if tx.numShares < 0.0 then Step(l, NegativeShares)
    else
      Step(Ledger(l.cash - tx.numShares * tx.unitCost, Bought(l.positions, tx.ticker, tx.numShares, tx.unitCost)), Ok)
  }

  /** The holdings after a successful `Buy`: a new position at the unit cost, or the shares added and the value averaged. */
  function Bought(positions: map<string, Position>, ticker: string, numShares: real, unitCost: real): map<string, Position>
  {
    var position :=
      if ticker !in positions then Position(numShares, unitCost)
      else
        var was := positions[ticker];
        var held := was.numShares + numShares;
        Position(held, Averaged(was.purchaseValue, held, numShares, unitCost));
    positions[ticker := position]
  }

  /** `Sell` as a function of the ledger: a panic when the ticker is not held, then the share check, then the sign check. */
  function AfterSell(l: Ledger, tx: Transaction): (s: Step)
    ensures s.outcome.Ok? || s.outcome.Panic? || s.outcome.NotEnoughShares? || s.outcome.NegativeShares?
    ensures s.outcome.Panic? <==> tx.ticker !in l.positions
    ensures s.outcome.Ok? <==> tx.ticker in l.positions && 0.0 <= tx.numShares <= l.positions[tx.ticker].numShares
    ensures !s.outcome.Ok? ==> s.ledger == l
  {
    if tx.ticker !in l.positions then Step(l, Panic)
    else if l.positions[tx.ticker].numShares < tx.numShares then Step(l, NotEnoughShares)
    else if tx.numShares < 0.0 then Step(l, NegativeShares)
    else
      var held := l.positions[tx.ticker].numShares - tx.numShares;
      Step(Ledger(l.cash + tx.numShares * tx.unitCost, l.positions[tx.ticker := Position(held, tx.unitCost)]), Ok)
  }

  /** `Execute` as a function of the ledger: "buy" and "sell" go to their operation, anything else is refused. */
  function AfterExecute(l: Ledger, tx: Transaction): (s: Step)
    ensures tx.action != "buy" && tx.action != "sell" ==> s == Step(l, InvalidAction)
    ensures s.outcome.InvalidAction? <==> tx.action != "buy" && tx.action != "sell"
  {
    if tx.action == "buy" then AfterBuy(l, tx)
    else if tx.action == "sell" then AfterSell(l, tx)
    else Step(l, InvalidAction)
  }

  /**
   * A successful `Buy` lowers the cash by exactly the cost, which leaves it
   * non-negative, adds the shares to the ticker (a new holding at the unit
   * cost when it was not held) and leaves every other ticker alone.
   */
  lemma BuyEffect(l: Ledger, tx: Transaction)
    requires AfterBuy(l, tx).outcome.Ok?
    ensures var after := AfterBuy(l, tx).ledger;
      after.cash == l.cash - tx.numShares * tx.unitCost && after.cash >= 0.0 &&
      tx.ticker in after.positions &&
      after.positions[tx.ticker].numShares == (if tx.ticker in l.positions then l.positions[tx.ticker].numShares else 0.0) + tx.numShares &&
      (tx.ticker !in l.positions ==> after.positions[tx.ticker] == Position(tx.numShares, tx.unitCost)) &&
      (forall t :: t != tx.ticker ==> (t in after.positions <==> t in l.positions) && (t in l.positions ==> after.positions[t] == l.positions[t]))
  {
  }

  /**
   * A successful `Sell` adds the proceeds to the cash, takes the shares off
   * the ticker, which keeps its count non-negative, sets its purchase value
   * to the unit cost and leaves every other ticker alone.
   */
  lemma SellEffect(l: Ledger, tx: Transaction)
    requires AfterSell(l, tx).outcome.Ok?
    ensures var after := AfterSell(l, tx).ledger;
      after.cash == l.cash + tx.numShares * tx.unitCost &&
      tx.ticker in after.positions &&
      after.positions[tx.ticker] == Position(l.positions[tx.ticker].numShares - tx.numShares, tx.unitCost) &&
      after.positions[tx.ticker].numShares >= 0.0 &&
      (forall t :: t != tx.ticker ==> (t in after.positions <==> t in l.positions) && (t in l.positions ==> after.positions[t] == l.positions[t]))
  {
  }

  /** Every operation keeps share counts non-negative. */
  lemma ExecuteKeepsNonNegative(l: Ledger, tx: Transaction)
    requires NonNegative(l)
    ensures NonNegative(AfterExecute(l, tx).ledger)
  {
    var s := AfterExecute(l, tx);
    if s.outcome.Ok? {
      if tx.action == "buy" {
        BuyEffect(l, tx);
      } else {
        SellEffect(l, tx);
      }
    }
  }

  /** With a non-negative price, no operation takes the cash below zero. */
  lemma ExecuteKeepsSolvent(l: Ledger, tx: Transaction)
    requires l.cash >= 0.0 && tx.unitCost >= 0.0
    ensures AfterExecute(l, tx).ledger.cash >= 0.0
  {
    var s := AfterExecute(l, tx);
    if s.outcome.Ok? {
      if tx.action == "buy" {
        BuyEffect(l, tx);
      } else {
        SellEffect(l, tx);
        assert tx.numShares * tx.unitCost >= 0.0;
      }
    }
  }

  /** Buying shares and selling the same shares at the same price gives back the cash and the share count. */
  lemma BuyThenSell(l: Ledger, n: real, c: real, ticker: string)
    requires NonNegative(l)
    requires AfterBuy(l, Transaction(n, c, ticker, "buy")).outcome.Ok?
    ensures var bought := AfterBuy(l, Transaction(n, c, ticker, "buy")).ledger;
      var sold := AfterSell(bought, Transaction(n, c, ticker, "sell"));
      sold.outcome.Ok? && sold.ledger.cash == l.cash &&
      sold.ledger.positions[ticker].numShares == if ticker in l.positions then l.positions[ticker].numShares else 0.0
  {
    var buy := Transaction(n, c, ticker, "buy");
    BuyEffect(l, buy);
    var bought := AfterBuy(l, buy).ledger;
    var sell := Transaction(n, c, ticker, "sell");
    SellEffect(bought, sell);
  }

  /**
   * The average `Buy` computes is not the weighted mean its documentation
   * describes: holding 1 share at 10 and buying 1 at 20 gives 40/3, not 15.
   */
  lemma BuyAverageCountsSharesTwice()
    ensures var l := Ledger(100.0, map["A" := Position(1.0, 10.0)]);
      AfterBuy(l, Transaction(1.0, 20.0, "A", "buy")).ledger.positions["A"] == Position(2.0, 40.0 / 3.0)
  {
    var l := Ledger(100.0, map["A" := Position(1.0, 10.0)]);
    assert AfterBuy(l, Transaction(1.0, 20.0, "A", "buy")).ledger.positions["A"]
      == Position(2.0, Averaged(10.0, 2.0, 1.0, 20.0));
  }

  /**
   * Two `Buy`s of zero shares of the same ticker reach the division by zero
   * of the as-written average: the first creates a holding with no shares,
   * the second divides by its share count plus the shares bought, both zero.
   */
  lemma AsWrittenAverageReachesZeroDivisor(cash: real, c: real, ticker: string)
    requires cash >= 0.0
    ensures var tx := Transaction(0.0, c, ticker, "buy");
      var first := AfterBuy(Ledger(cash, map[]), tx);
      first.outcome.Ok? && ticker in first.ledger.positions &&
      var p := first.ledger.positions[ticker];
      AsWrittenAverage(p.purchaseValue, p.numShares + 0.0, 0.0, c).None?
  {
    var tx := Transaction(0.0, c, ticker, "buy");
    BuyEffect(Ledger(cash, map[]), tx);
  }

  /** A `Holding`: shares and purchase value, updated in place by `Buy` and `Sell`. */
  class Holding {
    var numShares: real
    var purchaseValue: real

    constructor (numShares: real, purchaseValue: real)
      ensures this.numShares == numShares && this.purchaseValue == purchaseValue
    {
      this.numShares := numShares;
      this.purchaseValue := purchaseValue;
    }
  }

  /** `Portfolio`: the account value, the cash, one holding object per ticker and the transactions. */
  class Portfolio {
    var accountValue: real
    var cash: real
    var holdings: map<string, Holding>
    var transactions: seq<Transaction>

    /** Every ticker has its own holding object and no holding has a negative number of shares. */
    ghost predicate Valid()
      reads this, holdings.Values
    {
      (forall a, b :: a in holdings && b in holdings && a != b ==> holdings[a] != holdings[b]) &&
      forall t :: t in holdings ==> holdings[t].numShares >= 0.0
    }

    /** The cash and the holdings as values. */
    ghost function State(): (l: Ledger)
      reads this, holdings.Values
      ensures l.positions.Keys == holdings.Keys
    {
      Ledger(cash, Positions())
    }

    /** The holdings as values; they do not depend on the cash. */
    ghost function Positions(): (m: map<string, Position>)
      reads this`holdings, holdings.Values
      ensures m.Keys == holdings.Keys
    {
      map t | t in holdings :: Position(holdings[t].numShares, holdings[t].purchaseValue)
    }

    /** `NewPortfolio(startingCash)`: that cash, no holdings and no transactions. */
    constructor (startingCash: real)
      ensures Valid() && State() == Ledger(startingCash, map[])
      ensures accountValue == 0.0 && transactions == []
    {
      accountValue := 0.0;
      cash := startingCash;
      holdings := map[];
      transactions := [];
    }

    /**
     * `Buy`: refuse without change on too little cash, then on a negative
     * count; otherwise pay, and open a holding or add to the one there (its
     * share count first, then its purchase value from the new count).
     */
    method Buy(tx: Transaction) returns (outcome: Outcome)
      requires Valid()
      modifies this, holdings.Values
      ensures Valid() && Step(State(), outcome) == AfterBuy(old(State()), tx)
      ensures accountValue == old(accountValue) && transactions == old(transactions)
    {
      ghost var before := State();
      if cash < tx.numShares * tx.unitCost {
        assert AfterBuy(before, tx) == Step(before, NotEnoughCash);
        return NotEnoughCash;
      }
      if tx.numShares < 0.0 {
        assert AfterBuy(before, tx) == Step(before, NegativeShares);
        return NegativeShares;
      }
      ghost var after := Ledger(before.cash - tx.numShares * tx.unitCost, Bought(before.positions, tx.ticker, tx.numShares, tx.unitCost));
      assert AfterBuy(before, tx) == Step(after, Ok);
      cash := cash - tx.numShares * tx.unitCost;
      if tx.ticker !in holdings {
        Open(tx.ticker, tx.numShares, tx.unitCost);
      } else {
        AddShares(tx.ticker, tx.numShares, tx.unitCost);
      }
      assert State() == after;
      return Ok;
    }

    /** `Buy` on a ticker not held: a new holding object with the shares at the unit cost. */
    method Open(ticker: string, numShares: real, unitCost: real)
      requires Valid() && ticker !in holdings && numShares >= 0.0
      modifies this
      ensures Valid() && Positions() == Bought(old(Positions()), ticker, numShares, unitCost)
      ensures cash == old(cash) && accountValue == old(accountValue) && transactions == old(transactions)
    {
      var holding := new Holding(numShares, unitCost);
      holdings := holdings[ticker := holding];
    }

    /** `Buy` on a held ticker: its share count first, then its purchase value from the new count. */
    method AddShares(ticker: string, numShares: real, unitCost: real)
      requires Valid() && ticker in holdings && numShares >= 0.0
      modifies holdings[ticker]
      ensures Valid()
      ensures Positions() == Bought(old(Positions()), ticker, numShares, unitCost)
    {
      var holding := holdings[ticker];
      holding.numShares := holding.numShares + numShares;
      holding.purchaseValue := Averaged(holding.purchaseValue, holding.numShares, numShares, unitCost);
    }

    /**
     * `Sell`: a panic on a ticker not held; refuse without change on too
     * few shares, then on a negative count; otherwise take the proceeds,
     * take off the shares and set the purchase value to the unit cost.
     */
    method Sell(tx: Transaction) returns (outcome: Outcome)
      requires Valid()
      modifies this, holdings.Values
      ensures Valid() && Step(State(), outcome) == AfterSell(old(State()), tx)
      ensures accountValue == old(accountValue) && transactions == old(transactions)
    {
      ghost var before := State();
      if tx.ticker !in holdings {
        assert AfterSell(before, tx) == Step(before, Panic);
        return Panic;
      }
      var holding := holdings[tx.ticker];
      if holding.numShares < tx.numShares {
        assert AfterSell(before, tx) == Step(before, NotEnoughShares);
        return NotEnoughShares;
      }
      if tx.numShares < 0.0 {
        assert AfterSell(before, tx) == Step(before, NegativeShares);
        return NegativeShares;
      }
      ghost var after := Ledger(before.cash + tx.numShares * tx.unitCost,
        before.positions[tx.ticker := Position(holding.numShares - tx.numShares, tx.unitCost)]);
      assert AfterSell(before, tx) == Step(after, Ok);
      cash := cash + tx.numShares * tx.unitCost;
      holding.numShares := holding.numShares - tx.numShares;
      holding.purchaseValue := tx.unitCost;
      assert State() == after;
      return Ok;
    }

    /** `Execute`: "buy" to `Buy`, "sell" to `Sell`, any other action refused without change. */
    method Execute(tx: Transaction) returns (outcome: Outcome)
      requires Valid()
      modifies this, holdings.Values
      ensures Valid() && Step(State(), outcome) == AfterExecute(old(State()), tx)
      ensures accountValue == old(accountValue) && transactions == old(transactions)
    {
      if tx.action == "buy" {
        outcome := Buy(tx);
      } else if tx.action == "sell" {
        outcome := Sell(tx);
      } else {
        outcome := InvalidAction;
      }
    }
  }
}

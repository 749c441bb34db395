/** The lines of a point-of-sale sale and the amounts computed from them:
    adding, removing and re-counting lines, the total, the change and the
    amount typed on the keypad.  Prices and totals are exact reals. */
module SaleLines {
  import opened Wrappers
  import opened Text
  import opened Numbers

  /** One line of the current sale.  `id` stands for the unique number the
      cashier gives each new line. */
  datatype Line = Line(id: nat, name: string, price: real, quantity: int)

  /** A completed sale, as kept in the history. */
  datatype Sale = Sale(items: seq<Line>, amount: real)

  // The state of the sale, as functions of the lines.

  /** `items.find(item => item.name === name)`: the index of the first line
      with that name, or `|items|`. */
  function FindByName(items: seq<Line>, name: string): (k: nat)
    ensures k <= |items|
    ensures k < |items| ==> items[k].name == name
    ensures forall j | 0 <= j < k :: items[j].name != name
  {
    if items == [] || items[0].name == name then 0 else 1 + FindByName(items[1..], name)
  }

  /** `items.find(item => item.id === id)`. */
  function FindById(items: seq<Line>, id: nat): (k: nat)
    ensures k <= |items|
    ensures k < |items| ==> items[k].id == id
    ensures forall j | 0 <= j < k :: items[j].id != id
  {
    if items == [] || items[0].id == id then 0 else 1 + FindById(items[1..], id)
  }

  predicate DistinctNames(items: seq<Line>) {
    forall i, j | 0 <= i < j < |items| :: items[i].name != items[j].name
  }

  predicate DistinctIds(items: seq<Line>) {
    forall i, j | 0 <= i < j < |items| :: items[i].id != items[j].id
  }

  predicate IdsBelow(items: seq<Line>, bound: nat) {
    forall k | 0 <= k < |items| :: items[k].id < bound
  }

  /** The lines after `addItem`: a line with the same name gets the quantity
      added (its price is kept); otherwise a new line `id` is appended. */
  function WithItem(items: seq<Line>, name: string, price: real, quantity: int, id: nat): (r: seq<Line>)
    ensures var k := FindByName(items, name);
      && |r| == (if k < |items| then |items| else |items| + 1)
      && k < |r| && r[k].name == name
      && (k < |items| ==> r[k] == items[k].(quantity := items[k].quantity + quantity))
      && (k == |items| ==> r[k] == Line(id, name, price, quantity))
    ensures forall j | 0 <= j < |items| && items[j].name != name :: r[j] == items[j]
  {
    var k := FindByName(items, name);
    if k < |items| then items[k := items[k].(quantity := items[k].quantity + quantity)]
    else items + [Line(id, name, price, quantity)]
  }

  /** `items.filter(item => item.id !== id)`. */
  function WithoutId(items: seq<Line>, id: nat): (r: seq<Line>)
    ensures |r| <= |items|
  {
    if items == [] then []
    else (if items[0].id == id then [] else [items[0]]) + WithoutId(items[1..], id)
  }

  /** The lines after `updateQuantity` with a positive quantity: the first
      line with that id gets it. */
  function WithQuantity(items: seq<Line>, id: nat, quantity: int): (r: seq<Line>)
    ensures |r| == |items|
    ensures forall j | 0 <= j < |items| && items[j].id != id :: r[j] == items[j]
    ensures var k := FindById(items, id);
      k < |items| ==> r[k] == items[k].(quantity := quantity)
  {
    var k := FindById(items, id);
    if k < |items| then items[k := items[k].(quantity := quantity)] else items
  }

  /** What one line costs. */
  function Amount(line: Line): real {
    line.price * line.quantity as real
  }

  /** `items.reduce((sum, item) => sum + item.price * item.quantity, 0)`. */
  function Total(items: seq<Line>): (t: real)
    ensures |items| == 0 ==> t == 0.0
    decreases |items|
  {
    if items == [] then 0.0
    else Total(items[..|items| - 1]) + Amount(items[|items| - 1])
  }

  /** `Math.max(0, paid - total)`. */
  function Change(paid: int, total: real): (c: real)
    ensures c >= 0.0
    ensures c >= paid as real - total
    ensures c == 0.0 || c == paid as real - total
  {
    if paid as real - total > 0.0 then paid as real - total else 0.0
  }

  /** The amount after the keypad digits `ds` were pressed, starting from
      `paid`: each digit shifts the amount one decimal place and adds
      itself. */
  function Tendered(paid: int, ds: string): (n: int)
    requires AllDigits(ds)
    ensures paid >= 0 ==> n >= paid
    ensures ds == [] ==> n == paid
    decreases |ds|
  {
    if ds == [] then paid
    else Tendered(paid, ds[..|ds| - 1]) * 10 + CharValue(ds[|ds| - 1])
  }

  function SumAmounts(history: seq<Sale>): real
    decreases |history|
  {
    if history == [] then 0.0 else history[0].amount + SumAmounts(history[1..])
  }

  // Properties of the lines.

  lemma {:induction false} TotalAppend(items: seq<Line>, line: Line)
    ensures Total(items + [line]) == Total(items) + Amount(line)
  {
    assert (items + [line])[..|items|] == items;
  }

  lemma MulNonNegative(a: real, b: real)
    requires a >= 0.0 && b >= 0.0
    ensures a * b >= 0.0
  {
  }

  /** Lines with no negative price or quantity never total less than 0. */
  lemma {:induction false} TotalNonNegative(items: seq<Line>)
    requires forall k | 0 <= k < |items| :: items[k].price >= 0.0 && items[k].quantity >= 0
    ensures Total(items) >= 0.0
    decreases |items|
  {
    if items != [] {
      var init := items[..|items| - 1];
      assert forall k | 0 <= k < |init| :: init[k] == items[k];
      TotalNonNegative(init);
      var last := items[|items| - 1];
      assert Total(items) == Total(init) + Amount(last);
      MulNonNegative(last.price, last.quantity as real);
    }
  }

  lemma {:induction false} TotalConcat(a: seq<Line>, b: seq<Line>)
    ensures Total(a + b) == Total(a) + Total(b)
    decreases |b|
  {
    if b == [] {
      assert a + b == a;
    } else {
      var init := b[..|b| - 1];
      TotalConcat(a, init);
      assert a + b == (a + init) + [b[|b| - 1]];
      TotalAppend(a + init, b[|b| - 1]);
    }
  }

  /** Every line contributes its amount to the total, wherever it sits. */
  lemma TotalLines(items: seq<Line>)
    ensures forall k | 0 <= k < |items| ::
      Total(items) == Total(items[..k]) + Amount(items[k]) + Total(items[k + 1..])
  {
    forall k | 0 <= k < |items|
      ensures Total(items) == Total(items[..k]) + Amount(items[k]) + Total(items[k + 1..])
    {
      assert items == items[..k] + [items[k]] + items[k + 1..];
      TotalConcat(items[..k] + [items[k]], items[k + 1..]);
      TotalAppend(items[..k], items[k]);
    }
  }

  /** Replacing one line changes the total by the difference of its
      amounts. */
  lemma TotalUpdate(items: seq<Line>, k: nat, line: Line)
    requires k < |items|
    ensures Total(items[k := line]) == Total(items) - Amount(items[k]) + Amount(line)
  {
    assert items == items[..k] + [items[k]] + items[k + 1..];
    assert items[k := line] == items[..k] + [line] + items[k + 1..];
    TotalConcat(items[..k] + [items[k]], items[k + 1..]);
    TotalConcat(items[..k] + [line], items[k + 1..]);
    TotalAppend(items[..k], items[k]);
    TotalAppend(items[..k], line);
  }

  /** Adding an item that is already on the sale adds to its line; a new one
      becomes the last line.  Either way the other lines are untouched. */
  lemma WithItemLines(items: seq<Line>, name: string, price: real, quantity: int, id: nat)
    requires DistinctNames(items)
    ensures forall k | 0 <= k < |items| && items[k].name == name ::
      WithItem(items, name, price, quantity, id) == items[k := items[k].(quantity := items[k].quantity + quantity)]
    ensures (forall k | 0 <= k < |items| :: items[k].name != name) ==>
      WithItem(items, name, price, quantity, id) == items + [Line(id, name, price, quantity)]
  {
  }

  /** Adding to a line's quantity adds the price times the extra
      quantity. */
  lemma AmountMore(line: Line, quantity: int)
    ensures Amount(line.(quantity := line.quantity + quantity)) == Amount(line) + line.price * quantity as real
  {
    assert (line.quantity + quantity) as real == line.quantity as real + quantity as real;
  }

  /** Adding to one line's quantity adds its price times the extra
      quantity to the total. */
  lemma TotalAddToLine(items: seq<Line>, k: nat, quantity: int)
    requires k < |items|
    ensures Total(items[k := items[k].(quantity := items[k].quantity + quantity)]) ==
      Total(items) + items[k].price * quantity as real
  {
    var line := items[k];
    TotalUpdate(items, k, line.(quantity := line.quantity + quantity));
    AmountMore(line, quantity);
  }

  /** The total grows by the quantity times the price of the line the item
      lands on: the existing line's price, when there is one. */
  lemma TotalWithItem(items: seq<Line>, name: string, price: real, quantity: int, id: nat)
    ensures var k := FindByName(items, name);
      k < |items| ==> Total(WithItem(items, name, price, quantity, id)) == Total(items) + items[k].price * quantity as real
    ensures FindByName(items, name) == |items| ==>
      Total(WithItem(items, name, price, quantity, id)) == Total(items) + price * quantity as real
  {
    var k := FindByName(items, name);
    if k < |items| {
      TotalWithItemFound(items, name, price, quantity, id, k);
    } else {
      TotalWithItemNew(items, name, price, quantity, id);
    }
  }

  lemma TotalWithItemFound(items: seq<Line>, name: string, price: real, quantity: int, id: nat, k: nat)
    requires k == FindByName(items, name) && k < |items|
    ensures Total(WithItem(items, name, price, quantity, id)) == Total(items) + items[k].price * quantity as real
  {
    assert WithItem(items, name, price, quantity, id) == items[k := items[k].(quantity := items[k].quantity + quantity)];
    TotalAddToLine(items, k, quantity);
  }

  lemma TotalWithItemNew(items: seq<Line>, name: string, price: real, quantity: int, id: nat)
    requires FindByName(items, name) == |items|
    ensures Total(WithItem(items, name, price, quantity, id)) == Total(items) + price * quantity as real
  {
    WithItemAppends(items, name, price, quantity, id);
    TotalNewLine(items, Line(id, name, price, quantity), WithItem(items, name, price, quantity, id));
  }

  lemma WithItemAppends(items: seq<Line>, name: string, price: real, quantity: int, id: nat)
    requires FindByName(items, name) == |items|
    ensures WithItem(items, name, price, quantity, id) == items + [Line(id, name, price, quantity)]
  {
  }

  lemma TotalNewLine(items: seq<Line>, line: Line, r: seq<Line>)
    requires r == items + [line]
    ensures Total(r) == Total(items) + line.price * line.quantity as real
  {
    TotalAppend(items, line);
  }

  /** Adding the same name twice is adding the summed quantity once, at the
      price of the first addition. */
  lemma AddTwice(items: seq<Line>, name: string, p1: real, q1: int, id1: nat, p2: real, q2: int, id2: nat)
    ensures WithItem(WithItem(items, name, p1, q1, id1), name, p2, q2, id2) == WithItem(items, name, p1, q1 + q2, id1)
  {
    var k := FindByName(items, name);
    var once := WithItem(items, name, p1, q1, id1);
    assert FindByName(once, name) == k by {
      FindByNameAfter(items, once, name, k);
    }
  }

  /** The first line with a name is found again in a sequence that agrees
      with the old one up to it and still has the name there. */
  lemma FindByNameAfter(items: seq<Line>, items': seq<Line>, name: string, k: nat)
    requires k == FindByName(items, name)
    requires k <= |items'| && forall j | 0 <= j < k :: items'[j] == items[j]
    requires k < |items'| && items'[k].name == name
    ensures FindByName(items', name) == k
  {
  }

  /** Adding keeps the names and ids distinct and below the next id. */
  lemma WithItemWellFormed(items: seq<Line>, name: string, price: real, quantity: int, id: nat)
    requires DistinctNames(items) && DistinctIds(items) && IdsBelow(items, id)
    ensures var r := WithItem(items, name, price, quantity, id);
      DistinctNames(r) && DistinctIds(r) && IdsBelow(r, id + 1)
  {
  }

  /** No line with the id is left. */
  lemma {:induction false} WithoutIdOmits(items: seq<Line>, id: nat)
    ensures forall k | 0 <= k < |WithoutId(items, id)| :: WithoutId(items, id)[k].id != id
    decreases |items|
  {
    if items != [] {
      WithoutIdOmits(items[1..], id);
      var head := if items[0].id == id then [] else [items[0]];
      assert WithoutId(items, id) == head + WithoutId(items[1..], id);
    }
  }

  /** An unknown id changes nothing. */
  lemma {:induction false} WithoutIdAbsent(items: seq<Line>, id: nat)
    requires forall k | 0 <= k < |items| :: items[k].id != id
    ensures WithoutId(items, id) == items
    decreases |items|
  {
    if items != [] {
      WithoutIdAbsent(items[1..], id);
      assert items == [items[0]] + items[1..];
    }
  }

  /** Removing the id of line `k`, the only line with it, drops that line
      and keeps the others in order. */
  lemma {:induction false} WithoutIdOnly(items: seq<Line>, id: nat, k: nat)
    requires k < |items| && items[k].id == id
    requires forall j | 0 <= j < |items| && j != k :: items[j].id != id
    ensures WithoutId(items, id) == items[..k] + items[k + 1..]
    decreases k
  {
    var rest := items[1..];
    if k == 0 {
      forall j | 0 <= j < |rest| ensures rest[j].id != id {
        assert rest[j] == items[j + 1];
      }
      WithoutIdAbsent(rest, id);
      assert WithoutId(items, id) == [] + WithoutId(rest, id);
    } else {
      forall j | 0 <= j < |rest| && j != k - 1 ensures rest[j].id != id {
        assert rest[j] == items[j + 1];
      }
      WithoutIdOnly(rest, id, k - 1);
      assert WithoutId(items, id) == [items[0]] + WithoutId(rest, id);
      assert items[..k] == [items[0]] + rest[..k - 1];
      assert items[k + 1..] == rest[k..];
    }
  }

  /** Removing by id drops exactly the line with that id and keeps the
      others in order. */
  lemma WithoutIdAt(items: seq<Line>, id: nat, k: nat)
    requires DistinctIds(items) && k < |items| && items[k].id == id
    ensures WithoutId(items, id) == items[..k] + items[k + 1..]
  {
    WithoutIdOnly(items, id, k);
  }

  /** Dropping line `k` keeps names and ids distinct and bounded. */
  lemma SpliceWellFormed(items: seq<Line>, k: nat, bound: nat)
    requires DistinctNames(items) && DistinctIds(items) && IdsBelow(items, bound) && k < |items|
    ensures var r := items[..k] + items[k + 1..];
      DistinctNames(r) && DistinctIds(r) && IdsBelow(r, bound)
  {
    var r := items[..k] + items[k + 1..];
    assert forall j | 0 <= j < |r| :: r[j] == items[if j < k then j else j + 1];
  }

  /** The lines `WithoutId` keeps are lines of the sale: each keeps its
      id, name, price and quantity. */
  lemma {:induction false} WithoutIdSublist(items: seq<Line>, id: nat)
    ensures forall k | 0 <= k < |WithoutId(items, id)| :: WithoutId(items, id)[k] in items
    decreases |items|
  {
    if items != [] {
      WithoutIdSublist(items[1..], id);
      var r := WithoutId(items, id);
      var head := if items[0].id == id then [] else [items[0]];
      forall k | 0 <= k < |r| ensures r[k] in items {
        if k >= |head| {
          assert r[k] == WithoutId(items[1..], id)[k - |head|];
          assert r[k] in items[1..];
        }
      }
    }
  }

  lemma WithoutIdWellFormed(items: seq<Line>, id: nat, bound: nat)
    requires DistinctNames(items) && DistinctIds(items) && IdsBelow(items, bound)
    ensures var r := WithoutId(items, id);
      DistinctNames(r) && DistinctIds(r) && IdsBelow(r, bound)
  {
    var k := FindById(items, id);
    var r := WithoutId(items, id);
    if k < |items| {
      WithoutIdAt(items, id, k);
      SpliceWellFormed(items, k, bound);
    } else {
      WithoutIdAbsent(items, id);
    }
  }

  /** A positive quantity lands on the line with that id, and the total
      changes by that line's new amount less its old one. */
  lemma WithQuantityAt(items: seq<Line>, id: nat, quantity: int, k: nat)
    requires DistinctIds(items) && k < |items| && items[k].id == id
    ensures WithQuantity(items, id, quantity) == items[k := items[k].(quantity := quantity)]
    ensures Total(WithQuantity(items, id, quantity)) ==
      Total(items) - Amount(items[k]) + Amount(items[k].(quantity := quantity))
  {
    assert FindById(items, id) == k;
    TotalUpdate(items, k, items[k].(quantity := quantity));
  }

  /** An unknown id changes nothing. */
  lemma WithQuantityAbsent(items: seq<Line>, id: nat, quantity: int)
    requires forall k | 0 <= k < |items| :: items[k].id != id
    ensures WithQuantity(items, id, quantity) == items
  {
  }

  /** Pressing the keys `ds` from `paid` is `paid` shifted by the number of
      keys, plus the number the keys spell. */
  lemma {:induction false} TenderedValue(paid: int, ds: string)
    requires AllDigits(ds)
    ensures Tendered(paid, ds) == paid * Pow10(|ds|) + DigitsValue(ds)
    decreases |ds|
  {
    if ds != [] {
      var init := ds[..|ds| - 1];
      assert forall k | 0 <= k < |init| :: init[k] == ds[k];
      TenderedValue(paid, init);
      var p, v, d := Pow10(|init|), DigitsValue(init), CharValue(ds[|ds| - 1]);
      assert DigitsValue(ds) == v * 10 + d;
      assert Pow10(|ds|) == 10 * p;
      MulShift(paid, p, v, d);
    }
  }

  lemma MulShift(paid: int, p: int, v: int, d: int)
    ensures (paid * p + v) * 10 + d == paid * (10 * p) + (v * 10 + d)
  {
  }

  /** From a cleared keypad, the keys 1, 5, 0, 0 tender 1500. */
  lemma TenderedExample()
    ensures Tendered(0, "1500") == 1500
  {
    TenderedValue(0, "1500");
    assert "1500"[..3] == "150" && "150"[..2] == "15" && "15"[..1] == "1";
  }

  /** The change `completeSale` computes, `paid > total ? paid - total : 0`,
      is the change the display shows. */
  lemma SaleChange(paid: int, total: real)
    ensures (if paid as real > total then paid as real - total else 0.0) == Change(paid, total)
  {
  }

  /** What `completeSale` ends with. */
  datatype SaleOutcome =
    | EmptySale              // the total is not positive or there are no lines
    | InsufficientPayment    // less was tendered than the total
    | SaveFailed             // the server did not accept the sale
    | Completed(change: real)

  /** `addCustomItem`'s test of the form: a non-blank name and a price that
      parses to a positive number. */
  predicate AcceptsForm(nameField: string, priceField: string) {
    Trim(nameField) != [] && ParseFloat(priceField).Some? && ParseFloat(priceField).value > 0.0
  }

  /** The quantity field counts as 1 when it is not a number or is 0. */
  lemma CustomQuantity()
    ensures OrOne(ParseInt("")) == 1
    ensures OrOne(ParseInt("0")) == 1
    ensures OrOne(ParseInt("3")) == 3
  {
    assert !StartsAt("", 0, "0x") && !StartsAt("", 0, "0X");
    ParseIntOfDigits("0");
    ParseIntOfDigits("3");
  }
}

/** The point-of-sale cashier: the lines of the current sale, the amount the
    customer hands over (typed digit by digit), and the day's sales.  Saving
    a sale to the server is a parameter that says whether the request
    succeeded. */
module Cashier {
  import opened Wrappers
  import opened Text
  import opened Numbers
  import opened SaleLines

  class POSCashier {
    var items: seq<Line>
    /** Newest first. */
    var salesHistory: seq<Sale>
    var totalSales: real
    var totalOrders: nat
    var paidAmount: int
    /** The id the next new line gets. */
    var nextId: nat

    /** One line per name and per id, ids not yet handed out, and day
        totals that agree with the history. */
    predicate Valid()
      reads this
    {
      DistinctNames(items) && DistinctIds(items) && IdsBelow(items, nextId)
      && totalOrders == |salesHistory| && totalSales == SumAmounts(salesHistory)
    }

    constructor ()
      ensures Valid()
      ensures items == [] && salesHistory == [] && totalSales == 0.0 && totalOrders == 0 && paidAmount == 0
    {
      items := [];
      salesHistory := [];
      totalSales := 0.0;
      totalOrders := 0;
      paidAmount := 0;
      nextId := 0;
    }

    method AddItem(name: string, price: real, quantity: int)
      requires Valid()
      modifies this
      ensures Valid()
      ensures items == WithItem(old(items), name, price, quantity, old(nextId))
      ensures nextId == old(nextId) + 1
      ensures salesHistory == old(salesHistory) && totalSales == old(totalSales)
      ensures totalOrders == old(totalOrders) && paidAmount == old(paidAmount)
    {
      WithItemWellFormed(items, name, price, quantity, nextId);
      items := WithItem(items, name, price, quantity, nextId);
      nextId := nextId + 1;
    }

    method RemoveItem(id: nat)
      requires Valid()
      modifies this
      ensures Valid()
      ensures items == WithoutId(old(items), id)
      ensures nextId == old(nextId) && salesHistory == old(salesHistory) && totalSales == old(totalSales)
      ensures totalOrders == old(totalOrders) && paidAmount == old(paidAmount)
    {
      WithoutIdWellFormed(items, id, nextId);
      items := WithoutId(items, id);
    }

    /** A quantity of zero or less removes the line. */
    method UpdateQuantity(id: nat, quantity: int)
      requires Valid()
      modifies this
      ensures Valid()
      ensures items == if quantity <= 0 then WithoutId(old(items), id) else WithQuantity(old(items), id, quantity)
      ensures nextId == old(nextId) && salesHistory == old(salesHistory) && totalSales == old(totalSales)
      ensures totalOrders == old(totalOrders) && paidAmount == old(paidAmount)
    {
      if quantity <= 0 {
        RemoveItem(id);
        return;
      }
      items := WithQuantity(items, id, quantity);
    }

    method ClearAll()
      requires Valid()
      modifies this
      ensures Valid()
      ensures items == [] && paidAmount == 0
      ensures nextId == old(nextId) && salesHistory == old(salesHistory) && totalSales == old(totalSales)
      ensures totalOrders == old(totalOrders)
    {
      items := [];
      paidAmount := 0;
    }

    /** One keypad digit. */
    method AddToPayment(digit: char)
      requires IsDigit(digit)
      requires Valid()
      modifies this
      ensures Valid()
      ensures paidAmount == Tendered(old(paidAmount), [digit])
      ensures items == old(items) && nextId == old(nextId) && salesHistory == old(salesHistory)
      ensures totalSales == old(totalSales) && totalOrders == old(totalOrders)
    {
      paidAmount := paidAmount * 10 + CharValue(digit);
    }

    method ClearPayment()
      requires Valid()
      modifies this
      ensures Valid()
      ensures paidAmount == 0
      ensures items == old(items) && nextId == old(nextId) && salesHistory == old(salesHistory)
      ensures totalSales == old(totalSales) && totalOrders == old(totalOrders)
    {
      paidAmount := 0;
    }

    /** The sum of the line amounts: nothing for an empty sale, and each
        line's amount on top of the lines before and after it. */
    function GetTotal(): (t: real)
      reads this
      ensures items == [] ==> t == 0.0
      ensures forall k | 0 <= k < |items| ::
        t == Total(items[..k]) + Amount(items[k]) + Total(items[k + 1..])
    {
      TotalLines(items);
      Total(items)
    }

    /** The change shown: never negative, and the excess of the tendered
        amount over the total when there is one. */
    function GetChange(): (c: real)
      reads this
      ensures c >= 0.0 && c >= paidAmount as real - Total(items)
      ensures paidAmount as real > Total(items) ==> c == paidAmount as real - Total(items)
      ensures paidAmount as real <= Total(items) ==> c == 0.0
    {
      Change(paidAmount, GetTotal())
    }

    /** `completeSale`, with `saved` telling whether the server accepted the
        sale.  A completed sale goes to the front of the history, adds to
        the day's totals and empties the sale and the keypad. */
    method CompleteSale(saved: bool) returns (o: SaleOutcome)
      requires Valid()
      modifies this
      ensures Valid()
      ensures var total := Total(old(items));
        o == (if total <= 0.0 || old(items) == [] then EmptySale
              else if (old(paidAmount) as real) < total then InsufficientPayment
              else if !saved then SaveFailed
              else Completed(Change(old(paidAmount), total)))
      ensures o.Completed? ==>
        salesHistory == [Sale(old(items), Total(old(items)))] + old(salesHistory)
        && totalSales == old(totalSales) + Total(old(items)) && totalOrders == old(totalOrders) + 1
        && items == [] && paidAmount == 0 && nextId == old(nextId)
      ensures !o.Completed? ==>
        items == old(items) && paidAmount == old(paidAmount) && nextId == old(nextId)
        && salesHistory == old(salesHistory) && totalSales == old(totalSales) && totalOrders == old(totalOrders)
    {
      var total := GetTotal();
      if total <= 0.0 || |items| == 0 {
        return EmptySale;
      }
      if (paidAmount as real) < total {
        return InsufficientPayment;
      }
      if !saved {
        return SaveFailed;
      }
      var sale := Sale(items, total);
      salesHistory := [sale] + salesHistory;
      totalSales := totalSales + total;
      totalOrders := totalOrders + 1;
      var change := if paidAmount as real > total then paidAmount as real - total else 0.0;
      SaleChange(paidAmount, total);
      items := [];
      paidAmount := 0;
      o := Completed(change);
    }

    /** `addCustomItem`: the trimmed name, `parseFloat` of the price and
        `parseInt(quantity) || 1`; the form is refused unless the name is
        not blank and the price is a positive number. */
    method AddCustomItem(nameField: string, priceField: string, quantityField: string) returns (added: bool)
      requires Valid()
      modifies this
      ensures Valid()
      ensures added <==> AcceptsForm(nameField, priceField)
      ensures added ==>
        items == WithItem(old(items), Trim(nameField), ParseFloat(priceField).value, OrOne(ParseInt(quantityField)), old(nextId))
        && nextId == old(nextId) + 1
      ensures !added ==> items == old(items) && nextId == old(nextId)
      ensures salesHistory == old(salesHistory) && totalSales == old(totalSales)
      ensures totalOrders == old(totalOrders) && paidAmount == old(paidAmount)
    {
      var name := Trim(nameField);
      var price := ParseFloat(priceField);
      var quantity := OrOne(ParseInt(quantityField));
      if name == [] || price.None? || price.value <= 0.0 {
        return false;
      }
      AddItem(name, price.value, quantity);
      added := true;
    }
  }
}

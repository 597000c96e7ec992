/**
 * The inventory screen (components/features/inventory-management.tsx): adding
 * an item, changing a quantity, the low-stock list with its Reorder badge and
 * the total stock value; beside it the back end's low-stock alert
 * (backend/routers/inventory.py). Quantities are the integers the form parses,
 * prices exact reals; the clock and today's date are parameters.
 */
module Inventory {
  import opened Seqs
  import opened Accounts

  datatype Category = Supplies | Equipment | Consumables

  datatype Item = Item(
    id: string, name: string, category: Category, quantity: int, minLevel: int,
    price: real, supplier: string, lastRestocked: string)

  /** The filter of `lowStockItems`: at or below the minimum level. */
  predicate LowStock(item: Item)
  {
    item.quantity <= item.minLevel
  }

  /** `lowStockItems`: exactly the items at or below their minimum level, in stored order. */
  function LowStockItems(items: seq<Item>): (low: seq<Item>)
    ensures |low| <= |items|
    ensures forall k :: 0 <= k < |low| ==> low[k] in items && low[k].quantity <= low[k].minLevel
    ensures forall j :: 0 <= j < |items| && items[j].quantity <= items[j].minLevel ==> items[j] in low
    ensures Subsequence(low, items)
    ensures forall x :: multiset(low)[x] == if x.quantity <= x.minLevel then multiset(items)[x] else 0
  {
    FilterOrderAndCounts(items, LowStock);
    Filter(items, LowStock)
  }

  /** The table shows the Reorder badge on a row. */
  predicate ShowsReorder(item: Item)
  {
    item.quantity <= item.minLevel
  }

  /** A row carries the Reorder badge exactly when the item is in the low-stock list. */
  lemma ReorderBadgeMatchesList(items: seq<Item>, k: int)
    requires 0 <= k < |items|
    ensures ShowsReorder(items[k]) <==> items[k] in LowStockItems(items)
  {
  }

  /** The value of one row: quantity times unit price. */
  function ItemValue(item: Item): real
  {
    item.quantity as real * item.price
  }

  /** `totalValue`: the running sum of `reduce` over the rows. */
  function TotalValue(items: seq<Item>): (total: real)
    ensures items == [] ==> total == 0.0
  {
    if items == [] then 0.0
    else TotalValue(items[..|items| - 1]) + ItemValue(items[|items| - 1])
  }

  /** The value of a concatenation is the sum of the values of its halves. */
  lemma {:induction false} TotalValueAppend(a: seq<Item>, b: seq<Item>)
    ensures TotalValue(a + b) == TotalValue(a) + TotalValue(b)
  {
    if b == [] {
      assert a + b == a;
    } else {
      assert (a + b)[..|a + b| - 1] == a + b[..|b| - 1];
      TotalValueAppend(a, b[..|b| - 1]);
    }
  }

  /** Replacing one row changes the total by the difference of the two rows' values. */
  lemma {:induction false} TotalValueReplace(items: seq<Item>, k: int, item: Item)
    requires 0 <= k < |items|
    ensures TotalValue(items[k := item]) == TotalValue(items) - ItemValue(items[k]) + ItemValue(item)
  {
    var n := |items| - 1;
    if k == n {
      assert items[k := item][..n] == items[..n];
    } else {
      assert items[k := item][..n] == items[..n][k := item];
      TotalValueReplace(items[..n], k, item);
    }
  }

  /** The item `handleSubmit` appends, identified by the clock and restocked today. */
  function NewItem(name: string, category: Category, quantity: int, minLevel: int, price: real,
                   supplier: string, now: int, today: string): (item: Item)
    ensures item.id == DecimalString(now) && item.lastRestocked == today
    ensures item.name == name && item.category == category && item.supplier == supplier
    ensures item.quantity == quantity && item.minLevel == minLevel && item.price == price
  {
    Item(DecimalString(now), name, category, quantity, minLevel, price, supplier, today)
  }

  /** The list after `updateQuantity`: the rows with the id take the new quantity. */
  function QuantityUpdated(items: seq<Item>, itemId: string, newQuantity: int): (r: seq<Item>)
    ensures |r| == |items|
    ensures forall k :: 0 <= k < |items| ==>
      r[k] == if items[k].id == itemId then items[k].(quantity := newQuantity) else items[k]
  {
    seq(|items|, k requires 0 <= k < |items| =>
      if items[k].id == itemId then items[k].(quantity := newQuantity) else items[k])
  }

  /** A new quantity changes a row's value by the change in quantity times its price. */
  lemma ItemValueDelta(item: Item, newQuantity: int)
    ensures ItemValue(item.(quantity := newQuantity)) - ItemValue(item)
      == (newQuantity as real - item.quantity as real) * item.price
  {
    var p, q, q' := item.price, item.quantity as real, newQuantity as real;
    assert q' * p - q * p == (q' - q) * p;
  }

  /** When one row has the id, the update replaces just that row. */
  lemma QuantityUpdatedOne(items: seq<Item>, k: int, newQuantity: int)
    requires 0 <= k < |items|
    requires forall j :: 0 <= j < |items| && j != k ==> items[j].id != items[k].id
    ensures QuantityUpdated(items, items[k].id, newQuantity) == items[k := items[k].(quantity := newQuantity)]
  {
    var r := QuantityUpdated(items, items[k].id, newQuantity);
    assert forall j :: 0 <= j < |items| ==> r[j] == items[k := items[k].(quantity := newQuantity)][j];
  }

  /** When one row has the id, updating its quantity moves the total by the change in quantity times its price. */
  lemma QuantityUpdatedValue(items: seq<Item>, k: int, newQuantity: int)
    requires 0 <= k < |items|
    requires forall j :: 0 <= j < |items| && j != k ==> items[j].id != items[k].id
    ensures TotalValue(QuantityUpdated(items, items[k].id, newQuantity))
      == TotalValue(items) + (newQuantity as real - items[k].quantity as real) * items[k].price
  {
    var u := items[k].(quantity := newQuantity);
    var delta := (newQuantity as real - items[k].quantity as real) * items[k].price;
    assert ItemValue(u) - ItemValue(items[k]) == delta by {
      ItemValueDelta(items[k], newQuantity);
    }
    assert TotalValue(items[k := u]) == TotalValue(items) - ItemValue(items[k]) + ItemValue(u) by {
      TotalValueReplace(items, k, u);
    }
    QuantityUpdatedOne(items, k, newQuantity);
  }

  /** The back end's low-stock alert: strictly below the reorder level. */
  function BackLowStockItems(items: seq<Item>): (low: seq<Item>)
    ensures forall k :: 0 <= k < |low| ==> low[k] in items && low[k].quantity < low[k].minLevel
    ensures forall j :: 0 <= j < |items| && items[j].quantity < items[j].minLevel ==> items[j] in low
    ensures Subsequence(low, items)
    ensures forall x :: multiset(low)[x] == if x.quantity < x.minLevel then multiset(items)[x] else 0
  {
    FilterOrderAndCounts(items, (item: Item) => item.quantity < item.minLevel);
    Filter(items, (item: Item) => item.quantity < item.minLevel)
  }

  /**
   * The two thresholds differ by one: an item exactly at its level is flagged
   * by the screen and not by the back end; below it, by both.
   */
  lemma ThresholdsDiffer(item: Item)
    ensures item.quantity == item.minLevel ==>
      item in LowStockItems([item]) && item !in BackLowStockItems([item])
    ensures item.quantity < item.minLevel ==>
      item in LowStockItems([item]) && item in BackLowStockItems([item])
  {
    assert [item][0] == item;
  }

  /** The stored items (`hospital_inventory`). */
  class InventoryStore {
    var items: seq<Item>

    /** An empty store. */
    constructor ()
      ensures items == []
    {
      items := [];
    }

    /** `handleSubmit`: one item appended; the earlier ones keep their order. */
    method HandleSubmit(name: string, category: Category, quantity: int, minLevel: int, price: real,
                        supplier: string, now: int, today: string)
      modifies this
      ensures items == old(items) + [NewItem(name, category, quantity, minLevel, price, supplier, now, today)]
      ensures TotalValue(items) == TotalValue(old(items)) + quantity as real * price
    {
      var newItem := NewItem(name, category, quantity, minLevel, price, supplier, now, today);
      assert [newItem][..0] == [];
      TotalValueAppend(items, [newItem]);
      items := items + [newItem];
    }

    /** `updateQuantity`: only the quantity of the rows with the id changes. */
    method UpdateQuantity(itemId: string, newQuantity: int)
      modifies this
      ensures items == QuantityUpdated(old(items), itemId, newQuantity)
    {
      items := QuantityUpdated(items, itemId, newQuantity);
    }
  }
}

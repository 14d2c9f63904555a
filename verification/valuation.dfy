/** The item listing's loader: an optional case-insensitive name filter,
    then one summary per item with the units in stock and their value. */
module Valuation {
  import opened Optional
  import opened Text
  import opened Inventory

  /** One line of the item listing. */
  datatype ItemStats = ItemStats(id: string, name: string, totalUnits: int, totalValue: real)

  /** What the loader hands to the page: the summaries and the search echoed back. */
  datatype ListingData = ListingData(items: seq<ItemStats>, search: string)

  // ---------------------------------------------------------------------
  // The folds. Each is JavaScript's `reduce` from 0, a left fold: the
  // recursion peels off the LAST element, so the accumulated prefix is
  // always the left operand of the addition.
  // ---------------------------------------------------------------------

  /** Units held across a version's stock rows (the inner reduce). */
  function RowUnits(rows: seq<InventoryRow>): int {
    if rows == [] then 0
    else RowUnits(rows[..|rows| - 1]) + rows[|rows| - 1].quantity
  }

  /** Units held across every version of an item (the outer reduce). */
  function TotalUnits(versions: seq<ItemVersion>): int {
    if versions == [] then 0
    else TotalUnits(versions[..|versions| - 1]) + RowUnits(versions[|versions| - 1].inventoryItems)
  }

  /** Value of a version's stock rows, each row priced at `unitCost`. */
  function RowsValue(rows: seq<InventoryRow>, unitCost: real): real {
    if rows == [] then 0.0
    else RowsValue(rows[..|rows| - 1], unitCost) + (rows[|rows| - 1].quantity as real) * unitCost
  }

  /** Value of every version's stock, each at that version's own unit cost. */
  function TotalValue(versions: seq<ItemVersion>): real {
    if versions == [] then 0.0
    else
      var v := versions[|versions| - 1];
      TotalValue(versions[..|versions| - 1]) + RowsValue(v.inventoryItems, UnitCost(v))
  }

  function Stats(item: Item): ItemStats {
    ItemStats(item.id, item.name, TotalUnits(item.versions), TotalValue(item.versions))
  }

  // ---------------------------------------------------------------------
  // Reference definition: flatten every stock row of every version, paired
  // with its version's unit cost, and sum the flat list from the right.
  // ---------------------------------------------------------------------

  datatype Entry = Entry(quantity: int, unitCost: real)

  function RowEntries(rows: seq<InventoryRow>, unitCost: real): seq<Entry> {
    seq(|rows|, i requires 0 <= i < |rows| => Entry(rows[i].quantity, unitCost))
  }

  function Entries(versions: seq<ItemVersion>): seq<Entry> {
    if versions == [] then []
    else RowEntries(versions[0].inventoryItems, UnitCost(versions[0])) + Entries(versions[1..])
  }

  function SumQuantity(es: seq<Entry>): int {
    if es == [] then 0 else es[0].quantity + SumQuantity(es[1..])
  }

  function SumValue(es: seq<Entry>): real {
    if es == [] then 0.0 else (es[0].quantity as real) * es[0].unitCost + SumValue(es[1..])
  }

  lemma {:induction false} SumAppend(a: seq<Entry>, b: seq<Entry>)
    ensures SumQuantity(a + b) == SumQuantity(a) + SumQuantity(b)
    ensures SumValue(a + b) == SumValue(a) + SumValue(b)
  {
    if a != [] {
      assert (a + b)[1..] == a[1..] + b;
      SumAppend(a[1..], b);
    } else {
      assert a + b == b;
    }
  }

  lemma {:induction false} EntriesAppend(a: seq<ItemVersion>, b: seq<ItemVersion>)
    ensures Entries(a + b) == Entries(a) + Entries(b)
  {
    if a != [] {
      assert (a + b)[1..] == a[1..] + b;
      EntriesAppend(a[1..], b);
    } else {
      assert a + b == b;
    }
  }

  /** The left fold over one version's rows agrees with the flat sum. */
  lemma {:induction false} RowFoldIsFlatSum(rows: seq<InventoryRow>, unitCost: real)
    ensures RowUnits(rows) == SumQuantity(RowEntries(rows, unitCost))
    ensures RowsValue(rows, unitCost) == SumValue(RowEntries(rows, unitCost))
  {
    if rows != [] {
      var init := rows[..|rows| - 1];
      var last := rows[|rows| - 1];
      RowFoldIsFlatSum(init, unitCost);
      assert RowEntries(rows, unitCost) == RowEntries(init, unitCost) + [Entry(last.quantity, unitCost)];
      SumAppend(RowEntries(init, unitCost), [Entry(last.quantity, unitCost)]);
    }
  }

  /** Appending one version appends its rows to the flat list. */
  lemma EntriesSnoc(init: seq<ItemVersion>, v: ItemVersion)
    ensures Entries(init + [v]) == Entries(init) + RowEntries(v.inventoryItems, UnitCost(v))
  {
    EntriesAppend(init, [v]);
    assert Entries([v]) == RowEntries(v.inventoryItems, UnitCost(v)) + Entries([]);
  }

  /** totalUnits is the sum of `quantity` over every stock row of every
      version. */
  lemma {:induction false} TotalUnitsIsFlatSum(versions: seq<ItemVersion>)
    ensures TotalUnits(versions) == SumQuantity(Entries(versions))
  {
    if versions != [] {
      var init := versions[..|versions| - 1];
      var v := versions[|versions| - 1];
      TotalUnitsIsFlatSum(init);
      assert versions == init + [v];
      EntriesSnoc(init, v);
      RowFoldIsFlatSum(v.inventoryItems, UnitCost(v));
      SumAppend(Entries(init), RowEntries(v.inventoryItems, UnitCost(v)));
      assert TotalUnits(versions) == TotalUnits(init) + RowUnits(v.inventoryItems);
    }
  }

  /** totalValue is the sum of `quantity * unit cost` over every stock row
      of every version, each row priced at its own version's unit cost. */
  lemma {:induction false} TotalValueIsFlatSum(versions: seq<ItemVersion>)
    ensures TotalValue(versions) == SumValue(Entries(versions))
  {
    if versions != [] {
      var init := versions[..|versions| - 1];
      var v := versions[|versions| - 1];
      TotalValueIsFlatSum(init);
      assert versions == init + [v];
      EntriesSnoc(init, v);
      RowFoldIsFlatSum(v.inventoryItems, UnitCost(v));
      SumAppend(Entries(init), RowEntries(v.inventoryItems, UnitCost(v)));
    }
  }

  /** Splitting an item's versions in two splits both totals in two. */
  lemma TotalsAdditive(a: seq<ItemVersion>, b: seq<ItemVersion>)
    ensures TotalUnits(a + b) == TotalUnits(a) + TotalUnits(b)
    ensures TotalValue(a + b) == TotalValue(a) + TotalValue(b)
  {
    TotalUnitsIsFlatSum(a + b);
    TotalUnitsIsFlatSum(a);
    TotalUnitsIsFlatSum(b);
    TotalValueIsFlatSum(a + b);
    TotalValueIsFlatSum(a);
    TotalValueIsFlatSum(b);
    EntriesAppend(a, b);
    SumAppend(Entries(a), Entries(b));
  }

  /** The order in which the two parts are listed does not matter. */
  lemma TotalsIgnoreOrderOfParts(a: seq<ItemVersion>, b: seq<ItemVersion>)
    ensures TotalUnits(a + b) == TotalUnits(b + a)
    ensures TotalValue(a + b) == TotalValue(b + a)
  {
    TotalsAdditive(a, b);
    TotalsAdditive(b, a);
  }

  /** An item with no versions, or whose versions hold no stock rows,
      is worth nothing and holds no units. */
  lemma {:induction false} NoStockIsZero(versions: seq<ItemVersion>)
    requires forall i :: 0 <= i < |versions| ==> versions[i].inventoryItems == []
    ensures TotalUnits(versions) == 0
    ensures TotalValue(versions) == 0.0
  {
    if versions != [] {
      NoStockIsZero(versions[..|versions| - 1]);
    }
  }

  predicate QuantitiesNonNegative(versions: seq<ItemVersion>) {
    forall i, j :: 0 <= i < |versions| && 0 <= j < |versions[i].inventoryItems| ==>
      versions[i].inventoryItems[j].quantity >= 0
  }

  predicate UnitCostsNonNegative(versions: seq<ItemVersion>) {
    forall i :: 0 <= i < |versions| ==> UnitCost(versions[i]) >= 0.0
  }

  lemma {:induction false} RowTotalsNonNegative(rows: seq<InventoryRow>, unitCost: real)
    requires forall j :: 0 <= j < |rows| ==> rows[j].quantity >= 0
    ensures RowUnits(rows) >= 0
    ensures unitCost >= 0.0 ==> RowsValue(rows, unitCost) >= 0.0
  {
    if rows != [] {
      var q := rows[|rows| - 1].quantity as real;
      RowTotalsNonNegative(rows[..|rows| - 1], unitCost);
      if unitCost >= 0.0 {
        assert q * unitCost >= 0.0;
      }
    }
  }

  /** Non-negative quantities give a non-negative unit count; the value is
      non-negative only when, in addition, every unit cost is. */
  lemma {:induction false} TotalsNonNegative(versions: seq<ItemVersion>)
    requires QuantitiesNonNegative(versions)
    ensures TotalUnits(versions) >= 0
    ensures UnitCostsNonNegative(versions) ==> TotalValue(versions) >= 0.0
  {
    if versions != [] {
      var init := versions[..|versions| - 1];
      var v := versions[|versions| - 1];
      assert QuantitiesNonNegative(init) by {
        forall i, j | 0 <= i < |init| && 0 <= j < |init[i].inventoryItems|
          ensures init[i].inventoryItems[j].quantity >= 0
        {
          assert init[i] == versions[i];
        }
      }
      TotalsNonNegative(init);
      assert forall j :: 0 <= j < |v.inventoryItems| ==> v.inventoryItems[j].quantity >= 0 by {
        forall j | 0 <= j < |v.inventoryItems|
          ensures v.inventoryItems[j].quantity >= 0
        {
          assert 0 <= |versions| - 1 < |versions|;
        }
      }
      RowTotalsNonNegative(v.inventoryItems, UnitCost(v));
      if UnitCostsNonNegative(versions) {
        assert UnitCostsNonNegative(init) by {
          forall i | 0 <= i < |init| ensures UnitCost(init[i]) >= 0.0 {
            assert init[i] == versions[i];
          }
        }
        assert UnitCost(v) >= 0.0;
      }
    }
  }

  /** Without non-negative unit costs the value can go below zero: one unit
      whose deductible tax exceeds everything else. */
  lemma NegativeUnitCostGivesNegativeValue()
    ensures var v := ItemVersion(1, 0.0, 0.0, 0.0, 1.0, [InventoryRow("w", 1)]);
            QuantitiesNonNegative([v]) && TotalValue([v]) == -1.0
  {
  }

  // ---------------------------------------------------------------------
  // The search filter.
  // ---------------------------------------------------------------------

  /** `url.searchParams.get("search") || ""`: a missing parameter reads as
      the empty search. */
  function SearchTerm(param: Opt<string>): (s: string)
    ensures param.Absent? ==> s == ""
    ensures param.Present? ==> s == param.value
  {
    match param
    case Absent => ""
    case Present(term) => term
  }

  /** The database's `contains` in insensitive mode. */
  predicate NameMatches(name: string, search: string) {
    Contains(Lower(name), Lower(search))
  }

  /** A name matches exactly when the folded search occurs somewhere in the
      folded name. */
  lemma NameMatchesIff(name: string, search: string)
    ensures NameMatches(name, search) <==> exists i :: OccursAt(Lower(search), Lower(name), i)
  {
    ContainsIffOccurs(Lower(name), Lower(search));
  }

  /** Matching does not depend on the case of either side. */
  lemma NameMatchesIgnoresCase(name: string, search: string)
    ensures NameMatches(name, search) == NameMatches(Upper(name), search)
    ensures NameMatches(name, search) == NameMatches(name, Upper(search))
  {
    LowerOfUpper(name);
    LowerOfUpper(search);
  }

  /** `a` lists some of `b`'s elements, in `b`'s order. */
  predicate IsSubsequence<T(==)>(a: seq<T>, b: seq<T>)
    decreases |b|
  {
    if a == [] then true
    else if b == [] then false
    else (a[0] == b[0] && IsSubsequence(a[1..], b[1..])) || IsSubsequence(a, b[1..])
  }

  function KeepMatching(items: seq<Item>, search: string): (r: seq<Item>)
    ensures forall it :: it in r <==> it in items && NameMatches(it.name, search)
    ensures forall it :: multiset(r)[it] == if NameMatches(it.name, search) then multiset(items)[it] else 0
    ensures IsSubsequence(r, items)
  {
    if items == [] then []
    else
      var rest := KeepMatching(items[1..], search);
      assert forall it :: it in items <==> it == items[0] || it in items[1..];
      assert items == [items[0]] + items[1..];
      assert multiset(items) == multiset{items[0]} + multiset(items[1..]);
      if NameMatches(items[0].name, search) then
        assert ([items[0]] + rest)[1..] == rest;
        [items[0]] + rest
      else
        rest
  }

  /** The `where` clause: an empty search applies no filter; any other
      keeps exactly the items whose name contains it, ignoring case,
      in their original order. */
  function FilterByName(items: seq<Item>, search: string): (r: seq<Item>)
    ensures search == "" ==> r == items
    ensures forall it :: it in r <==> it in items && (search == "" || NameMatches(it.name, search))
    ensures forall it ::
      multiset(r)[it] == (if search == "" || NameMatches(it.name, search) then multiset(items)[it] else 0)
    ensures IsSubsequence(r, items)
  {
    if search == "" then
      assert IsSubsequence(items, items) by { SubsequenceReflexive(items); }
      items
    else KeepMatching(items, search)
  }

  lemma {:induction false} SubsequenceReflexive<T>(s: seq<T>)
    ensures IsSubsequence(s, s)
    decreases |s|
  {
    if s != [] {
      SubsequenceReflexive(s[1..]);
    }
  }

  /** The empty search would match every name anyway, so skipping the
      filter for it loses nothing. */
  lemma EmptySearchMatchesEverything(name: string)
    ensures NameMatches(name, "")
  {
  }

  // ---------------------------------------------------------------------
  // The loader.
  // ---------------------------------------------------------------------

  /** `items.map(...)`: one summary per item, same length, same order,
      same id and name, with the item's totals. */
  function ItemsWithStats(items: seq<Item>): (r: seq<ItemStats>)
    ensures |r| == |items|
    ensures forall i :: 0 <= i < |items| ==>
      && r[i].id == items[i].id
      && r[i].name == items[i].name
      && r[i].totalUnits == TotalUnits(items[i].versions)
      && r[i].totalValue == TotalValue(items[i].versions)
  {
    if items == [] then [] else [Stats(items[0])] + ItemsWithStats(items[1..])
  }

  /** The listing loader. `items` is every item of the store, newest first;
      the name filter the store's query applies is applied here. */
  function Loader(items: seq<Item>, searchParam: Opt<string>): (r: ListingData)
    ensures r.search == SearchTerm(searchParam)
    ensures r.search == "" ==> |r.items| == |items|
    ensures |r.items| <= |items|
    ensures forall it :: it in items && (r.search == "" || NameMatches(it.name, r.search)) ==>
      Stats(it) in r.items
    ensures forall s :: s in r.items ==>
      exists it :: it in items && s == Stats(it) && (r.search == "" || NameMatches(it.name, r.search))
    ensures IsSubsequence(r.items, ItemsWithStats(items))
    ensures r.search == "" ==> r.items == ItemsWithStats(items)
    ensures |r.items| == |FilterByName(items, r.search)|
  {
    var search := SearchTerm(searchParam);
    var kept := FilterByName(items, search);
    SubsequenceNoLonger(kept, items);
    SubsequenceOfStats(kept, items);
    StatsMembership(kept);
    ListingData(ItemsWithStats(kept), search)
  }

  /** A summary is listed exactly for the items summarised. */
  lemma StatsMembership(items: seq<Item>)
    ensures forall it :: it in items ==> Stats(it) in ItemsWithStats(items)
    ensures forall s :: s in ItemsWithStats(items) ==> exists it :: it in items && s == Stats(it)
  {
  }

  /** Summarising keeps a subsequence a subsequence: the listing keeps the
      store's order. */
  lemma {:induction false} SubsequenceOfStats(a: seq<Item>, b: seq<Item>)
    requires IsSubsequence(a, b)
    ensures IsSubsequence(ItemsWithStats(a), ItemsWithStats(b))
    decreases |b|
  {
    if a != [] {
      assert ItemsWithStats(b)[1..] == ItemsWithStats(b[1..]);
      if a[0] == b[0] && IsSubsequence(a[1..], b[1..]) {
        SubsequenceOfStats(a[1..], b[1..]);
        assert ItemsWithStats(a)[1..] == ItemsWithStats(a[1..]);
      } else {
        SubsequenceOfStats(a, b[1..]);
      }
    }
  }

  lemma {:induction false} SubsequenceNoLonger<T>(a: seq<T>, b: seq<T>)
    requires IsSubsequence(a, b)
    ensures |a| <= |b|
    decreases |b|
  {
    if a != [] {
      if a[0] == b[0] && IsSubsequence(a[1..], b[1..]) {
        SubsequenceNoLonger(a[1..], b[1..]);
      } else {
        SubsequenceNoLonger(a, b[1..]);
      }
    }
  }

  // ---------------------------------------------------------------------
  // The seeded "Blue Mops" item.
  // ---------------------------------------------------------------------

  function BlueMops(): Item {
    Item("blue-mops", "Blue Mops", [
      ItemVersion(1, 5.5, 0.3, 0.5, 0.2, [InventoryRow("main", 100)]),
      ItemVersion(2, 6.2, 0.35, 0.55, 0.25, [InventoryRow("main", 50)])
    ])
  }

  /** 100 units at 6.10 plus 50 units at 6.85. */
  lemma BlueMopsStats()
    ensures Stats(BlueMops()) == ItemStats("blue-mops", "Blue Mops", 150, 952.5)
  {
    var vs := BlueMops().versions;
    assert vs[..1][..0] == [];
    assert vs[..1] == [vs[0]];
    assert vs[0].inventoryItems[..0] == [];
    assert vs[1].inventoryItems[..0] == [];
    assert UnitCost(vs[0]) == 6.1;
    assert UnitCost(vs[1]) == 6.85;
    assert RowUnits(vs[0].inventoryItems) == 100;
    assert RowUnits(vs[1].inventoryItems) == 50;
    assert RowsValue(vs[0].inventoryItems, 6.1) == 610.0;
    assert RowsValue(vs[1].inventoryItems, 6.85) == 342.5;
    assert vs[..0] == [];
    assert TotalUnits(vs[..1]) == 100;
    assert TotalValue(vs[..1]) == 610.0;
  }
}

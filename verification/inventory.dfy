/** The stored entities the item listing reads: an item, its cost versions,
    and each version's stock row per warehouse. Money is an exact `real`;
    quantities are unbounded integers. */
module Inventory {

  /** The current quantity of one item version held at one warehouse. */
  datatype InventoryRow = InventoryRow(warehouseId: string, quantity: int)

  /** One cost snapshot of an item, with the stock rows attached to it. */
  datatype ItemVersion = ItemVersion(
    version: nat,
    unitPrice: real,
    serviceCost: real,
    taxCost: real,
    deductibleTaxCost: real,
    inventoryItems: seq<InventoryRow>)

  /** An item with its versions, in the order the store returned them. */
  datatype Item = Item(id: string, name: string, versions: seq<ItemVersion>)

  /** What one unit of a version costs: price plus service and tax, less
      the deductible tax. */
  function UnitCost(v: ItemVersion): real {
    v.unitPrice + v.serviceCost + v.taxCost - v.deductibleTaxCost
  }
}

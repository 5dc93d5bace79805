/** Rows of the vendor_services table: the stock of one product in one shop. */
module Stock {

  /** soldOut says whether sold_out_at is set, deleted whether deleted_at is. */
  datatype StockRow = StockRow(quantity: int, available: bool, soldOut: bool, deleted: bool)

  /** Stock is never negative, is zero exactly when sold_out_at is set, and a
      product without stock is not available. */
  predicate Consistent(row: StockRow)
  {
    && 0 <= row.quantity
    && (row.quantity == 0 <==> row.soldOut)
    && (row.quantity == 0 ==> !row.available)
  }

  /** Overwrite the stock of a row, with its stock-out side effects. */
  function ApplyStock(row: StockRow, quantity: int): (r: StockRow)
    ensures r.quantity == quantity && r.deleted == row.deleted
    ensures Consistent(row) && 0 <= quantity ==> Consistent(r)
  {
    StockRow(
      quantity,
      if quantity == 0 then false else if row.quantity == 0 && quantity > 0 then true else row.available,
      if quantity == 0 then true else if row.quantity == 0 && quantity > 0 then false else row.soldOut,
      row.deleted)
  }

  /** Add to the stock of a row in one UPDATE. */
  function AddStock(row: StockRow, quantity: int): (r: StockRow)
    ensures r.quantity == row.quantity + quantity && r.deleted == row.deleted
    ensures Consistent(row) && 0 < quantity ==> Consistent(r) && r == ApplyStock(row, row.quantity + quantity)
  {
    StockRow(
      row.quantity + quantity,
      if row.quantity == 0 && quantity > 0 then true else row.available,
      if row.quantity == 0 && quantity > 0 then false else row.soldOut,
      row.deleted)
  }

  /** Taking stock out and putting it back restores the row, except that a
      product which was switched off by hand and ran out comes back available. */
  lemma TakeAndReturn(row: StockRow, quantity: int)
    requires Consistent(row) && 0 < quantity <= row.quantity
    ensures var back := ApplyStock(ApplyStock(row, row.quantity - quantity), row.quantity);
            && back.quantity == row.quantity
            && (back == row <==> row.available || row.quantity != quantity)
  {
  }
}

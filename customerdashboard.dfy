/**
 * The bare customer page (`pages/CustomerDashboard.jsx`): it shows whatever
 * the list request returned and, after each accepted purchase, lowers the
 * bought sweet's shown stock by one. It has no stock guard of its own.
 */
module CustomerDashboard {
  import opened Wrappers
  import opened Schemas
  import opened Client
  import opened SweetList

  const PurchasedMessage := "Purchase successful!"
  const PurchaseFailedMessage := "Failed to purchase sweet"

  class CustomerDashboardView {
    var sweets: seq<SweetResponse>

    constructor()
      ensures sweets == []
    {
      sweets := [];
    }

    /** The mount fetch: the response body replaces the list whatever it held. */
    method Load(data: seq<SweetResponse>)
      modifies this
      ensures sweets == data
    {
      sweets := data;
    }

    /**
     * `handlePurchase`: an accepted purchase alerts and lowers the shown stock
     * of `id` by one; a refused one alerts and keeps the list; a network
     * failure does neither.
     */
    method HandlePurchase(id: int, reply: Reply<SweetResponse>) returns (message: Option<string>)
      modifies this
      ensures reply.Success? ==> message == Some(PurchasedMessage) && sweets == AdjustStock(old(sweets), id, -1)
      ensures reply.Failure? ==> message == Some(PurchaseFailedMessage) && sweets == old(sweets)
      ensures reply.NetworkError? ==> message == None && sweets == old(sweets)
    {
      match reply {
        case Success(_) =>
          message := Some(PurchasedMessage);
          sweets := AdjustStock(sweets, id, -1);
        case Failure(_) =>
          message := Some(PurchaseFailedMessage);
        case NetworkError =>
          message := None;
      }
    }
  }

  /**
   * The local update after an accepted purchase: with unique ids, the bought
   * sweet is shown with exactly one unit less, every other entry is kept,
   * and so are the length and the order.
   */
  lemma LocalDecrement(rows: seq<SweetResponse>, id: int)
    requires IdsUnique(rows)
    ensures var after := AdjustStock(rows, id, -1);
      && |after| == |rows| && IdsUnique(after)
      && (forall k :: 0 <= k < |rows| && rows[k].id != id ==> after[k] == rows[k])
      && (Find(rows, id).Some? ==> Find(after, id).value.quantity == Find(rows, id).value.quantity - 1)
      && (Find(rows, id).None? ==> after == rows)
  {
    AdjustStockKeepsKeys(rows, id, -1);
    FindAfterAdjust(rows, id, -1);
    if Find(rows, id).None? {
      assert forall k :: 0 <= k < |rows| ==> AdjustStock(rows, id, -1)[k] == rows[k];
    }
  }

  /**
   * Nothing on this page stops a purchase of a sweet shown with no stock: if
   * the server accepts it (the shown list being older than the server's),
   * the page shows a stock of minus one.
   */
  lemma ShownStockCanGoNegative(rows: seq<SweetResponse>, id: int)
    requires IdsUnique(rows) && Find(rows, id).Some? && Find(rows, id).value.quantity == 0
    ensures Find(AdjustStock(rows, id, -1), id).value.quantity == -1
  {
    LocalDecrement(rows, id);
  }
}

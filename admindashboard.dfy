/**
 * The admin dashboard (`pages/AdminDashboard.jsx`): the admin gate on mount,
 * the filtered fetch, deleting a sweet from the shown list, the restock
 * dialog and the stock statistics shown above the list.
 */
module AdminDashboard {
  import opened Wrappers
  import opened Schemas
  import opened Client
  import opened SweetList
  import opened Filters
  import Sweets

  const DeletedMessage := "Sweet deleted!"
  const DeleteFailedMessage := "Failed to delete sweet"
  const RestockedMessage := "Sweet restocked!"
  const RestockFailedMessage := "Failed to restock"

  /** What mounting the page does: leave for another page, or fetch with these query parameters. */
  datatype MountAction = GoTo(path: string) | Fetch(params: seq<Param>)

  /**
   * The mount effect: any role but "admin" (including none) is sent to the
   * shop dashboard before anything is fetched; an admin fetches with the
   * current filters.
   */
  function Mount(role: Option<string>, filters: FilterInputs): (a: MountAction)
    ensures a.GoTo? <==> role != Some("admin")
    ensures a.GoTo? ==> a.path == "/dashboard"
    ensures a.Fetch? ==> a.params == SearchParams(filters)
  {
    if role != Some("admin") then GoTo("/dashboard") else Fetch(SearchParams(filters))
  }

  /**
   * On first mount the filters are empty, so an admin sends no parameter and
   * is shown the first `DefaultLimit` sweets of the table: all of them only
   * when there are no more.
   */
  lemma AdminFirstMountListsAll(rows: seq<SweetResponse>)
    ensures Mount(Some("admin"), NoFilters) == Fetch([])
    ensures var params := Mount(Some("admin"), NoFilters).params;
      && Sweets.Select(rows, CriteriaOf(params)) == rows
      && Sweets.Page(Sweets.Select(rows, CriteriaOf(params)), Sweets.DefaultSkip, Sweets.DefaultLimit)
         == rows[..Sweets.Min(Sweets.DefaultLimit, |rows|)]
      && (|rows| > Sweets.DefaultLimit ==>
            |Sweets.Page(Sweets.Select(rows, CriteriaOf(params)), Sweets.DefaultSkip, Sweets.DefaultLimit)| < |rows|)
  {
    NoFiltersListsAll(rows);
  }

  /** "Confirm Restock" is disabled only while the amount is empty or a restock is in flight. */
  function ConfirmRestockDisabled(amount: Field<int>, restockLoading: bool): bool
  {
    amount.Blank? || restockLoading
  }

  /**
   * A zero or negative amount is not stopped by the client: the request goes
   * out, the server refuses it before looking at the id, and the dialog shows
   * the server's reason.
   */
  lemma NonPositiveRestockShowsServerReason(amount: int)
    requires amount <= 0
    ensures !ConfirmRestockDisabled(Entered(amount), false)
    ensures DetailOr(ReplyOf<SweetResponse>(Err(Sweets.AmountNotPositive)).detail, RestockFailedMessage)
            == "Restock amount must be positive"
  {
  }

  /** The sum of the shown quantities. */
  function TotalStock(rows: seq<SweetResponse>): (n: int)
    ensures StockNonNegative(rows) ==> n >= 0
  {
    if rows == [] then 0
    else
      assert StockNonNegative(rows) ==> StockNonNegative(rows[1..]) by {
        assert forall k :: 0 <= k < |rows| - 1 ==> rows[1..][k] == rows[k + 1];
      }
      rows[0].quantity + TotalStock(rows[1..])
  }

  /** The number of shown sweets whose quantity is exactly zero. */
  function OutOfStock(rows: seq<SweetResponse>): (n: nat)
    ensures n <= |rows|
    ensures n == 0 <==> forall k :: 0 <= k < |rows| ==> rows[k].quantity != 0
    ensures n == |rows| <==> forall k :: 0 <= k < |rows| ==> rows[k].quantity == 0
  {
    if rows == [] then 0
    else
      assert forall k :: 1 <= k < |rows| ==> rows[k] == rows[1..][k - 1];
      (if rows[0].quantity == 0 then 1 else 0) + OutOfStock(rows[1..])
  }

  /** Both statistics add up over a concatenation. */
  lemma {:induction false} StatsAppend(a: seq<SweetResponse>, b: seq<SweetResponse>)
    ensures TotalStock(a + b) == TotalStock(a) + TotalStock(b)
    ensures OutOfStock(a + b) == OutOfStock(a) + OutOfStock(b)
  {
    if a == [] {
      assert a + b == b;
    } else {
      assert (a + b)[1..] == a[1..] + b;
      StatsAppend(a[1..], b);
    }
  }

  /** With no negative stock, a total of zero means every shown sweet is out of stock. */
  lemma {:induction false} ZeroTotalMeansAllOut(rows: seq<SweetResponse>)
    requires StockNonNegative(rows) && TotalStock(rows) == 0
    ensures OutOfStock(rows) == |rows|
  {
    if rows != [] {
      var tail := rows[1..];
      assert StockNonNegative(tail) by {
        assert forall k :: 0 <= k < |tail| ==> tail[k] == rows[k + 1];
      }
      assert rows[0].quantity == 0 && TotalStock(tail) == 0;
      ZeroTotalMeansAllOut(tail);
    }
  }

  /** A list in which no entry carries `id` is left alone by a stock change of `id`. */
  lemma AdjustAbsent(rows: seq<SweetResponse>, id: int, delta: int)
    requires !HasId(rows, id)
    ensures AdjustStock(rows, id, delta) == rows
  {
    assert forall k :: 0 <= k < |rows| ==> AdjustStock(rows, id, delta)[k] == rows[k];
  }

  /**
   * With unique ids, changing the stock of a shown id by `delta` changes the
   * total stock by exactly `delta`; the restock and purchase updates move the
   * statistic by the amount they move the one sweet.
   */
  lemma {:induction false} TotalStockAfterAdjust(rows: seq<SweetResponse>, id: int, delta: int)
    requires IdsUnique(rows) && HasId(rows, id)
    ensures TotalStock(AdjustStock(rows, id, delta)) == TotalStock(rows) + delta
  {
    var tail := rows[1..];
    var adjusted := AdjustStock(rows, id, delta);
    assert adjusted == [adjusted[0]] + AdjustStock(tail, id, delta);
    UniqueTail(rows);
    if rows[0].id == id {
      assert !HasId(tail, id) by {
        forall j | 0 <= j < |tail| ensures tail[j].id != id {
          assert tail[j] == rows[j + 1];
        }
      }
      AdjustAbsent(tail, id, delta);
    } else {
      assert HasId(tail, id) by {
        var k :| 0 <= k < |rows| && rows[k].id == id;
        assert tail[k - 1] == rows[k];
      }
      TotalStockAfterAdjust(tail, id, delta);
    }
  }

  /** The page's state: the list, the filters, the delete in flight and the restock dialog. */
  class AdminDashboardView {
    var sweets: seq<SweetResponse>
    var filters: FilterInputs
    var loading: bool
    var deleting: Option<int>
    var restockId: Option<int>
    var restockAmount: Field<int>
    var restockLoading: bool

    constructor()
      ensures sweets == [] && filters == NoFilters && !loading && deleting == None
      ensures restockId == None && restockAmount == Blank && !restockLoading
    {
      sweets, filters, loading, deleting := [], NoFilters, false, None;
      restockId, restockAmount, restockLoading := None, Blank, false;
    }

    /** `fetchSweets`: the query holds the non-empty filters; a failed fetch keeps the list. */
    method FetchSweets(reply: Reply<seq<SweetResponse>>) returns (params: seq<Param>)
      modifies this
      ensures params == SearchParams(old(filters)) && filters == old(filters)
      ensures sweets == AfterFetch(old(sweets), reply) && !loading
      ensures deleting == old(deleting) && restockId == old(restockId)
      ensures restockAmount == old(restockAmount) && restockLoading == old(restockLoading)
    {
      loading := true;
      params := SearchParams(filters);
      sweets := AfterFetch(sweets, reply);
      loading := false;
    }

    /**
     * `handleDelete`: nothing happens unless the admin confirms. A successful
     * delete removes exactly the entries with that id, keeping the rest in
     * order; a refused one only alerts; a network failure changes nothing.
     */
    method HandleDelete(id: int, confirmed: bool, reply: Reply<()>) returns (requested: bool, message: Option<string>)
      modifies this
      ensures requested == confirmed
      ensures (!confirmed || reply.NetworkError?) ==> message == None && sweets == old(sweets)
      ensures confirmed && reply.Success? ==> message == Some(DeletedMessage) && sweets == WithoutId(old(sweets), id)
      ensures confirmed && reply.Failure? ==> message == Some(DeleteFailedMessage) && sweets == old(sweets)
      ensures deleting == (if confirmed then None else old(deleting))
      ensures filters == old(filters) && loading == old(loading) && restockId == old(restockId)
      ensures restockAmount == old(restockAmount) && restockLoading == old(restockLoading)
    {
      if !confirmed {
        return false, None;
      }
      deleting := Some(id);
      message := None;
      match reply {
        case Success(_) =>
          message := Some(DeletedMessage);
          sweets := WithoutId(sweets, id);
        case Failure(_) =>
          message := Some(DeleteFailedMessage);
        case NetworkError =>
      }
      deleting := None;
      requested := true;
    }

    /** The "Restock" button of a sweet opens the dialog for it. */
    method OpenRestock(id: int)
      modifies this
      ensures restockId == Some(id)
      ensures sweets == old(sweets) && filters == old(filters) && loading == old(loading) && deleting == old(deleting)
      ensures restockAmount == old(restockAmount) && restockLoading == old(restockLoading)
    {
      restockId := Some(id);
    }

    /** "Cancel" closes the dialog and clears the amount. */
    method CancelRestock()
      modifies this
      ensures restockId == None && restockAmount == Blank
      ensures sweets == old(sweets) && filters == old(filters) && loading == old(loading) && deleting == old(deleting)
      ensures restockLoading == old(restockLoading)
    {
      restockId, restockAmount := None, Blank;
    }

    /**
     * `handleRestock`: sends the dialog's id and amount. Success alerts,
     * closes and clears the dialog and asks for a refetch; a refusal shows the
     * server's detail, or "Failed to restock" when it has none, and keeps the
     * dialog; a network failure changes nothing but the loading flag.
     */
    method HandleRestock(reply: Reply<SweetResponse>)
      returns (request: (Option<int>, Field<int>), message: Option<string>, refetch: bool)
      modifies this
      ensures request == (old(restockId), old(restockAmount)) && !restockLoading
      ensures refetch <==> reply.Success?
      ensures reply.Success? ==> message == Some(RestockedMessage) && restockId == None && restockAmount == Blank
      ensures reply.Failure? ==> message == Some(DetailOr(reply.detail, RestockFailedMessage))
      ensures reply.NetworkError? ==> message == None
      ensures !reply.Success? ==> restockId == old(restockId) && restockAmount == old(restockAmount)
      ensures sweets == old(sweets) && filters == old(filters) && loading == old(loading) && deleting == old(deleting)
    {
      restockLoading := true;
      request := (restockId, restockAmount);
      message, refetch := None, false;
      match reply {
        case Success(_) =>
          message := Some(RestockedMessage);
          restockId, restockAmount := None, Blank;
          refetch := true;
        case Failure(detail) =>
          message := Some(DetailOr(detail, RestockFailedMessage));
        case NetworkError =>
      }
      restockLoading := false;
    }
  }
}

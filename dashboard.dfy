/**
 * The shop dashboard (`pages/Dashboard.jsx`): the filtered list, the
 * multi-unit purchase that issues one single-unit purchase per unit and stops
 * at the first failure, and the purchase button's state. The purchase is
 * modelled against the sweet table itself, so its effect on stock is proved
 * rather than assumed.
 */
module Dashboard {
  import opened Wrappers
  import opened Schemas
  import opened Text
  import opened Client
  import opened SweetList
  import opened Filters
  import Sweets

  const FailedMessage := "Purchase failed"
  const SuccessMessage := "Purchase successful!"

  /** The alert for a quantity above the displayed stock. */
  function TooManyMessage(available: nat): string {
    "Only " + NatToString(available) + " items are available. Please enter a valid quantity."
  }

  /** How many units the table can sell of `id`: its stock when found and positive, otherwise none. */
  function Sellable(rows: seq<SweetResponse>, id: int): (n: nat)
    ensures n > 0 <==> Find(rows, id).Some? && Find(rows, id).value.quantity > 0
    ensures n > 0 ==> n == Find(rows, id).value.quantity
  {
    match Find(rows, id)
    case None => 0
    case Some(s) => if s.quantity > 0 then s.quantity else 0
  }

  /** The entered quantity passes both client checks, so the purchase loop runs. */
  predicate Attempted(entered: Field<int>, available: int) {
    entered.Entered? && entered.value > 0 && !(entered.value > available && available > 0)
  }

  /** The purchase button: absent for admins; disabled when out of stock or while this sweet's purchase runs. */
  datatype Control = Absent | Disabled | Enabled

  function PurchaseControl(role: Option<string>, s: SweetResponse, purchasing: Option<int>): (c: Control)
    ensures c == Absent <==> role == Some("admin")
    ensures c == Disabled <==> role != Some("admin") && (s.quantity <= 0 || purchasing == Some(s.id))
  {
    if role == Some("admin") then Absent
    else if s.quantity <= 0 || purchasing == Some(s.id) then Disabled
    else Enabled
  }

  /** The page's state: the list shown, the filter inputs and the loading flag. */
  class DashboardView {
    var sweets: seq<SweetResponse>
    var filters: FilterInputs
    var loading: bool

    constructor()
      ensures sweets == [] && filters == NoFilters && !loading
    {
      sweets, filters, loading := [], NoFilters, false;
    }

    /** `fetchSweets`: the query holds the non-empty filters; a failed fetch keeps the list. */
    method FetchSweets(reply: Reply<seq<SweetResponse>>) returns (params: seq<Param>)
      modifies this
      ensures params == SearchParams(old(filters)) && filters == old(filters)
      ensures sweets == AfterFetch(old(sweets), reply) && !loading
    {
      loading := true;
      params := SearchParams(filters);
      sweets := AfterFetch(sweets, reply);
      loading := false;
    }

    /**
     * `handlePurchase` for sweet `id` shown with stock `available`. An empty,
     * cancelled or non-positive quantity sends nothing; so does one above a
     * positive displayed stock, after an alert. Otherwise single-unit purchases
     * are sent one after another until `entered` succeeded or one fails: the
     * units bought are the entered quantity capped by what the table can sell,
     * the table loses exactly that many units of `id`, and the list is fetched
     * again only when every unit was bought.
     */
    method HandlePurchase(server: Sweets.SweetTable, id: int, available: int, entered: Field<int>)
      returns (calls: nat, bought: nat, message: Option<string>, refetch: bool)
      requires server.Valid()
      modifies server
      ensures server.Valid() && server.nextId == old(server.nextId)
      ensures !(entered.Entered? && entered.value > 0) ==>
        calls == 0 && bought == 0 && message == None && !refetch && server.rows == old(server.rows)
      ensures entered.Entered? && entered.value > 0 && entered.value > available && available > 0 ==>
        calls == 0 && bought == 0 && message == Some(TooManyMessage(available)) && !refetch && server.rows == old(server.rows)
      ensures Attempted(entered, available) ==>
        && bought == Sweets.Min(entered.value, Sellable(old(server.rows), id))
        && server.rows == Sold(old(server.rows), id, bought)
        && calls == (if bought < entered.value then bought + 1 else bought)
        && (refetch <==> bought == entered.value)
        && message == Some(if refetch then SuccessMessage else Sweets.SweetNotAvailable.detail)
      ensures StockNonNegative(old(server.rows)) ==> StockNonNegative(server.rows)
    {
      if !(entered.Entered? && entered.value > 0) {
        return 0, 0, None, false;
      }
      if entered.value > available && available > 0 {
        return 0, 0, Some(TooManyMessage(available)), false;
      }
      calls, bought, message, refetch := BuyUnits(server, id, entered.value);
    }
  }

  /**
   * The purchase loop of `handlePurchase`: one single-unit purchase per unit
   * until `qty` succeeded or one was refused; the server's refusal detail is
   * the alert, and only a complete run asks for the list again.
   */
  method BuyUnits(server: Sweets.SweetTable, id: int, qty: nat)
    returns (calls: nat, bought: nat, message: Option<string>, refetch: bool)
    requires server.Valid()
    modifies server
    ensures server.Valid() && server.nextId == old(server.nextId)
    ensures bought == Sweets.Min(qty, Sellable(old(server.rows), id))
    ensures server.rows == Sold(old(server.rows), id, bought)
    ensures calls == (if bought < qty then bought + 1 else bought)
    ensures refetch <==> bought == qty
    ensures message == Some(if refetch then SuccessMessage else Sweets.SweetNotAvailable.detail)
    ensures StockNonNegative(old(server.rows)) ==> StockNonNegative(server.rows)
  {
    ghost var rows0 := server.rows;
    AscendingIsUnique(rows0);
    var i: nat := 0;
    while i < qty
      invariant 0 <= i <= qty && i <= Sellable(rows0, id)
      invariant server.Valid() && server.nextId == old(server.nextId)
      invariant server.rows == Sold(rows0, id, i)
    {
      ghost var now := server.rows;
      var r := server.Purchase(id);
      var reply := ReplyOf(r);
      PurchaseStep(rows0, id, i, now, server.rows, reply.Success?);
      if !reply.Success? {
        calls, bought, message, refetch := i + 1, i, Some(DetailOr(reply.detail, FailedMessage)), false;
        break;
      }
      i := i + 1;
    }
    if i == qty {
      calls, bought, message, refetch := qty, qty, Some(SuccessMessage), true;
    }
    if StockNonNegative(rows0) {
      PurchaseRunKeepsStock(rows0, id, qty);
    }
  }

  /** The table after `n` units of `id` were sold. */
  function Sold(rows: seq<SweetResponse>, id: int, n: nat): seq<SweetResponse> {
    AdjustStock(rows, id, -(n as int))
  }

  /** Selling one more unit after `n` is selling `n + 1`. */
  lemma SoldOneMore(rows: seq<SweetResponse>, id: int, n: nat)
    ensures AdjustStock(Sold(rows, id, n), id, -1) == Sold(rows, id, n + 1)
  {
    var once, more := AdjustStock(Sold(rows, id, n), id, -1), Sold(rows, id, n + 1);
    forall k | 0 <= k < |rows| ensures once[k] == more[k] {
    }
  }

  /**
   * After `i` units of `id` were bought, the next single-unit purchase is
   * refused exactly when the table could sell no more than `i`.
   */
  lemma PurchaseRefusedIff(rows: seq<SweetResponse>, id: int, i: nat)
    requires IdsUnique(rows) && i <= Sellable(rows, id)
    ensures var now := Find(Sold(rows, id, i), id);
      now.None? || now.value.quantity <= 0 <==> i == Sellable(rows, id)
  {
    assert Sold(rows, id, i) == AdjustStock(rows, id, -(i as int));
    FindAfterAdjust(rows, id, -(i as int));
    match Find(rows, id)
    case None =>
    case Some(s) =>
      assert Find(Sold(rows, id, i), id).value.quantity == s.quantity - i;
  }

  /**
   * One single-unit purchase after `i` units were bought from `rows0`: it is
   * accepted exactly while the table can sell more than `i`, and then leaves
   * the table with `i + 1` units taken.
   */
  lemma PurchaseStep(rows0: seq<SweetResponse>, id: int, i: nat, now: seq<SweetResponse>,
                     next: seq<SweetResponse>, accepted: bool)
    requires IdsUnique(rows0) && i <= Sellable(rows0, id) && now == Sold(rows0, id, i)
    requires accepted <==> Find(now, id).Some? && Find(now, id).value.quantity > 0
    requires accepted ==> next == AdjustStock(now, id, -1)
    ensures accepted <==> i < Sellable(rows0, id)
    ensures accepted ==> next == Sold(rows0, id, i + 1)
  {
    assert Find(now, id) == Find(Sold(rows0, id, i), id);
    PurchaseRefusedIff(rows0, id, i);
    if accepted {
      SoldOneMore(rows0, id, i);
    }
  }

  /** Bought units never exceed the stock, so a purchase run cannot take a sweet below zero. */
  lemma PurchaseRunKeepsStock(rows: seq<SweetResponse>, id: int, qty: nat)
    requires IdsUnique(rows) && StockNonNegative(rows)
    ensures StockNonNegative(Sold(rows, id, Sweets.Min(qty, Sellable(rows, id))))
  {
    var bought := Sweets.Min(qty, Sellable(rows, id));
    var after := Sold(rows, id, bought);
    forall k | 0 <= k < |rows| ensures after[k].quantity >= 0 {
      if rows[k].id == id {
        FindAt(rows, k);
        assert bought <= rows[k].quantity;
      }
    }
  }
}

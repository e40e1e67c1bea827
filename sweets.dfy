/**
 * The sweet inventory served under `/api/sweets` (`app/routers/sweets.py`):
 * a table of sweets keyed by integer id with create, list, update, delete,
 * search, purchase and restock handlers. Every failure is an `HttpError` and
 * leaves the table as it was.
 */
module Sweets {
  import opened Wrappers
  import opened Schemas
  import opened Http
  import opened Text
  import opened SweetList
  import Crud

  const SweetExists := HttpError(400, "Sweet already exists")
  const SweetNotFound := HttpError(404, "Sweet not found")
  const SweetNotAvailable := HttpError(400, "Sweet not available")
  const AmountNotPositive := HttpError(400, "Restock amount must be positive")

  /** Default `skip` and `limit` query parameters of the list and search endpoints. */
  const DefaultSkip: nat := 0
  const DefaultLimit: nat := 50

  /** The optional query parameters of the search endpoint. */
  datatype Criteria = Criteria(name: Option<string>, category: Option<string>, minPrice: Option<real>, maxPrice: Option<real>)

  const AllSweets := Criteria(None, None, None, None)

  /** A text filter is applied only when it is given and non-empty (`if name:`). */
  predicate TextApplies(q: Option<string>) {
    q.Some? && q.value != ""
  }

  /**
   * A sweet satisfies the search: name and category contain the query text
   * ignoring case, and the price lies within the inclusive bounds. A price
   * bound is applied whenever it is given, including 0.
   */
  predicate Matches(s: SweetResponse, c: Criteria) {
    && (TextApplies(c.name) ==> ContainsIgnoreCase(s.name, c.name.value))
    && (TextApplies(c.category) ==> ContainsIgnoreCase(s.category, c.category.value))
    && (c.minPrice.Some? ==> c.minPrice.value <= s.price)
    && (c.maxPrice.Some? ==> s.price <= c.maxPrice.value)
  }

  /** The rows satisfying the search, in table order. */
  function Select(rows: seq<SweetResponse>, c: Criteria): (r: seq<SweetResponse>)
    ensures |r| <= |rows|
    ensures forall x :: x in r <==> x in rows && Matches(x, c)
  {
    if rows == [] then []
    else (if Matches(rows[0], c) then [rows[0]] else []) + Select(rows[1..], c)
  }

  /** Selection distributes over concatenation: matches keep their table order. */
  lemma {:induction false} SelectAppend(a: seq<SweetResponse>, b: seq<SweetResponse>, c: Criteria)
    ensures Select(a + b, c) == Select(a, c) + Select(b, c)
  {
    if a == [] {
      assert a + b == b;
    } else {
      assert (a + b)[1..] == a[1..] + b;
      SelectAppend(a[1..], b, c);
    }
  }

  /** A single row is selected exactly when it matches. */
  lemma SelectOne(x: SweetResponse, c: Criteria)
    ensures Select([x], c) == if Matches(x, c) then [x] else []
  {
    assert [x][1..] == [];
  }

  /** A search without criteria returns the whole table, in order. */
  lemma {:induction false} SelectAll(rows: seq<SweetResponse>)
    ensures Select(rows, AllSweets) == rows
  {
    if rows != [] {
      SelectAll(rows[1..]);
    }
  }

  /** An empty text filter is ignored, exactly as an absent one. */
  lemma EmptyTextIgnored(s: SweetResponse, c: Criteria)
    ensures Matches(s, c.(name := Some(""))) == Matches(s, c.(name := None))
    ensures Matches(s, c.(category := Some(""))) == Matches(s, c.(category := None))
  {
  }

  function Min(a: int, b: int): int {
    if a <= b then a else b
  }

  /** SQL `OFFSET skip LIMIT limit`: at most `limit` consecutive rows starting at `skip`. */
  function Page(rows: seq<SweetResponse>, skip: nat, limit: nat): (r: seq<SweetResponse>)
    ensures |r| <= limit
    ensures |r| == if skip >= |rows| then 0 else Min(limit, |rows| - skip)
    ensures forall i :: 0 <= i < |r| ==> r[i] == rows[skip + i]
  {
    if skip >= |rows| then [] else rows[skip..skip + Min(limit, |rows| - skip)]
  }

  /** A page of a list holds only elements of that list. */
  lemma PageWithin(rows: seq<SweetResponse>, skip: nat, limit: nat)
    ensures forall x :: x in Page(rows, skip, limit) ==> x in rows
  {
    var p := Page(rows, skip, limit);
    forall x | x in p ensures x in rows {
      var i :| 0 <= i < |p| && p[i] == x;
      assert rows[skip + i] == x;
    }
  }

  /** The endpoints' default window (no `skip` or `limit` sent) is the first `DefaultLimit` rows. */
  lemma DefaultPage(rows: seq<SweetResponse>)
    ensures Page(rows, DefaultSkip, DefaultLimit) == rows[..Min(DefaultLimit, |rows|)]
    ensures |rows| <= DefaultLimit ==> Page(rows, DefaultSkip, DefaultLimit) == rows
  {
    assert rows[..|rows|] == rows;
  }

  /** The update handler's effect on one row: price and quantity are written when supplied; nothing else is. */
  function ApplyPatch(s: SweetResponse, p: SweetUpdate): (r: SweetResponse)
    ensures r.id == s.id && r.name == s.name && r.category == s.category
    ensures r.price == if p.price.Some? then p.price.value else s.price
    ensures r.quantity == if p.quantity.Some? then p.quantity.value else s.quantity
  {
    var priced := if p.price.Some? then s.(price := p.price.value) else s;
    if p.quantity.Some? then priced.(quantity := p.quantity.value) else priced
  }

  /** A patch that only supplies a category changes nothing: the handler never writes the category. */
  lemma CategoryPatchIgnored(s: SweetResponse, category: string)
    ensures ApplyPatch(s, SweetUpdate(Some(category), None, None)) == s
  {
  }

  /** The empty patch changes nothing. */
  lemma EmptyPatchIsIdentity(s: SweetResponse)
    ensures ApplyPatch(s, NoChanges) == s
  {
  }

  /**
   * Searching by the exact name of a row that was just added matches it, and
   * it is on the default page exactly when fewer than `DefaultLimit` older
   * rows match that name.
   */
  lemma CreatedIsFoundByName(rows: seq<SweetResponse>, created: SweetResponse)
    requires !HasName(rows, created.name)
    ensures var q := AllSweets.(name := Some(created.name));
      && created in Select(rows + [created], q)
      && (created in Page(Select(rows + [created], q), DefaultSkip, DefaultLimit) <==> |Select(rows, q)| < DefaultLimit)
  {
    var q := AllSweets.(name := Some(created.name));
    ContainsIgnoreCaseSelf(created.name);
    SelectAppend(rows, [created], q);
    SelectOne(created, q);
    var older := Select(rows, q);
    var all := older + [created];
    assert created !in older;
    DefaultPage(all);
    if |older| < DefaultLimit {
      assert all[..Min(DefaultLimit, |all|)] == all;
    } else {
      assert all[..Min(DefaultLimit, |all|)] == older[..DefaultLimit];
      assert forall x :: x in older[..DefaultLimit] ==> x in older;
    }
  }

  /** The sweet table: rows in id order and the next id the database will assign. */
  class SweetTable {
    var rows: seq<SweetResponse>
    var nextId: int

    /** Ids ascend and are below `nextId`, and no two sweets share a name. */
    ghost predicate Valid()
      reads this
    {
      && 1 <= nextId
      && IdsAscending(rows)
      && (forall k :: 0 <= k < |rows| ==> 0 < rows[k].id < nextId)
      && NamesUnique(rows)
    }

    constructor ()
      ensures Valid() && rows == [] && nextId == 1
    {
      rows, nextId := [], 1;
    }

    /** POST /api/sweets/ (admins only): adds a sweet under a fresh id unless its name is taken. */
    method Create(caller: User, sweet: SweetCreate) returns (r: Result<SweetResponse, HttpError>)
      requires Valid()
      modifies this
      ensures Valid()
      ensures caller.role != AdminRole ==> r == Err(Crud.AdminsOnly) && unchanged(this)
      ensures caller.role == AdminRole && HasName(old(rows), sweet.name) ==> r == Err(SweetExists) && unchanged(this)
      ensures caller.role == AdminRole && !HasName(old(rows), sweet.name) ==>
        && r == Ok(WithId(old(nextId), sweet))
        && rows == old(rows) + [r.value]
        && nextId == old(nextId) + 1
        && !HasId(old(rows), r.value.id)
    {
      var admin := Crud.GetCurrentAdmin(caller);
      if admin.Err? {
        return Err(admin.error);
      }
      if HasName(rows, sweet.name) {
        return Err(SweetExists);
      }
      var created := WithId(nextId, sweet);
      rows := rows + [created];
      nextId := nextId + 1;
      r := Ok(created);
    }

    /** GET /api/sweets/ (any user): a window of the table. */
    method List(skip: nat, limit: nat) returns (r: seq<SweetResponse>)
      ensures |r| <= limit
      ensures forall x :: x in r ==> x in rows
      ensures r == Page(rows, skip, limit)
    {
      r := Page(rows, skip, limit);
      PageWithin(rows, skip, limit);
    }

    /** PATCH /api/sweets/{id} (admins only): writes the supplied price and quantity of one sweet. */
    method Update(caller: User, id: int, patch: SweetUpdate) returns (r: Result<SweetResponse, HttpError>)
      requires Valid()
      modifies this
      ensures Valid() && nextId == old(nextId)
      ensures caller.role != AdminRole ==> r == Err(Crud.AdminsOnly) && unchanged(this)
      ensures caller.role == AdminRole && !HasId(old(rows), id) ==> r == Err(SweetNotFound) && unchanged(this)
      ensures caller.role == AdminRole && HasId(old(rows), id) ==>
        && r == Ok(ApplyPatch(Find(old(rows), id).value, patch))
        && |rows| == |old(rows)|
        && forall k :: 0 <= k < |rows| ==>
             rows[k] == if old(rows)[k].id == id then ApplyPatch(old(rows)[k], patch) else old(rows)[k]
    {
      var admin := Crud.GetCurrentAdmin(caller);
      if admin.Err? {
        return Err(admin.error);
      }
      match IndexOfId(rows, id)
      case None =>
        return Err(SweetNotFound);
      case Some(i) =>
        AscendingIsUnique(rows);
        var updated := ApplyPatch(rows[i], patch);
        rows := rows[i := updated];
        r := Ok(updated);
    }

    /** DELETE /api/sweets/{id} (admins only): removes exactly the sweet with this id. */
    method Delete(caller: User, id: int) returns (r: Result<(), HttpError>)
      requires Valid()
      modifies this
      ensures Valid() && nextId == old(nextId)
      ensures caller.role != AdminRole ==> r == Err(Crud.AdminsOnly) && unchanged(this)
      ensures caller.role == AdminRole && !HasId(old(rows), id) ==> r == Err(SweetNotFound) && unchanged(this)
      ensures caller.role == AdminRole && HasId(old(rows), id) ==>
        && r == Ok(())
        && rows == WithoutId(old(rows), id)
        && |rows| == |old(rows)| - 1
        && !HasId(rows, id)
    {
      var admin := Crud.GetCurrentAdmin(caller);
      if admin.Err? {
        return Err(admin.error);
      }
      match IndexOfId(rows, id)
      case None =>
        return Err(SweetNotFound);
      case Some(i) =>
        AscendingIsUnique(rows);
        WithoutIdAt(rows, i);
        RemoveAtKeepsKeys(rows, i);
        rows := rows[..i] + rows[i + 1..];
        r := Ok(());
    }

    /** GET /api/sweets/search (any user): the requested window of the rows that match. */
    method Search(c: Criteria, skip: nat, limit: nat) returns (r: seq<SweetResponse>)
      ensures |r| <= limit
      ensures forall x :: x in r ==> x in rows && Matches(x, c)
      ensures r == Page(Select(rows, c), skip, limit)
    {
      r := Page(Select(rows, c), skip, limit);
      PageWithin(Select(rows, c), skip, limit);
    }

    /** POST /api/sweets/{id}/purchase (any user): takes one unit out of stock if there is one. */
    method Purchase(id: int) returns (r: Result<SweetResponse, HttpError>)
      requires Valid()
      modifies this
      ensures Valid() && nextId == old(nextId)
      ensures (Find(old(rows), id).None? || Find(old(rows), id).value.quantity <= 0) ==>
        r == Err(SweetNotAvailable) && unchanged(this)
      ensures Find(old(rows), id).Some? && Find(old(rows), id).value.quantity > 0 ==>
        && r == Ok(ChangeStock(Find(old(rows), id).value, -1))
        && rows == AdjustStock(old(rows), id, -1)
      ensures StockNonNegative(old(rows)) ==> StockNonNegative(rows)
    {
      match IndexOfId(rows, id)
      case None =>
        return Err(SweetNotAvailable);
      case Some(i) =>
        if rows[i].quantity <= 0 {
          return Err(SweetNotAvailable);
        }
        var bought := ChangeStockAt(i, -1);
        r := Ok(bought);
    }

    /** The commit shared by purchase and restock: the stock of the row at `i` changes by `delta`. */
    method ChangeStockAt(i: nat, delta: int) returns (changed: SweetResponse)
      requires Valid() && i < |rows|
      modifies this
      ensures Valid() && nextId == old(nextId)
      ensures changed == ChangeStock(old(rows)[i], delta)
      ensures rows == AdjustStock(old(rows), old(rows)[i].id, delta)
      ensures StockNonNegative(old(rows)) && old(rows)[i].quantity + delta >= 0 ==> StockNonNegative(rows)
    {
      AscendingIsUnique(rows);
      AdjustStockAt(rows, i, delta);
      AdjustStockKeepsKeys(rows, rows[i].id, delta);
      changed := ChangeStock(rows[i], delta);
      rows := rows[i := changed];
    }

    /** POST /api/sweets/{id}/restock?amount=n (admins only): adds a positive amount to one sweet's stock. */
    method Restock(caller: User, id: int, amount: int) returns (r: Result<SweetResponse, HttpError>)
      requires Valid()
      modifies this
      ensures Valid() && nextId == old(nextId)
      ensures caller.role != AdminRole ==> r == Err(Crud.AdminsOnly) && unchanged(this)
      ensures caller.role == AdminRole && amount <= 0 ==> r == Err(AmountNotPositive) && unchanged(this)
      ensures caller.role == AdminRole && amount > 0 && !HasId(old(rows), id) ==>
        r == Err(SweetNotFound) && unchanged(this)
      ensures caller.role == AdminRole && amount > 0 && HasId(old(rows), id) ==>
        && r == Ok(ChangeStock(Find(old(rows), id).value, amount))
        && rows == AdjustStock(old(rows), id, amount)
      ensures StockNonNegative(old(rows)) ==> StockNonNegative(rows)
    {
      var admin := Crud.GetCurrentAdmin(caller);
      if admin.Err? {
        return Err(admin.error);
      }
      if amount <= 0 {
        return Err(AmountNotPositive);
      }
      match IndexOfId(rows, id)
      case None =>
        return Err(SweetNotFound);
      case Some(i) =>
        var restocked := ChangeStockAt(i, amount);
        r := Ok(restocked);
    }
  }
}

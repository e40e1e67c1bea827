/**
 * Lists of sweets keyed by id: the server's table rows in id order, and the
 * list a client screen displays. The lookups model the server's queries
 * (`db.get`, `filter(...).first()`); `WithoutId` and `AdjustStock` model the
 * client's `filter` and `map` keyed by id, and the server's delete and stock
 * changes are proved to agree with them.
 */
module SweetList {
  import opened Wrappers
  import opened Schemas

  /** Ids strictly increase along the list (the order the server assigns them in). */
  ghost predicate IdsAscending(rows: seq<SweetResponse>) {
    forall i, j :: 0 <= i < j < |rows| ==> rows[i].id < rows[j].id
  }

  /** No id occurs twice. */
  ghost predicate IdsUnique(rows: seq<SweetResponse>) {
    forall i, j :: 0 <= i < |rows| && 0 <= j < |rows| && i != j ==> rows[i].id != rows[j].id
  }

  /** No name occurs twice. */
  ghost predicate NamesUnique(rows: seq<SweetResponse>) {
    forall i, j :: 0 <= i < |rows| && 0 <= j < |rows| && i != j ==> rows[i].name != rows[j].name
  }

  /** No stored quantity is negative. */
  ghost predicate StockNonNegative(rows: seq<SweetResponse>) {
    forall k :: 0 <= k < |rows| ==> rows[k].quantity >= 0
  }

  lemma AscendingIsUnique(rows: seq<SweetResponse>)
    requires IdsAscending(rows)
    ensures IdsUnique(rows)
  {
    forall i, j | 0 <= i < |rows| && 0 <= j < |rows| && i != j
      ensures rows[i].id != rows[j].id
    {
      if i < j { assert rows[i].id < rows[j].id; } else { assert rows[j].id < rows[i].id; }
    }
  }

  /** Some entry has this id. */
  predicate HasId(rows: seq<SweetResponse>, id: int) {
    exists k :: 0 <= k < |rows| && rows[k].id == id
  }

  /** Some entry has exactly this name (the server's `filter(Sweet.name == name).first()`). */
  predicate HasName(rows: seq<SweetResponse>, name: string) {
    exists k :: 0 <= k < |rows| && rows[k].name == name
  }

  /** The position of the first entry with this id, if any. */
  function IndexOfId(rows: seq<SweetResponse>, id: int): (r: Option<nat>)
    ensures r.Some? ==> r.value < |rows| && rows[r.value].id == id
    ensures r.Some? ==> forall k :: 0 <= k < r.value ==> rows[k].id != id
    ensures r.None? <==> !HasId(rows, id)
  {
    if rows == [] then None
    else if rows[0].id == id then Some(0)
    else match IndexOfId(rows[1..], id)
      case None =>
        assert forall k :: 1 <= k < |rows| ==> rows[k] == rows[1..][k - 1];
        None
      case Some(i) => Some(i + 1)
  }

  /** The entry with this id (the server's `db.get(Sweet, id)`). */
  function Find(rows: seq<SweetResponse>, id: int): (r: Option<SweetResponse>)
    ensures r.Some? ==> r.value in rows && r.value.id == id
    ensures r.None? <==> !HasId(rows, id)
  {
    match IndexOfId(rows, id)
    case None => None
    case Some(i) => Some(rows[i])
  }

  /** With unique ids, the entry at any position is the one found by its id. */
  lemma FindAt(rows: seq<SweetResponse>, k: nat)
    requires IdsUnique(rows) && k < |rows|
    ensures IndexOfId(rows, rows[k].id) == Some(k) && Find(rows, rows[k].id) == Some(rows[k])
  {
  }

  /** The list without the entries carrying `id` (the client's `list.filter(s => s.id !== id)`). */
  function WithoutId(rows: seq<SweetResponse>, id: int): (r: seq<SweetResponse>)
    ensures |r| <= |rows|
    ensures forall x :: x in r <==> x in rows && x.id != id
    ensures !HasId(rows, id) ==> r == rows
  {
    if rows == [] then []
    else if rows[0].id == id then WithoutId(rows[1..], id)
    else [rows[0]] + WithoutId(rows[1..], id)
  }

  /** Removing by id keeps the order of what remains: it distributes over concatenation. */
  lemma {:induction false} WithoutIdAppend(a: seq<SweetResponse>, b: seq<SweetResponse>, id: int)
    ensures WithoutId(a + b, id) == WithoutId(a, id) + WithoutId(b, id)
  {
    if a == [] {
      assert a + b == b;
    } else {
      assert (a + b)[1..] == a[1..] + b;
      WithoutIdAppend(a[1..], b, id);
    }
  }

  /** Dropping the head keeps ids unique. */
  lemma UniqueTail(rows: seq<SweetResponse>)
    requires IdsUnique(rows) && rows != []
    ensures IdsUnique(rows[1..])
  {
    var tail := rows[1..];
    forall i, j | 0 <= i < |tail| && 0 <= j < |tail| && i != j ensures tail[i].id != tail[j].id {
      assert tail[i] == rows[i + 1] && tail[j] == rows[j + 1];
    }
  }

  /** With unique ids, removing by id is removing the one position that holds it. */
  lemma {:induction false} WithoutIdAt(rows: seq<SweetResponse>, k: nat)
    requires IdsUnique(rows) && k < |rows|
    ensures WithoutId(rows, rows[k].id) == rows[..k] + rows[k + 1..]
  {
    var id, tail := rows[k].id, rows[1..];
    if k == 0 {
      assert !HasId(tail, id) by {
        forall j | 0 <= j < |tail| ensures tail[j].id != id { assert tail[j] == rows[j + 1]; }
      }
    } else {
      assert rows[0].id != id;
      UniqueTail(rows);
      assert tail[k - 1] == rows[k];
      WithoutIdAt(tail, k - 1);
      assert tail[..k - 1] == rows[1..k] && tail[k..] == rows[k + 1..];
      assert [rows[0]] + rows[1..k] == rows[..k];
    }
  }

  /** Removing one position keeps ids ascending and names unique. */
  lemma RemoveAtKeepsKeys(rows: seq<SweetResponse>, k: nat)
    requires k < |rows|
    ensures IdsAscending(rows) ==> IdsAscending(rows[..k] + rows[k + 1..])
    ensures NamesUnique(rows) ==> NamesUnique(rows[..k] + rows[k + 1..])
  {
    var r := rows[..k] + rows[k + 1..];
    assert forall p :: 0 <= p < |r| ==> r[p] == rows[if p < k then p else p + 1];
  }

  /** The entry with this id with its quantity changed by `delta`. */
  function ChangeStock(s: SweetResponse, delta: int): (r: SweetResponse)
    ensures r.quantity == s.quantity + delta
    ensures r.id == s.id && r.name == s.name && r.category == s.category && r.price == s.price
  {
    s.(quantity := s.quantity + delta)
  }

  /**
   * Every entry with this id has its quantity changed by `delta`; all others,
   * the length and the order are kept. With `delta == -1` this is the client's
   * `list.map(s => s.id === id ? {...s, quantity: s.quantity - 1} : s)`.
   */
  function AdjustStock(rows: seq<SweetResponse>, id: int, delta: int): (r: seq<SweetResponse>)
    ensures |r| == |rows|
    ensures forall k :: 0 <= k < |rows| ==> r[k] == if rows[k].id == id then ChangeStock(rows[k], delta) else rows[k]
  {
    if rows == [] then []
    else [if rows[0].id == id then ChangeStock(rows[0], delta) else rows[0]] + AdjustStock(rows[1..], id, delta)
  }

  /** Two successive stock changes of one id add up. */
  lemma AdjustStockTwice(rows: seq<SweetResponse>, id: int, a: int, b: int)
    ensures AdjustStock(AdjustStock(rows, id, a), id, b) == AdjustStock(rows, id, a + b)
  {
    var twice, once := AdjustStock(AdjustStock(rows, id, a), id, b), AdjustStock(rows, id, a + b);
    forall k | 0 <= k < |rows| ensures twice[k] == once[k] {
    }
  }

  /** Two successive stock changes of one id add up to their sum `c`. */
  lemma AdjustStockSum(rows: seq<SweetResponse>, id: int, a: int, b: int, c: int)
    requires a + b == c
    ensures AdjustStock(AdjustStock(rows, id, a), id, b) == AdjustStock(rows, id, c)
  {
    AdjustStockTwice(rows, id, a, b);
  }

  /** Changing stock by zero changes nothing. */
  lemma AdjustStockZero(rows: seq<SweetResponse>, id: int)
    ensures AdjustStock(rows, id, 0) == rows
  {
    assert forall k :: 0 <= k < |rows| ==> AdjustStock(rows, id, 0)[k] == rows[k];
  }

  /** With unique ids, changing stock by id changes exactly one position, the one holding it. */
  lemma AdjustStockAt(rows: seq<SweetResponse>, k: nat, delta: int)
    requires IdsUnique(rows) && k < |rows|
    ensures AdjustStock(rows, rows[k].id, delta) == rows[k := ChangeStock(rows[k], delta)]
  {
  }

  /** Changing stock keeps ids and names, hence their order and uniqueness. */
  lemma AdjustStockKeepsKeys(rows: seq<SweetResponse>, id: int, delta: int)
    ensures IdsUnique(rows) ==> IdsUnique(AdjustStock(rows, id, delta))
    ensures IdsAscending(rows) ==> IdsAscending(AdjustStock(rows, id, delta))
    ensures NamesUnique(rows) ==> NamesUnique(AdjustStock(rows, id, delta))
  {
    var r := AdjustStock(rows, id, delta);
    assert forall k :: 0 <= k < |rows| ==> r[k].id == rows[k].id && r[k].name == rows[k].name;
    SameKeysKeepKeys(rows, r);
  }

  /** Two lists with the same ids and names position by position agree on every key property. */
  lemma SameKeysKeepKeys(rows: seq<SweetResponse>, r: seq<SweetResponse>)
    requires |r| == |rows|
    requires forall k :: 0 <= k < |rows| ==> r[k].id == rows[k].id && r[k].name == rows[k].name
    ensures IdsUnique(rows) ==> IdsUnique(r)
    ensures IdsAscending(rows) ==> IdsAscending(r)
    ensures NamesUnique(rows) ==> NamesUnique(r)
  {
  }

  /** After a stock change the entry with that id is found with the changed stock; a missing id stays missing. */
  lemma FindAfterAdjust(rows: seq<SweetResponse>, id: int, delta: int)
    requires IdsUnique(rows)
    ensures Find(rows, id).None? ==> Find(AdjustStock(rows, id, delta), id).None?
    ensures Find(rows, id).Some? ==> Find(AdjustStock(rows, id, delta), id) == Some(ChangeStock(Find(rows, id).value, delta))
  {
    var adjusted := AdjustStock(rows, id, delta);
    AdjustStockKeepsKeys(rows, id, delta);
    if Find(rows, id).Some? {
      var k := IndexOfId(rows, id).value;
      FindAt(rows, k);
      AdjustStockAt(rows, k, delta);
      FindAt(adjusted, k);
    } else {
      assert forall k :: 0 <= k < |rows| ==> adjusted[k].id == rows[k].id;
    }
  }
}

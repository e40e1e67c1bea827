/**
 * The filter bar shared by both dashboards (`fetchSweets` in
 * `pages/Dashboard.jsx` and `pages/AdminDashboard.jsx`): the query string it
 * builds, how the search endpoint reads it back, and what a fetch does to the
 * displayed list.
 */
module Filters {
  import opened Wrappers
  import opened Schemas
  import opened Client
  import Sweets

  /** The four filter inputs: two texts and two prices that may be left empty. */
  datatype FilterInputs = FilterInputs(search: string, category: string, minPrice: Field<real>, maxPrice: Field<real>)

  const NoFilters := FilterInputs("", "", Blank, Blank)

  /** A query parameter's value: text, or a number the endpoint parses as a price. */
  datatype ParamValue = Text(text: string) | Number(number: real)

  /** The four query keys of the search endpoint. */
  datatype Key = NameKey | CategoryKey | MinPriceKey | MaxPriceKey {

    /** The key as it appears in the query string. */
    function Name(): string {
      match this
      case NameKey => "name"
      case CategoryKey => "category"
      case MinPriceKey => "min_price"
      case MaxPriceKey => "max_price"
    }

    /** The step at which the filter bar appends this key. */
    function Rank(): nat {
      match this
      case NameKey => 0
      case CategoryKey => 1
      case MinPriceKey => 2
      case MaxPriceKey => 3
    }
  }

  datatype Param = Param(key: Key, value: ParamValue)

  /** Some parameter has this key. */
  predicate HasKey(ps: seq<Param>, key: Key) {
    exists i :: 0 <= i < |ps| && ps[i].key == key
  }

  /** The input behind `key` is non-empty. */
  predicate Sent(f: FilterInputs, key: Key) {
    match key
    case NameKey => f.search != ""
    case CategoryKey => f.category != ""
    case MinPriceKey => f.minPrice.Entered?
    case MaxPriceKey => f.maxPrice.Entered?
  }

  /** The value of the input behind `key`, as sent. */
  function InputValue(f: FilterInputs, key: Key): ParamValue
    requires Sent(f, key)
  {
    match key
    case NameKey => Text(f.search)
    case CategoryKey => Text(f.category)
    case MinPriceKey => Number(f.minPrice.value)
    case MaxPriceKey => Number(f.maxPrice.value)
  }

  /** The parameter appended at the step of `key`: present exactly when its input is non-empty. */
  function Slot(f: FilterInputs, key: Key): (ps: seq<Param>)
    ensures |ps| <= 1 && (ps != [] <==> Sent(f, key))
    ensures ps != [] ==> ps[0] == Param(key, InputValue(f, key))
  {
    if Sent(f, key) then [Param(key, InputValue(f, key))] else []
  }

  /**
   * The parameters appended to `URLSearchParams`: name, category, min_price
   * and max_price, in that order, each only when its input is non-empty and
   * each carrying that input. A price of 0 is non-empty text and is sent.
   */
  function SearchParams(f: FilterInputs): (ps: seq<Param>)
    ensures |ps| <= 4
    ensures forall i, j :: 0 <= i < j < |ps| ==> ps[i].key.Rank() < ps[j].key.Rank()
    ensures forall i :: 0 <= i < |ps| ==> Sent(f, ps[i].key) && ps[i].value == InputValue(f, ps[i].key)
  {
    Slot(f, NameKey) + Slot(f, CategoryKey) + Slot(f, MinPriceKey) + Slot(f, MaxPriceKey)
  }

  /** Each key is sent exactly when its input is non-empty. */
  lemma SearchParamsKeys(f: FilterInputs, key: Key)
    ensures HasKey(SearchParams(f), key) <==> Sent(f, key)
  {
    var ps := SearchParams(f);
    if Sent(f, key) {
      var before := match key
        case NameKey => []
        case CategoryKey => Slot(f, NameKey)
        case MinPriceKey => Slot(f, NameKey) + Slot(f, CategoryKey)
        case MaxPriceKey => Slot(f, NameKey) + Slot(f, CategoryKey) + Slot(f, MinPriceKey);
      assert ps[|before|].key == key;
    }
  }

  /**
   * The value of the first parameter with this key. FastAPI reads a scalar
   * query parameter from its last occurrence instead; the two agree here
   * because the filter bar never sends a key twice (`SearchParams` orders
   * its keys strictly by `Rank`).
   */
  function Lookup(ps: seq<Param>, key: Key): (r: Option<ParamValue>)
    ensures r.None? <==> !HasKey(ps, key)
    ensures r.Some? ==> exists i :: 0 <= i < |ps| && ps[i] == Param(key, r.value)
  {
    if ps == [] then None
    else if ps[0].key == key then Some(ps[0].value)
    else
      var r := Lookup(ps[1..], key);
      assert forall i :: 1 <= i < |ps| ==> ps[i] == ps[1..][i - 1];
      r
  }

  /** A text query parameter as the endpoint reads it. */
  function TextParam(ps: seq<Param>, key: Key): Option<string> {
    match Lookup(ps, key)
    case Some(Text(t)) => Some(t)
    case _ => None
  }

  /** A price query parameter as the endpoint reads it. */
  function NumberParam(ps: seq<Param>, key: Key): Option<real> {
    match Lookup(ps, key)
    case Some(Number(x)) => Some(x)
    case _ => None
  }

  /** The search criteria the endpoint reads from a query string. */
  function CriteriaOf(ps: seq<Param>): Sweets.Criteria {
    Sweets.Criteria(TextParam(ps, NameKey), TextParam(ps, CategoryKey), NumberParam(ps, MinPriceKey), NumberParam(ps, MaxPriceKey))
  }

  /** A non-empty text, or nothing. */
  function NonEmpty(s: string): Option<string> {
    if s == "" then None else Some(s)
  }

  /** An entered price, or nothing. */
  function FieldValue(x: Field<real>): Option<real> {
    if x.Entered? then Some(x.value) else None
  }

  /** Whatever the endpoint finds under a key is the input of that key. */
  lemma LookupCarries(f: FilterInputs, key: Key)
    ensures Lookup(SearchParams(f), key).Some? ==> Sent(f, key) && Lookup(SearchParams(f), key).value == InputValue(f, key)
  {
    var ps := SearchParams(f);
    if Lookup(ps, key).Some? {
      var i :| 0 <= i < |ps| && ps[i] == Param(key, Lookup(ps, key).value);
    }
  }

  /** The endpoint reads back exactly the non-empty inputs. */
  lemma ParamsRoundTrip(f: FilterInputs)
    ensures CriteriaOf(SearchParams(f)) ==
            Sweets.Criteria(NonEmpty(f.search), NonEmpty(f.category), FieldValue(f.minPrice), FieldValue(f.maxPrice))
  {
    SearchParamsKeys(f, NameKey);
    SearchParamsKeys(f, CategoryKey);
    SearchParamsKeys(f, MinPriceKey);
    SearchParamsKeys(f, MaxPriceKey);
    LookupCarries(f, NameKey);
    LookupCarries(f, CategoryKey);
    LookupCarries(f, MinPriceKey);
    LookupCarries(f, MaxPriceKey);
  }

  /**
   * Leaving an empty text out of the query loses nothing: the endpoint ignores
   * an empty text filter, so the client's search matches the same sweets as
   * one that always sent both texts.
   */
  lemma OmittingEmptyTextIsHarmless(s: SweetResponse, f: FilterInputs)
    ensures Sweets.Matches(s, CriteriaOf(SearchParams(f))) <==>
            Sweets.Matches(s, Sweets.Criteria(Some(f.search), Some(f.category), FieldValue(f.minPrice), FieldValue(f.maxPrice)))
  {
    ParamsRoundTrip(f);
  }

  /**
   * With every input empty nothing is sent: every row matches, and the
   * search answers with the first `DefaultLimit` rows of the table (all of it
   * when it holds no more).
   */
  lemma NoFiltersListsAll(rows: seq<SweetResponse>)
    ensures SearchParams(NoFilters) == []
    ensures Sweets.Select(rows, CriteriaOf(SearchParams(NoFilters))) == rows
    ensures Sweets.Page(Sweets.Select(rows, CriteriaOf(SearchParams(NoFilters))), Sweets.DefaultSkip, Sweets.DefaultLimit)
            == rows[..Sweets.Min(Sweets.DefaultLimit, |rows|)]
  {
    Sweets.SelectAll(rows);
    Sweets.DefaultPage(rows);
  }

  /** The list shown after a fetch: replaced by a successful reply, kept otherwise. */
  function AfterFetch(shown: seq<SweetResponse>, reply: Reply<seq<SweetResponse>>): (r: seq<SweetResponse>)
    ensures reply.Success? ==> r == reply.body
    ensures !reply.Success? ==> r == shown
  {
    if reply.Success? then reply.body else shown
  }
}

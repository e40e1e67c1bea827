/**
 * The edit-sweet modal (`components/EditSweet.jsx`). Its state starts as a
 * copy of the sweet's category, price and quantity, with an empty input for a
 * falsy value. On save it sends a patch holding only the inputs that are
 * non-empty and differ from the sweet. A number the user typed is text and
 * never equal to the stored number, so it is always sent; an input left
 * untouched holds the stored number itself and is never sent.
 */
module EditSweet {
  import opened Wrappers
  import opened Schemas
  import opened Client
  import Sweets

  /** A numeric input of the modal: the stored number as copied in, emptied, or text the user typed. */
  datatype NumberInput<T> = Original(value: T) | Cleared | Typed(value: T)

  /** The modal's inputs. Category is plain text. */
  datatype EditState = EditState(category: string, price: NumberInput<real>, quantity: NumberInput<int>)

  const FailedMessage := "Failed to update sweet"
  const CrashMessage := "Something went wrong while updating"

  /** `sweet.x || ""`: the stored value, or an empty input when it is falsy (empty text, zero). */
  function InitialEdit(s: SweetResponse): (e: EditState)
    ensures e.category == s.category
    ensures e.price == if s.price != 0.0 then Original(s.price) else Cleared
    ensures e.quantity == if s.quantity != 0 then Original(s.quantity) else Cleared
  {
    EditState(s.category,
              if s.price != 0.0 then Original(s.price) else Cleared,
              if s.quantity != 0 then Original(s.quantity) else Cleared)
  }

  /** Whether a numeric input enters the patch, and with which value: non-empty and different from `stored`. */
  function Changed<T(==)>(input: NumberInput<T>, stored: T, zero: T): (r: Option<T>)
    ensures input.Cleared? ==> r == None
    ensures input.Typed? ==> r == Some(input.value)
    ensures input.Original? ==> (r.Some? <==> input.value != zero && input.value != stored)
    ensures r.Some? ==> r.value == input.value
  {
    match input
    case Cleared => None
    case Typed(v) => Some(v)
    case Original(v) => if v != zero && v != stored then Some(v) else None
  }

  /** `updatedData`: category, price and quantity, each only when it is non-empty and differs from the sweet. */
  function Patch(s: SweetResponse, e: EditState): (p: SweetUpdate)
    ensures p.category.Some? <==> e.category != "" && e.category != s.category
    ensures p.category.Some? ==> p.category.value == e.category
    ensures p.price == Changed(e.price, s.price, 0.0)
    ensures p.quantity == Changed(e.quantity, s.quantity, 0)
  {
    SweetUpdate(if e.category != "" && e.category != s.category then Some(e.category) else None,
                Changed(e.price, s.price, 0.0),
                Changed(e.quantity, s.quantity, 0))
  }

  /** Saving the modal untouched sends the empty patch. */
  lemma UntouchedSendsNothing(s: SweetResponse)
    ensures Patch(s, InitialEdit(s)) == NoChanges
  {
  }

  /**
   * What the server stores after a save: name and category never change (the
   * server ignores a category in the patch), a typed number is written, and an
   * emptied or untouched input keeps the stored value.
   */
  lemma SaveEffect(s: SweetResponse, e: EditState)
    ensures var r := Sweets.ApplyPatch(s, Patch(s, e));
      && r.id == s.id && r.name == s.name && r.category == s.category
      && (e.price.Typed? ==> r.price == e.price.value)
      && (e.price.Cleared? || e.price == Original(s.price) ==> r.price == s.price)
      && (e.quantity.Typed? ==> r.quantity == e.quantity.value)
      && (e.quantity.Cleared? || e.quantity == Original(s.quantity) ==> r.quantity == s.quantity)
  {
  }

  /** Saving untouched leaves the stored sweet exactly as it was. */
  lemma UntouchedSaveKeepsSweet(s: SweetResponse)
    ensures Sweets.ApplyPatch(s, Patch(s, InitialEdit(s))) == s
  {
    UntouchedSendsNothing(s);
    Sweets.EmptyPatchIsIdentity(s);
  }

  /** The effects of one save: the request sent, the sweet handed to `onUpdate`, whether the modal closes, the alert. */
  datatype SaveOutcome = SaveOutcome(request: (int, SweetUpdate), updated: Option<SweetResponse>, closed: bool, message: Option<string>)

  /**
   * `handleUpdateSweet`: the patch is sent for the sweet's id even when it is
   * empty. On success the returned sweet goes to `onUpdate` and the modal
   * closes; on an error status the alert is the server's detail or the
   * fallback; a thrown error alerts the generic message.
   */
  function HandleUpdate(s: SweetResponse, e: EditState, reply: Reply<SweetResponse>): (o: SaveOutcome)
    ensures o.request == (s.id, Patch(s, e))
    ensures o.closed <==> reply.Success?
    ensures reply.Success? ==> o.updated == Some(reply.body) && o.message == None
    ensures reply.Failure? ==> o.updated == None && o.message == Some(DetailOr(reply.detail, FailedMessage))
    ensures reply.NetworkError? ==> o.updated == None && o.message == Some(CrashMessage)
  {
    var request := (s.id, Patch(s, e));
    match reply
    case Success(updated) => SaveOutcome(request, Some(updated), true, None)
    case Failure(detail) => SaveOutcome(request, None, false, Some(DetailOr(detail, FailedMessage)))
    case NetworkError => SaveOutcome(request, None, false, Some(CrashMessage))
  }
}

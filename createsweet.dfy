/**
 * The create-sweet form (`components/CreateSweet.jsx`): four inputs, a
 * validity check, the request body built from them, and the submit handler
 * that resets the form after a successful create.
 */
module CreateSweet {
  import opened Wrappers
  import opened Schemas
  import opened Text
  import opened Client
  import opened SweetList

  /** The four inputs. Name and category are text; price and quantity are empty or a number. */
  datatype Form = Form(name: string, category: string, price: Field<real>, quantity: Field<int>)

  const EmptyForm := Form("", "", Blank, Blank)

  const InvalidMessage := "Please fill required fields with valid values."
  const FailedMessage := "Failed to create sweet"
  const CrashMessage := "Something went wrong while creating sweet"

  /** `isValid`: the four checks in the order the form makes them. */
  function IsValid(f: Form): (b: bool)
    ensures b <==> && Trim(f.name) != ""
                   && Trim(f.category) != ""
                   && f.price.Entered? && f.price.value > 0.0
                   && f.quantity.Entered? && f.quantity.value >= 0
  {
    if Trim(f.name) == "" then false
    else if Trim(f.category) == "" then false
    else if f.price.Blank? || f.price.value <= 0.0 then false
    else if f.quantity.Blank? || f.quantity.value < 0 then false
    else true
  }

  /** The request body: name and category trimmed, price and quantity as numbers. */
  function Payload(f: Form): (p: SweetCreate)
    requires f.price.Entered? && f.quantity.Entered?
    ensures p.name == Trim(f.name) && p.category == Trim(f.category)
    ensures p.price == f.price.value && p.quantity == f.quantity.value
  {
    SweetBase(Trim(f.name), Trim(f.category), f.price.value, f.quantity.value)
  }

  /** `hasData`: some input is non-empty. */
  predicate HasData(f: Form) {
    f.name != "" || f.category != "" || f.price.Entered? || f.quantity.Entered?
  }

  /** The submit button is disabled while the form is invalid or a request is in flight. */
  function SubmitDisabled(f: Form, loading: bool): (d: bool)
    ensures !loading && Trim(f.name) == "" ==> d
  {
    !IsValid(f) || loading
  }

  /** A valid form yields a clean body: non-empty trimmed text, a positive price, a non-negative stock. */
  lemma ValidPayloadIsClean(f: Form)
    requires IsValid(f)
    ensures var p := Payload(f);
      && p.name != "" && Trim(p.name) == p.name
      && p.category != "" && Trim(p.category) == p.category
      && p.price > 0.0 && p.quantity >= 0
  {
    TrimIdempotent(f.name);
    TrimIdempotent(f.category);
  }

  /** Surrounding whitespace in the inputs does not change what is sent. */
  lemma PayloadIgnoresPadding(f: Form)
    requires f.price.Entered? && f.quantity.Entered?
    ensures Payload(f.(name := Trim(f.name), category := Trim(f.category))) == Payload(f)
    ensures IsValid(f.(name := Trim(f.name), category := Trim(f.category))) == IsValid(f)
  {
    TrimIdempotent(f.name);
    TrimIdempotent(f.category);
  }

  /** The empty form has no data and is not valid. */
  lemma EmptyFormIsBlank()
    ensures !HasData(EmptyForm) && !IsValid(EmptyForm)
  {
    assert !HasData(EmptyForm) by {
      assert EmptyForm == Form([], [], Blank, Blank);
    }
    assert !IsValid(EmptyForm) by {
      assert EmptyForm.name == [];
      TrimOfTrimmed(EmptyForm.name);
    }
  }

  /**
   * The server does not check the sign of the stock, but this form does: a sweet
   * created from a valid form keeps every quantity in the table non-negative.
   */
  lemma ValidCreateKeepsStock(rows: seq<SweetResponse>, id: int, f: Form)
    requires StockNonNegative(rows) && IsValid(f)
    ensures StockNonNegative(rows + [WithId(id, Payload(f))])
  {
    var added := WithId(id, Payload(f));
    assert forall k :: 0 <= k < |rows| ==> (rows + [added])[k] == rows[k];
  }

  /** The component's state: the form inputs and the in-flight flag. */
  class CreateSweetForm {
    var form: Form
    var loading: bool

    constructor()
      ensures form == EmptyForm && !loading
    {
      form := EmptyForm;
      loading := false;
    }

    /**
     * `handleCreate`. An invalid form sends nothing and alerts. Otherwise the
     * body is sent and `reply` is the server's answer: on success the new sweet
     * is handed to the parent, the form closes and is reset; on an error status
     * the alert is the server's detail or the fallback and the form is kept; a
     * thrown error alerts the generic message. `loading` is off afterwards.
     */
    method HandleCreate(reply: Reply<SweetResponse>) returns (request: Option<SweetCreate>, added: Option<SweetResponse>,
                                                             closed: bool, message: Option<string>)
      modifies this
      ensures !IsValid(old(form)) ==>
        && request == None && added == None && !closed && message == Some(InvalidMessage)
        && form == old(form) && loading == old(loading)
      ensures IsValid(old(form)) ==> request == Some(Payload(old(form))) && !loading
      ensures IsValid(old(form)) && reply.Success? ==>
        added == Some(reply.body) && closed && message == None && form == EmptyForm
      ensures IsValid(old(form)) && reply.Failure? ==>
        added == None && !closed && message == Some(DetailOr(reply.detail, FailedMessage)) && form == old(form)
      ensures IsValid(old(form)) && reply.NetworkError? ==>
        added == None && !closed && message == Some(CrashMessage) && form == old(form)
    {
      if !IsValid(form) {
        return None, None, false, Some(InvalidMessage);
      }
      loading := true;
      request := Some(Payload(form));
      match reply {
        case Success(created) =>
          added, closed, message := Some(created), true, None;
          form := EmptyForm;
        case Failure(detail) =>
          added, closed, message := None, false, Some(DetailOr(detail, FailedMessage));
        case NetworkError =>
          added, closed, message := None, false, Some(CrashMessage);
      }
      loading := false;
    }

    /** `resetForm`: every input emptied, so the preview disappears; `loading` is untouched. */
    method ResetForm()
      modifies this
      ensures form == EmptyForm && loading == old(loading)
      ensures !HasData(form)
    {
      form := EmptyForm;
    }
  }
}

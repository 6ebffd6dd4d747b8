/**
 * The edit page (frontends/src/components/EditTrek.jsx): a form loaded from
 * `GET /treks/:id`, with the image list rendered as text, that updates one
 * input per change and submits the parsed body to `PUT /treks/:id`.
 */
module EditTrek {
  import opened Wrappers
  import opened JsStrings
  import opened TrekModel
  import opened TrekForm
  import TrekRoutes

  /**
   * The form `fetchTrek` fills in from a stored trek. `priceText` is the
   * trek's `price.toString()`, which is not modelled.
   */
  function FormOfTrek(t: Trek, priceText: string): (form: FormData)
    ensures form.name == t.name && form.location == t.location && form.difficulty == t.difficulty
    ensures form.price == priceText
    ensures form.images == RenderImages(t.images)
    ensures t.images != [] && (forall img <- t.images :: ',' !in img && IsTrimmed(img)) ==>
      ParseImages(form.images) == t.images
  {
    var form := FormData(t.name, t.location, t.difficulty, priceText, RenderImages(t.images));
    if t.images != [] && (forall img <- t.images :: ',' !in img && IsTrimmed(img)) then
      ParseRenderRoundTrip(t.images);
      form
    else
      form
  }

  /** The update body that submitting the form carries, with the price read back as `price`. */
  function UpdateOf(p: Payload, price: real): TrekRoutes.TrekUpdate {
    TrekRoutes.TrekUpdate(p.name, p.location, p.difficulty, price, p.images)
  }

  /**
   * Loading a valid trek whose image URLs are trimmed and comma-free and saving
   * it unchanged stores the same document again.
   */
  lemma UnchangedEditKeepsTrek(t: Trek, priceText: string)
    requires ValidTrek(t)
    requires t.images != [] && forall img <- t.images :: ',' !in img && IsTrimmed(img)
    ensures TrekRoutes.ApplyUpdate(t, UpdateOf(ToPayload(FormOfTrek(t, priceText)), t.price)) == t
  {
  }

  /** Saving unchanged a trek with no images stores one empty image instead. */
  lemma UnchangedEditOfImagelessTrek(t: Trek, priceText: string)
    requires t.images == []
    ensures TrekRoutes.ApplyUpdate(t, UpdateOf(ToPayload(FormOfTrek(t, priceText)), t.price)).images == [""]
  {
    EmptyImagesNotPreserved();
  }

  class EditTrekPage {
    /** `formData`. */
    var formData: FormData
    /** `error`: the message shown instead of or above the form. */
    var error: string
    /** `loading`: the trek has not arrived yet. */
    var loading: bool

    constructor ()
      ensures formData == FormData("", "", "", "", "") && error == "" && loading
    {
      formData, error, loading := FormData("", "", "", "", ""), "", true;
    }

    /** `fetchTrek` succeeded: fill the form from the trek and stop loading. */
    method FetchSucceeded(t: Trek, priceText: string)
      modifies this
      ensures formData == FormOfTrek(t, priceText)
      ensures !loading && error == old(error)
    {
      formData, loading := FormOfTrek(t, priceText), false;
    }

    /** `fetchTrek` failed: show the server's message or "Error fetching trek" and stop loading. */
    method FetchFailed(serverMsg: Option<string>)
      modifies this
      ensures error == ErrorText(serverMsg, "Error fetching trek")
      ensures !loading && formData == old(formData)
    {
      error, loading := ErrorText(serverMsg, "Error fetching trek"), false;
    }

    /** `handleChange`: only the named input takes the new value. */
    method HandleChange(field: FormField, value: string)
      modifies this
      ensures formData == WithField(old(formData), field, value)
      ensures Get(formData, field) == value
      ensures forall other :: other != field ==> Get(formData, other) == Get(old(formData), other)
      ensures error == old(error) && loading == old(loading)
    {
      formData := WithField(formData, field, value);
    }

    /** `handleSubmit`: clear the error and build the body sent to `PUT /treks/:id`. */
    method HandleSubmit() returns (payload: Payload)
      modifies this
      ensures error == "" && formData == old(formData) && loading == old(loading)
      ensures payload == ToPayload(formData)
      ensures |payload.images| == Count(formData.images, ',') + 1
    {
      error := "";
      payload := ToPayload(formData);
    }

    /** The `catch` of `handleSubmit`: show the server's message or "Error updating trek". */
    method SubmitFailed(serverMsg: Option<string>)
      modifies this
      ensures error == ErrorText(serverMsg, "Error updating trek")
      ensures formData == old(formData) && loading == old(loading)
    {
      error := ErrorText(serverMsg, "Error updating trek");
    }
  }
}

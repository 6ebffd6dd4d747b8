/**
 * The add page (frontends/src/components/AddTrek.jsx): a form that starts
 * empty with difficulty "Easy", updates one input per change, and submits
 * the parsed body to `POST /treks`.
 */
module AddTrek {
  import opened Wrappers
  import opened TrekForm

  /** The submission of an untouched add form. */
  lemma UntouchedSubmission()
    ensures ToPayload(FormData("", "", "Easy", "", "")) == Payload("", "", "Easy", "", [""])
  {
    EmptyImagesText();
  }

  class AddTrekPage {
    /** `formData`. */
    var formData: FormData
    /** `error`: the message shown above the form. */
    var error: string

    constructor ()
      ensures formData == FormData("", "", "Easy", "", "") && error == ""
    {
      formData, error := FormData("", "", "Easy", "", ""), "";
    }

    /** `handleChange`: only the named input takes the new value. */
    method HandleChange(field: FormField, value: string)
      modifies this
      ensures formData == WithField(old(formData), field, value)
      ensures Get(formData, field) == value
      ensures forall other :: other != field ==> Get(formData, other) == Get(old(formData), other)
      ensures error == old(error)
    {
      formData := WithField(formData, field, value);
    }

    /** `handleSubmit`: clear the error and build the body sent to `POST /treks`. */
    method HandleSubmit() returns (payload: Payload)
      modifies this
      ensures error == "" && formData == old(formData)
      ensures payload == ToPayload(formData)
      ensures |payload.images| == JsStrings.Count(formData.images, ',') + 1
    {
      error := "";
      payload := ToPayload(formData);
    }

    /** The `catch` of `handleSubmit`: show the server's message or "Error adding trek". */
    method SubmitFailed(serverMsg: Option<string>)
      modifies this
      ensures error == ErrorText(serverMsg, "Error adding trek")
      ensures formData == old(formData)
    {
      error := ErrorText(serverMsg, "Error adding trek");
    }
  }
}

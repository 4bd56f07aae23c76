/**
 * The contact form's page state and its event handlers: typing into a
 * field, focusing and leaving it, submitting the form, and the completion
 * of the simulated submission two seconds later (an explicit event here).
 */
module ContactForm {
  import opened Validation
  import opened Notifications

  /**
   * What the page shows for one input: its current text, the
   * `.field-error` elements under it in document order, its `error` and
   * `focused` classes and its border tint.
   */
  datatype FieldState = FieldState(value: string, errors: seq<string>, errorClass: bool,
                                   border: Border, focused: bool)

  /** The submit button: its visible text, `disabled`, and its `loading` class. */
  datatype Button = Button(text: string, disabled: bool, loading: bool)

  /**
   * Whether a simulated submission is under way; while it is, the pending
   * completion holds the label the button had before it was replaced.
   */
  datatype Phase = Idle | Submitting(originalLabel: string)

  const LoadingLabel := "Sending..."
  const SuccessText := "Thank you for reaching out! I'll get back to you within 24 hours."

  /** A field in its initial state: empty, no error, not focused. */
  const Blank := FieldState("", [], false, Plain, false)

  /** The three inputs' states. */
  datatype Fields = Fields(name: FieldState, email: FieldState, message: FieldState)
  {
    /** Each input has at most one `.field-error` element under it. */
    predicate AtMostOneError()
    {
      |name.errors| <= 1 && |email.errors| <= 1 && |message.errors| <= 1
    }

    function Get(f: Field): (st: FieldState)
      ensures AtMostOneError() ==> |st.errors| <= 1
    {
      match f
      case Name => name
      case Email => email
      case Message => message
    }

    /** Replaces the state of `f` and keeps the other two. */
    function Set(f: Field, st: FieldState): (r: Fields)
      ensures r.Get(f) == st
      ensures forall g :: g != f ==> r.Get(g) == Get(g)
      ensures AtMostOneError() && |st.errors| <= 1 ==> r.AtMostOneError()
    {
      match f
      case Name => this.(name := st)
      case Email => this.(email := st)
      case Message => this.(message := st)
    }
  }

  /**
   * The values the submit handler reads: each field's text with the
   * whitespace at both ends cut away, so no longer than before and left
   * unchanged by a second trim.
   */
  function Snapshot(fields: Fields): (data: FormData)
    ensures forall f :: |ValueOf(data, f)| <= |fields.Get(f).value| && Trim(ValueOf(data, f)) == ValueOf(data, f)
  {
    TrimIdempotent(fields.name.value);
    TrimIdempotent(fields.email.value);
    TrimIdempotent(fields.message.value);
    FormData(Trim(fields.name.value), Trim(fields.email.value), Trim(fields.message.value))
  }

  /** The first `.field-error` element removed, if there is one. */
  function DropFirst(errors: seq<string>): seq<string>
  {
    if errors == [] then [] else errors[1..]
  }

  /** A field after `clearAllFieldErrors`: no error element, no `error` class, plain border. */
  function Cleared(st: FieldState): FieldState
  {
    st.(errors := [], errorClass := false, border := Plain)
  }

  function AllCleared(fields: Fields): Fields
  {
    Fields(Cleared(fields.name), Cleared(fields.email), Cleared(fields.message))
  }

  /** The fields after the form is reset: empty text, everything else as it was. */
  function AllEmptied(fields: Fields): Fields
  {
    Fields(fields.name.(value := ""), fields.email.(value := ""), fields.message.(value := ""))
  }

  class Form {
    var fields: Fields
    var button: Button
    var phase: Phase
    const presenter: Notifications.Presenter

    /**
     * Each field has at most one error element; the button is disabled and
     * shows the loading label exactly while a submission is under way.
     */
    ghost predicate Valid()
      reads this
    {
      && fields.AtMostOneError()
      && (phase.Idle? <==> !button.disabled)
      && (phase.Idle? <==> !button.loading)
      && (phase.Submitting? ==> button.text == LoadingLabel)
    }

    constructor (text: string, presenter: Notifications.Presenter)
      ensures Valid()
      ensures fields == Fields(Blank, Blank, Blank)
      ensures button == Button(text, false, false) && phase == Idle
      ensures this.presenter == presenter
    {
      fields := Fields(Blank, Blank, Blank);
      button := Button(text, false, false);
      phase := Idle;
      this.presenter := presenter;
    }

    /** `clearFieldError`: remove the first error element under the field and reset its border. */
    method ClearFieldError(f: Field)
      requires Valid()
      modifies this
      ensures Valid()
      ensures fields == old(fields).Set(f, old(fields.Get(f)).(errors := DropFirst(old(fields.Get(f)).errors), border := Plain))
      ensures fields.Get(f).errors == []
      ensures button == old(button) && phase == old(phase)
    {
      var st := fields.Get(f);
      fields := fields.Set(f, st.(errors := DropFirst(st.errors), border := Plain));
    }

    /** `showFieldError`: clear the field's error, then append one holding `message`. */
    method ShowFieldError(f: Field, message: string)
      requires Valid()
      modifies this
      ensures Valid()
      ensures fields == old(fields).Set(f, old(fields.Get(f)).(errors := [message], border := Plain))
      ensures button == old(button) && phase == old(phase)
    {
      ClearFieldError(f);
      var st := fields.Get(f);
      fields := fields.Set(f, st.(errors := st.errors + [message]));
    }

    /** `clearAllFieldErrors`: every error element goes, every field loses its `error` class and tint. */
    method ClearAllFieldErrors()
      requires Valid()
      modifies this
      ensures Valid()
      ensures fields == AllCleared(old(fields))
      ensures button == old(button) && phase == old(phase)
    {
      fields := AllCleared(fields);
    }

    /**
     * `validateField` on blur: check the field's trimmed text and show the
     * rule's message under it, or clear its error.
     */
    method ValidateField(f: Field) returns (ok: bool)
      requires Valid()
      modifies this
      ensures Valid()
      ensures ok <==> Satisfies(f, Trim(old(fields.Get(f)).value))
      ensures fields == old(fields).Set(f, old(fields.Get(f)).(
                errors := if ok then [] else [FieldText(f, ViolationOf(f, Trim(old(fields.Get(f)).value)))],
                errorClass := !ok,
                border := Plain))
      ensures button == old(button) && phase == old(phase)
    {
      var r := ValidateFieldValue(IdOf(f), fields.Get(f).value);
      if r.Invalid? {
        ShowFieldError(f, r.message);
        fields := fields.Set(f, fields.Get(f).(errorClass := true));
      } else {
        ClearFieldError(f);
        fields := fields.Set(f, fields.Get(f).(errorClass := false));
      }
      ok := r.Valid?;
    }

    /**
     * The `input` handler, after the text has changed to `value`: clear the
     * field's error and `error` class, then apply the live hint.
     */
    method Input(f: Field, value: string)
      requires Valid()
      modifies this
      ensures Valid()
      ensures fields == old(fields).Set(f, old(fields.Get(f)).(
                value := value, errors := [], errorClass := false,
                border := match LiveHint(IdOf(f), value) case Some(b) => b case None => Plain))
      ensures button == old(button) && phase == old(phase)
    {
      fields := fields.Set(f, fields.Get(f).(value := value));
      ClearFieldError(f);
      fields := fields.Set(f, fields.Get(f).(errorClass := false));
      var hint := LiveHint(IdOf(f), value);
      if hint.Some? {
        fields := fields.Set(f, fields.Get(f).(border := hint.value));
      }
    }

    /** The `focus` handler. */
    method Focus(f: Field)
      requires Valid()
      modifies this
      ensures Valid()
      ensures fields == old(fields).Set(f, old(fields.Get(f)).(focused := true))
      ensures button == old(button) && phase == old(phase)
    {
      fields := fields.Set(f, fields.Get(f).(focused := true));
    }

    /** The `blur` handler: drop the `focused` class, then check the field. */
    method Blur(f: Field) returns (ok: bool)
      requires Valid()
      modifies this
      ensures Valid()
      ensures ok <==> Satisfies(f, Trim(old(fields.Get(f)).value))
      ensures fields == old(fields).Set(f, old(fields.Get(f)).(
                focused := false,
                errors := if ok then [] else [FieldText(f, ViolationOf(f, Trim(old(fields.Get(f)).value)))],
                errorClass := !ok,
                border := Plain))
      ensures button == old(button) && phase == old(phase)
    {
      fields := fields.Set(f, fields.Get(f).(focused := false));
      ok := ValidateField(f);
    }

    /**
     * The `submit` handler. It is only dispatched while the button is
     * enabled: a form whose submit button is disabled is not submitted.
     * Clears all field errors, then validates the trimmed values; on failure
     * it shows the message as an error banner and leaves the button alone,
     * on success it disables the button and shows the loading label until
     * the completion event.
     */
    method Submit() returns (accepted: bool)
      requires Valid() && presenter.Valid()
      requires phase == Idle
      modifies this, presenter
      ensures Valid() && presenter.Valid()
      ensures accepted <==> ValidateContactForm(Snapshot(old(fields))).Valid?
      ensures fields == AllCleared(old(fields))
      ensures !accepted ==>
                && button == old(button) && phase == Idle
                && presenter.created == old(presenter.created) + 1
                && presenter.shown == [Notifications.Notification(
                     old(presenter.created), "error", Notifications.CrossMark, Notifications.Negative,
                     ValidateContactForm(Snapshot(old(fields))).message, false)]
      ensures accepted ==>
                && button == Button(LoadingLabel, true, true)
                && phase == Submitting(old(button.text))
                && presenter.shown == old(presenter.shown) && presenter.created == old(presenter.created)
    {
      var data := Snapshot(fields);
      ClearAllFieldErrors();
      var validation := ValidateContactForm(data);
      if validation.Invalid? {
        var _ := presenter.Show(validation.message, "error");
        assert IconOf("error") == CrossMark && PaletteOf("error") == Negative;
        return false;
      }
      var originalText := button.text;
      button := Button(LoadingLabel, true, true);
      phase := Submitting(originalText);
      accepted := true;
    }

    /**
     * The simulated submission completes: the form is reset, a success
     * banner is shown and the button gets back its label and is enabled.
     */
    method CompleteSubmission()
      requires Valid() && presenter.Valid()
      requires phase.Submitting?
      modifies this, presenter
      ensures Valid() && presenter.Valid()
      ensures fields == AllEmptied(old(fields))
      ensures button == Button(old(phase.originalLabel), false, false) && phase == Idle
      ensures presenter.created == old(presenter.created) + 1
      ensures presenter.shown == [Notifications.Notification(
                old(presenter.created), "success", Notifications.CheckMark, Notifications.Affirmative,
                SuccessText, false)]
    {
      fields := AllEmptied(fields);
      var _ := presenter.Show(SuccessText, "success");
      button := Button(phase.originalLabel, false, false);
      phase := Idle;
    }
  }

  /**
   * A valid submission followed by its completion: the fields end empty,
   * the button is back as it was, and one banner, the thank-you text, is shown.
   */
  method SubmitThenComplete(form: Form)
    requires form.Valid() && form.presenter.Valid() && form.phase == Idle
    requires ValidateContactForm(Snapshot(form.fields)).Valid?
    modifies form, form.presenter
    ensures form.Valid() && form.phase == Idle
    ensures form.button == old(form.button)
    ensures form.fields == AllEmptied(AllCleared(old(form.fields)))
    ensures |form.presenter.shown| == 1 && form.presenter.shown[0].text == SuccessText
  {
    var accepted := form.Submit();
    form.CompleteSubmission();
  }
}

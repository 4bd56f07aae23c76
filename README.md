# Portfolio contact form, modelled in Dafny

This project models the behaviour layer of a personal portfolio site's
contact form, as written in `app.js`:

- the validation rules (`validateContactForm`, `validateField`,
  `validateFieldRealTime`, `isValidEmail`), as pure functions over strings
  (`validation.dfy`, module `Validation`);
- the single floating notification banner (`showNotification` and its two
  dismissal timers), as a class holding the banners on the page
  (`notifications.dfy`, module `Notifications`);
- the form's page state and its handlers: typing, focus, blur, submit and
  the completion of the simulated submission, with the inline
  `.field-error` helpers (`contact_form.dfy`, module `ContactForm`);
- the Konami-code key buffer (`konami.dfy`, module `Konami`).

The e-mail check is stated structurally (no whitespace, exactly one `@`, a
non-empty part before it, a domain with a `.` that is neither its first nor
its last character) and proved equal to a direct reading of the regular
expression `^[^\s@]+@[^\s@]+\.[^\s@]+$` as a three-way split of the string.
Whitespace is the exact ECMAScript WhiteSpace and LineTerminator set, which
both `\s` and `String.prototype.trim` use.

Timers are events: the 2000 ms submission delay is
`ContactForm.Form.CompleteSubmission`, the 5000 ms and 300 ms banner timers
are `Notifications.Presenter.BeginDismiss` and `FinishDismiss`, each given
the identity of the banner it was scheduled for. Banners get an identity
(`id`) that stands for the DOM element's object identity.

Two details of `app.js` shape the model: `clearFieldError` removes only
the first `.field-error` under a field, so "at most one error per field" is
an invariant the handlers keep (`ContactForm.Form.Valid`), not something
each call enforces; and the live e-mail hint leaves the border as it is
(it sets no neutral tint) for other fields and for an empty value.

## Model

| member | source | states |
|---|---|---|
| `Validation.IdOf` | app.js:165-167 | each input's id is recognised as that input by the field dispatch |
| `Validation.Trim` | app.js:205-209 | a trimmed value neither starts nor ends with whitespace |
| `Validation.TrimStartIsSuffix` | app.js:205-209 | trimming the front keeps a suffix of the value |
| `Validation.TrimEndIsPrefix` | app.js:205-209 | trimming the end keeps a prefix of the value |
| `Validation.TrimStartDropsSpace` | app.js:205-209 | everything trimming removes at the front is whitespace |
| `Validation.TrimEndDropsSpace` | app.js:205-209 | everything trimming removes at the end is whitespace |
| `Validation.TrimIsSlice` | app.js:205-209 | a trimmed value is one contiguous slice of the input, and all that was cut away is whitespace |
| `Validation.TrimIdempotent` | app.js:283 | trimming an already trimmed value changes nothing |
| `Validation.IsValidEmail` | app.js:337-340 | an accepted address has at least five characters (one before the `@`, and a domain with an inner `.`); that it accepts exactly what the regular expression matches is `Validation.EmailStructureMatchesPattern` |
| `Validation.EmailStructureMatchesPattern` | app.js:337-340 | the structural e-mail check holds exactly when the regular expression matches (both directions) |
| `Validation.EmailExamples` | app.js:337-340 | `a@b.c` is accepted; `a@b` and `a b@c.d` are rejected |
| `ContactForm.Snapshot` | app.js:205-209 | each value the submit handler reads is no longer than the field's text and is left unchanged by a second trim |
| `Validation.ValidateContactForm` | app.js:254-280 | valid exactly when no field fails its rule; otherwise the message is the fixed text for the first failing field (name, then e-mail, then message) and its violation; every invalid result has a non-empty message |
| `Validation.FormValidIffEveryField` | app.js:254-280 | the form is valid exactly when each of the three fields satisfies its own rule |
| `Validation.EmptyFormReportsName` | app.js:255-257 | an all-empty form reports only "Please enter your name." |
| `Validation.NameFailureShortCircuits` | app.js:254-262 | when the name fails, the result does not depend on the e-mail or message at all |
| `Validation.NameLengthRule` | app.js:259-261 | a one-character name fails with the length message; a name of two or more characters never yields a name message |
| `Validation.MessageLengthRule` | app.js:271-279 | with a good name and address, a non-empty message under ten characters fails with the length message, and one of ten or more is valid |
| `Validation.SampleSubmissionAccepted` | app.js:254-280 | the submission `Al` / `al@x.io` / `Hello, this works!` is valid |
| `Validation.ValidateFieldValue` | app.js:282-311 | an unknown id is always valid; for a known field the verdict is that field's rule on the trimmed value, and the message is the field's own "required" text when empty, else the whole-form text |
| `Validation.FieldCheckAgreesWithForm` | app.js:282-311 | on the value the submit handler reads, the per-field check accepts exactly when the whole-form rule does, and reports the same text for the first failing non-empty field |
| `Validation.LiveHint` | app.js:324-335 | a tint is chosen only for a non-empty e-mail value, and it is the success tint exactly when the blur check would accept the value |
| `Notifications.IconOf` | app.js:389-396 | success gets the check mark, error the cross, every other type the info icon |
| `Notifications.PaletteOf` | app.js:420-433 | error and success get their own colours, every other type the info colours |
| `Notifications.UnknownKindLooksLikeInfo` | app.js:389-433 | an unrecognised type is drawn exactly like an info banner |
| `Notifications.Presenter.Show` | app.js:380-438 | afterwards exactly one banner is on the page, the new one with the given text, type, icon and colours; all earlier ones are gone |
| `Notifications.Presenter.BeginDismiss` | app.js:440-442 | the banner the timer belongs to starts leaving if still shown; otherwise the page is unchanged |
| `Notifications.Presenter.FinishDismiss` | app.js:443-447 | the banner is removed if still attached, and nothing else happens |
| `Notifications.EvictionScenario` | app.js:380-449 | an error then a success leaves one banner, the success, even after the error's timers fire |
| `ContactForm.Form.ClearFieldError` | app.js:352-359 | the first error element under the field goes and its border is reset; nothing else changes; with the invariant the field has no error left |
| `ContactForm.Form.ShowFieldError` | app.js:342-350 | the field ends with exactly one error element, holding the message; other fields unchanged |
| `ContactForm.Form.ClearAllFieldErrors` | app.js:361-370 | no field has an error element, an `error` class or a tint; values and button unchanged |
| `ContactForm.Form.ValidateField` | app.js:282-321 | the result is the field's rule on its trimmed value; the field has one error element with the rule's text exactly when invalid, and the `error` class exactly when invalid |
| `ContactForm.Form.Input` | app.js:179-183 | the field takes the new text, loses its error and `error` class, and its border follows the live hint |
| `ContactForm.Form.Focus` | app.js:185-187 | only the field's `focused` flag is set |
| `ContactForm.Form.Blur` | app.js:189-192 | the field keeps its text, loses focus and is checked: one error element with the rule's text and the `error` class exactly when invalid, plain border; other fields, button and phase unchanged |
| `ContactForm.Form.Submit` | app.js:196-232 | all field errors are cleared; invalid data leaves the button as it was and shows exactly one error banner with the validation message; valid data disables the button with the loading label and class and remembers the original label |
| `ContactForm.Form.CompleteSubmission` | app.js:235-249 | the fields are emptied, exactly one success banner with the thank-you text is shown, the button gets its original label back and is enabled |
| `ContactForm.SubmitThenComplete` | app.js:196-250 | a valid submission followed by its completion returns to idle with the original button, empty fields and the thank-you banner |
| `Konami.WindowIsMostRecent` | app.js:643-647 | the buffer holds the most recent key codes, at most ten, in the order pressed |
| `Konami.PushShiftIsWindow` | app.js:644-647 | push then shift-when-too-long turns the window of a history into the window of the history extended by one key |
| `Konami.WindowMatchesIffLastTen` | app.js:649 | the buffer equals the pattern exactly when at least ten keys were pressed and the last ten are the pattern |
| `Konami.PatternStep` | app.js:643-649 | while the pattern is typed in order, the buffer matches only after its last code |
| `Konami.Listener.KeyDown` | app.js:643-654 | the buffer stays at most ten long and equal to the window of the keys since the last unlock; it unlocks exactly when that window is the pattern, and then shows one success banner and empties the buffer |
| `Konami.UnlockScenario` | app.js:640-654 | pressing the ten pattern codes on a fresh listener ends with the easter-egg banner shown |

## Left out

- Navigation scrolling, the active-link highlighting, the navbar scroll throttle, the mobile menu, scroll-triggered reveal animations, parallax and the stat counters: layout geometry, browser scroll APIs and floating point, with no rule beyond the page.
- `createCelebrationEffect`, called after a completed submission and after the easter egg: random confetti on timers, purely decorative.
- The real delays (2000 ms, 5000 ms, 300 ms) and the interleaving of timers: each timer is an explicit event method.
- Inline styles, colour strings, the SVG spinner markup and the banner's HTML: kept only as the `Icon`, `Palette` and `Border` tags and the loading label `Sending...`.
- `initContactForm`'s early returns when the form, a field or the submit button is missing (app.js:160-163, 199-202): the model's form always has all of them.
- ContactForm.Form.Submit: requires the form to be idle, because a form whose submit button is disabled is not submitted by the browser; a submit while a submission is pending is not modelled.
- ContactForm.Form.CompleteSubmission: `contactForm.reset()` restores each input's default value; the model takes that default to be the empty string.
- ContactForm.Form.ShowFieldError: the page's `.field-error` lookup is per parent element; the model gives each input its own parent holding only that input's error elements, and takes the three inputs to be the only `.form-control` elements.
- Validation.ValidateContactForm: lengths are counted in Unicode scalar values, while JavaScript's `length` counts UTF-16 code units, so a character outside the Basic Multilingual Plane counts once here and twice in the browser.
- Validation.ValidateFieldValue: the same length difference as for the whole-form check.
- Notifications.IconOf: a type naming an inherited object property (such as `toString`) would find a non-empty entry in the icon lookup in JavaScript; the model gives every type other than success and error the info icon. The page only ever passes `success` or `error`.
- The banner text is inserted as HTML in the page; the model treats it as plain text.
- The `focus`, `input` and `blur` listeners are attached only to the three contact inputs; events on other elements are not modelled.

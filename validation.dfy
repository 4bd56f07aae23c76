/**
 * The contact form's validation rules: trimming, the e-mail check, the
 * whole-form check used on submit and the per-field check used on blur,
 * and the advisory border hint shown while the e-mail field is typed in.
 * Everything here is a total function over strings; failures are data.
 */
module Validation {

  datatype Option<T> = None | Some(value: T)

  /** The three inputs of the contact form, in the order the form checks them. */
  datatype Field = Name | Email | Message

  /** The `id` attribute of each input in the page markup. */
  function IdOf(f: Field): (id: string)
    ensures FieldOf(id) == Some(f)
  {
    match f
    case Name => "contact-name"
    case Email => "contact-email"
    case Message => "contact-message"
  }

  /** Which of the three inputs, if any, carries the id `id`. */
  function FieldOf(id: string): Option<Field>
  {
    if id == "contact-name" then Some(Name)
    else if id == "contact-email" then Some(Email)
    else if id == "contact-message" then Some(Message)
    else None
  }

  // ---------------------------------------------------------------------
  // Whitespace and trimming
  // ---------------------------------------------------------------------

  /**
   * ECMAScript WhiteSpace and LineTerminator code points: the set both the
   * regular-expression class `\s` and `String.prototype.trim` use.
   */
  predicate IsSpace(c: char)
  {
    || c == '\t' || c == '\n' || c == '\U{B}' || c == '\U{C}' || c == '\r' || c == ' '
    || c == '\U{A0}' || c == '\U{1680}' || ('\U{2000}' <= c <= '\U{200A}')
    || c == '\U{2028}' || c == '\U{2029}' || c == '\U{202F}' || c == '\U{205F}'
    || c == '\U{3000}' || c == '\U{FEFF}'
  }

  function TrimStart(s: string): (r: string)
    ensures |r| <= |s|
    ensures r == [] || !IsSpace(r[0])
  {
    if s != [] && IsSpace(s[0]) then TrimStart(s[1..]) else s
  }

  function TrimEnd(s: string): (r: string)
    ensures |r| <= |s|
    ensures r == [] || !IsSpace(r[|r| - 1])
  {
    if s != [] && IsSpace(s[|s| - 1]) then TrimEnd(s[..|s| - 1]) else s
  }

  /** `TrimStart` keeps a suffix of its input. */
  lemma {:induction false} TrimStartIsSuffix(s: string)
    ensures TrimStart(s) == s[|s| - |TrimStart(s)|..]
  {
    if s != [] && IsSpace(s[0]) {
      TrimStartIsSuffix(s[1..]);
      assert s[1..][|s| - 1 - |TrimStart(s)|..] == s[|s| - |TrimStart(s)|..];
    }
  }

  /** `TrimEnd` keeps a prefix of its input. */
  lemma {:induction false} TrimEndIsPrefix(s: string)
    ensures TrimEnd(s) == s[..|TrimEnd(s)|]
  {
    if s != [] && IsSpace(s[|s| - 1]) {
      TrimEndIsPrefix(s[..|s| - 1]);
      assert s[..|s| - 1][..|TrimEnd(s)|] == s[..|TrimEnd(s)|];
    }
  }

  /** Every character of `s` from position `i` up to `j` is whitespace. */
  predicate SpacesBetween(s: string, i: nat, j: nat)
    requires i <= j <= |s|
  {
    forall k :: i <= k < j ==> IsSpace(s[k])
  }

  /** What `TrimStart` drops is whitespace. */
  lemma {:induction false} TrimStartDropsSpace(s: string)
    ensures SpacesBetween(s, 0, |s| - |TrimStart(s)|)
  {
    if s != [] && IsSpace(s[0]) {
      var rest := s[1..];
      TrimStartDropsSpace(rest);
      forall k | 0 < k < |s| - |TrimStart(s)|
        ensures IsSpace(s[k])
      {
        assert s[k] == rest[k - 1];
      }
    }
  }

  /** What `TrimEnd` drops is whitespace. */
  lemma {:induction false} TrimEndDropsSpace(s: string)
    ensures SpacesBetween(s, |TrimEnd(s)|, |s|)
  {
    if s != [] && IsSpace(s[|s| - 1]) {
      var init := s[..|s| - 1];
      TrimEndDropsSpace(init);
      forall k | |TrimEnd(s)| <= k < |s| - 1
        ensures IsSpace(s[k])
      {
        assert s[k] == init[k];
      }
    }
  }

  /** `String.prototype.trim`: drop the whitespace at both ends of `s`. */
  function Trim(s: string): (r: string)
    ensures r == [] || (!IsSpace(r[0]) && !IsSpace(r[|r| - 1]))
  {
    TrimEndIsPrefix(TrimStart(s));
    TrimEnd(TrimStart(s))
  }

  /** `r` is the slice of `s` that starts at `lead`, with only whitespace around it. */
  ghost predicate SpaceAround(s: string, r: string, lead: nat)
  {
    && lead <= |s| - |r|
    && r == s[lead..lead + |r|]
    && SpacesBetween(s, 0, lead)
    && SpacesBetween(s, lead + |r|, |s|)
  }

  /**
   * What is left after trimming is one slice of `s`, and everything cut
   * away on either side of it is whitespace.
   */
  lemma TrimIsSlice(s: string)
    ensures exists lead :: SpaceAround(s, Trim(s), lead)
  {
    var t := TrimStart(s);
    var r := TrimEnd(t);
    var lead := |s| - |t|;
    TrimStartIsSuffix(s);
    TrimEndIsPrefix(t);
    TrimStartDropsSpace(s);
    TrimEndDropsSpace(t);
    forall k | lead + |r| <= k < |s|
      ensures IsSpace(s[k])
    {
      assert s[k] == t[k - lead];
    }
    assert r == s[lead..lead + |r|];
    assert r == Trim(s);
    assert SpaceAround(s, r, lead);
  }

  /** Trimming a value that is already trimmed changes nothing. */
  lemma TrimIdempotent(s: string)
    ensures Trim(Trim(s)) == Trim(s)
  {
    var t := Trim(s);
    assert TrimStart(t) == t;
    assert TrimEnd(t) == t;
  }

  // ---------------------------------------------------------------------
  // E-mail addresses
  // ---------------------------------------------------------------------

  predicate NoSpace(s: string)
  {
    forall i :: 0 <= i < |s| ==> !IsSpace(s[i])
  }

  /** Position of the first `c` in `s`, or `|s|` when there is none. */
  function IndexOf(s: string, c: char): (i: nat)
    ensures i <= |s|
    ensures i < |s| ==> s[i] == c
    ensures c !in s[..i]
  {
    if s == [] then 0
    else if s[0] == c then 0
    else
      var j := IndexOf(s[1..], c);
      assert s[..1 + j] == [s[0]] + s[1..][..j];
      1 + j
  }

  /** A `.` somewhere in `d` other than its first or last character. */
  predicate HasInnerDot(d: string)
  {
    exists k :: 0 < k < |d| - 1 && d[k] == '.'
  }

  /**
   * `isValidEmail`, stated structurally: no whitespace, exactly one `@`,
   * a non-empty part before it, and after it a domain holding a `.` that is
   * neither its first nor its last character.
   */
  predicate IsValidEmail(s: string): (b: bool)
    ensures b ==> |s| >= 5
  {
    && NoSpace(s)
    && multiset(s)['@'] == 1
    && var at := IndexOf(s, '@');
       0 < at < |s| && HasInnerDot(s[at + 1..])
  }

  /** `[^\s@]+`: a non-empty run of characters that are neither whitespace nor `@`. */
  ghost predicate Run(t: string)
  {
    |t| > 0 && forall i :: 0 <= i < |t| ==> !IsSpace(t[i]) && t[i] != '@'
  }

  /** The regular expression `^[^\s@]+@[^\s@]+\.[^\s@]+$`, read as a split of `s`. */
  ghost predicate MatchesEmailPattern(s: string)
  {
    exists at, dot :: 0 <= at < dot < |s| && s[at] == '@' && s[dot] == '.'
                      && Run(s[..at]) && Run(s[at + 1..dot]) && Run(s[dot + 1..])
  }

  lemma CountSplit(s: string, at: nat)
    requires at < |s|
    ensures multiset(s)['@'] == multiset(s[..at])['@'] + (if s[at] == '@' then 1 else 0) + multiset(s[at + 1..])['@']
  {
    assert s == s[..at] + [s[at]] + s[at + 1..];
  }

  /** Every character of `s[i..j]` is a run character exactly when each `s[t]`, `i <= t < j`, is. */
  lemma RunAt(s: string, i: nat, j: nat)
    requires i < j <= |s|
    ensures Run(s[i..j]) <==> forall t :: i <= t < j ==> !IsSpace(s[t]) && s[t] != '@'
  {
    if forall t :: i <= t < j ==> !IsSpace(s[t]) && s[t] != '@' {
      forall u | 0 <= u < j - i
        ensures !IsSpace(s[i..j][u]) && s[i..j][u] != '@'
      {
        assert s[i..j][u] == s[i + u];
      }
    }
    if Run(s[i..j]) {
      forall t | i <= t < j
        ensures !IsSpace(s[t]) && s[t] != '@'
      {
        assert s[t] == s[i..j][t - i];
      }
    }
  }

  lemma AbsentFrom(s: string, i: nat, j: nat)
    requires i <= j <= |s|
    requires '@' !in s[i..j]
    ensures forall t :: i <= t < j ==> s[t] != '@'
  {
    forall t | i <= t < j
      ensures s[t] != '@'
    {
      assert s[t] == s[i..j][t - i];
    }
  }

  lemma ValidEmailMatchesPattern(s: string)
    requires IsValidEmail(s)
    ensures MatchesEmailPattern(s)
  {
    var at := IndexOf(s, '@');
    var d := s[at + 1..];
    var k :| 0 < k < |d| - 1 && d[k] == '.';
    var dot := at + 1 + k;
    CountSplit(s, at);
    assert '@' !in d;
    assert s[..at] == s[0..at] && d == s[at + 1..|s|];
    AbsentFrom(s, 0, at);
    AbsentFrom(s, at + 1, |s|);
    RunAt(s, 0, at);
    RunAt(s, at + 1, dot);
    RunAt(s, dot + 1, |s|);
    assert s[dot + 1..] == s[dot + 1..|s|];
  }

  /** A string whose only `@` is at `at` and that has a `.` at `dot` beyond the next position passes the structural check. */
  lemma SplitIsValidEmail(s: string, at: nat, dot: nat)
    requires 0 < at && at + 1 < dot < |s| - 1 && s[dot] == '.'
    requires s[at] == '@' && !IsSpace(s[at])
    requires forall t :: 0 <= t < |s| && t != at ==> !IsSpace(s[t]) && s[t] != '@'
    ensures IsValidEmail(s)
  {
    assert NoSpace(s);
    var local, domain := s[..at], s[at + 1..];
    assert '@' !in local by {
      forall u | 0 <= u < at ensures local[u] != '@' { assert local[u] == s[u]; }
    }
    assert '@' !in domain by {
      forall u | 0 <= u < |domain| ensures domain[u] != '@' { assert domain[u] == s[at + 1 + u]; }
    }
    CountSplit(s, at);
    assert multiset(s)['@'] == 1;
    assert IndexOf(s, '@') == at;
    assert domain[dot - at - 1] == '.';
  }

  lemma PatternIsValidEmail(s: string)
    requires MatchesEmailPattern(s)
    ensures IsValidEmail(s)
  {
    var at, dot :| 0 <= at < dot < |s| && s[at] == '@' && s[dot] == '.'
                   && Run(s[..at]) && Run(s[at + 1..dot]) && Run(s[dot + 1..]);
    assert s[..at] == s[0..at] && s[dot + 1..] == s[dot + 1..|s|];
    RunAt(s, 0, at);
    RunAt(s, at + 1, dot);
    RunAt(s, dot + 1, |s|);
    SplitIsValidEmail(s, at, dot);
  }

  /** The structural check accepts exactly the strings the regular expression matches. */
  lemma EmailStructureMatchesPattern(s: string)
    ensures IsValidEmail(s) <==> MatchesEmailPattern(s)
  {
    if IsValidEmail(s) {
      ValidEmailMatchesPattern(s);
    }
    if MatchesEmailPattern(s) {
      PatternIsValidEmail(s);
    }
  }

  /** Three sample addresses: one accepted, two rejected. */
  lemma EmailExamples()
    ensures IsValidEmail("a@b.c")
    ensures !IsValidEmail("a@b")
    ensures !IsValidEmail("a b@c.d")
  {
    assert "a@b.c"[2..][1] == '.';
    assert IsSpace("a b@c.d"[1]);
  }

  // ---------------------------------------------------------------------
  // The whole-form check and the per-field check
  // ---------------------------------------------------------------------

  /** The values read from the form on submit, each already trimmed. */
  datatype FormData = FormData(name: string, email: string, message: string)

  /** `{isValid: true}`, or `{isValid: false, message}` with the text to show. */
  datatype ValidationResult = Valid | Invalid(message: string)

  function ValueOf(data: FormData, f: Field): string
  {
    match f
    case Name => data.name
    case Email => data.email
    case Message => data.message
  }

  /**
   * The rule each field has to pass: a name of at least two characters, a
   * well-formed e-mail address, a message of at least ten characters.
   */
  predicate Satisfies(f: Field, v: string)
  {
    match f
    case Name => |v| >= 2
    case Email => IsValidEmail(v)
    case Message => |v| >= 10
  }

  /** Why a value breaks its field's rule. */
  datatype Violation = Missing | TooShort | Malformed

  function ViolationOf(f: Field, v: string): Violation
    requires !Satisfies(f, v)
  {
    if v == [] then Missing else if f == Email then Malformed else TooShort
  }

  /** The first field, in the order name, e-mail, message, whose rule fails. */
  function FirstFailing(data: FormData): Option<Field>
  {
    if !Satisfies(Name, data.name) then Some(Name)
    else if !Satisfies(Email, data.email) then Some(Email)
    else if !Satisfies(Message, data.message) then Some(Message)
    else None
  }

  /** The text the whole-form check reports for a violation. */
  function FormText(f: Field, x: Violation): string
  {
    match (f, x)
    case (Name, Missing) => "Please enter your name."
    case (Email, Missing) => "Please enter your email address."
    case (Message, Missing) => "Please enter your message."
    case (Name, _) => "Name must be at least 2 characters long."
    case (Email, _) => "Please enter a valid email address."
    case (Message, _) => "Message must be at least 10 characters long."
  }

  /**
   * The text the per-field check shows under a field: its own wording when
   * the field is empty, otherwise the same text as the whole-form check.
   */
  function FieldText(f: Field, x: Violation): string
  {
    if x == Missing then
      match f
      case Name => "Name is required."
      case Email => "Email is required."
      case Message => "Message is required."
    else FormText(f, x)
  }

  /**
   * `validateContactForm`: the checks run name, e-mail, message, and the
   * first one that fails decides the result.
   */
  function ValidateContactForm(data: FormData): (r: ValidationResult)
    ensures r.Valid? <==> FirstFailing(data) == None
    ensures r.Invalid? ==> var f := FirstFailing(data).value;
                             r.message == FormText(f, ViolationOf(f, ValueOf(data, f)))
    ensures r.Invalid? ==> r.message != []
  {
    if data.name == [] then Invalid(FormText(Name, Missing))
    else if |data.name| < 2 then Invalid(FormText(Name, TooShort))
    else if data.email == [] then Invalid(FormText(Email, Missing))
    else if !IsValidEmail(data.email) then Invalid(FormText(Email, Malformed))
    else if data.message == [] then Invalid(FormText(Message, Missing))
    else if |data.message| < 10 then Invalid(FormText(Message, TooShort))
    else Valid
  }

  /** A form passes exactly when each of its three fields passes its own rule. */
  lemma FormValidIffEveryField(data: FormData)
    ensures ValidateContactForm(data).Valid? <==> forall f: Field :: Satisfies(f, ValueOf(data, f))
  {
    if !ValidateContactForm(data).Valid? {
      var f := FirstFailing(data).value;
      assert !Satisfies(f, ValueOf(data, f));
    }
  }

  /** An empty form reports only the missing name. */
  lemma EmptyFormReportsName()
    ensures ValidateContactForm(FormData("", "", "")) == Invalid("Please enter your name.")
  {
  }

  /** A failing name hides whatever is wrong with the e-mail address and the message. */
  lemma NameFailureShortCircuits(data: FormData, email: string, message: string)
    requires !Satisfies(Name, data.name)
    ensures ValidateContactForm(data) == ValidateContactForm(data.(email := email, message := message))
    ensures ValidateContactForm(data).Invalid?
  {
  }

  /** A one-character name fails with the length text; a longer name never fails the name checks. */
  lemma NameLengthRule(data: FormData)
    ensures |data.name| == 1 ==> ValidateContactForm(data) == Invalid("Name must be at least 2 characters long.")
    ensures |data.name| >= 2 ==>
              ValidateContactForm(data) !in {Invalid("Please enter your name."), Invalid("Name must be at least 2 characters long.")}
  {
  }

  /** Once name and address pass, a short non-empty message fails with the length text. */
  lemma MessageLengthRule(data: FormData)
    requires Satisfies(Name, data.name) && Satisfies(Email, data.email)
    ensures 0 < |data.message| < 10 ==> ValidateContactForm(data) == Invalid("Message must be at least 10 characters long.")
    ensures |data.message| >= 10 ==> ValidateContactForm(data) == Valid
  {
  }

  lemma SampleAddressValid()
    ensures IsValidEmail("al@x.io")
  {
    SplitIsValidEmail("al@x.io", 2, 4);
  }

  /** A two-letter name, a short address and a long enough message are accepted. */
  lemma SampleSubmissionAccepted()
    ensures ValidateContactForm(FormData("Al", "al@x.io", "Hello, this works!")) == Valid
  {
    SampleAddressValid();
  }

  /**
   * `validateField` without its effect on the page: the field is picked by
   * its id, the value is trimmed, and the field's rule decides.
   */
  function ValidateFieldValue(id: string, raw: string): (r: ValidationResult)
    ensures FieldOf(id) == None ==> r == Valid
    ensures FieldOf(id).Some? ==> var f := FieldOf(id).value;
              && (r.Valid? <==> Satisfies(f, Trim(raw)))
              && (r.Invalid? ==> r.message == FieldText(f, ViolationOf(f, Trim(raw))))
  {
    var value := Trim(raw);
    if id == IdOf(Name) then
      if value == [] then Invalid(FieldText(Name, Missing))
      else if |value| < 2 then Invalid(FieldText(Name, TooShort))
      else Valid
    else if id == IdOf(Email) then
      if value == [] then Invalid(FieldText(Email, Missing))
      else if !IsValidEmail(value) then Invalid(FieldText(Email, Malformed))
      else Valid
    else if id == IdOf(Message) then
      if value == [] then Invalid(FieldText(Message, Missing))
      else if |value| < 10 then Invalid(FieldText(Message, TooShort))
      else Valid
    else Valid
  }

  /**
   * On the value the submit handler reads, the per-field check accepts a
   * field exactly when the whole-form check's rule for it does, and for
   * the field the whole-form check reports, both give the same text unless
   * the field is empty.
   */
  lemma FieldCheckAgreesWithForm(data: FormData, f: Field, raw: string)
    requires Trim(raw) == ValueOf(data, f)
    ensures ValidateFieldValue(IdOf(f), raw).Valid? <==> Satisfies(f, ValueOf(data, f))
    ensures FirstFailing(data) == Some(f) && ValueOf(data, f) != [] ==>
              ValidateFieldValue(IdOf(f), raw) == ValidateContactForm(data)
  {
  }

  /** The border tint of an input. */
  datatype Border = Plain | ErrorTint | SuccessTint

  /**
   * `validateFieldRealTime`: the tint to give the e-mail input while it is
   * typed in, or `None` to leave the border as it is.
   */
  function LiveHint(id: string, raw: string): (h: Option<Border>)
    ensures h.Some? <==> id == IdOf(Email) && Trim(raw) != []
    ensures h.Some? ==> h.value != Plain && (h.value == SuccessTint <==> ValidateFieldValue(id, raw).Valid?)
  {
    var value := Trim(raw);
    if id == IdOf(Email) && |value| > 0 then
      if !IsValidEmail(value) then Some(ErrorTint) else Some(SuccessTint)
    else None
  }
}

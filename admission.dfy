/** The admission check of the contact form: all three fields must be non-blank once stripped. */
module Admission {
  import opened Wrappers
  import opened Text

  /**
   * A form field as `request.form.get(key, "")` reads it, stripped; absent
   * reads as "". The result is the raw value with its leading whitespace
   * dropped (`TrimStart`) and then a tail that is all whitespace dropped.
   */
  function FormField(v: Option<string>): (r: string)
    ensures Trimmed(r)
    ensures r == [] <==> AllSpace(v.GetOr(""))
    ensures r <= TrimStart(v.GetOr("")) && AllSpace(TrimStart(v.GetOr(""))[|r|..])
  {
    StripEmptyIff(v.GetOr(""));
    Strip(v.GetOr(""))
  }

  /** The verdict on one submission: the stripped values to store, or a rejection. */
  datatype Submission = Accepted(name: string, email: string, text: string) | Rejected

  /**
   * A submission is rejected exactly when some field is absent or all
   * whitespace; an accepted one carries the stripped values, none empty.
   */
  function Admit(name: Option<string>, email: Option<string>, text: Option<string>): (r: Submission)
    ensures r.Rejected? <==> AllSpace(name.GetOr("")) || AllSpace(email.GetOr("")) || AllSpace(text.GetOr(""))
    ensures r.Accepted? ==>
      r.name == FormField(name) && r.email == FormField(email) && r.text == FormField(text) &&
      r.name != [] && r.email != [] && r.text != []
  {
    var n, e, t := FormField(name), FormField(email), FormField(text);
    if n == [] || e == [] || t == [] then Rejected else Accepted(n, e, t)
  }

  /** Reading back a field's stripped value gives the same value. */
  lemma FormFieldIdempotent(v: Option<string>)
    ensures FormField(Some(FormField(v))) == FormField(v)
  {
    StripIdempotent(v.GetOr(""));
  }

  /** Stored values are admitted unchanged when submitted again: stripping is idempotent. */
  lemma AdmitStoredValues(name: Option<string>, email: Option<string>, text: Option<string>)
    requires Admit(name, email, text).Accepted?
    ensures var a := Admit(name, email, text);
      Admit(Some(a.name), Some(a.email), Some(a.text)) == a
  {
    FormFieldIdempotent(name);
    FormFieldIdempotent(email);
    FormFieldIdempotent(text);
  }
}

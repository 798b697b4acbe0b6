/** The text check the application runs in front of adding and editing a task. */
module Utils {
  import opened JsValues

  /** `Utils.validateTaskText`: a string with at least one non-space character. */
  function ValidateTaskText(text: JsValue): (ok: bool)
    ensures ok <==> text.Str? && !AllWhiteSpace(text.s)
    ensures !Truthy(text) ==> !ok
  {
    if !Truthy(text) || !text.Str? then false else |Trim(text.s)| > 0
  }

  /** Validity does not depend on surrounding white space. */
  lemma ValidateIsTrimInvariant(s: string)
    ensures ValidateTaskText(Str(s)) == ValidateTaskText(Str(Trim(s)))
  {
  }
}

/** What the two endpoints share: the outcome of a request, the error
    messages, and the PHP language pieces the guards use. */
module Endpoint {
  import opened Wrappers

  /** A request ends either with an error payload, or with the shell command
      that is run and the `requested` value echoed in the success payload. */
  datatype Outcome<R> = Error(message: string) | Run(command: string, requested: R)

  const MethodRequired: string := "POST method required"
  const SecondsRequired: string := "Seconds parameter is required"
  const NotANumber: string := "Invalid input: seconds must be a number"
  const OutOfRange: string := "Seconds must be between 0 and 30"

  /** PHP `empty()` on a string: true for "" and for "0", and for nothing else. */
  predicate Empty(s: string) {
    s == "" || s == "0"
  }

  /** `$_POST['seconds'] ?? ''`: an absent field reads as the empty string. */
  function FieldOrEmpty(field: Option<string>): string {
    if field.Some? then field.value else ""
  }

}

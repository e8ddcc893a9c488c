/** The part of the Terraform plugin SDK's `diag` package the core uses: a
    diagnostic is a severity, a one-line summary and a detail text, and a Go
    `diag.Diagnostics` value is a sequence of them. */
module Diag {
  import opened ByteStrings

  datatype Severity = Error | Warning

  datatype Diagnostic = Diagnostic(severity: Severity, summary: Bytes, detail: Bytes)

  /** `diag.FromErr(err)` for a non-nil `err` whose `Error()` text is `message`:
      one error diagnostic with that text as its summary and no detail. */
  function FromErr(message: Bytes): seq<Diagnostic>
  {
    [Diagnostic(Error, message, [])]
  }

  predicate AllErrors(ds: seq<Diagnostic>) {
    forall i :: 0 <= i < |ds| ==> ds[i].severity == Error
  }
}

/** Which request methods change state, internal/gwdkir/http.go. */
module HttpMethods {

  /** HTTPMethodRequiresCSRF, on the trimmed and upper-cased method. */
  predicate RequiresCSRF(name: string) {
    name != "" && name != "GET" && name != "HEAD" && name != "OPTIONS" && name != "TRACE"
  }

  /** The methods that only read, and the absent one. */
  const SAFE_METHODS := ["", "GET", "HEAD", "OPTIONS", "TRACE"]

  lemma RequiresIff(name: string)
    ensures RequiresCSRF(name) <==> name !in SAFE_METHODS
  {
  }
}

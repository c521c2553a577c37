/** The few JavaScript value rules the pin logic relies on. */
module Js {
  import opened Wrappers

  /** Truthiness of a string that may be `null` or `undefined`: the empty string is falsy too. */
  predicate Truthy(v: Option<string>) {
    v.Some? && v.value != ""
  }

  /** `a || b` for a possibly absent string `a`. */
  function Or(a: Option<string>, b: string): string {
    if Truthy(a) then a.value else b
  }

  /** What `'prefix' + v` appends for a possibly undefined string `v`. */
  function Str(v: Option<string>): string {
    if v.Some? then v.value else "undefined"
  }

}

/** Values shared by every controller: optional request fields, document ids
    and the id well-formedness test the controllers run before touching the
    store. */
module Base {

  /** A request field or a lookup result that may be absent (`undefined` or
      `null` in the controllers). */
  datatype Option<+T> = None | Some(value: T) {
    function GetOr(default: T): T {
      match this
      case Some(v) => v
      case None => default
    }
  }

  /** A document id, in its textual form. */
  type Id = string

  predicate IsHexDigit(c: char) {
    ('0' <= c <= '9') || ('a' <= c <= 'f') || ('A' <= c <= 'F')
  }

  /** The well-formedness test of the object mapper (`isValidObjectId`),
      fixed here to the 24-hex-digit text form of an object id. It is also
      the test of whether the mapper can cast a value to an id: a lookup by
      an id that fails it is a cast failure. */
  predicate ValidId(s: string) {
    |s| == 24 && forall i :: 0 <= i < |s| ==> IsHexDigit(s[i])
  }

  /** JavaScript truthiness of an optional string field: absent and the
      empty string are falsy. */
  predicate Truthy(x: Option<string>) {
    x.Some? && x.value != ""
  }

  function Min(a: int, b: int): int {
    if a <= b then a else b
  }
}

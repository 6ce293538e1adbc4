/** Form values as the request handlers see them.

    `request.form.get(name)` yields either the submitted text or nothing at
    all when the field was not posted; Python's `not value` is true for both
    the absent field and the empty string.
 */
module Forms {

  /** A value that may be missing: a form field that was not posted, a
      nullable column, a session with nobody signed in. */
  datatype Option<+T> = None | Some(value: T) {

    /** The value if present, else `default`, as `request.form.get(name, default)` reads a field. */
    function GetOr(default: T): T {
      match this
      case Some(v) => v
      case None => default
    }
  }

  /** A posted form field: `None` when the field was not submitted. */
  type Field = Option<string>

  /** Python truthiness of a field value: present and non-empty. */
  predicate Filled(f: Field) {
    f.Some? && |f.value| > 0
  }
}

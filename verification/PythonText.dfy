/** Python's `strip`. */
module PythonText {
  import opened Text

  /** The characters that Python's `strip` removes. */
  function PyBlank(): char -> bool {
    (c: char) => '\t' <= c <= '\r' || '\U{1C}' <= c <= ' ' || '\U{2000}' <= c <= '\U{200A}'
                 || c in {'\U{85}', '\U{A0}', '\U{1680}', '\U{2028}', '\U{2029}', '\U{202F}', '\U{205F}', '\U{3000}'}
  }

  function Strip(s: string): string {
    Trim(s, PyBlank())
  }
}

/** JavaScript's `trim`. */
module JsText {
  import opened PythonText
  import opened Text

  /** The white space and line terminators that JavaScript's `trim` removes. */
  function JsBlank(): char -> bool {
    (c: char) => c in {'\t', '\n', '\U{B}', '\U{C}', '\r', ' ', '\U{A0}', '\U{1680}', '\U{2028}', '\U{2029}',
                       '\U{202F}', '\U{205F}', '\U{3000}', '\U{FEFF}'} || '\U{2000}' <= c <= '\U{200A}'
  }

  /** Where JavaScript and Python disagree on what a blank is: the four separators, the next-line control and the byte order mark. */
  lemma BlanksDiffer(c: char)
    ensures JsBlank()(c) != PyBlank()(c) <==> '\U{1C}' <= c <= '\U{1F}' || c == '\U{85}' || c == '\U{FEFF}'
    ensures JsBlank()(c) ==> c == '\U{FEFF}' || PyBlank()(c)
    ensures c in {' ', '\t', '\n', '\r', '\U{3000}'} ==> JsBlank()(c) && PyBlank()(c)
  {}

  function JsTrim(s: string): string {
    Trim(s, JsBlank())
  }

  function JsTrimEnd(s: string): string {
    TrimEnd(s, JsBlank())
  }
}

/** The regular-expression library the engine relies on, kept opaque: it is not modelled
    how an expression is parsed or how it matches, only what the engine asks of it. */
module Regexp {
  import opened Wrappers

  /** A stand-in for the library: `syntaxError(expr)` is `None` when `expr` compiles and
      `Some(diagnostic)` otherwise; `findSubmatch(expr, text)` is the leftmost match of the
      compiled `expr` in `text` as the list of groups, group 0 (the whole match) first, or
      the empty list when there is no match. */
  datatype Engine = Engine(
    syntaxError: string -> Option<string>,
    findSubmatch: (string, string) -> seq<string>)
  {
    predicate Compiles(expr: string) {
      syntaxError(expr).None?
    }
  }

  /** A compiled matcher, remembered by the expression it was compiled from. */
  datatype Pattern = Pattern(expr: string)
}

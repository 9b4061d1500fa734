/** The errors the responder engine reports at registration time. */
module BotError {

  /** EmptyPattern is the sentinel `ErrEmptyPattern`; CompileFailed is the wrapped error
      produced when the normalised expression is rejected by the regular-expression
      compiler, carrying that expression and the compiler's own diagnostic. */
  datatype Error =
    | EmptyPattern
    | CompileFailed(expr: string, cause: string)
}

/** The exception hierarchy of the system, as one datatype. Every error
    carries the message text its exception is raised with, since callers
    classify failures by that text. */
module Errors {

  datatype Error =
    /** The base `GluePromptError`, raised directly by the HTTP client. */
    | Generic(msg: string)
    | PromptNotFound(msg: string)
    | PromptValidation(msg: string)
    | VersionErr(msg: string)
    | GitOperation(msg: string)
    | TemplateRender(msg: string)
    /** Python's `NotImplementedError`. */
    | NotImplemented(msg: string)
    /** An `OSError` that no handler converts (opening a directory as a file). */
    | OsError(msg: string)
    /** An `AttributeError` from calling a string method on a non-string. */
    | AttributeErr(msg: string)
    /** Python's `ValueError`, from `int()` on text that is not a number. */
    | ValueErr(msg: string)
    /** Python's `TypeError`, from a call whose `**variables` binds one of
        the function's own parameters a second time. */
    | TypeErr(msg: string)
    /** `click.Abort`: the command line stops with an error printed. */
    | Abort(msg: string)
}

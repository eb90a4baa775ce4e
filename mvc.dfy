/**
 * The pieces of ASP.NET Core MVC the controllers touch: the model-state
 * dictionary they add errors to and the results their actions return.
 */
module Mvc {
  import opened Runtime

  datatype ModelError = ModelError(key: string, message: string)

  /** `ModelStateDictionary`: the errors recorded while binding and validating
      the request and during the action. */
  class ModelStateDictionary {
    var errors: seq<ModelError>

    constructor (errors: seq<ModelError>)
      ensures this.errors == errors
    {
      this.errors := errors;
    }

    /** `IsValid`. */
    predicate IsValid()
      reads this
    {
      errors == []
    }

    /** `AddModelError` and `TryAddModelError`. */
    method AddModelError(key: string, message: string)
      modifies this
      ensures errors == old(errors) + [ModelError(key, message)]
      ensures !IsValid()
    {
      errors := errors + [ModelError(key, message)];
    }
  }

  /** What an action returns: a view (with its model, or none), a redirect to
      another action, or an exception that escapes the action. */
  datatype ActionResult<M> = View(model: Option<M>) | RedirectToAction(action: string) | Thrown(error: Exception)
}

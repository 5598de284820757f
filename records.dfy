/** What every entity's `update` shares: the length guard and the ways an update can end. */
module Records {

  /** `if len(arg) > 0: field = arg`: an empty argument keeps the current value. */
  function Overwrite(current: string, arg: string): string {
    if |arg| > 0 then arg else current
  }

  /**
   * How an `update` call ends: it commits and returns `self`, or it raises.
   * `IntegrityError` is a constraint violation at commit time, which `update`
   * does not catch; `AttributeError` is an assignment to a property that has no setter.
   */
  datatype Outcome = Committed | IntegrityError | AttributeError(property: string)
}

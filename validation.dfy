/**
 * The fail-fast field checks at the top of every `_Create.post` handler.
 * A handler looks each required field up in the JSON body, in a fixed order;
 * the first one that is missing or shorter than its minimum length ends the
 * request with that field's message and status 400.
 */
module Validation {
  import opened Wrappers
  import opened Http

  /** A JSON request body; a field that is absent or JSON null reads as `None`. */
  type Body = map<string, Option<string>>

  /** Python's `body.get(key)`. */
  function Get(body: Body, key: string): Option<string> {
    if key in body then body[key] else None
  }

  /** One required field: its key, its minimum length and the message sent when it fails. */
  datatype Check = Check(key: string, minLength: nat, message: string)

  /** A field passes unless it is `None` or `len(value) < minLength`. */
  predicate Passes(body: Body, c: Check) {
    Get(body, c.key).Some? && |Get(body, c.key).value| >= c.minLength
  }

  /** Check `i` is the first check that fails. */
  predicate FirstFailure(body: Body, checks: seq<Check>, i: nat) {
    i < |checks| && !Passes(body, checks[i]) &&
    forall j :: 0 <= j < i ==> Passes(body, checks[j])
  }

  /**
   * Runs the checks in order. On success the result holds the checked values,
   * one per check; on failure it is the message of the first failing check.
   */
  function Validate(body: Body, checks: seq<Check>): (r: Result<seq<string>, Rejection>)
    ensures r.Success? <==> forall i :: 0 <= i < |checks| ==> Passes(body, checks[i])
    ensures r.Success? ==>
              |r.value| == |checks| &&
              forall i :: 0 <= i < |checks| ==> Get(body, checks[i].key) == Some(r.value[i])
    ensures r.Failure? ==>
              exists i: nat :: FirstFailure(body, checks, i) &&
                          r.error == Rejection(checks[i].message, BadRequest)
  {
    if checks == [] then Success([])
    else
      var v := Get(body, checks[0].key);
      if v.None? || |v.value| < checks[0].minLength then
        assert FirstFailure(body, checks, 0);
        Failure(Rejection(checks[0].message, BadRequest))
      else
        match Validate(body, checks[1..])
        case Success(vs) => Success([v.value] + vs)
        case Failure(e) =>
          var i: nat :| FirstFailure(body, checks[1..], i) && e == Rejection(checks[1..][i].message, BadRequest);
          assert FirstFailure(body, checks, i + 1) by {
            forall j | 0 <= j < i + 1 ensures Passes(body, checks[j]) {
              if j > 0 { assert checks[j] == checks[1..][j - 1]; }
            }
          }
          Failure(e)
  }

  /** Whichever check fails first alone determines the response. */
  lemma FirstFailureDecides(body: Body, checks: seq<Check>, i: nat)
    requires FirstFailure(body, checks, i)
    ensures Validate(body, checks) == Failure(Rejection(checks[i].message, BadRequest))
  {
  }

  /** A check that fails makes the whole validation fail, whatever the later fields hold. */
  lemma LaterFieldsIrrelevant(body: Body, body': Body, checks: seq<Check>, i: nat)
    requires FirstFailure(body, checks, i)
    requires forall j :: 0 <= j <= i ==> Get(body', checks[j].key) == Get(body, checks[j].key)
    ensures Validate(body', checks) == Validate(body, checks)
  {
  }
}

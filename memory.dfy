/*
 * The allocation oracle.  line.c obtains storage from malloc and realloc and
 * gives up when they return NULL; the model does not model memory, only the
 * answer to each request.
 */
module Memory {

  /** Every answer in the script is yes: no request can fail. */
  predicate AllYes(script: seq<bool>)
  {
    forall i :: 0 <= i < |script| ==> script[i]
  }

  /** The answers the coming allocation requests will get, in order; once the script is used up every request succeeds. */
  class Allocator {
    var script: seq<bool>

    constructor (script: seq<bool>)
      ensures this.script == script
    {
      this.script := script;
    }

    /** Whether the next request succeeds. */
    predicate NextOk()
      reads this
    {
      script == [] || script[0]
    }

    /** The script once the next request has been answered. */
    function After(): (rest: seq<bool>)
      reads this
      ensures AllYes(script) ==> NextOk() && AllYes(rest)
    {
      if script == [] then [] else script[1..]
    }

    /** One call of malloc or realloc. */
    method Request() returns (ok: bool)
      modifies this
      ensures ok == old(NextOk())
      ensures script == old(After())
    {
      ok := NextOk();
      script := After();
    }
  }
}

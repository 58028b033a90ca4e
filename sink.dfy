/**
 * The byte sink a response writer writes to (an io.Writer over the
 * connection). A write either takes all of its bytes or fails having
 * taken none; a sink may accept a limited number of writes and fail every
 * write after them, which is how a closed connection shows.
 */
module Sink {
  import opened Wrappers

  /** What a sink holds: the bytes written so far, and how many more writes it accepts (None: any number). */
  datatype Port = Port(written: string, budget: Option<nat>)

  /** A sink that never fails, with nothing written yet. */
  const Healthy: Port := Port("", None)

  /** Whether the next write succeeds. */
  predicate Accepting(p: Port) {
    p.budget != Some(0)
  }

  /** One write: the bytes are appended when the sink accepts them, and nothing changes when it does not. */
  function Put(p: Port, bytes: string): (r: (Port, bool))
    ensures r.1 == Accepting(p)
    ensures r.1 ==> r.0.written == p.written + bytes
    ensures !r.1 ==> r.0 == p
  {
    match p.budget
    case None => (p.(written := p.written + bytes), true)
    case Some(k) => if k == 0 then (p, false) else (Port(p.written + bytes, Some(k - 1)), true)
  }

  /** A sink that accepted a write, and never fails, still never fails. */
  lemma PutHealthy(p: Port, bytes: string)
    requires p.budget == None
    ensures Put(p, bytes) == (Port(p.written + bytes, None), true)
  {
  }

  class Sink {
    var written: string
    var budget: Option<nat>

    function Model(): Port
      reads this
    {
      Port(written, budget)
    }

    constructor (budget: Option<nat>)
      ensures Model() == Port("", budget)
    {
      written := "";
      this.budget := budget;
    }

    /** Write: the number of bytes written and whether the write succeeded. */
    method Write(bytes: string) returns (n: nat, ok: bool)
      modifies this
      ensures (Model(), ok) == Put(old(Model()), bytes)
      ensures n == if ok then |bytes| else 0
    {
      if budget == Some(0) {
        return 0, false;
      }
      written := written + bytes;
      if budget.Some? {
        budget := Some(budget.value - 1);
      }
      return |bytes|, true;
    }
  }
}

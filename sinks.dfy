/** The caller's stdout and stderr io.Writers. A writer appends what it is
    given, or refuses with an error once its budget of successful writes
    is spent. The two writers may be the same object. */
module Sinks {
  import opened Storage

  /** When a writer starts to fail: never, or after `remaining` more
      successful writes, with `error`. */
  datatype WritePolicy = Accepting | FailAfter(remaining: nat, error: Error)

  /** The observable state of one writer: everything written so far. */
  datatype SinkState = SinkState(data: seq<byte>, policy: WritePolicy)

  datatype Written = Written(state: SinkState, err: Option<Error>)

  predicate Healthy(s: SinkState) {
    s.policy == Accepting
  }

  /** One Write call: either all of p is appended and no error is returned,
      or nothing is appended and the writer's error is returned. */
  function WriteTo(s: SinkState, p: seq<byte>): (w: Written)
    ensures w.err.None? <==> (s.policy.Accepting? || s.policy.remaining > 0)
    ensures w.err.None? ==> w.state.data == s.data + p
    ensures w.err.Some? ==> w.state == s && w.err == Some(s.policy.error)
    ensures Healthy(s) ==> Healthy(w.state)
  {
    match s.policy
    case Accepting => Written(s.(data := s.data + p), None)
    case FailAfter(n, e) =>
      if n == 0 then Written(s, Some(e))
      else Written(SinkState(s.data + p, FailAfter(n - 1, e)), None)
  }

  /** The pair of writers a pack exchange writes to. */
  datatype Sinks = Separate(stdout: SinkState, stderr: SinkState) | Shared(both: SinkState)

  /** One write request issued by the receive loop. */
  datatype Chunk = ToStdout(bytes: seq<byte>) | ToStderr(bytes: seq<byte>)

  datatype Delivered = Delivered(sinks: Sinks, err: Option<Error>)

  /** Carries out one write request on the writer it is addressed to. */
  function Deliver(s: Sinks, c: Chunk): (d: Delivered)
    ensures d.sinks.Shared? == s.Shared?
  {
    match s
    case Shared(x) =>
      var w := WriteTo(x, c.bytes);
      Delivered(Shared(w.state), w.err)
    case Separate(o, e) =>
      match c
      case ToStdout(b) =>
        var w := WriteTo(o, b);
        Delivered(Separate(w.state, e), w.err)
      case ToStderr(b) =>
        var w := WriteTo(e, b);
        Delivered(Separate(o, w.state), w.err)
  }

  class Sink {
    var data: seq<byte>
    var policy: WritePolicy

    function State(): SinkState
      reads this
    {
      SinkState(data, policy)
    }

    constructor (policy: WritePolicy)
      ensures State() == SinkState([], policy)
    {
      this.data := [];
      this.policy := policy;
    }

    /** io.Writer.Write. */
    method Write(p: seq<byte>) returns (err: Option<Error>)
      modifies this
      ensures State() == WriteTo(old(State()), p).state
      ensures err == WriteTo(old(State()), p).err
    {
      match policy
      case Accepting =>
        data := data + p;
        err := None;
      case FailAfter(n, e) =>
        if n == 0 {
          err := Some(e);
        } else {
          data := data + p;
          policy := FailAfter(n - 1, e);
          err := None;
        }
    }
  }

  /** The value of the two writers handed to a pack exchange, which may be
      one and the same writer. */
  function SinksOf(stdout: Sink, stderr: Sink): Sinks
    reads stdout, stderr
  {
    if stdout == stderr then Shared(stdout.State()) else Separate(stdout.State(), stderr.State())
  }
}

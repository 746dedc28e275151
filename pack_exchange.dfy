/** The two remote git executions of the storage client. Each opens a
    stream, sends the init frame, then receives frames, writing their
    stderr and stdout bytes to the caller's writers until an exit frame
    or the end of the stream. Recv is played by an index into the
    session's frames. */
module PackExchange {
  import opened Storage
  import opened Sinks
  import opened PackSpec

  /** UploadPack: write results are ignored and the remote exit status is
      returned as it is. */
  method UploadPack(r: Session, stdout: Sink, stderr: Sink) returns (code: int32, err: Option<Error>)
    modifies stdout, stderr
    ensures Outcome(code, err, SinksOf(stdout, stderr)) == UploadPackRun(r, old(SinksOf(stdout, stderr)))
  {
    if r.openError.Some? {
      return 0, r.openError;
    }
    if r.initError.Some? {
      return 0, None;
    }
    ghost var s0 := SinksOf(stdout, stderr);
    // The loop starts on a nil response, whose getters yield nothing.
    var resp := NoFrame;
    var i := 0;
    err := None;
    assert UploadLoop([resp] + r.frames[i..], r.end, s0) == UploadLoop(r.frames, r.end, s0) by {
      assert ([resp] + r.frames)[1..] == r.frames;
    }
    while err.None?
      invariant i <= |r.frames|
      invariant err.None? ==>
        UploadLoop([resp] + r.frames[i..], r.end, SinksOf(stdout, stderr)) == UploadLoop(r.frames, r.end, s0)
      invariant err.Some? ==> err == Some(r.end)
      invariant err.Some? ==>
        UploadLoop(r.frames, r.end, s0) == Outcome(0, Settle(r.end), SinksOf(stdout, stderr))
      decreases |r.frames| - i + (if err.None? then 1 else 0)
    {
      assert ([resp] + r.frames[i..])[1..] == r.frames[i..];
      if resp.exitCode.Some? {
        var value := resp.exitCode.value;
        if value != 0 {
          return value, None;
        }
        return 0, None;
      }
      if |resp.stderr| > 0 {
        var ignored := stderr.Write(resp.stderr);
      }
      if |resp.stdout| > 0 {
        var ignored := stdout.Write(resp.stdout);
      }
      // resp, err = stream.Recv()
      if i < |r.frames| {
        resp := r.frames[i];
        assert r.frames[i..] == [resp] + r.frames[i + 1..];
        i := i + 1;
      } else {
        resp := NoFrame;
        err := Some(r.end);
      }
    }
    if err == Some(EOF) {
      err := None;
    }
    return 0, err;
  }

  /** ReceivePack: the first refused write ends the call with its error,
      and any nonzero remote exit status is returned as 1. */
  method ReceivePack(r: Session, stdout: Sink, stderr: Sink) returns (code: int32, err: Option<Error>)
    modifies stdout, stderr
    ensures Outcome(code, err, SinksOf(stdout, stderr)) == ReceivePackRun(r, old(SinksOf(stdout, stderr)))
  {
    if r.openError.Some? {
      return 0, r.openError;
    }
    if r.initError.Some? {
      return 0, None;
    }
    ghost var s0 := SinksOf(stdout, stderr);
    var resp := NoFrame;
    var i := 0;
    err := None;
    assert ReceiveLoop([resp] + r.frames[i..], r.end, s0) == ReceiveLoop(r.frames, r.end, s0) by {
      assert ([resp] + r.frames)[1..] == r.frames;
    }
    while err.None?
      invariant i <= |r.frames|
      invariant err.None? ==>
        ReceiveLoop([resp] + r.frames[i..], r.end, SinksOf(stdout, stderr)) == ReceiveLoop(r.frames, r.end, s0)
      invariant err.Some? ==>
        ReceiveLoop(r.frames, r.end, s0) == Outcome(0, Settle(err.value), SinksOf(stdout, stderr))
      decreases |r.frames| - i + (if err.None? then 1 else 0)
    {
      assert ([resp] + r.frames[i..])[1..] == r.frames[i..];
      if resp.exitCode.Some? {
        var value := resp.exitCode.value;
        if value != 0 {
          return 1, None;
        }
        return 0, None;
      }
      if |resp.stderr| > 0 {
        err := stderr.Write(resp.stderr);
        if err.Some? {
          break;
        }
      }
      if |resp.stdout| > 0 {
        err := stdout.Write(resp.stdout);
        if err.Some? {
          break;
        }
      }
      // resp, err = stream.Recv()
      if i < |r.frames| {
        resp := r.frames[i];
        assert r.frames[i..] == [resp] + r.frames[i + 1..];
        i := i + 1;
      } else {
        resp := NoFrame;
        err := Some(r.end);
      }
    }
    if err == Some(EOF) {
      err := None;
    }
    return 0, err;
  }
}

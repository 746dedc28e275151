/** Values exchanged between the storage client and the storage node: the
    frames of the remote-execution stream, the unary RPC replies and the
    domain records the client hands back to its callers. */
module Storage {

  newtype byte = x: int | 0 <= x < 0x100

  /** Go's int32, the type of a remote exit code. */
  newtype int32 = x: int | -0x8000_0000 <= x < 0x8000_0000

  /** Go's int64, the type of the wire's Unix-seconds dates. */
  newtype int64 = x: int | -0x8000_0000_0000_0000 <= x < 0x8000_0000_0000_0000

  datatype Option<+T> = None | Some(value: T)

  /** Go error values. Only io.EOF is ever inspected by the client; every
      other error is an opaque value passed through unchanged. */
  datatype Error = EOF | Failure(message: string)

  // ---------------------------------------------------------------------
  // Remote execution stream

  /** One inbound frame (a GREResponse): stdout bytes, stderr bytes and an
      optional exit status. An empty byte field stands for an absent one. */
  datatype Frame = Frame(stdout: seq<byte>, stderr: seq<byte>, exitCode: Option<int32>)

  /** What the nil-safe getters of a nil response yield: nothing at all. */
  const NoFrame := Frame([], [], None)

  /** How the storage node behaves on one remote-execution call: whether
      opening the stream fails, whether sending the init frame fails, the
      frames that Recv then yields in order, and the error Recv returns once
      they are exhausted (io.EOF for a clean end of stream). */
  datatype Session = Session(
    openError: Option<Error>,
    initError: Option<Error>,
    frames: seq<Frame>,
    end: Error)

  // ---------------------------------------------------------------------
  // Unary RPC replies

  /** A generated gRPC stub returns either a response or an error. */
  datatype RpcResult<T> = Done(response: T) | Failed(error: Error)

  datatype WireBranch = WireBranch(name: string, sha1: string, kind: string)
  datatype BranchesResponse = BranchesResponse(branch: seq<WireBranch>)

  datatype WireCommit = WireCommit(
    hash: string, tree: string, parent: string, message: string,
    author: string, authorEmail: string, authorDate: int64,
    committer: string, committerEmail: string, committerDate: int64)

  datatype WireTreeEntry = WireTreeEntry(mode: string, kind: string, objectHash: string, path: string)
  datatype TreeResponse = TreeResponse(treeEntries: seq<WireTreeEntry>)

  // ---------------------------------------------------------------------
  // Domain records

  datatype Branch = Branch(name: string, sha1: string, kind: string)

  /** A signature's date is kept as Unix seconds. */
  datatype Signature = Signature(name: string, email: string, date: int64)

  datatype Commit = Commit(
    hash: string, tree: string, parent: string, message: string,
    author: Signature, committer: Signature)

  datatype TreeEntry = TreeEntry(mode: string, kind: string, objectHash: string, path: string)

  /** Unix seconds of Go's zero time.Time (0001-01-01 00:00:00 UTC). */
  const ZeroTimeUnix: int64 := -62135596800

  /** Go's zero value Commit{}: empty strings and zero times. */
  const ZeroCommit := Commit("", "", "", "",
    Signature("", "", ZeroTimeUnix), Signature("", "", ZeroTimeUnix))
}

/** The unary lookups of the storage client: each projects a wire reply
    onto the client's own records. */
module Metadata {
  import opened Storage

  /** Branches copies each wire branch into a Branch, in order, and passes
      the RPC's error through. The source reads the response's branch list
      before looking at the error, which dereferences a nil response when
      the call fails; that path is outside this model. */
  method Branches(reply: RpcResult<BranchesResponse>) returns (branches: seq<Branch>, err: Option<Error>)
    requires reply.Done?
    ensures err == None
    ensures |branches| == |reply.response.branch|
    ensures forall i :: 0 <= i < |branches| ==>
      var w := reply.response.branch[i];
      branches[i].name == w.name && branches[i].sha1 == w.sha1 && branches[i].kind == w.kind
  {
    var wire := reply.response.branch;
    branches := [];
    for i := 0 to |wire|
      invariant |branches| == i
      invariant forall j :: 0 <= j < i ==>
        branches[j].name == wire[j].name && branches[j].sha1 == wire[j].sha1 && branches[j].kind == wire[j].kind
    {
      var b := wire[i];
      branches := branches + [Branch(b.name, b.sha1, b.kind)];
    }
    err := None;
  }

  /** The wire record a commit was projected from: the projection loses
      nothing. */
  function CommitToWire(c: Storage.Commit): WireCommit {
    WireCommit(c.hash, c.tree, c.parent, c.message,
      c.author.name, c.author.email, c.author.date,
      c.committer.name, c.committer.email, c.committer.date)
  }

  /** Commit: the zero Commit and the error when the RPC fails; otherwise a
      field-for-field copy whose dates are the wire's Unix seconds. */
  function Commit(reply: RpcResult<WireCommit>): (r: (Storage.Commit, Option<Error>))
    ensures reply.Failed? ==> r.0 == ZeroCommit && r.1 == Some(reply.error)
    ensures reply.Done? ==> r.1 == None && CommitToWire(r.0) == reply.response
    ensures reply.Done? ==>
      r.0.author.date == reply.response.authorDate && r.0.committer.date == reply.response.committerDate
  {
    match reply
    case Failed(e) => (ZeroCommit, Some(e))
    case Done(res) =>
      (Storage.Commit(res.hash, res.tree, res.parent, res.message,
        Signature(res.author, res.authorEmail, res.authorDate),
        Signature(res.committer, res.committerEmail, res.committerDate)),
       None)
  }

  /** Tree: no entries and the error when the RPC fails; otherwise one
      entry per wire entry, in order, fields copied unchanged. */
  method Tree(reply: RpcResult<TreeResponse>) returns (entries: seq<TreeEntry>, err: Option<Error>)
    ensures reply.Failed? ==> entries == [] && err == Some(reply.error)
    ensures reply.Done? ==> err == None && |entries| == |reply.response.treeEntries|
    ensures reply.Done? ==> forall i :: 0 <= i < |entries| ==>
      var w := reply.response.treeEntries[i];
      entries[i].mode == w.mode && entries[i].kind == w.kind
      && entries[i].objectHash == w.objectHash && entries[i].path == w.path
  {
    if reply.Failed? {
      return [], Some(reply.error);
    }
    var wire := reply.response.treeEntries;
    entries := [];
    for i := 0 to |wire|
      invariant |entries| == i
      invariant forall j :: 0 <= j < i ==>
        entries[j].mode == wire[j].mode && entries[j].kind == wire[j].kind
        && entries[j].objectHash == wire[j].objectHash && entries[j].path == wire[j].path
    {
      var te := wire[i];
      entries := entries + [TreeEntry(te.mode, te.kind, te.objectHash, te.path)];
    }
    err := None;
  }
}

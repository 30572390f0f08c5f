/**
  The serializers and deserializers the record-codec generator emits for
  each RPC type, in their imperative form: a serializer appends each field
  to the appender in declared order; a deserializer reads each field from
  the cursor in the same order and assembles the value (a failed read ends
  it, as the cursor's underrun exception does). Union deserializers read
  the tag, then switch on it. Each is proved to do what the pure codec in
  module Rpc describes.
*/
module RpcSerde {
  import opened Xdr
  import opened XdrStream
  import opened Rpc
  import RpcProperties

  // ---------------------------------------------------------------- serializers

  method SerializeOpaqueAuth(app: Appender, a: OpaqueAuth)
    modifies app
    ensures app.bytes == old(app.bytes) + EncodeOpaqueAuth(a)
  {
    app.WriteUint32(a.flavor);
    app.WriteOpaque(a.body);
  }

  method SerializeCallBody(app: Appender, c: CallBody)
    modifies app
    ensures app.bytes == old(app.bytes) + EncodeCallBody(c)
  {
    ghost var start := app.bytes;
    app.WriteUint32(c.rpcvers);
    app.WriteUint32(c.prog);
    AppendAssoc(start, EncodeUint32(c.rpcvers), EncodeUint32(c.prog));
    ghost var written := EncodeUint32(c.rpcvers) + EncodeUint32(c.prog);
    app.WriteUint32(c.vers);
    AppendAssoc(start, written, EncodeUint32(c.vers));
    written := written + EncodeUint32(c.vers);
    app.WriteUint32(c.proc);
    AppendAssoc(start, written, EncodeUint32(c.proc));
    written := written + EncodeUint32(c.proc);
    SerializeOpaqueAuth(app, c.cred);
    AppendAssoc(start, written, EncodeOpaqueAuth(c.cred));
    written := written + EncodeOpaqueAuth(c.cred);
    SerializeOpaqueAuth(app, c.verf);
    AppendAssoc(start, written, EncodeOpaqueAuth(c.verf));
  }

  method SerializeRpcMsgCall(app: Appender, m: RpcMsgCall)
    modifies app
    ensures app.bytes == old(app.bytes) + EncodeRpcMsgCall(m)
  {
    ghost var start := app.bytes;
    app.WriteUint32(m.xid);
    app.WriteUint32(m.mtype);
    AppendAssoc(start, EncodeUint32(m.xid), EncodeUint32(m.mtype));
    SerializeCallBody(app, m.cbody);
    AppendAssoc(start, EncodeUint32(m.xid) + EncodeUint32(m.mtype), EncodeCallBody(m.cbody));
  }

  method SerializeMismatchInfo(app: Appender, m: MismatchInfo)
    modifies app
    ensures app.bytes == old(app.bytes) + EncodeMismatchInfo(m)
  {
    app.WriteUint32(m.low);
    app.WriteUint32(m.high);
  }

  method SerializeAcceptedReply(app: Appender, a: AcceptedReply)
    modifies app
    ensures app.bytes == old(app.bytes) + EncodeAcceptedReply(a)
  {
    SerializeOpaqueAuth(app, a.verf);
    app.WriteUint32(a.stat);
  }

  /** The variant serializer: the tag, then the alternative present. */
  method SerializeRejectedReply(app: Appender, r: RejectedReply)
    modifies app
    ensures app.bytes == old(app.bytes) + EncodeRejectedReply(r)
  {
    app.WriteUint32(r.tag);
    match r.v
    case Mismatch(m) => SerializeMismatchInfo(app, m);
    case AuthStatus(stat) => app.WriteUint32(stat);
  }

  method SerializeReplyBody(app: Appender, b: ReplyBody)
    modifies app
    ensures app.bytes == old(app.bytes) + EncodeReplyBody(b)
  {
    app.WriteUint32(b.tag);
    match b.v
    case Accepted(a) => SerializeAcceptedReply(app, a);
    case Rejected(r) => SerializeRejectedReply(app, r);
  }

  method SerializeRpcMsgReply(app: Appender, m: RpcMsgReply)
    modifies app
    ensures app.bytes == old(app.bytes) + EncodeRpcMsgReply(m)
  {
    ghost var start := app.bytes;
    app.WriteUint32(m.xid);
    app.WriteUint32(m.mtype);
    AppendAssoc(start, EncodeUint32(m.xid), EncodeUint32(m.mtype));
    SerializeReplyBody(app, m.rbody);
    AppendAssoc(start, EncodeUint32(m.xid) + EncodeUint32(m.mtype), EncodeReplyBody(m.rbody));
  }

  method SerializeAuthsysParms(app: Appender, p: AuthsysParms)
    modifies app
    ensures app.bytes == old(app.bytes) + EncodeAuthsysParms(p)
  {
    ghost var start := app.bytes;
    app.WriteUint32(p.stamp);
    app.WriteOpaque(p.machinename);
    AppendAssoc(start, EncodeUint32(p.stamp), EncodeOpaque(p.machinename));
    ghost var written := EncodeUint32(p.stamp) + EncodeOpaque(p.machinename);
    app.WriteUint32(p.uid);
    AppendAssoc(start, written, EncodeUint32(p.uid));
    written := written + EncodeUint32(p.uid);
    app.WriteUint32(p.gid);
    AppendAssoc(start, written, EncodeUint32(p.gid));
    written := written + EncodeUint32(p.gid);
    app.WriteUint32Array(p.gids);
    AppendAssoc(start, written, EncodeUint32Array(p.gids));
  }

  /** The fast path for accepting a call: writes the six words of the reply
      directly, without building the message, and they are exactly the
      general encoding of that message. */
  method SerializeReply(app: Appender, status: AcceptStat, xid: uint32)
    modifies app
    ensures app.bytes == old(app.bytes) + EncodeRpcMsgReply(AcceptedReplyMessage(xid, status))
    ensures |app.bytes| == |old(app.bytes)| + 24
  {
    assert EncodeUint32(0) == [0, 0, 0, 0] && EncodeUint32(1) == [0, 0, 0, 1];
    ghost var start := app.bytes;
    app.WriteUint32(xid);
    app.WriteUint32(REPLY);
    AppendAssoc(start, EncodeUint32(xid), [0, 0, 0, 1]);
    ghost var written := EncodeUint32(xid) + [0, 0, 0, 1];
    app.WriteUint32(MSG_ACCEPTED);
    AppendAssoc(start, written, [0, 0, 0, 0]);
    written := written + [0, 0, 0, 0];
    app.WriteUint32(AUTH_NONE);
    AppendAssoc(start, written, [0, 0, 0, 0]);
    written := written + [0, 0, 0, 0];
    app.WriteUint32(0);
    AppendAssoc(start, written, [0, 0, 0, 0]);
    written := written + [0, 0, 0, 0];
    app.WriteUint32(status);
    AppendAssoc(start, written, EncodeUint32(status));
    RpcProperties.AcceptedReplyMessageLayout(xid, status);
  }

  // ---------------------------------------------------------------- deserializers

  method DeserializeOpaqueAuth(cur: Cursor) returns (r: Result<OpaqueAuth>)
    requires cur.Valid()
    modifies cur
    ensures cur.Valid()
    ensures Tracks(DecodeOpaqueAuth(old(cur.Remaining())), r, cur.Remaining())
  {
    var flavor :- cur.ReadUint32();
    var body :- cur.ReadOpaque();
    r := Ok(OpaqueAuth(flavor, body));
  }

  method DeserializeCallBody(cur: Cursor) returns (r: Result<CallBody>)
    requires cur.Valid()
    modifies cur
    ensures cur.Valid()
    ensures Tracks(DecodeCallBody(old(cur.Remaining())), r, cur.Remaining())
  {
    var rpcvers :- cur.ReadUint32();
    var prog :- cur.ReadUint32();
    var vers :- cur.ReadUint32();
    var proc :- cur.ReadUint32();
    var cred :- DeserializeOpaqueAuth(cur);
    var verf :- DeserializeOpaqueAuth(cur);
    r := Ok(CallBody(rpcvers, prog, vers, proc, cred, verf));
  }

  method DeserializeRpcMsgCall(cur: Cursor) returns (r: Result<RpcMsgCall>)
    requires cur.Valid()
    modifies cur
    ensures cur.Valid()
    ensures Tracks(DecodeRpcMsgCall(old(cur.Remaining())), r, cur.Remaining())
  {
    var xid :- cur.ReadUint32();
    var mtype :- cur.ReadUint32();
    var cbody :- DeserializeCallBody(cur);
    r := Ok(RpcMsgCall(xid, mtype, cbody));
  }

  method DeserializeMismatchInfo(cur: Cursor) returns (r: Result<MismatchInfo>)
    requires cur.Valid()
    modifies cur
    ensures cur.Valid()
    ensures Tracks(DecodeMismatchInfo(old(cur.Remaining())), r, cur.Remaining())
  {
    var low :- cur.ReadUint32();
    var high :- cur.ReadUint32();
    r := Ok(MismatchInfo(low, high));
  }

  method DeserializeAcceptedReply(cur: Cursor) returns (r: Result<AcceptedReply>)
    requires cur.Valid()
    modifies cur
    ensures cur.Valid()
    ensures Tracks(DecodeAcceptedReply(old(cur.Remaining())), r, cur.Remaining())
  {
    var verf :- DeserializeOpaqueAuth(cur);
    var stat :- cur.ReadUint32();
    r := Ok(AcceptedReply(verf, stat));
  }

  /** Reads reject_stat, then switches on it; a tag with no case is an
      error rather than a value left without its alternative. */
  method DeserializeRejectedReply(cur: Cursor) returns (r: Result<RejectedReply>)
    requires cur.Valid()
    modifies cur
    ensures cur.Valid()
    ensures Tracks(DecodeRejectedReply(old(cur.Remaining())), r, cur.Remaining())
    ensures r.Ok? ==> r.value.Valid()
  {
    var tag :- cur.ReadUint32();
    if tag == RPC_MISMATCH {
      var m :- DeserializeMismatchInfo(cur);
      r := Ok(RejectedReply(tag, Mismatch(m)));
    } else if tag == AUTH_ERROR {
      var stat :- cur.ReadUint32();
      r := Ok(RejectedReply(tag, AuthStatus(stat)));
    } else {
      r := Err(UnmappedDiscriminant(tag));
    }
  }

  /** Reads reply_stat, then switches on it. */
  method DeserializeReplyBody(cur: Cursor) returns (r: Result<ReplyBody>)
    requires cur.Valid()
    modifies cur
    ensures cur.Valid()
    ensures Tracks(DecodeReplyBody(old(cur.Remaining())), r, cur.Remaining())
    ensures r.Ok? ==> r.value.Valid()
  {
    var tag :- cur.ReadUint32();
    if tag == MSG_ACCEPTED {
      var a :- DeserializeAcceptedReply(cur);
      r := Ok(ReplyBody(tag, Accepted(a)));
    } else if tag == MSG_DENIED {
      var rej :- DeserializeRejectedReply(cur);
      r := Ok(ReplyBody(tag, Rejected(rej)));
    } else {
      r := Err(UnmappedDiscriminant(tag));
    }
  }

  method DeserializeRpcMsgReply(cur: Cursor) returns (r: Result<RpcMsgReply>)
    requires cur.Valid()
    modifies cur
    ensures cur.Valid()
    ensures Tracks(DecodeRpcMsgReply(old(cur.Remaining())), r, cur.Remaining())
  {
    var xid :- cur.ReadUint32();
    var mtype :- cur.ReadUint32();
    var rbody :- DeserializeReplyBody(cur);
    r := Ok(RpcMsgReply(xid, mtype, rbody));
  }

  method DeserializeAuthsysParms(cur: Cursor) returns (r: Result<AuthsysParms>)
    requires cur.Valid()
    modifies cur
    ensures cur.Valid()
    ensures Tracks(DecodeAuthsysParms(old(cur.Remaining())), r, cur.Remaining())
  {
    var stamp :- cur.ReadUint32();
    var machinename :- cur.ReadOpaque();
    var uid :- cur.ReadUint32();
    var gid :- cur.ReadUint32();
    var gids :- cur.ReadUint32Array();
    r := Ok(AuthsysParms(stamp, machinename, uid, gid, gids));
  }

  /** A reply written by the fast path and read back through the general
      deserializer is the accepted reply it stands for. */
  method ReplyLoopback(status: AcceptStat, xid: uint32) returns (r: Result<RpcMsgReply>)
    ensures r == Ok(AcceptedReplyMessage(xid, status))
  {
    var app := new Appender();
    SerializeReply(app, status, xid);
    var cur := new Cursor(app.bytes);
    r := DeserializeRpcMsgReply(cur);
    RpcProperties.AcceptedReplyMessageDecodes(xid, status, []);
    assert app.bytes + [] == app.bytes;
  }
}

/**
  The ONC RPC message schema (RFC 5531, section 9, section 8.2 and
  Appendix A) and its wire codec, as the record-codec generator of
  eden/fs/nfs/rpc/Rpc.h derives it: for each record, serialization
  concatenates the XDR encodings of its fields in their declared order,
  deserialization reads the same fields in the same order, and equality is
  the conjunction of the per-field comparisons.

  The two unions (rejected_reply, reply_body) are kept as the source keeps
  them: a stored discriminant `tag` beside the active alternative `v`.
  Serialization writes the tag, then the alternative; deserialization reads
  the tag and picks the alternative from it, and a tag with no alternative
  is the decode error UnmappedDiscriminant.

  This module holds the pure definitions; RpcProperties proves their laws
  and RpcSerde gives the imperative serializers and deserializers.
*/
module Rpc {
  import opened Xdr

  // ---------------------------------------------------------------- enumerations
  // An enumeration is carried as its 4-byte unsigned value (RFC 4506
  // section 4.3); like a C++ enum class, a field may hold any such value.

  type AuthFlavor = uint32
  const AUTH_NONE: AuthFlavor := 0
  const AUTH_SYS: AuthFlavor := 1
  const AUTH_UNIX: AuthFlavor := 1 // the same flavor as AUTH_SYS
  const AUTH_SHORT: AuthFlavor := 2
  const AUTH_DH: AuthFlavor := 3
  const RPCSEC_GSS: AuthFlavor := 6

  type MsgType = uint32
  const CALL: MsgType := 0
  const REPLY: MsgType := 1

  type ReplyStat = uint32
  const MSG_ACCEPTED: ReplyStat := 0
  const MSG_DENIED: ReplyStat := 1

  type AcceptStat = uint32
  const SUCCESS: AcceptStat := 0
  const PROG_UNAVAIL: AcceptStat := 1
  const PROG_MISMATCH: AcceptStat := 2
  const PROC_UNAVAIL: AcceptStat := 3
  const GARBAGE_ARGS: AcceptStat := 4
  const SYSTEM_ERR: AcceptStat := 5

  type RejectStat = uint32
  const RPC_MISMATCH: RejectStat := 0
  const AUTH_ERROR: RejectStat := 1

  type AuthStat = uint32
  const AUTH_OK: AuthStat := 0
  const AUTH_BADCRED: AuthStat := 1
  const AUTH_REJECTEDCRED: AuthStat := 2
  const AUTH_BADVERF: AuthStat := 3
  const AUTH_REJECTEDVERF: AuthStat := 4
  const AUTH_TOOWEAK: AuthStat := 5
  const AUTH_INVALIDRESP: AuthStat := 6
  const AUTH_FAILED: AuthStat := 7
  const AUTH_KERB_GENERIC: AuthStat := 8
  const AUTH_TIMEEXPIRE: AuthStat := 9
  const AUTH_TKT_FILE: AuthStat := 10
  const AUTH_DECODE: AuthStat := 11
  const AUTH_NET_ADDR: AuthStat := 12
  const RPCSEC_GSS_CREDPROBLEM: AuthStat := 13
  const RPCSEC_GSS_CTXPROBLEM: AuthStat := 14

  /** The only RPC protocol version (kRPCVersion). */
  const RPC_VERSION: uint32 := 2

  // ---------------------------------------------------------------- records and unions

  datatype OpaqueAuth = OpaqueAuth(flavor: AuthFlavor, body: Opaque)

  /** Procedure-specific arguments follow a call body on the wire; they are
      not part of it. */
  datatype CallBody = CallBody(rpcvers: uint32, prog: uint32, vers: uint32, proc: uint32,
                               cred: OpaqueAuth, verf: OpaqueAuth)

  datatype RpcMsgCall = RpcMsgCall(xid: uint32, mtype: MsgType, cbody: CallBody)

  datatype MismatchInfo = MismatchInfo(low: uint32, high: uint32)

  datatype AcceptedReply = AcceptedReply(verf: OpaqueAuth, stat: AcceptStat)

  /** The alternatives of rejected_reply. */
  datatype RejectedAlternative = Mismatch(mismatch: MismatchInfo) | AuthStatus(stat: AuthStat)

  datatype RejectedReply = RejectedReply(tag: RejectStat, v: RejectedAlternative) {
    /** The stored tag names the alternative that is present. */
    predicate Valid() {
      || (tag == RPC_MISMATCH && v.Mismatch?)
      || (tag == AUTH_ERROR && v.AuthStatus?)
    }
  }

  /** The alternatives of reply_body. */
  datatype ReplyAlternative = Accepted(accepted: AcceptedReply) | Rejected(rejected: RejectedReply)

  datatype ReplyBody = ReplyBody(tag: ReplyStat, v: ReplyAlternative) {
    /** The stored tag names the alternative that is present, at both levels. */
    predicate Valid() {
      || (tag == MSG_ACCEPTED && v.Accepted?)
      || (tag == MSG_DENIED && v.Rejected? && v.rejected.Valid())
    }
  }

  datatype RpcMsgReply = RpcMsgReply(xid: uint32, mtype: MsgType, rbody: ReplyBody) {
    predicate Valid() { rbody.Valid() }
  }

  /** The AUTH_SYS credential body; machinename is carried as the bytes of
      the XDR string. */
  datatype AuthsysParms = AuthsysParms(stamp: uint32, machinename: Opaque, uid: uint32,
                                       gid: uint32, gids: Uint32Array)

  /** A call names the one protocol version this server speaks. The codec
      does not check this: it copies rpcvers verbatim. */
  predicate IsSupportedVersion(c: CallBody) {
    c.rpcvers == RPC_VERSION
  }

  // ---------------------------------------------------------------- serialization

  function EncodeOpaqueAuth(a: OpaqueAuth): seq<byte> {
    EncodeUint32(a.flavor) + EncodeOpaque(a.body)
  }

  function EncodeCallBody(c: CallBody): seq<byte> {
    EncodeUint32(c.rpcvers) + EncodeUint32(c.prog) + EncodeUint32(c.vers) + EncodeUint32(c.proc)
    + EncodeOpaqueAuth(c.cred) + EncodeOpaqueAuth(c.verf)
  }

  function EncodeRpcMsgCall(m: RpcMsgCall): seq<byte> {
    EncodeUint32(m.xid) + EncodeUint32(m.mtype) + EncodeCallBody(m.cbody)
  }

  function EncodeMismatchInfo(m: MismatchInfo): seq<byte> {
    EncodeUint32(m.low) + EncodeUint32(m.high)
  }

  function EncodeAcceptedReply(a: AcceptedReply): seq<byte> {
    EncodeOpaqueAuth(a.verf) + EncodeUint32(a.stat)
  }

  /** The tag, then whichever alternative is present (even one the tag does
      not name). */
  function EncodeRejectedReply(r: RejectedReply): seq<byte> {
    EncodeUint32(r.tag) +
    match r.v
    case Mismatch(m) => EncodeMismatchInfo(m)
    case AuthStatus(stat) => EncodeUint32(stat)
  }

  function EncodeReplyBody(b: ReplyBody): seq<byte> {
    EncodeUint32(b.tag) +
    match b.v
    case Accepted(a) => EncodeAcceptedReply(a)
    case Rejected(r) => EncodeRejectedReply(r)
  }

  function EncodeRpcMsgReply(m: RpcMsgReply): seq<byte> {
    EncodeUint32(m.xid) + EncodeUint32(m.mtype) + EncodeReplyBody(m.rbody)
  }

  function EncodeAuthsysParms(p: AuthsysParms): seq<byte> {
    EncodeUint32(p.stamp) + EncodeOpaque(p.machinename) + EncodeUint32(p.uid)
    + EncodeUint32(p.gid) + EncodeUint32Array(p.gids)
  }

  // ---------------------------------------------------------------- deserialization

  function DecodeOpaqueAuth(s: seq<byte>): Result<(OpaqueAuth, seq<byte>)> {
    var (flavor, s1) :- DecodeUint32(s);
    var (body, s2) :- DecodeOpaque(s1);
    Ok((OpaqueAuth(flavor, body), s2))
  }

  function DecodeCallBody(s: seq<byte>): Result<(CallBody, seq<byte>)> {
    var (rpcvers, s1) :- DecodeUint32(s);
    var (prog, s2) :- DecodeUint32(s1);
    var (vers, s3) :- DecodeUint32(s2);
    var (proc, s4) :- DecodeUint32(s3);
    var (cred, s5) :- DecodeOpaqueAuth(s4);
    var (verf, s6) :- DecodeOpaqueAuth(s5);
    Ok((CallBody(rpcvers, prog, vers, proc, cred, verf), s6))
  }

  function DecodeRpcMsgCall(s: seq<byte>): Result<(RpcMsgCall, seq<byte>)> {
    var (xid, s1) :- DecodeUint32(s);
    var (mtype, s2) :- DecodeUint32(s1);
    var (cbody, s3) :- DecodeCallBody(s2);
    Ok((RpcMsgCall(xid, mtype, cbody), s3))
  }

  function DecodeMismatchInfo(s: seq<byte>): Result<(MismatchInfo, seq<byte>)> {
    var (low, s1) :- DecodeUint32(s);
    var (high, s2) :- DecodeUint32(s1);
    Ok((MismatchInfo(low, high), s2))
  }

  function DecodeAcceptedReply(s: seq<byte>): Result<(AcceptedReply, seq<byte>)> {
    var (verf, s1) :- DecodeOpaqueAuth(s);
    var (stat, s2) :- DecodeUint32(s1);
    Ok((AcceptedReply(verf, stat), s2))
  }

  /** Reads reject_stat, then the alternative it names. */
  function DecodeRejectedReply(s: seq<byte>): (r: Result<(RejectedReply, seq<byte>)>)
    ensures r.Ok? ==> r.value.0.Valid()
    ensures r.Err? && |s| >= 4 && DecodeUint32(s).value.0 !in {RPC_MISMATCH, AUTH_ERROR}
            ==> r.error == UnmappedDiscriminant(DecodeUint32(s).value.0)
  {
    var (tag, s1) :- DecodeUint32(s);
    if tag == RPC_MISMATCH then
      var (m, s2) :- DecodeMismatchInfo(s1);
      Ok((RejectedReply(tag, Mismatch(m)), s2))
    else if tag == AUTH_ERROR then
      var (stat, s2) :- DecodeUint32(s1);
      Ok((RejectedReply(tag, AuthStatus(stat)), s2))
    else
      Err(UnmappedDiscriminant(tag))
  }

  /** Reads reply_stat, then the alternative it names. */
  function DecodeReplyBody(s: seq<byte>): (r: Result<(ReplyBody, seq<byte>)>)
    ensures r.Ok? ==> r.value.0.Valid()
    ensures r.Err? && |s| >= 4 && DecodeUint32(s).value.0 !in {MSG_ACCEPTED, MSG_DENIED}
            ==> r.error == UnmappedDiscriminant(DecodeUint32(s).value.0)
  {
    var (tag, s1) :- DecodeUint32(s);
    if tag == MSG_ACCEPTED then
      var (a, s2) :- DecodeAcceptedReply(s1);
      Ok((ReplyBody(tag, Accepted(a)), s2))
    else if tag == MSG_DENIED then
      var (rej, s2) :- DecodeRejectedReply(s1);
      Ok((ReplyBody(tag, Rejected(rej)), s2))
    else
      Err(UnmappedDiscriminant(tag))
  }

  function DecodeRpcMsgReply(s: seq<byte>): (r: Result<(RpcMsgReply, seq<byte>)>)
    ensures r.Ok? ==> r.value.0.Valid()
  {
    var (xid, s1) :- DecodeUint32(s);
    var (mtype, s2) :- DecodeUint32(s1);
    var (rbody, s3) :- DecodeReplyBody(s2);
    Ok((RpcMsgReply(xid, mtype, rbody), s3))
  }

  function DecodeAuthsysParms(s: seq<byte>): Result<(AuthsysParms, seq<byte>)> {
    var (stamp, s1) :- DecodeUint32(s);
    var (machinename, s2) :- DecodeOpaque(s1);
    var (uid, s3) :- DecodeUint32(s2);
    var (gid, s4) :- DecodeUint32(s3);
    var (gids, s5) :- DecodeUint32Array(s4);
    Ok((AuthsysParms(stamp, machinename, uid, gid, gids), s5))
  }

  // ---------------------------------------------------------------- equality

  /** The generated operator==: the per-field comparisons joined by `&&`
      and closed by a literal true, so that no fields compare equal. */
  function FieldsEqual(comparisons: seq<bool>): (r: bool)
    ensures r <==> false !in comparisons
  {
    if comparisons == [] then true else comparisons[0] && FieldsEqual(comparisons[1..])
  }

  function EqualOpaqueAuth(a: OpaqueAuth, b: OpaqueAuth): (r: bool)
    ensures r <==> a == b
  {
    FieldsEqual([a.flavor == b.flavor, a.body == b.body])
  }

  function EqualCallBody(a: CallBody, b: CallBody): (r: bool)
    ensures r <==> a == b
  {
    FieldsEqual([a.rpcvers == b.rpcvers, a.prog == b.prog, a.vers == b.vers, a.proc == b.proc,
                 EqualOpaqueAuth(a.cred, b.cred), EqualOpaqueAuth(a.verf, b.verf)])
  }

  function EqualRpcMsgCall(a: RpcMsgCall, b: RpcMsgCall): (r: bool)
    ensures r <==> a == b
  {
    FieldsEqual([a.xid == b.xid, a.mtype == b.mtype, EqualCallBody(a.cbody, b.cbody)])
  }

  function EqualMismatchInfo(a: MismatchInfo, b: MismatchInfo): (r: bool)
    ensures r <==> a == b
  {
    FieldsEqual([a.low == b.low, a.high == b.high])
  }

  function EqualAcceptedReply(a: AcceptedReply, b: AcceptedReply): (r: bool)
    ensures r <==> a == b
  {
    FieldsEqual([EqualOpaqueAuth(a.verf, b.verf), a.stat == b.stat])
  }

  /** rbody is compared as a union: tag and alternative. */
  function EqualRpcMsgReply(a: RpcMsgReply, b: RpcMsgReply): (r: bool)
    ensures r <==> a == b
  {
    FieldsEqual([a.xid == b.xid, a.mtype == b.mtype, a.rbody == b.rbody])
  }

  function EqualAuthsysParms(a: AuthsysParms, b: AuthsysParms): (r: bool)
    ensures r <==> a == b
  {
    FieldsEqual([a.stamp == b.stamp, a.machinename == b.machinename, a.uid == b.uid,
                 a.gid == b.gid, a.gids == b.gids])
  }

  // ---------------------------------------------------------------- the reply helper

  /** The message serializeReply puts on the wire: an accepted reply to call
      `xid` with an empty AUTH_NONE verifier and the given status. */
  function AcceptedReplyMessage(xid: uint32, status: AcceptStat): RpcMsgReply {
    RpcMsgReply(xid, REPLY, ReplyBody(MSG_ACCEPTED, Accepted(AcceptedReply(OpaqueAuth(AUTH_NONE, []), status))))
  }
}

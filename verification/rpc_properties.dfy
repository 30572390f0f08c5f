/**
  Laws of the RPC message codec: every record and every well-formed union
  is read back from its encoding (the round-trip law), unions refuse
  unmapped discriminants, and the fixed layouts RFC 5531 prescribes come
  out byte for byte.
*/
module RpcProperties {
  import opened Xdr
  import opened Rpc

  // ---------------------------------------------------------------- records

  lemma OpaqueAuthRoundTrip(a: OpaqueAuth, rest: seq<byte>)
    ensures DecodeOpaqueAuth(EncodeOpaqueAuth(a) + rest) == Ok((a, rest))
  {
    var t1 := EncodeOpaque(a.body) + rest;
    AppendAssoc(EncodeUint32(a.flavor), EncodeOpaque(a.body), rest);
    Uint32RoundTrip(a.flavor, t1);
    OpaqueRoundTrip(a.body, rest);
  }

  /** The decoder copies rpcvers whatever it is: the law holds for calls of
      any version, supported or not. */
  lemma CallBodyRoundTrip(c: CallBody, rest: seq<byte>)
    ensures DecodeCallBody(EncodeCallBody(c) + rest) == Ok((c, rest))
  {
    var t5 := EncodeOpaqueAuth(c.verf) + rest;
    var t4 := EncodeOpaqueAuth(c.cred) + t5;
    var t3 := EncodeUint32(c.proc) + t4;
    var t2 := EncodeUint32(c.vers) + t3;
    var t1 := EncodeUint32(c.prog) + t2;
    var p2 := EncodeUint32(c.rpcvers) + EncodeUint32(c.prog);
    var p3 := p2 + EncodeUint32(c.vers);
    var p4 := p3 + EncodeUint32(c.proc);
    AppendAssoc(p4 + EncodeOpaqueAuth(c.cred), EncodeOpaqueAuth(c.verf), rest);
    AppendAssoc(p4, EncodeOpaqueAuth(c.cred), t5);
    AppendAssoc(p3, EncodeUint32(c.proc), t4);
    AppendAssoc(p2, EncodeUint32(c.vers), t3);
    AppendAssoc(EncodeUint32(c.rpcvers), EncodeUint32(c.prog), t2);
    Uint32RoundTrip(c.rpcvers, t1);
    Uint32RoundTrip(c.prog, t2);
    Uint32RoundTrip(c.vers, t3);
    Uint32RoundTrip(c.proc, t4);
    OpaqueAuthRoundTrip(c.cred, t5);
    OpaqueAuthRoundTrip(c.verf, rest);
  }

  lemma RpcMsgCallRoundTrip(m: RpcMsgCall, rest: seq<byte>)
    ensures DecodeRpcMsgCall(EncodeRpcMsgCall(m) + rest) == Ok((m, rest))
  {
    var t2 := EncodeCallBody(m.cbody) + rest;
    var t1 := EncodeUint32(m.mtype) + t2;
    AppendAssoc(EncodeUint32(m.xid) + EncodeUint32(m.mtype), EncodeCallBody(m.cbody), rest);
    AppendAssoc(EncodeUint32(m.xid), EncodeUint32(m.mtype), t2);
    Uint32RoundTrip(m.xid, t1);
    Uint32RoundTrip(m.mtype, t2);
    CallBodyRoundTrip(m.cbody, rest);
  }

  lemma MismatchInfoRoundTrip(m: MismatchInfo, rest: seq<byte>)
    ensures DecodeMismatchInfo(EncodeMismatchInfo(m) + rest) == Ok((m, rest))
  {
    var t1 := EncodeUint32(m.high) + rest;
    AppendAssoc(EncodeUint32(m.low), EncodeUint32(m.high), rest);
    Uint32RoundTrip(m.low, t1);
    Uint32RoundTrip(m.high, rest);
  }

  /** mismatch_info has no padding, so decoding is also injective: the bytes
      a decode consumed are exactly the encoding of what it returned. */
  lemma MismatchInfoCanonical(s: seq<byte>)
    requires DecodeMismatchInfo(s).Ok?
    ensures s == EncodeMismatchInfo(DecodeMismatchInfo(s).value.0) + DecodeMismatchInfo(s).value.1
  {
    Uint32Canonical(s);
    Uint32Canonical(s[4..]);
    assert s[4..][4..] == s[8..];
  }

  /** Fields are read in the order they are written: bytes written high
      first are read back with the two bounds exchanged. */
  lemma MismatchInfoFieldOrder(low: uint32, high: uint32)
    ensures DecodeMismatchInfo(EncodeUint32(high) + EncodeUint32(low)) == Ok((MismatchInfo(high, low), []))
    ensures low != high ==>
              DecodeMismatchInfo(EncodeUint32(high) + EncodeUint32(low)) != Ok((MismatchInfo(low, high), []))
  {
    MismatchInfoRoundTrip(MismatchInfo(high, low), []);
    assert EncodeMismatchInfo(MismatchInfo(high, low)) + [] == EncodeUint32(high) + EncodeUint32(low);
  }

  lemma AcceptedReplyRoundTrip(a: AcceptedReply, rest: seq<byte>)
    ensures DecodeAcceptedReply(EncodeAcceptedReply(a) + rest) == Ok((a, rest))
  {
    var t1 := EncodeUint32(a.stat) + rest;
    AppendAssoc(EncodeOpaqueAuth(a.verf), EncodeUint32(a.stat), rest);
    OpaqueAuthRoundTrip(a.verf, t1);
    Uint32RoundTrip(a.stat, rest);
  }

  lemma AuthsysParmsRoundTrip(p: AuthsysParms, rest: seq<byte>)
    ensures DecodeAuthsysParms(EncodeAuthsysParms(p) + rest) == Ok((p, rest))
  {
    var t4 := EncodeUint32Array(p.gids) + rest;
    var t3 := EncodeUint32(p.gid) + t4;
    var t2 := EncodeUint32(p.uid) + t3;
    var t1 := EncodeOpaque(p.machinename) + t2;
    var p2 := EncodeUint32(p.stamp) + EncodeOpaque(p.machinename);
    var p3 := p2 + EncodeUint32(p.uid);
    AppendAssoc(p3 + EncodeUint32(p.gid), EncodeUint32Array(p.gids), rest);
    AppendAssoc(p3, EncodeUint32(p.gid), t4);
    AppendAssoc(p2, EncodeUint32(p.uid), t3);
    AppendAssoc(EncodeUint32(p.stamp), EncodeOpaque(p.machinename), t2);
    Uint32RoundTrip(p.stamp, t1);
    OpaqueRoundTrip(p.machinename, t2);
    Uint32RoundTrip(p.uid, t3);
    Uint32RoundTrip(p.gid, t4);
    Uint32ArrayRoundTrip(p.gids, rest);
  }

  // ---------------------------------------------------------------- unions

  lemma RejectedReplyRoundTrip(r: RejectedReply, rest: seq<byte>)
    requires r.Valid()
    ensures DecodeRejectedReply(EncodeRejectedReply(r) + rest) == Ok((r, rest))
  {
    match r.v
    case Mismatch(m) =>
      var t1 := EncodeMismatchInfo(m) + rest;
      AppendAssoc(EncodeUint32(r.tag), EncodeMismatchInfo(m), rest);
      Uint32RoundTrip(r.tag, t1);
      MismatchInfoRoundTrip(m, rest);
    case AuthStatus(stat) =>
      var t1 := EncodeUint32(stat) + rest;
      AppendAssoc(EncodeUint32(r.tag), EncodeUint32(stat), rest);
      Uint32RoundTrip(r.tag, t1);
      Uint32RoundTrip(stat, rest);
  }

  /** A rejected_reply survives the round trip exactly when its tag names
      the alternative it holds: a mismatched one is encoded but read back
      differently (or not at all). */
  lemma RejectedReplyRoundTripIffValid(r: RejectedReply, rest: seq<byte>)
    ensures DecodeRejectedReply(EncodeRejectedReply(r) + rest) == Ok((r, rest)) <==> r.Valid()
  {
    if r.Valid() {
      RejectedReplyRoundTrip(r, rest);
    }
  }

  /** A reject_stat with no alternative is consumed and reported. */
  lemma RejectedReplyUnmapped(tag: uint32, rest: seq<byte>)
    requires tag != RPC_MISMATCH && tag != AUTH_ERROR
    ensures DecodeRejectedReply(EncodeUint32(tag) + rest) == Err(UnmappedDiscriminant(tag))
  {
    Uint32RoundTrip(tag, rest);
  }

  /** Each alternative's bytes are fixed words, so the decode is injective. */
  lemma RejectedReplyCanonical(s: seq<byte>)
    requires DecodeRejectedReply(s).Ok?
    ensures s == EncodeRejectedReply(DecodeRejectedReply(s).value.0) + DecodeRejectedReply(s).value.1
  {
    Uint32Canonical(s);
    var (r, rest) := DecodeRejectedReply(s).value;
    if r.v.Mismatch? {
      MismatchInfoCanonical(s[4..]);
    } else {
      Uint32Canonical(s[4..]);
      assert s[4..][4..] == s[8..];
    }
  }

  lemma ReplyBodyRoundTrip(b: ReplyBody, rest: seq<byte>)
    requires b.Valid()
    ensures DecodeReplyBody(EncodeReplyBody(b) + rest) == Ok((b, rest))
  {
    match b.v
    case Accepted(a) =>
      var t1 := EncodeAcceptedReply(a) + rest;
      AppendAssoc(EncodeUint32(b.tag), EncodeAcceptedReply(a), rest);
      Uint32RoundTrip(b.tag, t1);
      AcceptedReplyRoundTrip(a, rest);
    case Rejected(r) =>
      var t1 := EncodeRejectedReply(r) + rest;
      AppendAssoc(EncodeUint32(b.tag), EncodeRejectedReply(r), rest);
      Uint32RoundTrip(b.tag, t1);
      RejectedReplyRoundTrip(r, rest);
  }

  /** Through both union levels: a reply_body survives the round trip
      exactly when both of its tags name the alternatives present. */
  lemma ReplyBodyRoundTripIffValid(b: ReplyBody, rest: seq<byte>)
    ensures DecodeReplyBody(EncodeReplyBody(b) + rest) == Ok((b, rest)) <==> b.Valid()
  {
    if b.Valid() {
      ReplyBodyRoundTrip(b, rest);
    }
  }

  lemma ReplyBodyUnmapped(tag: uint32, rest: seq<byte>)
    requires tag != MSG_ACCEPTED && tag != MSG_DENIED
    ensures DecodeReplyBody(EncodeUint32(tag) + rest) == Err(UnmappedDiscriminant(tag))
  {
    Uint32RoundTrip(tag, rest);
  }

  /** An unmapped reject_stat inside a denied reply fails the whole reply. */
  lemma ReplyBodyNestedUnmapped(rejectTag: uint32, rest: seq<byte>)
    requires rejectTag != RPC_MISMATCH && rejectTag != AUTH_ERROR
    ensures DecodeReplyBody(EncodeUint32(MSG_DENIED) + EncodeUint32(rejectTag) + rest)
            == Err(UnmappedDiscriminant(rejectTag))
  {
    var t1 := EncodeUint32(rejectTag) + rest;
    AppendAssoc(EncodeUint32(MSG_DENIED), EncodeUint32(rejectTag), rest);
    Uint32RoundTrip(MSG_DENIED, t1);
    RejectedReplyUnmapped(rejectTag, rest);
  }

  lemma RpcMsgReplyRoundTrip(m: RpcMsgReply, rest: seq<byte>)
    requires m.Valid()
    ensures DecodeRpcMsgReply(EncodeRpcMsgReply(m) + rest) == Ok((m, rest))
  {
    var t2 := EncodeReplyBody(m.rbody) + rest;
    var t1 := EncodeUint32(m.mtype) + t2;
    AppendAssoc(EncodeUint32(m.xid) + EncodeUint32(m.mtype), EncodeReplyBody(m.rbody), rest);
    AppendAssoc(EncodeUint32(m.xid), EncodeUint32(m.mtype), t2);
    Uint32RoundTrip(m.xid, t1);
    Uint32RoundTrip(m.mtype, t2);
    ReplyBodyRoundTrip(m.rbody, rest);
  }

  lemma RpcMsgReplyRoundTripIffValid(m: RpcMsgReply, rest: seq<byte>)
    ensures DecodeRpcMsgReply(EncodeRpcMsgReply(m) + rest) == Ok((m, rest)) <==> m.Valid()
  {
    if m.Valid() {
      RpcMsgReplyRoundTrip(m, rest);
    }
  }

  // ---------------------------------------------------------------- layouts

  /** Call body layout: rpcvers, prog, vers and proc at byte offsets 0, 4,
      8 and 12, then the credential, then the verifier, and nothing else. */
  lemma CallBodyLayout(c: CallBody)
    ensures var e := EncodeCallBody(c);
            var credEnd := 16 + |EncodeOpaqueAuth(c.cred)|;
            && |e| == credEnd + |EncodeOpaqueAuth(c.verf)|
            && e[0..4] == EncodeUint32(c.rpcvers)
            && e[4..8] == EncodeUint32(c.prog)
            && e[8..12] == EncodeUint32(c.vers)
            && e[12..16] == EncodeUint32(c.proc)
            && e[16..credEnd] == EncodeOpaqueAuth(c.cred)
            && e[credEnd..] == EncodeOpaqueAuth(c.verf)
  {
  }

  /** Call message layout: xid and mtype at byte offsets 0 and 4, then the
      call body from offset 8 on. */
  lemma RpcMsgCallLayout(m: RpcMsgCall)
    ensures var e := EncodeRpcMsgCall(m);
            && |e| == 8 + |EncodeCallBody(m.cbody)|
            && e[0..4] == EncodeUint32(m.xid)
            && e[4..8] == EncodeUint32(m.mtype)
            && e[8..] == EncodeCallBody(m.cbody)
  {
  }

  /** Every message and record encodes to whole 4-byte units. */
  lemma OpaqueAuthIsAligned(a: OpaqueAuth)
    ensures |EncodeOpaqueAuth(a)| % 4 == 0
  {
    OpaqueEncodedLength(a.body);
  }

  lemma CallEncodingIsAligned(c: RpcMsgCall)
    ensures |EncodeRpcMsgCall(c)| % 4 == 0
  {
    var cred := |EncodeOpaqueAuth(c.cbody.cred)|;
    var verf := |EncodeOpaqueAuth(c.cbody.verf)|;
    OpaqueAuthIsAligned(c.cbody.cred);
    OpaqueAuthIsAligned(c.cbody.verf);
    CallBodyLayout(c.cbody);
    RpcMsgCallLayout(c);
    AlignedSum(cred, verf);
    AlignedSum(24, cred + verf);
  }

  lemma AuthsysParmsIsAligned(p: AuthsysParms)
    ensures |EncodeAuthsysParms(p)| % 4 == 0
  {
    var name := |EncodeOpaque(p.machinename)|;
    OpaqueEncodedLength(p.machinename);
    assert |EncodeAuthsysParms(p)| == 16 + name + 4 * |p.gids|;
    AlignedSum(name, 4 * |p.gids|);
    AlignedSum(16, name + 4 * |p.gids|);
  }

  lemma ReplyEncodingIsAligned(r: RpcMsgReply)
    ensures |EncodeRpcMsgReply(r)| % 4 == 0
  {
    var n := |EncodeReplyBody(r.rbody)|;
    assert |EncodeRpcMsgReply(r)| == 8 + n;
    match r.rbody.v
    case Accepted(acc) =>
      var verf := |EncodeOpaqueAuth(acc.verf)|;
      OpaqueAuthIsAligned(acc.verf);
      assert n == 8 + verf;
      AlignedSum(16, verf);
    case Rejected(rej) =>
      assert n == 8 + (if rej.v.Mismatch? then 8 else 4);
  }

  /** The empty AUTH_NONE verifier is eight zero bytes. */
  lemma NullAuthEncoding()
    ensures EncodeOpaqueAuth(OpaqueAuth(AUTH_NONE, [])) == [0, 0, 0, 0, 0, 0, 0, 0]
  {
    assert Zeros(0) == [];
  }

  /** A version-mismatch rejection naming versions 2..2 is twelve bytes and
      decodes back to itself. */
  lemma RpcMismatchExample()
    ensures EncodeRejectedReply(RejectedReply(RPC_MISMATCH, Mismatch(MismatchInfo(2, 2))))
            == [0, 0, 0, 0, 0, 0, 0, 2, 0, 0, 0, 2]
    ensures DecodeRejectedReply([0, 0, 0, 0, 0, 0, 0, 2, 0, 0, 0, 2])
            == Ok((RejectedReply(RPC_MISMATCH, Mismatch(MismatchInfo(2, 2))), []))
  {
    var r := RejectedReply(RPC_MISMATCH, Mismatch(MismatchInfo(2, 2)));
    var e := EncodeRejectedReply(r);
    assert EncodeUint32(0) == [0, 0, 0, 0];
    assert EncodeUint32(2) == [0, 0, 0, 2];
    assert e == [0, 0, 0, 0, 0, 0, 0, 2, 0, 0, 0, 2];
    RejectedReplyRoundTrip(r, []);
    assert e + [] == e;
  }

  /** The accepted reply serializeReply writes is 24 bytes: xid, REPLY (1),
      MSG_ACCEPTED (0), verifier flavor AUTH_NONE (0), verifier length 0,
      and the status. */
  lemma AcceptedReplyMessageLayout(xid: uint32, status: AcceptStat)
    ensures EncodeRpcMsgReply(AcceptedReplyMessage(xid, status))
            == EncodeUint32(xid) + [0, 0, 0, 1] + [0, 0, 0, 0] + [0, 0, 0, 0] + [0, 0, 0, 0] + EncodeUint32(status)
    ensures |EncodeRpcMsgReply(AcceptedReplyMessage(xid, status))| == 24
  {
    NullAuthEncoding();
  }

  /** The reply to xid 42 reporting SUCCESS, byte for byte. */
  lemma SuccessReplyExample()
    ensures EncodeRpcMsgReply(AcceptedReplyMessage(42, SUCCESS))
            == [0, 0, 0, 42, 0, 0, 0, 1, 0, 0, 0, 0, 0, 0, 0, 0, 0, 0, 0, 0, 0, 0, 0, 0]
  {
    AcceptedReplyMessageLayout(42, SUCCESS);
  }

  /** What serializeReply writes reads back as the accepted reply it stands for. */
  lemma AcceptedReplyMessageDecodes(xid: uint32, status: AcceptStat, rest: seq<byte>)
    ensures DecodeRpcMsgReply(EncodeRpcMsgReply(AcceptedReplyMessage(xid, status)) + rest)
            == Ok((AcceptedReplyMessage(xid, status), rest))
  {
    RpcMsgReplyRoundTrip(AcceptedReplyMessage(xid, status), rest);
  }
}

# ONC RPC message codec and the no-executable-binaries hook

This project models two pieces of the Sapling/EdenFS/Mononoke code base and
proves properties of the models.

**The ONC RPC wire codec of the EdenFS NFS server** (`eden/fs/nfs/rpc/Rpc.h`).
The header declares the RPC message types of RFC 5531:

- `opaque_auth`, `call_body`, `rpc_msg_call`, `mismatch_info`,
  `accepted_reply`, `rpc_msg_reply` and `authsys_parms` are records;
- `rejected_reply` and `reply_body` are discriminated unions;
- the status codes are enumerations.

A code generator (`EDEN_XDR_SERDE_DECL`) derives three operations for each
record from one ordered field list:

- a serializer that appends the fields' XDR encodings to an appender, in order;
- a deserializer that reads the same fields back from a cursor;
- an `operator==` that is the conjunction of the per-field comparisons.

The two unions carry their discriminant beside the active alternative. Each
has a hand-written deserializer that reads the tag and switches on it.
`serializeReply` writes the reply that accepts a call.

The model is organised as follows:

- `xdr.dfy` (module `Xdr`): the XDR primitives the codec is built on. These are
  unsigned ints, enums, variable-length opaque data and strings, and
  variable-length arrays of unsigned ints (RFC 4506, sections 4.2, 4.3, 4.10,
  4.11 and 4.13). Each comes as an encoder, a decoder and a round-trip lemma.
- `xdr_stream.dfy` (module `XdrStream`): the appender and the cursor as classes.
  Their primitive writes and reads are proved against the pure functions.
- `rpc.dfy` (module `Rpc`): the schema, and the pure encoder, decoder and
  generated equality of each type.
- `rpc_properties.dfy` (module `RpcProperties`): the laws of the schema codec.
  These cover round trips, union discriminant handling, byte layouts, 4-byte
  alignment and the fixed reply layout.
- `rpc_serde.dfy` (module `RpcSerde`): the generated serializers and
  deserializers in their imperative form. Each is proved to append, or to
  read, exactly what the pure codec describes.

Decoders take the bytes still unread and return the value with the bytes
that follow it. The round-trip law reads `Decode(Encode(v) + rest) == Ok((v, rest))`.

A decode can fail in three ways:

- `Underrun`: a word is cut short;
- `LengthOverrun`: an opaque or array length goes past the end of the input;
- `UnmappedDiscriminant`: a union tag names no alternative.

**The no-executable-binaries file hook of Mononoke**
(`eden/mononoke/hooks/src/implementations/no_executable_binaries.rs`) is in
`no_executable_binaries.dfy`, module `NoExecutableBinaries`. For one file
change, `Run` gives one of three outcomes:

- Accepted;
- Rejected, with the short description "Illegal executable file" and the
  configured message with every `${filename}` replaced by the path;
- the error of the metadata lookup.

`Replace` models Rust's `str::replace`: matches are taken left to right and
do not overlap. The content store's metadata lookup is the parameter `fetch`.

The union decoders depart from the code on one point. The C++ switch on a
union tag has no default arm, so an unmapped tag yields a value whose payload
is left unset. The model reports `UnmappedDiscriminant` instead, because
XDR discriminated unions (RFC 4506, section 4.15) have no value for an
unlisted tag. See "Left out".

## Model

| member | source | states |
|---|---|---|
| Xdr.EncodeUint32 | eden/fs/nfs/rpc/Rpc.h:156-159 | every unsigned int is written as exactly four bytes |
| Xdr.DecodeUint32 | eden/fs/nfs/rpc/Rpc.h:156-159 | a word read succeeds exactly when four bytes remain, fails only with Underrun, and consumes exactly four bytes |
| Xdr.Uint32RoundTrip | eden/fs/nfs/rpc/Rpc.h:156-159 | a word's big-endian bytes read back as the word, leaving the following bytes untouched |
| Xdr.Uint32Canonical | eden/fs/nfs/rpc/Rpc.h:156-159 | any four bytes are the encoding of the word they read as, so the 4-byte encoding is a bijection |
| Xdr.Pad | eden/fs/nfs/rpc/Rpc.h:145 | the zero padding after opaque data is under four bytes and brings the data to a multiple of four |
| Xdr.DecodeOpaque | eden/fs/nfs/rpc/Rpc.h:145 | a successful opaque read leaves a suffix of its input |
| Xdr.OpaqueRoundTrip | eden/fs/nfs/rpc/Rpc.h:145 | opaque bytes (length word, data, zero padding) read back as the same bytes, leaving what follows |
| Xdr.PaddedLength | eden/fs/nfs/rpc/Rpc.h:145 | data and its padding fill exactly the whole 4-byte words the data needs |
| Xdr.OpaqueEncodedLength | eden/fs/nfs/rpc/Rpc.h:145 | the encoded size is four plus the data length rounded up to a multiple of four, so it is always aligned |
| Xdr.OpaqueDecodeConsumes | eden/fs/nfs/rpc/Rpc.h:145 | a successful read consumes exactly the encoded size of the bytes it returns |
| Xdr.OpaqueOverrun | eden/fs/nfs/rpc/Rpc.h:145 | a length word claiming more data and padding than remain is reported as LengthOverrun with that length |
| Xdr.EncodeUint32sAppend | eden/fs/nfs/rpc/Rpc.h:242 | appending an element to an array appends its word to the element encoding |
| Xdr.DecodeUint32s | eden/fs/nfs/rpc/Rpc.h:242 | reading n words succeeds exactly when 4n bytes remain, and then yields n words and consumes 4n bytes |
| Xdr.DecodeUint32Array | eden/fs/nfs/rpc/Rpc.h:242 | an array read succeeds exactly when the bytes after the length word hold that many words, and then yields that many words and consumes them; otherwise it fails with LengthOverrun carrying the length, or Underrun when no length word is left |
| Xdr.Uint32ArrayOverrun | eden/fs/nfs/rpc/Rpc.h:242 | a length word claiming more words than remain is reported as LengthOverrun with that length |
| Xdr.Uint32sRoundTrip | eden/fs/nfs/rpc/Rpc.h:242 | n encoded words read back as the same words in the same order |
| Xdr.Uint32ArrayRoundTrip | eden/fs/nfs/rpc/Rpc.h:242 | a length-prefixed array of unsigned ints reads back as itself, leaving what follows |
| XdrStream.Appender.constructor | eden/fs/nfs/rpc/Rpc.h:46-50 | a fresh appender holds no bytes |
| XdrStream.Appender.WriteUint32 | eden/fs/nfs/rpc/Rpc.h:67-68 | appends exactly the word's four-byte encoding and changes nothing else |
| XdrStream.Appender.WriteOpaque | eden/fs/nfs/rpc/Rpc.h:145 | appends exactly the opaque encoding: length word, data, zero padding |
| XdrStream.Appender.WriteUint32Array | eden/fs/nfs/rpc/Rpc.h:242 | appends the length word and then each element's word, in order (loop invariant: the elements written so far) |
| XdrStream.Cursor.constructor | eden/fs/nfs/rpc/Rpc.h:51-55 | a cursor starts at the first received byte |
| XdrStream.Cursor.ReadUint32 | eden/fs/nfs/rpc/Rpc.h:72-73 | returns the word and advances past it, or fails with Underrun exactly as the pure decoder does |
| XdrStream.Cursor.ReadOpaque | eden/fs/nfs/rpc/Rpc.h:145 | returns the data and advances past data and padding, or fails as the pure decoder does |
| XdrStream.Cursor.ReadUint32s | eden/fs/nfs/rpc/Rpc.h:242 | reads n words in a loop, with the same words, error and position as the pure decoder (loop invariant: the words read so far followed by what the rest of the read yields) |
| XdrStream.Cursor.ReadUint32Array | eden/fs/nfs/rpc/Rpc.h:242 | reads the length, rejects a length longer than the remaining words with LengthOverrun, then reads that many words, with the same result and position as the pure decoder |
| Rpc.DecodeRejectedReply | eden/fs/nfs/rpc/Rpc.h:188-203 | a decoded rejected_reply's tag always names the alternative present; a tag other than RPC_MISMATCH or AUTH_ERROR is an UnmappedDiscriminant error |
| Rpc.DecodeReplyBody | eden/fs/nfs/rpc/Rpc.h:208-223 | a decoded reply_body's tags name the alternatives present at both levels; a tag other than MSG_ACCEPTED or MSG_DENIED is an UnmappedDiscriminant error |
| Rpc.DecodeRpcMsgReply | eden/fs/nfs/rpc/Rpc.h:225-230 | a decoded reply message is well formed at both union levels |
| Rpc.FieldsEqual | eden/fs/nfs/rpc/Rpc.h:58-61 | the generated conjunction closed by a literal 1 holds exactly when no field comparison fails, and so holds for an empty field list |
| Rpc.EqualOpaqueAuth | eden/fs/nfs/rpc/Rpc.h:147-151 | generated equality holds exactly when flavor and body are equal |
| Rpc.EqualCallBody | eden/fs/nfs/rpc/Rpc.h:155-164 | generated equality holds exactly when all six fields are equal |
| Rpc.EqualRpcMsgCall | eden/fs/nfs/rpc/Rpc.h:166-171 | generated equality holds exactly when xid, mtype and the call body are equal |
| Rpc.EqualMismatchInfo | eden/fs/nfs/rpc/Rpc.h:173-177 | generated equality holds exactly when both bounds are equal |
| Rpc.EqualAcceptedReply | eden/fs/nfs/rpc/Rpc.h:179-183 | generated equality holds exactly when verifier and status are equal |
| Rpc.EqualRpcMsgReply | eden/fs/nfs/rpc/Rpc.h:225-230 | generated equality holds exactly when xid, mtype and the reply body are equal |
| Rpc.EqualAuthsysParms | eden/fs/nfs/rpc/Rpc.h:237-244 | generated equality holds exactly when all five fields are equal |
| RpcProperties.OpaqueAuthRoundTrip | eden/fs/nfs/rpc/Rpc.h:147-151 | flavor then body: an opaque_auth reads back as itself, leaving what follows |
| RpcProperties.CallBodyRoundTrip | eden/fs/nfs/rpc/Rpc.h:155-164 | a call_body of any rpcvers reads back as itself, leaving what follows |
| RpcProperties.RpcMsgCallRoundTrip | eden/fs/nfs/rpc/Rpc.h:166-171 | a call message reads back as itself, leaving the procedure arguments that follow |
| RpcProperties.MismatchInfoRoundTrip | eden/fs/nfs/rpc/Rpc.h:173-177 | a mismatch_info reads back as itself |
| RpcProperties.MismatchInfoCanonical | eden/fs/nfs/rpc/Rpc.h:173-177 | the bytes a mismatch_info read consumes are exactly the encoding of the value it returns |
| RpcProperties.MismatchInfoFieldOrder | eden/fs/nfs/rpc/Rpc.h:173-177 | fields are read in declared order: bytes written high first read back with the bounds exchanged |
| RpcProperties.AcceptedReplyRoundTrip | eden/fs/nfs/rpc/Rpc.h:179-183 | an accepted_reply reads back as itself |
| RpcProperties.AuthsysParmsRoundTrip | eden/fs/nfs/rpc/Rpc.h:237-244 | an AUTH_SYS credential body reads back as itself |
| RpcProperties.RejectedReplyRoundTrip | eden/fs/nfs/rpc/Rpc.h:185-203 | a rejected_reply whose tag names its alternative reads back as itself |
| RpcProperties.RejectedReplyRoundTripIffValid | eden/fs/nfs/rpc/Rpc.h:185-203 | a rejected_reply survives the round trip exactly when its tag names its alternative |
| RpcProperties.RejectedReplyUnmapped | eden/fs/nfs/rpc/Rpc.h:192-200 | a reject_stat with no case is reported as UnmappedDiscriminant |
| RpcProperties.RejectedReplyCanonical | eden/fs/nfs/rpc/Rpc.h:185-203 | the bytes a rejected_reply read consumes are exactly the encoding of the value it returns |
| RpcProperties.ReplyBodyRoundTrip | eden/fs/nfs/rpc/Rpc.h:205-223 | a well-formed reply_body reads back as itself, through both union levels |
| RpcProperties.ReplyBodyRoundTripIffValid | eden/fs/nfs/rpc/Rpc.h:205-223 | a reply_body survives the round trip exactly when both of its tags name their alternatives |
| RpcProperties.ReplyBodyUnmapped | eden/fs/nfs/rpc/Rpc.h:212-220 | a reply_stat with no case is reported as UnmappedDiscriminant |
| RpcProperties.ReplyBodyNestedUnmapped | eden/fs/nfs/rpc/Rpc.h:212-220 | an unmapped reject_stat inside a denied reply fails the whole reply_body read |
| RpcProperties.RpcMsgReplyRoundTrip | eden/fs/nfs/rpc/Rpc.h:225-230 | a well-formed reply message reads back as itself |
| RpcProperties.RpcMsgReplyRoundTripIffValid | eden/fs/nfs/rpc/Rpc.h:225-230 | a reply message survives the round trip exactly when it is well formed |
| RpcProperties.CallBodyLayout | eden/fs/nfs/rpc/Rpc.h:155-164 | rpcvers, prog, vers and proc sit at byte offsets 0, 4, 8 and 12, then the credential, then the verifier, with nothing between |
| RpcProperties.RpcMsgCallLayout | eden/fs/nfs/rpc/Rpc.h:166-171 | xid and mtype sit at offsets 0 and 4, and the call body fills the rest |
| RpcProperties.OpaqueAuthIsAligned | eden/fs/nfs/rpc/Rpc.h:147-151 | an opaque_auth encodes to whole 4-byte units |
| RpcProperties.CallEncodingIsAligned | eden/fs/nfs/rpc/Rpc.h:166-171 | a call message encodes to whole 4-byte units |
| RpcProperties.AuthsysParmsIsAligned | eden/fs/nfs/rpc/Rpc.h:237-244 | an authsys_parms encodes to whole 4-byte units |
| RpcProperties.ReplyEncodingIsAligned | eden/fs/nfs/rpc/Rpc.h:225-230 | a reply message encodes to whole 4-byte units |
| RpcProperties.NullAuthEncoding | eden/fs/nfs/rpc/Rpc.h:84-151 | the empty AUTH_NONE opaque_auth is eight zero bytes |
| RpcProperties.RpcMismatchExample | eden/fs/nfs/rpc/Rpc.h:185-203 | the RPC_MISMATCH rejection for versions 2..2 is exactly 00000000 00000002 00000002 and decodes back to itself |
| RpcProperties.AcceptedReplyMessageLayout | eden/fs/nfs/rpc/Rpc.h:232-235 | the accepted reply is 24 bytes: xid, 1 (REPLY), 0 (MSG_ACCEPTED), 0 (AUTH_NONE), 0 (empty verifier), status |
| RpcProperties.SuccessReplyExample | eden/fs/nfs/rpc/Rpc.h:232-235 | the SUCCESS reply to xid 42 byte for byte |
| RpcProperties.AcceptedReplyMessageDecodes | eden/fs/nfs/rpc/Rpc.h:232-235 | the accepted reply reads back as the message it encodes |
| RpcSerde.SerializeOpaqueAuth | eden/fs/nfs/rpc/Rpc.h:147-151 | appends exactly the opaque_auth encoding: flavor, then body |
| RpcSerde.SerializeCallBody | eden/fs/nfs/rpc/Rpc.h:155-164 | appends the six fields in declared order, which is exactly the call_body encoding |
| RpcSerde.SerializeRpcMsgCall | eden/fs/nfs/rpc/Rpc.h:166-171 | appends exactly the call message encoding |
| RpcSerde.SerializeMismatchInfo | eden/fs/nfs/rpc/Rpc.h:173-177 | appends low, then high |
| RpcSerde.SerializeAcceptedReply | eden/fs/nfs/rpc/Rpc.h:179-183 | appends the verifier, then the status |
| RpcSerde.SerializeRejectedReply | eden/fs/nfs/rpc/Rpc.h:185-189 | appends the tag, then the alternative present |
| RpcSerde.SerializeReplyBody | eden/fs/nfs/rpc/Rpc.h:205-209 | appends the tag, then the alternative present |
| RpcSerde.SerializeRpcMsgReply | eden/fs/nfs/rpc/Rpc.h:225-230 | appends exactly the reply message encoding |
| RpcSerde.SerializeAuthsysParms | eden/fs/nfs/rpc/Rpc.h:237-244 | appends stamp, machinename, uid, gid and gids in declared order |
| RpcSerde.SerializeReply | eden/fs/nfs/rpc/Rpc.h:232-235 | writing the six words directly appends exactly the general encoding of the accepted reply, 24 bytes |
| RpcSerde.DeserializeOpaqueAuth | eden/fs/nfs/rpc/Rpc.h:147-151 | reads flavor then body, with the same result and position as the pure decoder |
| RpcSerde.DeserializeCallBody | eden/fs/nfs/rpc/Rpc.h:155-164 | reads the six fields in declared order, with the same result and position as the pure decoder |
| RpcSerde.DeserializeRpcMsgCall | eden/fs/nfs/rpc/Rpc.h:166-171 | reads a call message as the pure decoder does |
| RpcSerde.DeserializeMismatchInfo | eden/fs/nfs/rpc/Rpc.h:173-177 | reads low then high as the pure decoder does |
| RpcSerde.DeserializeAcceptedReply | eden/fs/nfs/rpc/Rpc.h:179-183 | reads verifier then status as the pure decoder does |
| RpcSerde.DeserializeRejectedReply | eden/fs/nfs/rpc/Rpc.h:190-202 | reads the tag and switches on it as the pure decoder does; its result always has a tag matching its alternative |
| RpcSerde.DeserializeReplyBody | eden/fs/nfs/rpc/Rpc.h:210-222 | reads the tag and switches on it as the pure decoder does; its result is well formed at both levels |
| RpcSerde.DeserializeRpcMsgReply | eden/fs/nfs/rpc/Rpc.h:225-230 | reads a reply message as the pure decoder does |
| RpcSerde.DeserializeAuthsysParms | eden/fs/nfs/rpc/Rpc.h:237-244 | reads the five fields in declared order as the pure decoder does |
| RpcSerde.ReplyLoopback | eden/fs/nfs/rpc/Rpc.h:232-235 | a reply written by serializeReply and read by the general deserializer is the accepted reply for that xid and status |
| NoExecutableBinaries.ReplaceSkipsPrefix | eden/mononoke/hooks/src/implementations/no_executable_binaries.rs:81-83 | a prefix in which no occurrence of the placeholder begins is copied unchanged |
| NoExecutableBinaries.ReplaceWithoutMatch | eden/mononoke/hooks/src/implementations/no_executable_binaries.rs:81-83 | a message without the placeholder is left as it is |
| NoExecutableBinaries.ReplaceAtFirstMatch | eden/mononoke/hooks/src/implementations/no_executable_binaries.rs:81-83 | at the first occurrence the path is written in place of the placeholder and replacement resumes after it; with ReplaceWithoutMatch this covers messages with any number of placeholders and any other `$` |
| NoExecutableBinaries.ReplaceSingleOccurrence | eden/mononoke/hooks/src/implementations/no_executable_binaries.rs:81-83 | one occurrence, with no other character that could start one, is replaced in place and the rest is kept |
| NoExecutableBinaries.RejectionMessageSubstitutesPath | eden/mononoke/hooks/src/implementations/no_executable_binaries.rs:81-83 | a message holding `${filename}` once, with no other `$`, gets the path in its place and is otherwise unchanged |
| NoExecutableBinaries.RejectionMessageExample | eden/mononoke/hooks/src/implementations/no_executable_binaries.rs:113-114 | for every path, the tests' message "Executable file '${filename}' can't be committed." becomes "Executable file '<path>' can't be committed.", so foo/bar/exec gives the expected "Executable file 'foo/bar/exec' can't be committed." |
| NoExecutableBinaries.AcceptedWithoutLookup | eden/mononoke/hooks/src/implementations/no_executable_binaries.rs:63-75 | a deleted file, or a change that is not executable, is accepted and the verdict is the same whatever the content store holds |
| NoExecutableBinaries.RejectedIffExecutableBinary | eden/mononoke/hooks/src/implementations/no_executable_binaries.rs:76-84 | rejected exactly for an executable change whose content is binary, then with "Illegal executable file" and the substituted message |
| NoExecutableBinaries.ExecutableTextAccepted | eden/mononoke/hooks/src/implementations/no_executable_binaries.rs:85-87 | an executable file whose content is not binary is accepted |
| NoExecutableBinaries.FailsOnlyOnLookup | eden/mononoke/hooks/src/implementations/no_executable_binaries.rs:76 | the hook fails exactly when it must look up an executable file's metadata and the lookup fails, and then with that lookup's error |
| NoExecutableBinaries.VerdictIgnoresPathAndMessage | eden/mononoke/hooks/src/implementations/no_executable_binaries.rs:54-88 | whether the hook fails, accepts or rejects does not depend on the path or the configured message |

## Left out

- `eden/fs/nfs/xdr/Xdr.h` is not part of this model. The primitive codecs for unsigned ints, enums, byte vectors, strings and `uint32_t` vectors are written from RFC 4506. The serializer of the `XdrVariant` base (Rpc.h:189, 209) is taken to write the tag, then the active alternative.
- The body of `serializeReply` is not part of this model; Rpc.h:232-235 only declares it. It is modelled as the encoding of `rpc_msg_reply{xid, REPLY, MSG_ACCEPTED, accepted_reply{opaque_auth{AUTH_NONE, []}, status}}`.
- Rpc.DecodeRejectedReply: an unmapped reject_stat is an UnmappedDiscriminant error. The C++ switch has no default arm, so it would return the tag with the payload left as `XdrVariant` initialises it, which is defined in Xdr.h.
- Rpc.DecodeReplyBody: an unmapped reply_stat is an UnmappedDiscriminant error, for the same reason.
- RpcSerde.DeserializeRejectedReply and RpcSerde.DeserializeReplyBody make the same choice.
- Xdr.DecodeOpaque: padding bytes are skipped without checking that they are zero, so the decoder accepts non-canonical padding.
- Enumerations are 32-bit values with named constants. A C++ `enum class` field can hold any underlying value, and only the union discriminants are checked against their cases.
- Rpc.IsSupportedVersion: the `rpcvers == 2` rule is a separate predicate. The codec copies `rpcvers` verbatim and never checks it.
- `machinename` is a `std::string`. It is modelled as the bytes of the XDR string; there is no character encoding.
- Equality of `rejected_reply` and `reply_body` comes from `XdrVariant` in Xdr.h and is not modelled. Value equality of the datatypes stands in for it.
- The `folly::io` buffer chain and the appender's allocation are not modelled. The appender is one byte sequence and the cursor is a position in one. The cursor's underrun exception becomes an `Err` result.
- Record marking, fragment framing, the socket loop, dispatch to procedures and AUTH_SYS credential checking are transport and I/O, and are not modelled. The procedure arguments after a `call_body` are the untouched `rest` of the round-trip lemmas.
- The hook's `get_file_metadata` is an asynchronous call into the content store. It is the parameter `fetch`, which returns the metadata or the lookup's error.
- The hook's constructor `new` (JSON option parsing of `HookConfig`) is not modelled. The configuration is given directly as `Config`.
- The hook's `CoreContext` is only passed on to `get_file_metadata`, so it is folded into `fetch`. The cross-repo push source and push-author arguments are unused by `run` and are not modelled.
- `NonRootMPath` and its `to_string` are modelled as the path string. The non-root, non-empty restriction on paths is not modelled.
- The tests' per-changeset loop and test repository are not modelled. Their expected rejection message is the lemma NoExecutableBinaries.RejectionMessageExample.

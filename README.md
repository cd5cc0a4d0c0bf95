# Secure bind handshake of RPC over HTTP (FreeRDP gateway client)

This project models the client side of the connection-oriented DCE/RPC bind handshake in
`libfreerdp/core/gateway/rpc_bind.c`. The RD Gateway client runs it before any TSGU call:

1. `rpc_send_bind_pdu` builds a BIND PDU and sends it. The PDU carries two presentation
   contexts: the TSGU interface with the NDR transfer syntax, and TSGU with bind-time feature
   negotiation (BTFN). It also carries a 4-byte-aligned sec_trailer and the first NTLM token.
   Before the send, the function registers client call 2.
2. `rpc_recv_bind_ack_pdu` takes the fragment sizes from the BIND_ACK, swapped, and passes the
   server's token to NTLM.
3. `rpc_send_rpc_auth_3_pdu` sends the third NTLM leg in an RPC_AUTH_3 PDU on the same call.

The three files:

- `bytes.dfy` (module `Bytes`): bytes, 16- and 32-bit fields, their little-endian encoding, and
  4-byte alignment.
- `rpc_pdu.dfy` (module `RpcPdu`): the PDU formats.
  - Datatypes for UUIDs, syntax identifiers, context elements, the common header, the auth
    verifier, BIND and RPC_AUTH_3.
  - Their byte encodings, with the field offsets of DCE 1.1 RPC (Open Group C706, chapter 12)
    and the sec_trailer of MS-RPCE section 2.2.2.11.
  - Parsers that read the bytes back, and round-trip lemmas.
- `rpc_bind.dfy` (module `RpcBind`): the core itself.
  - The three syntax UUIDs, and the two PDUs as the code fills them in.
  - Lemmas that place every field and the token at its byte offset.
  - The methods that write the PDUs into a fresh buffer piece by piece.
  - The class `RpcClient`, holding the fragment sizes, the client call list and the NTLM
    context, with one method per entry point.
  - The credential step of the bind, both as written and as evidently intended.

## Model

| member | source | states |
|---|---|---|
| Bytes.Align4 | libfreerdp/core/gateway/rpc_bind.c:219-220 | rounding an offset up for the trailer gives a multiple of 4 that is at most 3 bytes further on |
| RpcPdu.UuidRoundTrip | libfreerdp/core/gateway/rpc_bind.c:197 | the 16 bytes a UUID is copied as decode back to the same UUID |
| RpcPdu.DecodeUuid | libfreerdp/core/gateway/rpc_bind.c:197 | any 16 bytes are the encoding of the UUID decoded from them |
| RpcPdu.SyntaxIdRoundTrip | libfreerdp/core/gateway/rpc_bind.c:197-198 | a syntax identifier (UUID and 32-bit version) decodes back from its 20 bytes |
| RpcPdu.DecodeSyntaxId | libfreerdp/core/gateway/rpc_bind.c:204-205 | any 20 bytes are the encoding of the syntax identifier decoded from them |
| RpcPdu.SyntaxIdsRoundTrip | libfreerdp/core/gateway/rpc_bind.c:204-205 | a list of transfer syntaxes decodes back from its concatenated encodings |
| RpcPdu.DecodeSyntaxIds | libfreerdp/core/gateway/rpc_bind.c:235 | any 20·n bytes are the encoding of the n syntaxes decoded from them |
| RpcPdu.ContextElemHeaderFields | libfreerdp/core/gateway/rpc_bind.c:193-198 | a context element's 24-byte header holds p_cont_id, n_transfer_syn, a zero reserved byte and the abstract syntax, in that order |
| RpcPdu.ContextElemRoundTrip | libfreerdp/core/gateway/rpc_bind.c:234-235 | an encoded context element followed by any bytes parses back to the element, and the parse stops right after it |
| RpcPdu.ParseContextsOfEncoding | libfreerdp/core/gateway/rpc_bind.c:233-237 | a list of encoded context elements parses back to the list, leaving exactly the bytes that follow |
| RpcPdu.CommonHeaderRoundTrip | libfreerdp/core/gateway/rpc_bind.c:175-180 | the 16-byte common header decodes back to its version, ptype, flags, drep, lengths and call id |
| RpcPdu.ParseCommonHeader | libfreerdp/core/gateway/rpc_bind.c:294 | reading a buffer as a common header loses nothing: re-encoding the header gives the 16 bytes back |
| RpcPdu.BindHeaderRoundTrip | libfreerdp/core/gateway/rpc_bind.c:232 | the 24-byte bind header decodes back to the common header, both fragment sizes and the association group |
| RpcPdu.DecodeBindHeader | libfreerdp/core/gateway/rpc_bind.c:232 | any 24 bytes are the bind header decoded from them |
| RpcPdu.RpcAuth3HeaderRoundTrip | libfreerdp/core/gateway/rpc_bind.c:357 | the 20-byte rpc_auth_3 header decodes back to the common header and both fragment sizes |
| RpcPdu.DecodeRpcAuth3Header | libfreerdp/core/gateway/rpc_bind.c:357 | any 20 bytes are the rpc_auth_3 header decoded from them |
| RpcPdu.ParseAuthVerifierOfEncoding | libfreerdp/core/gateway/rpc_bind.c:238-241 | an auth verifier padded to a 4-byte boundary after the body parses back from the end of the PDU |
| RpcPdu.BindPiecesAt | libfreerdp/core/gateway/rpc_bind.c:232-234 | in a serialized bind PDU, the header is at 0, the context count at 24, and the contexts and auth verifier start at 28 |
| RpcPdu.BindRoundTrip | libfreerdp/core/gateway/rpc_bind.c:232-241 | a well-formed bind PDU parses back to itself: header, sizes, association group, every context and the auth verifier |
| RpcPdu.RpcAuth3RoundTrip | libfreerdp/core/gateway/rpc_bind.c:357-361 | a well-formed rpc_auth_3 PDU parses back to itself |
| RpcPdu.TrailingToken | libfreerdp/core/gateway/rpc_bind.c:304-305 | the token taken from a received PDU has auth_length bytes, and its byte i is the buffer's byte frag_length − auth_length + i |
| RpcPdu.TrailingTokenOfEncoding | libfreerdp/core/gateway/rpc_bind.c:225-226 | a serialized PDU announces its own length in frag_length and its token's length in auth_length, and the receiver's extraction yields exactly the token |
| RpcBind.MakeBindPdu | libfreerdp/core/gateway/rpc_bind.c:175-226 | the bind PDU built for a token is well formed: the pad aligns the trailer, auth_length is the token length, and frag_length counts body, pad, trailer and token |
| RpcBind.BindBodyLength | libfreerdp/core/gateway/rpc_bind.c:219 | the bind body (header, context list header, two elements with one transfer syntax each) is 116 bytes |
| RpcBind.MakeRpcAuth3Pdu | libfreerdp/core/gateway/rpc_bind.c:333-348 | the rpc_auth_3 PDU built for a token is well formed after its 20-byte body |
| RpcBind.BindLength | libfreerdp/core/gateway/rpc_bind.c:219-226 | the bind PDU is align4(116) + 8 + auth_length = 124 + auth_length bytes long, frag_length equals that length, auth_length equals the token length, and the trailing auth_length bytes are the token |
| RpcBind.BindHeaderLayout | libfreerdp/core/gateway/rpc_bind.c:175-183 | bytes 0–23 hold version 5.0, ptype BIND, flags 0x17, drep, frag_length, auth_length = token length, call id 2, the client's max_xmit_frag and max_recv_frag unchanged, and association group 0 |
| RpcBind.TwoContextsPieces | libfreerdp/core/gateway/rpc_bind.c:234-237 | two single-syntax context elements encode as header, syntax, header, syntax |
| RpcBind.BindPiecesOf | libfreerdp/core/gateway/rpc_bind.c:232-241 | a bind PDU with two single-syntax contexts and no pad is the concatenation of the eight pieces the code copies |
| RpcBind.BindPieces | libfreerdp/core/gateway/rpc_bind.c:232-241 | the bind PDU built for a token is the header, the context list header, element 0, NDR, element 1, BTFN, the sec_trailer and the token, in that order |
| RpcBind.BindContextLayout | libfreerdp/core/gateway/rpc_bind.c:184-218 | byte 24 is n_context_elem = 2 with zero reserved bytes; element 0 (id 0, TSGU, one syntax) is at 28 with NDR at 52; element 1 (id 1, TSGU, one syntax) is at 72 with BTFN at 96 |
| RpcBind.BindTrailerLayout | libfreerdp/core/gateway/rpc_bind.c:219-224 | the sec_trailer starts at the aligned offset 116 and holds NTLM (0x0A), packet integrity (5), pad 0, reserved 0, context id 0; the token fills offset 124 up to the end |
| RpcBind.RpcAuth3Pieces | libfreerdp/core/gateway/rpc_bind.c:357-361 | the rpc_auth_3 PDU is its 20-byte header, the sec_trailer and the token, in that order |
| RpcBind.RpcAuth3Layout | libfreerdp/core/gateway/rpc_bind.c:333-348 | bytes hold ptype 0x10, flags 0x13 (no header signing), call id 2, the current fragment sizes, frag_length = align4(20) + 8 + auth_length = the buffer length, the sec_trailer at 20 and the token at 28 |
| RpcBind.CopyBytes | libfreerdp/core/gateway/rpc_bind.c:232-241 | copying a piece at the end of what is already written extends the written prefix by exactly that piece and leaves the bytes after it untouched |
| RpcBind.EncodeBind | libfreerdp/core/gateway/rpc_bind.c:227-241 | the freshly allocated frag_length-byte buffer filled at offsets 0/24/28/52/72/96/116/124 equals the serialized bind PDU |
| RpcBind.EncodeRpcAuth3 | libfreerdp/core/gateway/rpc_bind.c:349-362 | the freshly allocated buffer filled at offsets 0/20/28 equals the serialized rpc_auth_3 PDU |
| RpcBind.LoginStepAsWritten | libfreerdp/core/gateway/rpc_bind.c:129-158 | as the code is written, the bind is cancelled exactly when credentials are missing and the user declines the prompt |
| RpcBind.LoginStep | libfreerdp/core/gateway/rpc_bind.c:129-158 | as intended, the bind is cancelled exactly on a declined prompt, and fails exactly when an accepted prompt with credential reuse cannot copy a credential |
| RpcBind.LoginStepAsWrittenInverted | libfreerdp/core/gateway/rpc_bind.c:148-155 | with credential reuse after an accepted prompt, the code as written fails exactly when the password copy succeeds; the intended step does the opposite |
| RpcBind.LoginStepsAgreeElsewhere | libfreerdp/core/gateway/rpc_bind.c:129-158 | the written and intended credential steps differ on no other input |
| RpcBind.RpcClient.SendBindPdu | libfreerdp/core/gateway/rpc_bind.c:108-265 | the NTLM context is replaced. A PDU is sent only if every step succeeded, and then it is exactly the bind PDU for the token and the current fragment sizes. Exactly one call (2, 0) is appended iff it is sent. The result is 0 on a cancelled prompt, 1 iff the transport status is positive, and −1 otherwise. The fragment sizes do not change |
| RpcBind.RpcClient.RecvBindAckPdu | libfreerdp/core/gateway/rpc_bind.c:290-308 | max_recv_frag becomes the ack's max_xmit_frag and max_xmit_frag the ack's max_recv_frag (a swap). The NTLM input is the trailing auth_length bytes before frag_length, and the result is the length cast to int. If the token buffer cannot be allocated, there is no input and the result is −1. The call list is unchanged |
| RpcBind.RpcClient.SendRpcAuth3Pdu | libfreerdp/core/gateway/rpc_bind.c:317-374 | the PDU sent is exactly the rpc_auth_3 PDU for the context's output token and the current sizes, and is sent iff allocation and call registration succeed. Exactly one call (2, 0) is appended iff it is sent. The result is 1 iff it was sent and the transport status is positive, otherwise −1 |
| RpcBind.SecureBind | libfreerdp/core/gateway/rpc_bind.c:71-92 | after a successful BIND, BIND_ACK, RPC_AUTH_3 sequence, two calls with id 2 are registered. The bind proposed the client's sizes; afterwards the client's max_recv_frag is the ack's max_xmit_frag and its max_xmit_frag the ack's max_recv_frag, and rpc_auth_3 carries those swapped sizes; each PDU's trailing token is the one sent, and the NTLM input is the ack's token |

## Left out

- NTLM (`ntlm_new`, `ntlm_client_init`, `ntlm_client_make_spn`, `ntlm_authenticate`) is foreign code with cryptographic state. Its outcomes are method parameters:
  - `ntlmCreated`: whether the new context exists;
  - `authToken`: the first token, or `None` when initialising or stepping the context fails;
  - `nextToken`: what the step at line 306 produces from the server's challenge.

  The return value of the step at line 306 is ignored by the code, as in the model.
- The transport (`rpc_in_channel_send_pdu`) is I/O. Its status is the parameter `transportStatus`, and the bytes handed to it are returned as `sent`.
- Credential prompting is a UI callback, and the `_strdup` copies go into the settings. Both are reduced to the inputs of `LoginStepAsWritten` (whether credentials are missing, what the callback decided, whether each copy succeeded). Neither the settings nor the new credentials are modelled. The `freerdp_set_last_error(…, FREERDP_ERROR_CONNECT_CANCELLED)` call on a declined prompt (line 144) is dropped; only the result 0 is modelled.
- RpcBind.RpcClient.SendBindPdu takes the credential step's outcome as the parameter `credentials`. Pass `LoginStepAsWritten` for the code's behaviour, or `LoginStep` for the evident intent.
- Memory management has no effect on the model's state.
  - `pduAllocated` stands for all the allocations of a send: the bind struct, the context array, the two transfer syntaxes and the output buffer, or the rpc_auth_3 struct and its buffer.
  - `callAdded` stands for `rpc_client_call_new` plus `ArrayList_Add`. In RPC_AUTH_3, `rpc_client_call_new` is not NULL-checked (line 364): a NULL call goes straight to `ArrayList_Add`, and the PDU is still sent when the add succeeds. The model treats a failed `rpc_client_call_new` like a failed add (nothing sent, −1), which the code does not do.
  - `inputAllocated` stands for the token buffer of the BIND_ACK handler.
  - Frees and the leaks on early returns are not modelled.
- Logging (`WLog_DBG`) is left out.
- The code writes structs with raw `CopyMemory` calls, which depend on host layout and byte order. The model writes every multi-byte field explicitly as little-endian, the byte order announced by the data representation `10 00 00 00`.
- RpcBind.RpcClient.SendBindPdu, RpcBind.RpcClient.SendRpcAuth3Pdu, RpcBind.EncodeBind and RpcBind.EncodeRpcAuth3 require the PDU length to fit 16 bits (`124 + |token| < 65536` for BIND, `28 + |token| < 65536` for RPC_AUTH_3).
  - The code casts the token length to UINT16 (lines 176, 334) and stores the total in the 16-bit frag_length (226, 348).
  - With a longer token the outcome depends on the truncated values. When `(|token| mod 65536) + 124` (or `+ 28`) still fits 16 bits, the code sends a well-formed PDU holding only the first `|token| mod 65536` token bytes, a silent truncation. For |token| = 65546, for instance, auth_length is 10 and the BIND is 134 bytes long. Otherwise frag_length wraps as well, and the buffer it allocates is shorter than the bytes copied into it.
- RpcBind.RpcClient.RecvBindAckPdu requires what the code assumes but never checks:
  - the buffer holds at least `length` ≥ 20 bytes;
  - auth_length ≤ frag_length ≤ length;
  - an NTLM context exists.

  Without these, lines 296-305 read outside the buffer. The code has no malformed-PDU error path, so the model has none either.
- The pad bytes between the body and the sec_trailer are never written by the code. The pad is 0 for both PDUs, so there are none, and the model's serializer writes zeros for a general pad.
- `rpc_offset_align` and `rpc_offset_pad` are defined in rpc.c, which is not part of this model. The model uses `Align4` (the code always passes 4) and adds the pad to the offset.
- Several constants come from headers that are not part of this model (rpc.h, rpc_bind.h, and the connection set-up that `rpc_pdu_header_init` copies from). The model uses:
  - RPC version 5.0, drep `10 00 00 00`;
  - ptype BIND 0x0B (C706 section 12.6.4.1) and RPC_AUTH_3 0x10 (MS-RPCE section 2.2.2.1);
  - PFC_FIRST_FRAG 0x01, PFC_LAST_FRAG 0x02, PFC_SUPPORT_HEADER_SIGN 0x04, PFC_CONC_MPX 0x10;
  - RPC_C_AUTHN_WINNT 0x0A, RPC_C_AUTHN_LEVEL_PKT_INTEGRITY 5;
  - syntax versions TSGU 0x00030001, NDR 2, BTFN 1.
- The comment at lines 95-106 speaks of context id 1 and privacy level. The code sends context id 0 and integrity level; the model follows the code.
- Removing calls from the call list, and matching responses to calls, happen outside this file.

## Findings

| source | as written | input that shows it | evidently intended | confidence | as-written member | corrected member |
|---|---|---|---|---|---|---|
| libfreerdp/core/gateway/rpc_bind.c:154 | the copy check tests `settings->Password` instead of `!settings->Password`, so it fails the bind when the password copy succeeds | gateway credentials missing, the callback accepts, GatewayUseSameCredentials set, all three `_strdup` calls succeed: the bind returns −1 | fail only when one of the copies returns NULL (`!settings->Password`) | high; not executed | RpcBind.LoginStepAsWrittenInverted | RpcBind.LoginStep |

/** The client side of the secure bind handshake of RPC over HTTP (libfreerdp/core/gateway/rpc_bind.c):
    the BIND PDU with its two presentation contexts and NTLM token, the fragment-size swap and
    token extraction of BIND_ACK, and the RPC_AUTH_3 PDU that carries the third NTLM leg. */
module RpcBind {
  import opened Bytes
  import opened RpcPdu

  // Syntax UUIDs: the TSGU interface, the NDR transfer syntax and the bind-time feature
  // negotiation (BTFN) transfer syntax.
  const TsguUuid := Uuid(0x44E265DD, 0x7DAF, 0x42CD, 0x85, 0x60, [0x3C, 0xDB, 0x6E, 0x7A, 0x27, 0x29])
  const NdrUuid := Uuid(0x8A885D04, 0x1CEB, 0x11C9, 0x9F, 0xE8, [0x08, 0x00, 0x2B, 0x10, 0x48, 0x60])
  const BtfnUuid := Uuid(0x6CB71C2C, 0x9812, 0x4540, 0x03, 0x00, [0x00, 0x00, 0x00, 0x00, 0x00, 0x00])

  // Syntax versions (rpc_bind.h, not part of this model): TSGU 1.3, NDR 2.0, BTFN 1.0.
  const TsguSyntaxIfVersion: u32 := 0x00030001
  const NdrSyntaxIfVersion: u32 := 0x00000002
  const BtfnSyntaxIfVersion: u32 := 0x00000001

  // What rpc_pdu_header_init copies from the connection (rpc.c, not part of this model):
  // version 5.0 and the little-endian, ASCII, IEEE data representation.
  const RpcVers: byte := 5
  const RpcVersMinor: byte := 0
  const PackedDrep: seq<byte> := [0x10, 0x00, 0x00, 0x00]

  /** BIND and RPC_AUTH_3 belong to the same logical call. */
  const BindCallId: u32 := 2
  const BindOpNum: u32 := 0

  /** The flag bits are distinct, so their bitwise or is their sum. */
  const BindFlags: byte := PfcFirstFrag + PfcLastFrag + PfcSupportHeaderSign + PfcConcMpx
  const RpcAuth3Flags: byte := PfcFirstFrag + PfcLastFrag + PfcConcMpx

  /** Where each PDU's auth verifier would start before alignment: the bind body is a 24-byte
      header, a 4-byte context list header and two 24-byte elements each followed by one
      20-byte transfer syntax; the rpc_auth_3 body is a 20-byte header. */
  const BindBodySize := 116
  const RpcAuth3BodySize := 20

  /** A token whose PDU length still fits the 16-bit frag_length (and so auth_length). */
  predicate BindTokenFits(token: seq<byte>) { BindBodySize + SecTrailerSize + |token| < 0x1_0000 }
  predicate RpcAuth3TokenFits(token: seq<byte>) { RpcAuth3BodySize + SecTrailerSize + |token| < 0x1_0000 }

  function Tsgu(): SyntaxId { SyntaxId(TsguUuid, TsguSyntaxIfVersion) }
  function Ndr(): SyntaxId { SyntaxId(NdrUuid, NdrSyntaxIfVersion) }
  function Btfn(): SyntaxId { SyntaxId(BtfnUuid, BtfnSyntaxIfVersion) }

  /** The sec_trailer both PDUs carry: NTLM at packet-integrity level, context 0, with the pad
      that aligns an auth verifier placed after bodySize bytes. */
  function NtlmAuthVerifier(bodySize: nat, token: seq<byte>): (a: AuthVerifier)
  {
    AuthVerifier(AuthnWinNT, AuthnLevelPktIntegrity, (Align4(bodySize) - bodySize) as byte, 0, 0, token)
  }

  /** The bind PDU as rpc_send_bind_pdu fills it in: both contexts offer the TSGU abstract
      syntax, context 0 with NDR and context 1 with BTFN, and frag_length is the aligned
      trailer offset plus the sec_trailer plus the token. */
  function MakeBindPdu(maxXmitFrag: u16, maxRecvFrag: u16, token: seq<byte>): (p: BindPdu)
    requires BindTokenFits(token)
    ensures BindWellFormed(p)
  {
    var offset := Align4(BindBodySize);
    var p := BindPdu(
      CommonHeader(RpcVers, RpcVersMinor, PTypeBind, BindFlags, PackedDrep,
                   offset + SecTrailerSize + |token|, |token|, BindCallId),
      maxXmitFrag, maxRecvFrag, 0,
      [ContextElem(0, Tsgu(), [Ndr()]), ContextElem(1, Tsgu(), [Btfn()])],
      NtlmAuthVerifier(BindBodySize, token));
    BindBodyLength(p);
    p
  }

  lemma BindBodyLength(p: BindPdu)
    requires HeaderValid(p.header)
    requires p.contexts == [ContextElem(0, Tsgu(), [Ndr()]), ContextElem(1, Tsgu(), [Btfn()])]
    ensures BindBodyValid(p) && |BindBody(p)| == BindBodySize
  {
    var e0, e1 := p.contexts[0], p.contexts[1];
    assert e0.Valid() && e1.Valid();
    assert p.contexts[1..] == [e1] && [e1][1..] == [];
    assert |EncodeContexts([e1])| == 44;
    assert |EncodeContexts(p.contexts)| == 88;
  }

  /** The rpc_auth_3 PDU as rpc_send_rpc_auth_3_pdu fills it in. */
  function MakeRpcAuth3Pdu(maxXmitFrag: u16, maxRecvFrag: u16, token: seq<byte>): (p: RpcAuth3Pdu)
    requires RpcAuth3TokenFits(token)
    ensures RpcAuth3WellFormed(p)
  {
    var offset := Align4(RpcAuth3BodySize);
    RpcAuth3Pdu(
      CommonHeader(RpcVers, RpcVersMinor, PTypeRpcAuth3, RpcAuth3Flags, PackedDrep,
                   offset + SecTrailerSize + |token|, |token|, BindCallId),
      maxXmitFrag, maxRecvFrag,
      NtlmAuthVerifier(RpcAuth3BodySize, token))
  }

  // ---------------------------------------------------------------------------------------
  // The byte layout of the two PDUs the client sends

  /** A bind PDU is exactly as long as the frag_length it announces: the aligned trailer
      offset 116, the 8-byte sec_trailer and the token; auth_length is the token's length,
      and the last auth_length bytes before frag_length are the token. */
  lemma BindLength(maxXmitFrag: u16, maxRecvFrag: u16, token: seq<byte>)
    requires BindTokenFits(token)
    ensures var b := SerializeBind(MakeBindPdu(maxXmitFrag, maxRecvFrag, token));
      |b| == Align4(BindBodySize) + SecTrailerSize + |token| == 124 + |token| &&
      FragLength(b) == |b| && AuthLength(b) == |token| && TrailingToken(b) == token
  {
    var p := MakeBindPdu(maxXmitFrag, maxRecvFrag, token);
    BindHeaderPrefix(p);
    TrailingTokenOfEncoding(p.header, BindBody(p), p.authVerifier);
  }

  lemma BindHeaderPrefix(p: BindPdu)
    requires BindBodyValid(p)
    ensures |BindBody(p)| >= CommonHeaderSize && BindBody(p)[..CommonHeaderSize] == EncodeCommonHeader(p.header)
  {
    var hd := EncodeBindHeader(p.header, p.maxXmitFrag, p.maxRecvFrag, p.assocGroupId);
    var l := EncodeContextListHeader(|p.contexts| as byte);
    TakeOfAppend(hd + l, EncodeContexts(p.contexts), CommonHeaderSize);
    TakeOfAppend(hd, l, CommonHeaderSize);
    assert hd[..CommonHeaderSize] == EncodeCommonHeader(p.header);
  }

  /** Two context elements with one transfer syntax each, as the four pieces they encode to. */
  lemma TwoContextsPieces(e0: ContextElem, e1: ContextElem)
    requires e0.Valid() && e1.Valid() && |e0.transferSyntaxes| == 1 && |e1.transferSyntaxes| == 1
    ensures EncodeContexts([e0, e1]) ==
      EncodeContextElemHeader(e0) + EncodeSyntaxId(e0.transferSyntaxes[0])
      + EncodeContextElemHeader(e1) + EncodeSyntaxId(e1.transferSyntaxes[0])
  {
    var c0 := EncodeContextElemHeader(e0) + EncodeSyntaxId(e0.transferSyntaxes[0]);
    var c1 := EncodeContextElemHeader(e1) + EncodeSyntaxId(e1.transferSyntaxes[0]);
    assert e0.transferSyntaxes[1..] == [] && e1.transferSyntaxes[1..] == [];
    assert EncodeContextElem(e0) == c0 && EncodeContextElem(e1) == c1;
    assert [e0, e1][1..] == [e1] && [e1][1..] == [];
    assert EncodeContexts([e1]) == c1 + EncodeContexts([]);
    assert EncodeContexts([e0, e1]) == c0 + EncodeContexts([e1]);
  }

  /** A bind PDU with two single-syntax contexts and no pad, as the pieces it encodes to. */
  lemma BindPiecesOf(p: BindPdu)
    requires BindBodyValid(p) && p.authVerifier.authPadLength == 0
    requires |p.contexts| == 2 && |p.contexts[0].transferSyntaxes| == 1 && |p.contexts[1].transferSyntaxes| == 1
    ensures var e0, e1 := p.contexts[0], p.contexts[1];
      SerializeBind(p) ==
        EncodeBindHeader(p.header, p.maxXmitFrag, p.maxRecvFrag, p.assocGroupId) + EncodeContextListHeader(2)
        + EncodeContextElemHeader(e0) + EncodeSyntaxId(e0.transferSyntaxes[0])
        + EncodeContextElemHeader(e1) + EncodeSyntaxId(e1.transferSyntaxes[0])
        + EncodeSecTrailer(p.authVerifier) + p.authVerifier.authValue
  {
    var e0, e1 := p.contexts[0], p.contexts[1];
    assert p.contexts == [e0, e1];
    assert e0.Valid() && e1.Valid();
    TwoContextsPieces(e0, e1);
    assert EncodeAuthVerifier(p.authVerifier) == [] + EncodeSecTrailer(p.authVerifier) + p.authVerifier.authValue;
  }

  /** The bind PDU as the sequence of pieces rpc_send_bind_pdu copies into its buffer. */
  lemma BindPieces(maxXmitFrag: u16, maxRecvFrag: u16, token: seq<byte>)
    requires BindTokenFits(token)
    ensures var p := MakeBindPdu(maxXmitFrag, maxRecvFrag, token);
      var e0, e1 := p.contexts[0], p.contexts[1];
      e0.Valid() && e1.Valid() &&
      SerializeBind(p) ==
        EncodeBindHeader(p.header, maxXmitFrag, maxRecvFrag, 0) + EncodeContextListHeader(2)
        + EncodeContextElemHeader(e0) + EncodeSyntaxId(Ndr())
        + EncodeContextElemHeader(e1) + EncodeSyntaxId(Btfn())
        + EncodeSecTrailer(p.authVerifier) + token
  {
    var p := MakeBindPdu(maxXmitFrag, maxRecvFrag, token);
    assert p.contexts[0].Valid() && p.contexts[1].Valid();
    BindPiecesOf(p);
  }

  /** The header of the bind PDU: version 5.0, ptype bind, flags first-frag, last-frag,
      support-header-sign and conc-mpx (0x17), call id 2, the client's proposed fragment sizes,
      a new association group (0), and the lengths of the PDU and of the token. */
  lemma BindHeaderLayout(maxXmitFrag: u16, maxRecvFrag: u16, token: seq<byte>)
    requires BindTokenFits(token)
    ensures var b := SerializeBind(MakeBindPdu(maxXmitFrag, maxRecvFrag, token));
      |b| == 124 + |token| &&
      b[0] == RpcVers && b[1] == RpcVersMinor && b[2] == PTypeBind && b[3] == BindFlags == 0x17 &&
      b[4..8] == PackedDrep && FragLength(b) == |b| && AuthLength(b) == |token| &&
      CallId(b) == BindCallId && MaxXmitFrag(b) == maxXmitFrag && MaxRecvFrag(b) == maxRecvFrag &&
      AssocGroupId(b) == 0
  {
    var p := MakeBindPdu(maxXmitFrag, maxRecvFrag, token);
    var b := SerializeBind(p);
    BindLength(maxXmitFrag, maxRecvFrag, token);
    BindPiecesAt(p);
    var hd := b[..24];
    BindHeaderRoundTrip(p.header, maxXmitFrag, maxRecvFrag, 0);
    assert DecodeBindHeader(hd) == (p.header, maxXmitFrag, maxRecvFrag, 0);
    assert ParseCommonHeader(hd[..16]) == p.header;
    assert b[16..18] == hd[16..18] && b[18..20] == hd[18..20] && b[20..24] == hd[20..24];
    assert b[12..16] == hd[..16][12..16] && b[4..8] == hd[..16][4..8];
  }

  /** The presentation context list of the bind PDU: two elements (n_context_elem 2, zero
      reserved bytes); at 28 the header of element 0 (TSGU abstract syntax, one transfer
      syntax) and at 52 its NDR transfer syntax; at 72 the header of element 1 and at 96 its
      BTFN transfer syntax. ContextElemHeaderFields says what each header's bytes hold. */
  lemma BindContextLayout(maxXmitFrag: u16, maxRecvFrag: u16, token: seq<byte>)
    requires BindTokenFits(token)
    ensures var b := SerializeBind(MakeBindPdu(maxXmitFrag, maxRecvFrag, token));
      |b| >= 116 &&
      b[24..28] == [2, 0, 0, 0] &&
      b[28..52] == EncodeContextElemHeader(ContextElem(0, Tsgu(), [Ndr()])) &&
      DecodeSyntaxId(b[52..72]) == Ndr() &&
      b[72..96] == EncodeContextElemHeader(ContextElem(1, Tsgu(), [Btfn()])) &&
      DecodeSyntaxId(b[96..116]) == Btfn()
  {
    var p := MakeBindPdu(maxXmitFrag, maxRecvFrag, token);
    var e0, e1 := p.contexts[0], p.contexts[1];
    BindPieces(maxXmitFrag, maxRecvFrag, token);
    Pieces8(EncodeBindHeader(p.header, maxXmitFrag, maxRecvFrag, 0), EncodeContextListHeader(2),
            EncodeContextElemHeader(e0), EncodeSyntaxId(Ndr()), EncodeContextElemHeader(e1),
            EncodeSyntaxId(Btfn()), EncodeSecTrailer(p.authVerifier), token);
    SyntaxIdRoundTrip(Ndr());
    SyntaxIdRoundTrip(Btfn());
  }

  /** The auth verifier of the bind PDU: the body already ends on a 4-byte boundary, so the
      sec_trailer sits at offset 116 with no pad (NTLM, packet integrity, context 0) and the
      token follows it at offset 124 up to the end of the PDU. */
  lemma BindTrailerLayout(maxXmitFrag: u16, maxRecvFrag: u16, token: seq<byte>)
    requires BindTokenFits(token)
    ensures var b := SerializeBind(MakeBindPdu(maxXmitFrag, maxRecvFrag, token));
      var offset := Align4(BindBodySize);
      offset == BindBodySize && |b| == offset + SecTrailerSize + |token| &&
      b[offset..offset + SecTrailerSize] == [AuthnWinNT, AuthnLevelPktIntegrity, 0, 0, 0, 0, 0, 0] &&
      b[offset + SecTrailerSize..] == token
  {
    var p := MakeBindPdu(maxXmitFrag, maxRecvFrag, token);
    var e0, e1 := p.contexts[0], p.contexts[1];
    BindPieces(maxXmitFrag, maxRecvFrag, token);
    Pieces8(EncodeBindHeader(p.header, maxXmitFrag, maxRecvFrag, 0), EncodeContextListHeader(2),
            EncodeContextElemHeader(e0), EncodeSyntaxId(Ndr()), EncodeContextElemHeader(e1),
            EncodeSyntaxId(Btfn()), EncodeSecTrailer(p.authVerifier), token);
    assert LE32(0) == [0, 0, 0, 0];
  }

  /** The rpc_auth_3 PDU as the three pieces rpc_send_rpc_auth_3_pdu copies into its buffer:
      the 20-byte header, the sec_trailer (no pad is needed after 20 bytes) and the token. */
  lemma RpcAuth3Pieces(maxXmitFrag: u16, maxRecvFrag: u16, token: seq<byte>)
    requires RpcAuth3TokenFits(token)
    ensures var p := MakeRpcAuth3Pdu(maxXmitFrag, maxRecvFrag, token);
      SerializeRpcAuth3(p) ==
        EncodeRpcAuth3Header(p.header, maxXmitFrag, maxRecvFrag) + EncodeSecTrailer(p.authVerifier) + token
  {
    var p := MakeRpcAuth3Pdu(maxXmitFrag, maxRecvFrag, token);
    assert EncodeAuthVerifier(p.authVerifier) == [] + EncodeSecTrailer(p.authVerifier) + token;
  }

  /** The rpc_auth_3 PDU: version 5.0, ptype rpc_auth_3 (0x10), flags first-frag, last-frag and
      conc-mpx (0x13), the bind's call id 2, the negotiated fragment sizes, a frag_length of
      20 + 8 + auth_length, the sec_trailer at offset 20 and the token at offset 28. */
  lemma RpcAuth3Layout(maxXmitFrag: u16, maxRecvFrag: u16, token: seq<byte>)
    requires RpcAuth3TokenFits(token)
    ensures var b := SerializeRpcAuth3(MakeRpcAuth3Pdu(maxXmitFrag, maxRecvFrag, token));
      var offset := Align4(RpcAuth3BodySize);
      offset == RpcAuth3BodySize && |b| == offset + SecTrailerSize + |token| &&
      b[0] == RpcVers && b[1] == RpcVersMinor && b[2] == PTypeRpcAuth3 == 0x10 &&
      b[3] == RpcAuth3Flags == 0x13 && b[4..8] == PackedDrep &&
      FragLength(b) == |b| && AuthLength(b) == |token| && CallId(b) == BindCallId &&
      MaxXmitFrag(b) == maxXmitFrag && MaxRecvFrag(b) == maxRecvFrag &&
      b[offset..offset + SecTrailerSize] == [AuthnWinNT, AuthnLevelPktIntegrity, 0, 0, 0, 0, 0, 0] &&
      b[offset + SecTrailerSize..] == token && TrailingToken(b) == token
  {
    var p := MakeRpcAuth3Pdu(maxXmitFrag, maxRecvFrag, token);
    var b := SerializeRpcAuth3(p);
    var hd := EncodeRpcAuth3Header(p.header, maxXmitFrag, maxRecvFrag);
    var tr := EncodeSecTrailer(p.authVerifier);
    RpcAuth3Pieces(maxXmitFrag, maxRecvFrag, token);
    assert b[..20] == hd && b[20..28] == tr && b[28..] == token;
    RpcAuth3HeaderRoundTrip(p.header, maxXmitFrag, maxRecvFrag);
    assert ParseCommonHeader(hd[..16]) == p.header;
    assert b[16..18] == hd[16..18] && b[18..20] == hd[18..20];
    assert b[12..16] == hd[..16][12..16] && b[4..8] == hd[..16][4..8];
    TrailingTokenOfEncoding(p.header, hd, p.authVerifier);
    assert LE32(0) == [0, 0, 0, 0];
  }

  // ---------------------------------------------------------------------------------------
  // Writing the PDUs into a buffer

  /** CopyMemory(&buffer[offset], src, |src|) when the first offset bytes of buffer already
      hold what was written before: afterwards they are followed by src, and the bytes past
      src are as they were. */
  method CopyBytes(buffer: array<byte>, offset: nat, src: seq<byte>, ghost written: seq<byte>)
    requires offset + |src| <= buffer.Length
    requires buffer[..offset] == written
    modifies buffer
    ensures buffer[..offset + |src|] == written + src
    ensures buffer[offset + |src|..] == old(buffer[offset + |src|..])
  {
    var i := 0;
    while i < |src|
      invariant 0 <= i <= |src|
      invariant buffer[..offset + i] == written + src[..i]
      invariant buffer[offset + |src|..] == old(buffer[offset + |src|..])
    {
      buffer[offset + i] := src[i];
      i := i + 1;
    }
  }

  /** The buffer rpc_send_bind_pdu allocates (frag_length bytes) and fills piece by piece:
      header, context list header, each context element followed by its transfer syntax, then
      the sec_trailer at the aligned offset and the token after it. */
  method EncodeBind(maxXmitFrag: u16, maxRecvFrag: u16, token: seq<byte>) returns (buffer: array<byte>)
    requires BindTokenFits(token)
    ensures fresh(buffer)
    ensures buffer[..] == SerializeBind(MakeBindPdu(maxXmitFrag, maxRecvFrag, token))
  {
    var pdu := MakeBindPdu(maxXmitFrag, maxRecvFrag, token);
    var e0, e1 := pdu.contexts[0], pdu.contexts[1];
    BindPieces(maxXmitFrag, maxRecvFrag, token);
    BindLength(maxXmitFrag, maxRecvFrag, token);
    buffer := new byte[pdu.header.fragLength];
    var hd := EncodeBindHeader(pdu.header, pdu.maxXmitFrag, pdu.maxRecvFrag, pdu.assocGroupId);
    var list := EncodeContextListHeader(2);
    var elem0, syn0 := EncodeContextElemHeader(e0), EncodeSyntaxId(e0.transferSyntaxes[0]);
    var elem1, syn1 := EncodeContextElemHeader(e1), EncodeSyntaxId(e1.transferSyntaxes[0]);
    var trailer := EncodeSecTrailer(pdu.authVerifier);
    CopyBytes(buffer, 0, hd, []);
    CopyBytes(buffer, 24, list, hd);
    CopyBytes(buffer, 28, elem0, hd + list);
    CopyBytes(buffer, 52, syn0, hd + list + elem0);
    CopyBytes(buffer, 72, elem1, hd + list + elem0 + syn0);
    CopyBytes(buffer, 96, syn1, hd + list + elem0 + syn0 + elem1);
    var offset := BindBodySize + pdu.authVerifier.authPadLength as int;
    CopyBytes(buffer, offset, trailer, hd + list + elem0 + syn0 + elem1 + syn1);
    CopyBytes(buffer, offset + SecTrailerSize, token, hd + list + elem0 + syn0 + elem1 + syn1 + trailer);
    assert buffer[..] == buffer[..offset + SecTrailerSize + |token|];
  }

  /** The buffer rpc_send_rpc_auth_3_pdu allocates and fills: the 20-byte header, the
      sec_trailer at the aligned offset and the token after it. */
  method EncodeRpcAuth3(maxXmitFrag: u16, maxRecvFrag: u16, token: seq<byte>) returns (buffer: array<byte>)
    requires RpcAuth3TokenFits(token)
    ensures fresh(buffer)
    ensures buffer[..] == SerializeRpcAuth3(MakeRpcAuth3Pdu(maxXmitFrag, maxRecvFrag, token))
  {
    var pdu := MakeRpcAuth3Pdu(maxXmitFrag, maxRecvFrag, token);
    RpcAuth3Pieces(maxXmitFrag, maxRecvFrag, token);
    buffer := new byte[pdu.header.fragLength];
    var hd := EncodeRpcAuth3Header(pdu.header, pdu.maxXmitFrag, pdu.maxRecvFrag);
    var trailer := EncodeSecTrailer(pdu.authVerifier);
    CopyBytes(buffer, 0, hd, []);
    var offset := RpcAuth3BodySize + pdu.authVerifier.authPadLength as int;
    CopyBytes(buffer, offset, trailer, hd);
    CopyBytes(buffer, offset + SecTrailerSize, token, hd + trailer);
    assert buffer[..] == buffer[..offset + SecTrailerSize + |token|];
  }

  // ---------------------------------------------------------------------------------------
  // Gateway credentials

  /** What the application's gateway-authentication callback does when it is asked. */
  datatype PromptOutcome = NoCallback | Declined | Accepted

  /** The gateway credentials in the settings, what the callback does with them, whether the
      settings ask to reuse them for the session, and whether each of the three copies made
      for that reuse could be allocated. */
  datatype GatewayLogin = GatewayLogin(username: Option<string>, password: Option<string>,
                                       prompt: PromptOutcome, useSameCredentials: bool,
                                       usernameCopied: bool, domainCopied: bool, passwordCopied: bool)

  datatype LoginResult = Proceed | Cancelled | Failed

  /** The client prompts when either credential is absent or empty. */
  predicate CredentialsMissing(l: GatewayLogin)
  {
    l.password.None? || l.username.None? || |l.password.value| == 0 || |l.username.value| == 0
  }

  /** The credential step of rpc_send_bind_pdu exactly as written: after the user accepts the
      prompt with credential reuse on, the step fails when the username or domain copy failed
      or when the password copy SUCCEEDED. */
  function LoginStepAsWritten(l: GatewayLogin): (r: LoginResult)
    ensures r == Cancelled <==> CredentialsMissing(l) && l.prompt == Declined
  {
    if !CredentialsMissing(l) || l.prompt.NoCallback? then Proceed
    else if l.prompt.Declined? then Cancelled
    else if l.useSameCredentials && (!l.usernameCopied || !l.domainCopied || l.passwordCopied) then Failed
    else Proceed
  }

  /** The credential step with the evident intent: it fails only when one of the copies could
      not be allocated. */
  function LoginStep(l: GatewayLogin): (r: LoginResult)
    ensures r == Cancelled <==> CredentialsMissing(l) && l.prompt == Declined
    ensures r == Failed <==>
      CredentialsMissing(l) && l.prompt == Accepted && l.useSameCredentials &&
      !(l.usernameCopied && l.domainCopied && l.passwordCopied)
  {
    if !CredentialsMissing(l) || l.prompt.NoCallback? then Proceed
    else if l.prompt.Declined? then Cancelled
    else if l.useSameCredentials && (!l.usernameCopied || !l.domainCopied || !l.passwordCopied) then Failed
    else Proceed
  }

  /** As written, a prompt accepted with credential reuse on proceeds only if the password copy
      failed, and fails whenever all three copies succeed; the corrected step does the reverse. */
  lemma LoginStepAsWrittenInverted(l: GatewayLogin)
    requires CredentialsMissing(l) && l.prompt == Accepted && l.useSameCredentials
    requires l.usernameCopied && l.domainCopied
    ensures LoginStepAsWritten(l) == (if l.passwordCopied then Failed else Proceed)
    ensures LoginStep(l) == (if l.passwordCopied then Proceed else Failed)
  {
  }

  /** The two steps agree everywhere except on an accepted prompt with credential reuse whose
      username and domain copies succeeded. */
  lemma LoginStepsAgreeElsewhere(l: GatewayLogin)
    requires !(CredentialsMissing(l) && l.prompt == Accepted && l.useSameCredentials &&
               l.usernameCopied && l.domainCopied)
    ensures LoginStepAsWritten(l) == LoginStep(l)
  {
  }

  // ---------------------------------------------------------------------------------------
  // The client's connection state

  /** An entry of the client call list: the call id and opnum a response is matched against. */
  datatype ClientCall = ClientCall(callId: u32, opNum: u32)

  /** The NTLM security context: the token last received from the server (absent until one
      is, or when its buffer could not be allocated) and the token it produced to send next. */
  datatype NtlmContext = NtlmContext(inputToken: Option<seq<byte>>, outputToken: seq<byte>)

  /** The int cast of rpc_recv_bind_ack_pdu's UINT32 length (two's complement, 32 bits). */
  function Int32Of(x: u32): int
  {
    if x < 0x8000_0000 then x else x - 0x1_0000_0000
  }

  /** The part of rdpRpc the bind handshake reads and writes. */
  class RpcClient {
    var maxXmitFrag: u16
    var maxRecvFrag: u16
    var clientCalls: seq<ClientCall>
    var ntlm: Option<NtlmContext>

    constructor (maxXmitFrag: u16, maxRecvFrag: u16)
      ensures this.maxXmitFrag == maxXmitFrag && this.maxRecvFrag == maxRecvFrag
      ensures clientCalls == [] && ntlm == None
    {
      this.maxXmitFrag := maxXmitFrag;
      this.maxRecvFrag := maxRecvFrag;
      clientCalls := [];
      ntlm := None;
    }

    /** rpc_send_bind_pdu. The old NTLM context is replaced by a new one (ntlmCreated says
        whether it could be); credentials is the outcome of the credential step
        (LoginStepAsWritten computes it as the code does), which may cancel (0) or fail (-1);
        authToken is
        what initialising the context and its first authenticate step produce (None if any of
        them fails); pduAllocated covers the allocations of the PDU and its buffer, callAdded
        the creation of the client call and its addition to the call list; transportStatus is
        what the in channel returns for the bytes it is given. Exactly one call (2, 0) is
        registered before anything is sent, and the result is 1 iff the send succeeded. */
    method SendBindPdu(ntlmCreated: bool, credentials: LoginResult, authToken: Option<seq<byte>>,
                       pduAllocated: bool, callAdded: bool, transportStatus: int)
      returns (status: int, sent: Option<seq<byte>>)
      requires authToken.Some? ==> BindTokenFits(authToken.value)
      modifies this
      ensures maxXmitFrag == old(maxXmitFrag) && maxRecvFrag == old(maxRecvFrag)
      ensures ntlm == if !ntlmCreated then None
                      else if credentials == Proceed && authToken.Some?
                      then Some(NtlmContext(None, authToken.value))
                      else Some(NtlmContext(None, []))
      ensures sent.Some? <==>
        ntlmCreated && credentials == Proceed && authToken.Some? && pduAllocated && callAdded
      ensures clientCalls == if sent.Some? then old(clientCalls) + [ClientCall(BindCallId, BindOpNum)]
                             else old(clientCalls)
      ensures sent.Some? ==>
        sent.value == SerializeBind(MakeBindPdu(maxXmitFrag, maxRecvFrag, authToken.value)) &&
        status == if transportStatus > 0 then 1 else -1
      ensures sent.None? ==>
        status == if ntlmCreated && credentials == Cancelled then 0 else -1
    {
      sent := None;
      if !ntlmCreated {
        ntlm := None;
        return -1, sent;
      }
      ntlm := Some(NtlmContext(None, []));
      if credentials == Cancelled {
        return 0, sent;
      } else if credentials == Failed {
        return -1, sent;
      }
      if authToken.None? {
        return -1, sent;
      }
      var token := authToken.value;
      ntlm := Some(NtlmContext(None, token));
      if !pduAllocated {
        return -1, sent;
      }
      var buffer := EncodeBind(maxXmitFrag, maxRecvFrag, token);
      if !callAdded {
        return -1, sent;
      }
      clientCalls := clientCalls + [ClientCall(BindCallId, BindOpNum)];
      sent := Some(buffer[..]);
      status := if transportStatus > 0 then 1 else -1;
    }

    /** rpc_recv_bind_ack_pdu. The fragment sizes are swapped in from the bind_ack first: the
        server's max_xmit_frag becomes the client's max_recv_frag and its max_recv_frag the
        client's max_xmit_frag. Then the trailing auth_length bytes before frag_length become
        the NTLM input token (if its buffer can be allocated) and the context's next token is
        nextToken; the result is the received length cast to int. The header is not checked:
        the caller must hand over a buffer that holds at least the bind_ack's fragment sizes
        (the first length bytes of buffer) and whose token lies inside them. */
    method RecvBindAckPdu(buffer: array<byte>, length: u32, inputAllocated: bool, nextToken: seq<byte>)
      returns (status: int)
      requires ntlm.Some?
      requires 20 <= length <= buffer.Length
      requires AuthLength(buffer[..]) <= FragLength(buffer[..]) <= length
      modifies this
      ensures maxRecvFrag == MaxXmitFrag(buffer[..])
      ensures maxXmitFrag == MaxRecvFrag(buffer[..])
      ensures clientCalls == old(clientCalls)
      ensures ntlm == if inputAllocated then Some(NtlmContext(Some(TrailingToken(buffer[..])), nextToken))
                      else Some(old(ntlm.value).(inputToken := None))
      ensures status == if inputAllocated then Int32Of(length) else -1
    {
      var header := buffer[..20];
      maxRecvFrag := ReadU16(header[16..18]);
      maxXmitFrag := ReadU16(header[18..20]);
      if !inputAllocated {
        ntlm := Some(ntlm.value.(inputToken := None));
        return -1;
      }
      var fragLength, authLength := ReadU16(buffer[8..10]), ReadU16(buffer[10..12]);
      var authData := buffer[fragLength - authLength..fragLength];
      ntlm := Some(NtlmContext(Some(authData), nextToken));
      status := Int32Of(length);
    }

    /** rpc_send_rpc_auth_3_pdu: sends the NTLM context's output token in an rpc_auth_3 PDU
        built with the negotiated fragment sizes, registering one more call (2, 0) first; the
        result is 1 iff the send succeeded and -1 otherwise. */
    method SendRpcAuth3Pdu(pduAllocated: bool, callAdded: bool, transportStatus: int)
      returns (status: int, sent: Option<seq<byte>>)
      requires ntlm.Some? && RpcAuth3TokenFits(ntlm.value.outputToken)
      modifies this
      ensures maxXmitFrag == old(maxXmitFrag) && maxRecvFrag == old(maxRecvFrag) && ntlm == old(ntlm)
      ensures sent.Some? <==> pduAllocated && callAdded
      ensures clientCalls == if sent.Some? then old(clientCalls) + [ClientCall(BindCallId, BindOpNum)]
                             else old(clientCalls)
      ensures sent.Some? ==>
        sent.value == SerializeRpcAuth3(MakeRpcAuth3Pdu(maxXmitFrag, maxRecvFrag, ntlm.value.outputToken))
      ensures status == if sent.Some? && transportStatus > 0 then 1 else -1
    {
      status, sent := -1, None;
      if !pduAllocated {
        return;
      }
      var buffer := EncodeRpcAuth3(maxXmitFrag, maxRecvFrag, ntlm.value.outputToken);
      if callAdded {
        clientCalls := clientCalls + [ClientCall(BindCallId, BindOpNum)];
        sent := Some(buffer[..]);
        status := if transportStatus > 0 then 1 else -1;
      }
    }
  }

  /** The secure bind exchange from the client's side when every step succeeds: BIND with the
      first NTLM token, BIND_ACK with the server's challenge, RPC_AUTH_3 with the token the
      context produced from it. Both PDUs the client sends belong to call 2; the bind proposes
      the client's fragment sizes, and rpc_auth_3 carries the sizes of the bind_ack swapped. */
  method SecureBind(rpc: RpcClient, authToken: seq<byte>,
                    ack: array<byte>, nextToken: seq<byte>)
    returns (bind: seq<byte>, auth3: seq<byte>)
    requires BindTokenFits(authToken) && RpcAuth3TokenFits(nextToken)
    requires 20 <= ack.Length < 0x8000_0000
    requires AuthLength(ack[..]) <= FragLength(ack[..]) <= ack.Length
    modifies rpc
    ensures rpc.clientCalls == old(rpc.clientCalls) + [ClientCall(BindCallId, BindOpNum), ClientCall(BindCallId, BindOpNum)]
    ensures |bind| >= 24 && |auth3| >= 20
    ensures MaxXmitFrag(bind) == old(rpc.maxXmitFrag) && MaxRecvFrag(bind) == old(rpc.maxRecvFrag)
    ensures rpc.maxRecvFrag == MaxXmitFrag(ack[..]) && rpc.maxXmitFrag == MaxRecvFrag(ack[..])
    ensures MaxXmitFrag(auth3) == MaxRecvFrag(ack[..]) && MaxRecvFrag(auth3) == MaxXmitFrag(ack[..])
    ensures CallId(bind) == CallId(auth3) == BindCallId
    ensures AuthLength(bind) <= FragLength(bind) == |bind| && TrailingToken(bind) == authToken
    ensures AuthLength(auth3) <= FragLength(auth3) == |auth3| && TrailingToken(auth3) == nextToken
    ensures rpc.ntlm == Some(NtlmContext(Some(TrailingToken(ack[..])), nextToken))
  {
    var x, r := rpc.maxXmitFrag, rpc.maxRecvFrag;
    var status, sent := rpc.SendBindPdu(true, Proceed, Some(authToken), true, true, 1);
    bind := sent.value;
    BindHeaderLayout(x, r, authToken);
    BindLength(x, r, authToken);
    status := rpc.RecvBindAckPdu(ack, ack.Length as u32, true, nextToken);
    status, sent := rpc.SendRpcAuth3Pdu(true, true, 1);
    auth3 := sent.value;
    RpcAuth3Layout(rpc.maxXmitFrag, rpc.maxRecvFrag, nextToken);
  }
}

/** The connection-oriented RPC PDU formats this core writes and reads (DCE 1.1 RPC,
    Open Group C706 chapter 12, with the sec_trailer of MS-RPCE section 2.2.2.11 and the
    rpc_auth_3 PDU of MS-RPCE section 2.2.2.10): the fields as datatypes, their byte-exact
    serialization, and a parser that recovers them. */
module RpcPdu {
  import opened Bytes

  // Packet types (C706 section 12.6.4.1; rpc_auth_3 from MS-RPCE section 2.2.2.1).
  const PTypeBind: byte := 0x0B
  const PTypeRpcAuth3: byte := 0x10

  // pfc_flags bits (C706 section 12.6.3.1; bit 0x04 is PFC_SUPPORT_HEADER_SIGN in MS-RPCE).
  const PfcFirstFrag: byte := 0x01
  const PfcLastFrag: byte := 0x02
  const PfcSupportHeaderSign: byte := 0x04
  const PfcConcMpx: byte := 0x10

  // sec_trailer values: the NTLM authentication service and the packet-integrity level.
  const AuthnWinNT: byte := 0x0A
  const AuthnLevelPktIntegrity: byte := 0x05

  /** Sizes of the fixed parts, in bytes. */
  const CommonHeaderSize := 16
  const UuidSize := 16
  const SyntaxIdSize := 20
  const ContextElemHeaderSize := 24
  const SecTrailerSize := 8

  /** A DCE UUID as the p_uuid_t structure holds it. */
  datatype Uuid = Uuid(timeLow: u32, timeMid: u16, timeHiAndVersion: u16,
                       clockSeqHiAndReserved: byte, clockSeqLow: byte, node: seq<byte>)
  {
    predicate Valid() { |node| == 6 }
  }

  /** An interface or transfer syntax: a UUID and a 32-bit version. */
  datatype SyntaxId = SyntaxId(ifUuid: Uuid, ifVersion: u32)

  /** A presentation context element; n_transfer_syn is the length of transferSyntaxes and
      the reserved byte is always written as zero. */
  datatype ContextElem = ContextElem(contId: u16, abstractSyntax: SyntaxId, transferSyntaxes: seq<SyntaxId>)
  {
    predicate Valid()
    {
      abstractSyntax.ifUuid.Valid() && |transferSyntaxes| < 0x100 &&
      forall i :: 0 <= i < |transferSyntaxes| ==> transferSyntaxes[i].ifUuid.Valid()
    }
  }

  /** The 16-byte common header of every connection-oriented PDU. */
  datatype CommonHeader = CommonHeader(rpcVers: byte, rpcVersMinor: byte, ptype: byte, pfcFlags: byte,
                                       packedDrep: seq<byte>, fragLength: u16, authLength: u16, callId: u32)

  /** The auth verifier: the pad that aligns it, the 8-byte sec_trailer and the token. */
  datatype AuthVerifier = AuthVerifier(authType: byte, authLevel: byte, authPadLength: byte, authReserved: byte,
                                       authContextId: u32, authValue: seq<byte>)

  datatype BindPdu = BindPdu(header: CommonHeader, maxXmitFrag: u16, maxRecvFrag: u16, assocGroupId: u32,
                             contexts: seq<ContextElem>, authVerifier: AuthVerifier)

  datatype RpcAuth3Pdu = RpcAuth3Pdu(header: CommonHeader, maxXmitFrag: u16, maxRecvFrag: u16,
                                     authVerifier: AuthVerifier)

  // ---------------------------------------------------------------------------------------
  // Serialization

  function EncodeUuid(u: Uuid): (r: seq<byte>)
    requires u.Valid()
    ensures |r| == UuidSize
  {
    LE32(u.timeLow) + LE16(u.timeMid) + LE16(u.timeHiAndVersion)
      + [u.clockSeqHiAndReserved, u.clockSeqLow] + u.node
  }

  function EncodeSyntaxId(s: SyntaxId): (r: seq<byte>)
    requires s.ifUuid.Valid()
    ensures |r| == SyntaxIdSize
  {
    EncodeUuid(s.ifUuid) + LE32(s.ifVersion)
  }

  function EncodeSyntaxIds(ss: seq<SyntaxId>): (r: seq<byte>)
    requires forall i :: 0 <= i < |ss| ==> ss[i].ifUuid.Valid()
    ensures |r| == SyntaxIdSize * |ss|
  {
    if ss == [] then [] else EncodeSyntaxId(ss[0]) + EncodeSyntaxIds(ss[1..])
  }

  /** The fixed 24 bytes of a context element: p_cont_id, n_transfer_syn, reserved and the
      abstract syntax. */
  function EncodeContextElemHeader(e: ContextElem): (r: seq<byte>)
    requires e.Valid()
    ensures |r| == ContextElemHeaderSize
  {
    LE16(e.contId) + [|e.transferSyntaxes| as byte, 0] + EncodeSyntaxId(e.abstractSyntax)
  }

  function EncodeContextElem(e: ContextElem): (r: seq<byte>)
    requires e.Valid()
    ensures |r| == ContextElemHeaderSize + SyntaxIdSize * |e.transferSyntaxes|
  {
    EncodeContextElemHeader(e) + EncodeSyntaxIds(e.transferSyntaxes)
  }

  function EncodeContexts(es: seq<ContextElem>): (r: seq<byte>)
    requires forall i :: 0 <= i < |es| ==> es[i].Valid()
  {
    if es == [] then [] else EncodeContextElem(es[0]) + EncodeContexts(es[1..])
  }

  function EncodeCommonHeader(h: CommonHeader): (r: seq<byte>)
    requires |h.packedDrep| == 4
    ensures |r| == CommonHeaderSize
  {
    [h.rpcVers, h.rpcVersMinor, h.ptype, h.pfcFlags] + h.packedDrep
      + LE16(h.fragLength) + LE16(h.authLength) + LE32(h.callId)
  }

  /** The 8-byte sec_trailer: auth_type, auth_level, auth_pad_length, auth_reserved, auth_context_id. */
  function EncodeSecTrailer(a: AuthVerifier): (r: seq<byte>)
    ensures |r| == SecTrailerSize
  {
    [a.authType, a.authLevel, a.authPadLength, a.authReserved] + LE32(a.authContextId)
  }

  /** The auth verifier as it follows a PDU body: the pad bytes, the sec_trailer, the token. */
  function EncodeAuthVerifier(a: AuthVerifier): (r: seq<byte>)
    ensures |r| == a.authPadLength as int + SecTrailerSize + |a.authValue|
  {
    Zeros(a.authPadLength as nat) + EncodeSecTrailer(a) + a.authValue
  }

  /** The header of a PDU this core writes: a 4-byte drep. */
  predicate HeaderValid(h: CommonHeader) { |h.packedDrep| == 4 }

  /** The 24 bytes rpc_send_bind_pdu copies from its header structure: the common header,
      the two fragment sizes and the association group. */
  function EncodeBindHeader(h: CommonHeader, maxXmitFrag: u16, maxRecvFrag: u16, assocGroupId: u32): (r: seq<byte>)
    requires HeaderValid(h)
    ensures |r| == 24
  {
    EncodeCommonHeader(h) + LE16(maxXmitFrag) + LE16(maxRecvFrag) + LE32(assocGroupId)
  }

  /** The 20 bytes of the rpc_auth_3 header: the common header and the two fragment sizes. */
  function EncodeRpcAuth3Header(h: CommonHeader, maxXmitFrag: u16, maxRecvFrag: u16): (r: seq<byte>)
    requires HeaderValid(h)
    ensures |r| == 20
  {
    EncodeCommonHeader(h) + LE16(maxXmitFrag) + LE16(maxRecvFrag)
  }

  /** The 4-byte p_cont_list_t header: n_context_elem, reserved and reserved2, both zero. */
  function EncodeContextListHeader(n: byte): (r: seq<byte>)
    ensures |r| == 4
  {
    [n, 0] + LE16(0)
  }

  predicate BindBodyValid(p: BindPdu)
  {
    HeaderValid(p.header) && |p.contexts| < 0x100 &&
    forall i :: 0 <= i < |p.contexts| ==> p.contexts[i].Valid()
  }

  /** Everything in a bind PDU before its auth verifier. */
  function BindBody(p: BindPdu): (r: seq<byte>)
    requires BindBodyValid(p)
  {
    EncodeBindHeader(p.header, p.maxXmitFrag, p.maxRecvFrag, p.assocGroupId)
      + EncodeContextListHeader(|p.contexts| as byte) + EncodeContexts(p.contexts)
  }

  function SerializeBind(p: BindPdu): (r: seq<byte>)
    requires BindBodyValid(p)
  {
    BindBody(p) + EncodeAuthVerifier(p.authVerifier)
  }

  function SerializeRpcAuth3(p: RpcAuth3Pdu): (r: seq<byte>)
    requires HeaderValid(p.header)
  {
    EncodeRpcAuth3Header(p.header, p.maxXmitFrag, p.maxRecvFrag) + EncodeAuthVerifier(p.authVerifier)
  }

  /** The auth verifier placed after a body of bodyLength bytes: the pad (fewer than 4 bytes)
      puts the sec_trailer on a 4-byte boundary, and the header's lengths count the token and
      the whole PDU. */
  predicate TrailerConsistent(h: CommonHeader, a: AuthVerifier, bodyLength: nat)
  {
    PadAligns(bodyLength, a.authPadLength) &&
    h.authLength == |a.authValue| &&
    h.fragLength == bodyLength + a.authPadLength as int + SecTrailerSize + |a.authValue|
  }

  /** A pad of fewer than 4 bytes after bodyLength bytes reaches a 4-byte boundary. */
  predicate PadAligns(bodyLength: nat, pad: byte)
  {
    pad < 4 && (bodyLength + pad as int) % 4 == 0
  }

  predicate BindWellFormed(p: BindPdu)
  {
    BindBodyValid(p) && TrailerConsistent(p.header, p.authVerifier, |BindBody(p)|)
  }

  predicate RpcAuth3WellFormed(p: RpcAuth3Pdu)
  {
    HeaderValid(p.header) && TrailerConsistent(p.header, p.authVerifier, 20)
  }

  // ---------------------------------------------------------------------------------------
  // Parsing

  function FragLength(b: seq<byte>): u16
    requires |b| >= 10
  {
    ReadU16(b[8..10])
  }

  function AuthLength(b: seq<byte>): u16
    requires |b| >= 12
  {
    ReadU16(b[10..12])
  }

  /** call_id, the last field of the common header. */
  function CallId(b: seq<byte>): u32
    requires |b| >= 16
  {
    ReadU32(b[12..16])
  }

  /** max_xmit_frag, which bind, bind_ack and rpc_auth_3 all carry right after the common
      header. */
  function MaxXmitFrag(b: seq<byte>): u16
    requires |b| >= 18
  {
    ReadU16(b[16..18])
  }

  /** max_recv_frag, which follows max_xmit_frag. */
  function MaxRecvFrag(b: seq<byte>): u16
    requires |b| >= 20
  {
    ReadU16(b[18..20])
  }

  /** assoc_group_id, which follows the fragment sizes in bind and bind_ack. */
  function AssocGroupId(b: seq<byte>): u32
    requires |b| >= 24
  {
    ReadU32(b[20..24])
  }

  /** The auth token a received PDU carries: the auth_length bytes that end at frag_length. */
  function TrailingToken(b: seq<byte>): (t: seq<byte>)
    requires |b| >= 12 && AuthLength(b) <= FragLength(b) <= |b|
    ensures |t| == AuthLength(b)
    ensures forall i :: 0 <= i < |t| ==> t[i] == b[FragLength(b) - AuthLength(b) + i]
  {
    b[FragLength(b) - AuthLength(b) .. FragLength(b)]
  }

  function DecodeUuid(s: seq<byte>): (u: Uuid)
    requires |s| == UuidSize
    ensures u.Valid() && EncodeUuid(u) == s
  {
    LE32OfRead(s[..4]);
    LE16OfRead(s[4..6]);
    LE16OfRead(s[6..8]);
    var u := Uuid(ReadU32(s[..4]), ReadU16(s[4..6]), ReadU16(s[6..8]), s[8], s[9], s[10..]);
    assert EncodeUuid(u) == s[..4] + s[4..6] + s[6..8] + s[8..10] + s[10..];
    u
  }

  function DecodeSyntaxId(s: seq<byte>): (r: SyntaxId)
    requires |s| == SyntaxIdSize
    ensures r.ifUuid.Valid() && EncodeSyntaxId(r) == s
  {
    LE32OfRead(s[16..]);
    var r := SyntaxId(DecodeUuid(s[..16]), ReadU32(s[16..]));
    assert s == s[..16] + s[16..];
    r
  }

  function DecodeSyntaxIds(s: seq<byte>, n: nat): (r: seq<SyntaxId>)
    requires |s| == SyntaxIdSize * n
    ensures |r| == n
    ensures forall i :: 0 <= i < n ==> r[i].ifUuid.Valid()
    ensures EncodeSyntaxIds(r) == s
    decreases n
  {
    if n == 0 then []
    else
      var rest := DecodeSyntaxIds(s[SyntaxIdSize..], n - 1);
      var r := [DecodeSyntaxId(s[..SyntaxIdSize])] + rest;
      assert r[1..] == rest;
      assert s == s[..SyntaxIdSize] + s[SyntaxIdSize..];
      r
  }

  function ParseCommonHeader(s: seq<byte>): (h: CommonHeader)
    requires |s| == CommonHeaderSize
    ensures HeaderValid(h) && EncodeCommonHeader(h) == s
  {
    LE16OfRead(s[8..10]);
    LE16OfRead(s[10..12]);
    LE32OfRead(s[12..16]);
    var h := CommonHeader(s[0], s[1], s[2], s[3], s[4..8], ReadU16(s[8..10]), ReadU16(s[10..12]), ReadU32(s[12..16]));
    assert s == s[..4] + s[4..8] + s[8..10] + s[10..12] + s[12..16];
    h
  }

  /** Parses count context elements from the front of s; returns them and the bytes after them. */
  function ParseContexts(s: seq<byte>, count: nat): (r: Option<(seq<ContextElem>, seq<byte>)>)
    ensures r.Some? ==> |r.value.1| <= |s| && |r.value.0| == count
    decreases count
  {
    if count == 0 then Some(([], s))
    else if |s| < ContextElemHeaderSize then None
    else
      var n := s[2] as nat;
      var size := ContextElemHeaderSize + SyntaxIdSize * n;
      if |s| < size then None
      else
        var e := ContextElem(ReadU16(s[..2]), DecodeSyntaxId(s[4..ContextElemHeaderSize]),
                             DecodeSyntaxIds(s[ContextElemHeaderSize..size], n));
        match ParseContexts(s[size..], count - 1)
        case None => None
        case Some((es, rest)) => Some(([e] + es, rest))
  }

  /** Parses the auth verifier of a PDU whose body ends at bodyEnd and whose header announces
      authLength token bytes: the sec_trailer sits 8 bytes before the token at the end. */
  function ParseAuthVerifier(b: seq<byte>, bodyEnd: nat, authLength: nat): (r: Option<AuthVerifier>)
    requires bodyEnd <= |b|
    ensures r.Some? ==> |r.value.authValue| == authLength
  {
    if bodyEnd + SecTrailerSize + authLength > |b| then None
    else
      var at := |b| - authLength - SecTrailerSize;
      var pad := b[at + 2];
      if bodyEnd + pad as int != at || pad >= 4 || at % 4 != 0 then None
      else Some(AuthVerifier(b[at], b[at + 1], pad, b[at + 3], ReadU32(b[at + 4..at + 8]), b[at + 8..]))
  }

  /** The fields of a bind header, read back from its 24 bytes. */
  function DecodeBindHeader(s: seq<byte>): (r: (CommonHeader, u16, u16, u32))
    requires |s| == 24
    ensures HeaderValid(r.0) && EncodeBindHeader(r.0, r.1, r.2, r.3) == s
  {
    LE16OfRead(s[16..18]);
    LE16OfRead(s[18..20]);
    LE32OfRead(s[20..24]);
    var r := (ParseCommonHeader(s[..16]), ReadU16(s[16..18]), ReadU16(s[18..20]), ReadU32(s[20..24]));
    assert s == s[..16] + s[16..18] + s[18..20] + s[20..24];
    r
  }

  /** The fields of an rpc_auth_3 header, read back from its 20 bytes. */
  function DecodeRpcAuth3Header(s: seq<byte>): (r: (CommonHeader, u16, u16))
    requires |s| == 20
    ensures HeaderValid(r.0) && EncodeRpcAuth3Header(r.0, r.1, r.2) == s
  {
    LE16OfRead(s[16..18]);
    LE16OfRead(s[18..20]);
    var r := (ParseCommonHeader(s[..16]), ReadU16(s[16..18]), ReadU16(s[18..20]));
    assert s == s[..16] + s[16..18] + s[18..20];
    r
  }

  /** A parser for the bind layout: recovers every field of the PDU from its bytes. */
  function ParseBind(b: seq<byte>): (r: Option<BindPdu>)
  {
    if |b| < 28 then None
    else
      var (h, maxXmitFrag, maxRecvFrag, assocGroupId) := DecodeBindHeader(b[..24]);
      if h.fragLength != |b| then None
      else
        match ParseContexts(b[28..], b[24] as nat)
        case None => None
        case Some((es, rest)) =>
          match ParseAuthVerifier(b, |b| - |rest|, h.authLength)
          case None => None
          case Some(a) => Some(BindPdu(h, maxXmitFrag, maxRecvFrag, assocGroupId, es, a))
  }

  /** A parser for the rpc_auth_3 layout. */
  function ParseRpcAuth3(b: seq<byte>): (r: Option<RpcAuth3Pdu>)
  {
    if |b| < 20 then None
    else
      var (h, maxXmitFrag, maxRecvFrag) := DecodeRpcAuth3Header(b[..20]);
      if h.fragLength != |b| then None
      else
        match ParseAuthVerifier(b, 20, h.authLength)
        case None => None
        case Some(a) => Some(RpcAuth3Pdu(h, maxXmitFrag, maxRecvFrag, a))
  }

  datatype Option<T> = None | Some(value: T)

  // ---------------------------------------------------------------------------------------
  // Round trips

  lemma CommonHeaderRoundTrip(h: CommonHeader)
    requires HeaderValid(h)
    ensures ParseCommonHeader(EncodeCommonHeader(h)) == h
  {
    var s := EncodeCommonHeader(h);
    var h' := ParseCommonHeader(s);
    assert s[..4] == [h.rpcVers, h.rpcVersMinor, h.ptype, h.pfcFlags];
    assert s[4..8] == h.packedDrep;
    assert s[8..10] == LE16(h.fragLength);
    assert s[10..12] == LE16(h.authLength);
    assert s[12..16] == LE32(h.callId);
  }

  lemma UuidRoundTrip(u: Uuid)
    requires u.Valid()
    ensures DecodeUuid(EncodeUuid(u)) == u
  {
    var s := EncodeUuid(u);
    assert s[..4] == LE32(u.timeLow);
    assert s[4..6] == LE16(u.timeMid);
    assert s[6..8] == LE16(u.timeHiAndVersion);
    assert s[10..] == u.node;
  }

  lemma SyntaxIdRoundTrip(x: SyntaxId)
    requires x.ifUuid.Valid()
    ensures DecodeSyntaxId(EncodeSyntaxId(x)) == x
  {
    var s := EncodeSyntaxId(x);
    assert s[..16] == EncodeUuid(x.ifUuid);
    assert s[16..] == LE32(x.ifVersion);
    UuidRoundTrip(x.ifUuid);
  }

  lemma {:induction false} SyntaxIdsRoundTrip(ss: seq<SyntaxId>)
    requires forall i :: 0 <= i < |ss| ==> ss[i].ifUuid.Valid()
    ensures DecodeSyntaxIds(EncodeSyntaxIds(ss), |ss|) == ss
  {
    if ss != [] {
      var s := EncodeSyntaxIds(ss);
      assert s[..SyntaxIdSize] == EncodeSyntaxId(ss[0]);
      assert s[SyntaxIdSize..] == EncodeSyntaxIds(ss[1..]);
      SyntaxIdRoundTrip(ss[0]);
      SyntaxIdsRoundTrip(ss[1..]);
    }
  }

  /** One encoded context element, followed by anything, decodes back to the element. */
  lemma ContextElemRoundTrip(e: ContextElem, tail: seq<byte>)
    requires e.Valid()
    ensures var s := EncodeContextElem(e) + tail;
      var size := ContextElemHeaderSize + SyntaxIdSize * |e.transferSyntaxes|;
      |s| >= size && s[2] as int == |e.transferSyntaxes| && s[size..] == tail &&
      ContextElem(ReadU16(s[..2]), DecodeSyntaxId(s[4..ContextElemHeaderSize]),
                  DecodeSyntaxIds(s[ContextElemHeaderSize..size], s[2] as nat)) == e
  {
    var s := EncodeContextElem(e) + tail;
    var ts := EncodeSyntaxIds(e.transferSyntaxes);
    var size := ContextElemHeaderSize + SyntaxIdSize * |e.transferSyntaxes|;
    assert s == LE16(e.contId) + [|e.transferSyntaxes| as byte, 0] + EncodeSyntaxId(e.abstractSyntax) + ts + tail;
    assert s[..2] == LE16(e.contId);
    assert s[4..ContextElemHeaderSize] == EncodeSyntaxId(e.abstractSyntax);
    assert s[ContextElemHeaderSize..size] == ts;
    SyntaxIdRoundTrip(e.abstractSyntax);
    SyntaxIdsRoundTrip(e.transferSyntaxes);
  }

  /** The header of a context element holds its p_cont_id, its number of transfer syntaxes,
      a zero reserved byte and its abstract syntax. */
  lemma ContextElemHeaderFields(e: ContextElem)
    requires e.Valid()
    ensures var s := EncodeContextElemHeader(e);
      ReadU16(s[..2]) == e.contId && s[2] as int == |e.transferSyntaxes| && s[3] == 0 &&
      DecodeSyntaxId(s[4..]) == e.abstractSyntax
  {
    var s := EncodeContextElemHeader(e);
    assert s[..2] == LE16(e.contId);
    assert s[4..] == EncodeSyntaxId(e.abstractSyntax);
    SyntaxIdRoundTrip(e.abstractSyntax);
  }

  /** Parsing one more encoded element in front of a parsable tail. */
  lemma ParseContextsStep(e: ContextElem, tail: seq<byte>, es: seq<ContextElem>, rest: seq<byte>)
    requires e.Valid()
    requires ParseContexts(tail, |es|) == Some((es, rest))
    ensures ParseContexts(EncodeContextElem(e) + tail, |es| + 1) == Some(([e] + es, rest))
  {
    var s := EncodeContextElem(e) + tail;
    var size := ContextElemHeaderSize + SyntaxIdSize * |e.transferSyntaxes|;
    ContextElemRoundTrip(e, tail);
    assert s[size..] == tail;
  }

  /** Encoded context elements are parsed back, and parsing leaves exactly the bytes after them. */
  lemma {:induction false} ParseContextsOfEncoding(es: seq<ContextElem>, rest: seq<byte>)
    requires forall i :: 0 <= i < |es| ==> es[i].Valid()
    ensures ParseContexts(EncodeContexts(es) + rest, |es|) == Some((es, rest))
  {
    if es == [] {
      assert EncodeContexts(es) + rest == rest;
    } else {
      var e, more := es[0], es[1..];
      var tail := EncodeContexts(more) + rest;
      assert forall i :: 0 <= i < |more| ==> more[i].Valid() by {
        forall i | 0 <= i < |more| ensures more[i].Valid() { assert more[i] == es[i + 1]; }
      }
      ParseContextsOfEncoding(more, rest);
      ParseContextsStep(e, tail, more, rest);
      HeadTail(es);
      AppendAssoc(EncodeContextElem(e), EncodeContexts(more), rest);
      assert EncodeContexts(es) + rest == EncodeContextElem(e) + tail;
    }
  }

  /** An auth verifier placed after a body of bodyEnd bytes, with consistent lengths, is parsed back. */
  lemma ParseAuthVerifierOfEncoding(body: seq<byte>, a: AuthVerifier)
    requires PadAligns(|body|, a.authPadLength)
    ensures ParseAuthVerifier(body + EncodeAuthVerifier(a), |body|, |a.authValue|) == Some(a)
  {
    var b := body + EncodeAuthVerifier(a);
    var at := |body| + a.authPadLength as int;
    assert b[at..at + 4] == [a.authType, a.authLevel, a.authPadLength, a.authReserved];
    assert b[at + 4..at + 8] == LE32(a.authContextId);
    assert b[at + 8..] == a.authValue;
  }

  /** Parsing a well-formed bind PDU's bytes recovers the PDU: header, fragment sizes,
      association group, every presentation context and the auth verifier. */
  lemma BindHeaderRoundTrip(h: CommonHeader, maxXmitFrag: u16, maxRecvFrag: u16, assocGroupId: u32)
    requires HeaderValid(h)
    ensures DecodeBindHeader(EncodeBindHeader(h, maxXmitFrag, maxRecvFrag, assocGroupId))
            == (h, maxXmitFrag, maxRecvFrag, assocGroupId)
  {
    var s := EncodeBindHeader(h, maxXmitFrag, maxRecvFrag, assocGroupId);
    assert s[..16] == EncodeCommonHeader(h);
    assert s[16..18] == LE16(maxXmitFrag) && s[18..20] == LE16(maxRecvFrag) && s[20..24] == LE32(assocGroupId);
    CommonHeaderRoundTrip(h);
  }

  lemma RpcAuth3HeaderRoundTrip(h: CommonHeader, maxXmitFrag: u16, maxRecvFrag: u16)
    requires HeaderValid(h)
    ensures DecodeRpcAuth3Header(EncodeRpcAuth3Header(h, maxXmitFrag, maxRecvFrag)) == (h, maxXmitFrag, maxRecvFrag)
  {
    var s := EncodeRpcAuth3Header(h, maxXmitFrag, maxRecvFrag);
    assert s[..16] == EncodeCommonHeader(h);
    assert s[16..18] == LE16(maxXmitFrag) && s[18..20] == LE16(maxRecvFrag);
    CommonHeaderRoundTrip(h);
  }

  /** Where the pieces of a bind PDU sit in its bytes. */
  lemma BindPiecesAt(p: BindPdu)
    requires BindBodyValid(p)
    ensures var b := SerializeBind(p);
      |b| >= 28 &&
      b[..24] == EncodeBindHeader(p.header, p.maxXmitFrag, p.maxRecvFrag, p.assocGroupId) &&
      b[24] as int == |p.contexts| &&
      b[28..] == EncodeContexts(p.contexts) + EncodeAuthVerifier(p.authVerifier)
  {
    var hd := EncodeBindHeader(p.header, p.maxXmitFrag, p.maxRecvFrag, p.assocGroupId);
    var fixed := hd + EncodeContextListHeader(|p.contexts| as byte);
    var ctx := EncodeContexts(p.contexts);
    var av := EncodeAuthVerifier(p.authVerifier);
    var b := SerializeBind(p);
    assert b == fixed + ctx + av;
    TakeOfAppend(fixed + ctx, av, 24);
    TakeOfAppend(fixed, ctx, 24);
    TakeOfAppend(hd, EncodeContextListHeader(|p.contexts| as byte), 24);
    DropOfAppend(fixed + ctx, av, 28);
    DropOfAppend(fixed, ctx, 28);
  }

  lemma HeadTail<T>(s: seq<T>)
    requires |s| > 0
    ensures [s[0]] + s[1..] == s
  {
  }

  lemma TakeOfAppend(x: seq<byte>, y: seq<byte>, k: nat)
    requires k <= |x|
    ensures (x + y)[..k] == x[..k]
  {
  }

  lemma DropOfAppend(x: seq<byte>, y: seq<byte>, k: nat)
    requires k <= |x|
    ensures (x + y)[k..] == x[k..] + y
  {
  }

  /** Parsing a well-formed bind PDU's bytes recovers the PDU: header, fragment sizes,
      association group, every presentation context and the auth verifier. */
  lemma BindRoundTrip(p: BindPdu)
    requires BindWellFormed(p)
    ensures ParseBind(SerializeBind(p)) == Some(p)
  {
    var av := EncodeAuthVerifier(p.authVerifier);
    var b := SerializeBind(p);
    BindPiecesAt(p);
    BindHeaderRoundTrip(p.header, p.maxXmitFrag, p.maxRecvFrag, p.assocGroupId);
    assert DecodeBindHeader(b[..24]) == (p.header, p.maxXmitFrag, p.maxRecvFrag, p.assocGroupId);
    ParseContextsOfEncoding(p.contexts, av);
    assert ParseContexts(b[28..], b[24] as nat) == Some((p.contexts, av));
    ParseAuthVerifierOfEncoding(BindBody(p), p.authVerifier);
    assert ParseAuthVerifier(b, |b| - |av|, p.header.authLength) == Some(p.authVerifier);
  }

  /** Parsing a well-formed rpc_auth_3 PDU's bytes recovers the PDU. */
  lemma RpcAuth3RoundTrip(p: RpcAuth3Pdu)
    requires RpcAuth3WellFormed(p)
    ensures ParseRpcAuth3(SerializeRpcAuth3(p)) == Some(p)
  {
    var hd := EncodeRpcAuth3Header(p.header, p.maxXmitFrag, p.maxRecvFrag);
    TakeOfAppend(hd, EncodeAuthVerifier(p.authVerifier), 20);
    RpcAuth3HeaderRoundTrip(p.header, p.maxXmitFrag, p.maxRecvFrag);
    ParseAuthVerifierOfEncoding(hd, p.authVerifier);
  }

  /** The header of a serialized PDU announces its own length and its token's length, and
      the token is the trailing auth_length bytes, as a receiver extracts it. */
  lemma TrailingTokenOfEncoding(h: CommonHeader, body: seq<byte>, a: AuthVerifier)
    requires HeaderValid(h) && |body| >= CommonHeaderSize && body[..CommonHeaderSize] == EncodeCommonHeader(h)
    requires TrailerConsistent(h, a, |body|)
    ensures var b := body + EncodeAuthVerifier(a);
      FragLength(b) == |b| && AuthLength(b) == |a.authValue| && TrailingToken(b) == a.authValue
  {
    var b := body + EncodeAuthVerifier(a);
    assert b[..CommonHeaderSize] == EncodeCommonHeader(h);
    assert b[8..10] == EncodeCommonHeader(h)[8..10] == LE16(h.fragLength);
    assert b[10..12] == EncodeCommonHeader(h)[10..12] == LE16(h.authLength);
  }
}

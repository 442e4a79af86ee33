/** The TLS 1.3 decoders the QUIC server uses on an incoming handshake: the
    4-byte handshake header, the ClientHello and the five extensions it looks
    at.  Every decoder reads from a byte buffer whose length is the C
    `wire_sz`; it returns the number of bytes consumed or a negated alert.

    Reads follow the serde conventions of the C code: a fixed-width field or
    a batch of fields is read big-endian after checking that enough bytes
    remain in the WHOLE buffer (not in the enclosing list or extension); a
    list starts with a length prefix that must be aligned and must fit in the
    buffer, and after the loop over the list the position must be exactly at
    the end of the list. */
module TlsProto {
  import opened Bytes

  /** The alerts a decoder returns, negated, instead of a byte count. */
  datatype Alert = DecodeError | ProtocolVersion | InternalError

  /** Alert numbers from section 6 of RFC 8446. */
  function AlertCode(a: Alert): nat
  {
    match a
    case DecodeError => 50
    case ProtocolVersion => 70
    case InternalError => 80
  }

  // Extension types, groups, versions and suites from section 4.2 and
  // appendix B of RFC 8446; the name type from section 3 of RFC 6066.
  const ExtServerName: nat := 0
  const ExtSupportedGroups: nat := 10
  const ExtSignatureAlgorithms: nat := 13
  const ExtSupportedVersions: nat := 43
  const ExtKeyShare: nat := 51
  const GroupX25519: nat := 0x001D
  const SigEd25519: nat := 0x0807
  const VersionTls13: nat := 0x0304
  const SuiteAes128GcmSha256: nat := 0x1301
  const NameTypeDns: nat := 0

  /** The size of the fixed part at the start of a ClientHello: legacy
      version (2), random (32), session id length (1), cipher suites
      length (2). */
  const HelloFixedSz: nat := 37

  /** What a decoder produces: the value and the offset just past the bytes
      consumed (the count the C code returns), or an alert.  `Overread`
      stands for a copy out of the buffer that runs past its end: the C code
      has no result for it, and only the as-written decoders reach it. */
  datatype Parse<T> = Ok(value: T, next: nat) | Fail(alert: Alert) | Overread

  // ---------------------------------------------------------------------
  // Handshake header

  datatype RecordHdr = RecordHdr(msgType: byte, sz: nat)

  /** `fd_tls_decode_record_hdr`. */
  function DecodeRecordHdr(wire: seq<byte>): (res: Parse<RecordHdr>)
    ensures res.Ok? <==> |wire| >= 4
    ensures !res.Ok? ==> res == Fail(DecodeError)
    ensures res.Ok? ==> res.next == 4 && res.value.msgType == wire[0] && res.value.sz < 0x100_0000
  {
    if |wire| < 4 then Fail(DecodeError)
    else Ok(RecordHdr(wire[0], Be24(wire, 1)), 4)
  }

  /** `fd_tls_encode_record_hdr` into a buffer of `wireSz` bytes: the bytes
      written, or INTERNAL_ERROR when they do not fit. */
  function EncodeRecordHdr(h: RecordHdr, wireSz: nat): (res: Parse<seq<byte>>)
    ensures res.Ok? <==> wireSz >= 4
    ensures !res.Ok? ==> res == Fail(InternalError)
    ensures res.Ok? ==> res.next == 4 && |res.value| == 4 && res.value[0] == h.msgType
  {
    if wireSz < 4 then Fail(InternalError)
    else Ok([h.msgType, LowByte(h.sz / 0x1_0000), LowByte(h.sz / 0x100), LowByte(h.sz)], 4)
  }

  /** Decoding an encoded header gives the header back, with the length
      reduced modulo 2^24; for lengths below 2^24 it is the identity. */
  lemma RecordHdrRoundTrip(h: RecordHdr, rest: seq<byte>)
    ensures var enc := EncodeRecordHdr(h, 4 + |rest|);
            enc.Ok? && DecodeRecordHdr(enc.value + rest) == Ok(RecordHdr(h.msgType, h.sz % 0x100_0000), 4)
    ensures h.sz < 0x100_0000 ==> DecodeRecordHdr(EncodeRecordHdr(h, 4).value) == Ok(h, 4)
  {
    LowBytes24(h.sz);
    var w := EncodeRecordHdr(h, 4 + |rest|).value + rest;
    assert w[1..4] == U24Bytes(h.sz % 0x100_0000);
    Be24RoundTrip(h.sz % 0x100_0000, w, 1);
    var w4 := EncodeRecordHdr(h, 4).value;
    assert w4[1..4] == U24Bytes(h.sz % 0x100_0000);
    Be24RoundTrip(h.sz % 0x100_0000, w4, 1);
  }

  /** Re-encoding a decoded header gives back the four bytes it came from. */
  lemma RecordHdrReencode(wire: seq<byte>)
    requires |wire| >= 4
    ensures EncodeRecordHdr(DecodeRecordHdr(wire).value, |wire|) == Ok(wire[..4], 4)
  {
    var sz := Be24(wire, 1);
    LowBytes24(sz);
    U24BytesOfBe24(wire, 1);
    assert sz % 0x100_0000 == sz;
    var enc := EncodeRecordHdr(DecodeRecordHdr(wire).value, |wire|).value;
    assert enc == [wire[0]] + U24Bytes(sz);
    assert wire[..4] == [wire[0]] + wire[1..4];
  }

  // ---------------------------------------------------------------------
  // Lists of 16-bit values: supported_versions, supported_groups,
  // signature_algorithms, and the cipher suites of the ClientHello

  /** The big-endian 16-bit values held in `b`, two bytes each. */
  function U16s(b: seq<byte>): (vs: seq<nat>)
    requires |b| % 2 == 0
    ensures |vs| == |b| / 2
    decreases |b|
  {
    if |b| == 0 then [] else [Be16(b, 0)] + U16s(b[2..])
  }

  /** The loop over a list of 16-bit values: read one value at a time from
      `pos` while `pos` is short of `stop`, each read checked against the
      bytes left in the whole buffer; `found` records whether `target` was
      read. */
  function ScanU16(w: seq<byte>, pos: nat, stop: nat, target: nat, found: bool): (res: Parse<bool>)
    requires pos <= |w|
    ensures !res.Ok? ==> res == Fail(DecodeError)
    ensures res.Ok? ==> (found ==> res.value) && (pos < stop ==> stop <= res.next <= |w|)
    ensures res.Ok? && res.value && !found ==> exists k :: pos <= k && k + 2 <= |w| && Be16(w, k) == target
    decreases |w| - pos
  {
    if pos >= stop then Ok(found, pos)
    else if |w| - pos < 2 then Fail(DecodeError)
    else ScanU16(w, pos + 2, stop, target, found || Be16(w, pos) == target)
  }

  /** Over an even number of bytes inside the buffer, the loop stops exactly
      at `stop` and reports whether `target` is among the values. */
  lemma {:induction false} ScanU16Even(w: seq<byte>, pos: nat, stop: nat, target: nat, found: bool)
    requires pos <= stop <= |w| && (stop - pos) % 2 == 0
    ensures ScanU16(w, pos, stop, target, found) == Ok(found || target in U16s(w[pos..stop]), stop)
    decreases stop - pos
  {
    if pos < stop {
      var b := w[pos..stop];
      assert Be16(b, 0) == Be16(w, pos);
      assert b[2..] == w[pos + 2..stop];
      assert U16s(b) == [Be16(w, pos)] + U16s(w[pos + 2..stop]);
      ScanU16Even(w, pos + 2, stop, target, found || Be16(w, pos) == target);
    }
  }

  /** Over an odd number of bytes, the last read runs one byte past `stop`
      (or past the buffer). */
  lemma {:induction false} ScanU16Odd(w: seq<byte>, pos: nat, stop: nat, target: nat, found: bool)
    requires pos <= stop <= |w| && (stop - pos) % 2 == 1
    ensures var r := ScanU16(w, pos, stop, target, found);
            r == Fail(DecodeError) || (r.Ok? && r.next == stop + 1)
    decreases stop - pos
  {
    if |w| - pos >= 2 && pos + 2 <= stop {
      ScanU16Odd(w, pos + 2, stop, target, found || Be16(w, pos) == target);
    }
  }

  /** The length prefix of a list: one byte, or a big-endian 16-bit value. */
  function ListSz(w: seq<byte>, prefixW: nat): nat
    requires (prefixW == 1 || prefixW == 2) && |w| >= prefixW
  {
    if prefixW == 1 then w[0] as nat else Be16(w, 0)
  }

  /** A list of 16-bit values that the list decoders accept: the prefix is
      present, the length is a multiple of `align` and of 2, and the list
      fits in the buffer. */
  predicate U16ListOk(w: seq<byte>, prefixW: nat, align: nat)
    requires (prefixW == 1 || prefixW == 2) && align > 0
  {
    |w| >= prefixW && ListSz(w, prefixW) % align == 0 && ListSz(w, prefixW) % 2 == 0
    && ListSz(w, prefixW) <= |w| - prefixW
  }

  /** A list decoder: read the prefix of `prefixW` bytes, check its
      alignment and that the list fits, scan it, and check that the scan
      ended exactly at the end of the list. */
  function DecodeU16List(w: seq<byte>, prefixW: nat, align: nat, target: nat, found: bool): (res: Parse<bool>)
    requires (prefixW == 1 || prefixW == 2) && align > 0
    ensures res.Ok? <==> U16ListOk(w, prefixW, align)
    ensures !res.Ok? ==> res == Fail(DecodeError)
    ensures res.Ok? ==> res.next == prefixW + ListSz(w, prefixW)
    ensures res.Ok? ==> (res.value <==> found || target in U16s(w[prefixW..res.next]))
  {
    if |w| < prefixW then Fail(DecodeError)
    else
      var listSz := ListSz(w, prefixW);
      if listSz % align != 0 || listSz > |w| - prefixW then Fail(DecodeError)
      else
        var stop := prefixW + listSz;
        var r := ScanU16(w, prefixW, stop, target, found);
        if listSz % 2 == 0 then
          ScanU16Even(w, prefixW, stop, target, found);
          r
        else
          ScanU16Odd(w, prefixW, stop, target, found);
          if r.Ok? && r.next != stop then Fail(DecodeError) else r
  }

  /** `fd_tls_decode_ext_supported_versions`: a one-byte length prefix, a
      length that is a multiple of 2, and TLS 1.3 noted when listed. */
  function DecodeSupportedVersions(w: seq<byte>, tls13: bool): (res: Parse<bool>)
    ensures res.Ok? <==> U16ListOk(w, 1, 2)
    ensures !res.Ok? ==> res == Fail(DecodeError)
    ensures res.Ok? ==> res.next == 1 + w[0] <= |w|
    ensures res.Ok? ==> (res.value <==> tls13 || VersionTls13 in U16s(w[1..res.next]))
  {
    DecodeU16List(w, 1, 2, VersionTls13, tls13)
  }

  /** `fd_tls_decode_ext_supported_groups`: a two-byte length prefix with no
      alignment demand, and X25519 noted when listed. */
  function DecodeSupportedGroups(w: seq<byte>, x25519: bool): (res: Parse<bool>)
    ensures res.Ok? <==> U16ListOk(w, 2, 1)
    ensures !res.Ok? ==> res == Fail(DecodeError)
    ensures res.Ok? ==> res.next == 2 + Be16(w, 0) <= |w|
    ensures res.Ok? ==> (res.value <==> x25519 || GroupX25519 in U16s(w[2..res.next]))
  {
    DecodeU16List(w, 2, 1, GroupX25519, x25519)
  }

  /** `fd_tls_decode_ext_signature_algorithms`: a two-byte length prefix
      that must be even, and Ed25519 noted when listed. */
  function DecodeSignatureAlgorithms(w: seq<byte>, ed25519: bool): (res: Parse<bool>)
    ensures res.Ok? <==> U16ListOk(w, 2, 2)
    ensures !res.Ok? ==> res == Fail(DecodeError)
    ensures res.Ok? ==> res.next == 2 + Be16(w, 0) <= |w|
    ensures res.Ok? ==> (res.value <==> ed25519 || SigEd25519 in U16s(w[2..res.next]))
  {
    DecodeU16List(w, 2, 2, SigEd25519, ed25519)
  }

  // ---------------------------------------------------------------------
  // key_share

  /** The key share the server keeps: whether an X25519 share was offered,
      and its 32 bytes. */
  datatype KeyShare = KeyShare(hasX25519: bool, x25519: seq<byte>)

  /** `fd_tls_decode_key_share_entry`: group, length, key exchange data. */
  function DecodeKeyShareEntry(w: seq<byte>, ks: KeyShare): (res: Parse<KeyShare>)
    ensures res.Ok? <==> |w| >= 4 && Be16(w, 2) <= |w| - 4 && (Be16(w, 0) == GroupX25519 ==> Be16(w, 2) == 32)
    ensures !res.Ok? ==> res == Fail(DecodeError)
    ensures res.Ok? ==> res.next == 4 + Be16(w, 2) <= |w|
    ensures res.Ok? && Be16(w, 0) == GroupX25519 ==> res.value == KeyShare(true, w[4..36])
    ensures res.Ok? && Be16(w, 0) != GroupX25519 ==> res.value == ks
  {
    if |w| < 4 then Fail(DecodeError)
    else
      var group := Be16(w, 0);
      var kexSz := Be16(w, 2);
      if kexSz > |w| - 4 then Fail(DecodeError)
      else if group == GroupX25519 then
        if kexSz != 32 then Fail(DecodeError)
        else Ok(KeyShare(true, w[4..36]), 4 + kexSz)
      else Ok(ks, 4 + kexSz)
  }

  /** The loop of `fd_tls_decode_ext_key_share_client`: decode entries from
      `pos` while `pos` is short of `stop`, each against the rest of the
      whole buffer. */
  function ScanKeyShares(w: seq<byte>, pos: nat, stop: nat, ks: KeyShare): (res: Parse<KeyShare>)
    requires pos <= |w|
    ensures res.Ok? ==> pos <= res.next <= |w|
    ensures !res.Ok? ==> res == Fail(DecodeError)
    decreases |w| - pos
  {
    if pos >= stop then Ok(ks, pos)
    else
      match DecodeKeyShareEntry(w[pos..], ks)
      case Ok(ks', n) => ScanKeyShares(w, pos + n, stop, ks')
      case _ => Fail(DecodeError)
  }

  /** `fd_tls_decode_ext_key_share_client`: a two-byte length prefix, the
      entries, and the end of the last entry exactly at the end of the
      list. */
  function DecodeKeyShareClient(w: seq<byte>, ks: KeyShare): (res: Parse<KeyShare>)
    ensures !res.Ok? ==> res == Fail(DecodeError)
    ensures res.Ok? ==> |w| >= 2 && res.next == 2 + Be16(w, 0) <= |w|
  {
    if |w| < 2 then Fail(DecodeError)
    else
      var listSz := Be16(w, 0);
      if listSz > |w| - 2 then Fail(DecodeError)
      else
        var r := ScanKeyShares(w, 2, 2 + listSz, ks);
        if r.Ok? && r.next != 2 + listSz then Fail(DecodeError) else r
  }

  /** One key share entry as a client writes it (section 4.2.8 of RFC
      8446). */
  datatype ShareEntry = ShareEntry(group: nat, kex: seq<byte>)

  predicate EntryFits(e: ShareEntry)
  {
    e.group < 0x1_0000 && |e.kex| < 0x1_0000
  }

  predicate EntriesFit(es: seq<ShareEntry>)
  {
    forall i :: 0 <= i < |es| ==> EntryFits(es[i])
  }

  function EntryBytes(e: ShareEntry): (b: seq<byte>)
    requires EntryFits(e)
    ensures |b| == 4 + |e.kex|
  {
    U16Bytes(e.group) + U16Bytes(|e.kex|) + e.kex
  }

  /** Decoding an encoded entry: an X25519 entry of 32 bytes is kept, one
      of another length is refused, and other groups are passed over. */
  lemma KeyShareEntryRoundTrip(e: ShareEntry, rest: seq<byte>, ks: KeyShare)
    requires EntryFits(e)
    ensures DecodeKeyShareEntry(EntryBytes(e) + rest, ks)
         == if e.group == GroupX25519 && |e.kex| != 32 then Fail(DecodeError)
            else if e.group == GroupX25519 then Ok(KeyShare(true, e.kex), 36)
            else Ok(ks, 4 + |e.kex|)
  {
    var w := EntryBytes(e) + rest;
    assert w[0..2] == U16Bytes(e.group);
    assert w[2..4] == U16Bytes(|e.kex|);
    Be16RoundTrip(e.group, w, 0);
    Be16RoundTrip(|e.kex|, w, 2);
    assert w[4..4 + |e.kex|] == e.kex;
  }

  /** The bytes of a sequence of entries, back to back. */
  function EntriesBytes(es: seq<ShareEntry>): (b: seq<byte>)
    requires EntriesFit(es)
    decreases |es|
  {
    if es == [] then [] else EntryBytes(es[0]) + EntriesBytes(es[1..])
  }

  /** The key share after reading entries in order: each X25519 entry
      replaces the one before. */
  function SharesAfter(es: seq<ShareEntry>, ks: KeyShare): KeyShare
    decreases |es|
  {
    if es == [] then ks
    else SharesAfter(es[1..], if es[0].group == GroupX25519 then KeyShare(true, es[0].kex) else ks)
  }

  /** Every X25519 entry carries 32 bytes. */
  predicate SharesWellSized(es: seq<ShareEntry>)
    decreases |es|
  {
    es == [] || ((es[0].group == GroupX25519 ==> |es[0].kex| == 32) && SharesWellSized(es[1..]))
  }

  /** Where the first entry of an encoded key share list sits in the
      buffer. */
  lemma ShareEntryAt(w: seq<byte>, pos: nat, stop: nat, es: seq<ShareEntry>)
    requires es != [] && EntriesFit(es)
    requires stop <= |w| && stop == pos + |EntriesBytes(es)| && w[pos..stop] == EntriesBytes(es)
    ensures var e := es[0];
            var next := pos + 4 + |e.kex|;
            && next <= stop && Be16(w, pos) == e.group && Be16(w, pos + 2) == |e.kex| && w[pos + 4..next] == e.kex
            && stop == next + |EntriesBytes(es[1..])| && w[next..stop] == EntriesBytes(es[1..])
    ensures EntriesFit(es[1..])
  {
    var e := es[0];
    var eb := EntryBytes(e);
    var tail := EntriesBytes(es[1..]);
    assert EntriesBytes(es) == eb + tail;
    SplitSlice(w, pos, eb, tail);
    EntryBytesAt(w, pos, e);
  }

  /** Where the fields of one encoded key share entry sit in the buffer. */
  lemma EntryBytesAt(w: seq<byte>, pos: nat, e: ShareEntry)
    requires EntryFits(e)
    requires pos + 4 + |e.kex| <= |w| && w[pos..pos + 4 + |e.kex|] == EntryBytes(e)
    ensures Be16(w, pos) == e.group && Be16(w, pos + 2) == |e.kex|
    ensures w[pos + 4..pos + 4 + |e.kex|] == e.kex
  {
    SplitSlice(w, pos, U16Bytes(e.group), U16Bytes(|e.kex|) + e.kex);
    SplitSlice(w, pos + 2, U16Bytes(|e.kex|), e.kex);
    Be16RoundTrip(e.group, w, pos);
    Be16RoundTrip(|e.kex|, w, pos + 2);
  }

  /** The entries `es` lie back to back in `w` from `pos` to `stop`. */
  predicate SharesAt(w: seq<byte>, pos: nat, stop: nat, es: seq<ShareEntry>)
    decreases |es|
  {
    if es == [] then pos == stop
    else
      var next := pos + 4 + |es[0].kex|;
      && next <= stop <= |w| && Be16(w, pos) == es[0].group && Be16(w, pos + 2) == |es[0].kex|
      && w[pos + 4..next] == es[0].kex && SharesAt(w, next, stop, es[1..])
  }

  lemma {:induction false} SharesAtBytes(w: seq<byte>, pos: nat, stop: nat, es: seq<ShareEntry>)
    requires EntriesFit(es)
    requires stop <= |w| && stop == pos + |EntriesBytes(es)| && w[pos..stop] == EntriesBytes(es)
    ensures SharesAt(w, pos, stop, es)
    decreases |es|
  {
    if es != [] {
      ShareEntryAt(w, pos, stop, es);
      SharesAtBytes(w, pos + 4 + |es[0].kex|, stop, es[1..]);
    }
  }

  /** One turn of the key share loop over an entry of the right size. */
  lemma ScanKeySharesStep(w: seq<byte>, pos: nat, stop: nat, ks: KeyShare, e: ShareEntry)
    requires pos < stop && pos + 4 + |e.kex| <= |w|
    requires Be16(w, pos) == e.group && Be16(w, pos + 2) == |e.kex| && w[pos + 4..pos + 4 + |e.kex|] == e.kex
    requires e.group == GroupX25519 ==> |e.kex| == 32
    ensures ScanKeyShares(w, pos, stop, ks)
         == ScanKeyShares(w, pos + 4 + |e.kex|, stop, if e.group == GroupX25519 then KeyShare(true, e.kex) else ks)
  {
    var v := w[pos..];
    assert Be16(v, 0) == e.group && Be16(v, 2) == |e.kex|;
    assert v[4..4 + |e.kex|] == e.kex;
  }

  lemma {:induction false} ScanKeySharesEntries(w: seq<byte>, pos: nat, stop: nat, es: seq<ShareEntry>, ks: KeyShare)
    requires pos <= stop <= |w|
    requires SharesWellSized(es)
    requires SharesAt(w, pos, stop, es)
    ensures ScanKeyShares(w, pos, stop, ks) == Ok(SharesAfter(es, ks), stop)
    decreases |es|
  {
    if es != [] {
      var e := es[0];
      var ks' := if e.group == GroupX25519 then KeyShare(true, e.kex) else ks;
      var next := pos + 4 + |e.kex|;
      ScanKeySharesStep(w, pos, stop, ks, e);
      ScanKeySharesEntries(w, next, stop, es[1..], ks');
    }
  }

  /** A well-formed key_share list decodes to the last X25519 share it
      holds (or the share before it when there is none), consuming the
      whole list. */
  lemma KeyShareClientRoundTrip(es: seq<ShareEntry>, rest: seq<byte>, ks: KeyShare)
    requires EntriesFit(es)
    requires SharesWellSized(es)
    requires |EntriesBytes(es)| < 0x1_0000
    ensures DecodeKeyShareClient(U16Bytes(|EntriesBytes(es)|) + EntriesBytes(es) + rest, ks)
         == Ok(SharesAfter(es, ks), 2 + |EntriesBytes(es)|)
  {
    var body := EntriesBytes(es);
    LengthPrefixed(body, rest);
    KeyShareDecodesList(U16Bytes(|body|) + body + rest, es, ks);
  }

  /** A buffer whose length prefix and list are those of `es` decodes to
      the share `es` leaves. */
  lemma KeyShareDecodesList(w: seq<byte>, es: seq<ShareEntry>, ks: KeyShare)
    requires EntriesFit(es) && SharesWellSized(es)
    requires 2 + |EntriesBytes(es)| <= |w| && Be16(w, 0) == |EntriesBytes(es)|
    requires w[2..2 + |EntriesBytes(es)|] == EntriesBytes(es)
    ensures DecodeKeyShareClient(w, ks) == Ok(SharesAfter(es, ks), 2 + |EntriesBytes(es)|)
  {
    var n := |EntriesBytes(es)|;
    SharesAtBytes(w, 2, 2 + n, es);
    ScanKeySharesEntries(w, 2, 2 + n, es, ks);
    KeyShareFromScan(w, ks, n, SharesAfter(es, ks));
  }

  /** A list length that fits the buffer and a scan that ends exactly at
      the end of the list make the decoder return the scan's result. */
  lemma KeyShareFromScan(w: seq<byte>, ks: KeyShare, n: nat, x: KeyShare)
    requires 2 + n <= |w| && Be16(w, 0) == n
    requires ScanKeyShares(w, 2, 2 + n, ks) == Ok(x, 2 + n)
    ensures DecodeKeyShareClient(w, ks) == Ok(x, 2 + n)
  {
  }

  // ---------------------------------------------------------------------
  // server_name

  /** The outcome of one turn of the server name loop: the decoder's
      result when the loop ends (by error or by passing the end of the
      list), or where the next turn starts and the name kept so far. */
  datatype NameTurn = NamesDone(res: Parse<seq<byte>>) | NamesNext(pos: nat, host: seq<byte>)

  /** One turn of the server name loop at `pos`, short of `stop`: read the
      name type and length, bounds check the name, keep it when it is the
      first DNS name shorter than 254 bytes, and move past it.  `strict`
      selects the bounds check: as written (`list_stop - wire_laddr <
      name_sz` in `ulong` arithmetic) or corrected (the name header must
      also end within the list). */
  function NameStep(w: seq<byte>, pos: nat, stop: nat, host: seq<byte>, strict: bool): (t: NameTurn)
    requires pos < stop <= |w| <= UlongMax
    ensures t.NamesNext? ==> pos < t.pos < stop
    ensures t.NamesDone? && strict ==> !t.res.Overread? && (t.res.Ok? ==> t.res.next == stop)
    ensures t.NamesDone? && t.res.Fail? ==> t.res.alert == DecodeError
    ensures |w| - pos < 3 ==> t == NamesDone(Fail(DecodeError))
    ensures pos + 3 <= stop && Be16(w, pos + 1) > stop - (pos + 3) ==> t == NamesDone(Fail(DecodeError))
    ensures strict && stop < pos + 3 ==> t == NamesDone(Fail(DecodeError))
  {
    if |w| - pos < 3 then NamesDone(Fail(DecodeError))
    else
      var nameType := w[pos];
      var nameSz := Be16(w, pos + 1);
      var h := pos + 3;
      var outside := if strict then h > stop || stop - h < nameSz else SubWrap(stop, h) < nameSz;
      if outside then NamesDone(Fail(DecodeError))
      else
        var take := nameType == NameTypeDns && nameSz < 254 && host == [];
        if take && h + nameSz > |w| then NamesDone(Overread)
        else
          var host' := if take then w[h..h + nameSz] else host;
          if h + nameSz >= stop then NamesDone(Ok(host', h + nameSz))
          else NamesNext(h + nameSz, host')
  }

  /** The loop over the server name list, from `pos` to `stop`. */
  function ScanNames(w: seq<byte>, pos: nat, stop: nat, host: seq<byte>, strict: bool): (res: Parse<seq<byte>>)
    requires pos <= stop <= |w| <= UlongMax
    ensures strict ==> !res.Overread?
    ensures strict && res.Ok? ==> res.next == stop
    ensures res.Fail? ==> res.alert == DecodeError
    ensures pos + 3 <= stop && Be16(w, pos + 1) > stop - (pos + 3) ==> res == Fail(DecodeError)
    ensures strict && pos < stop < pos + 3 ==> res == Fail(DecodeError)
    decreases stop - pos
  {
    if pos >= stop then Ok(host, pos)
    else
      match NameStep(w, pos, stop, host, strict)
      case NamesDone(r) => r
      case NamesNext(pos', host') => ScanNames(w, pos', stop, host', strict)
  }

  /** `fd_tls_decode_ext_server_name` with the per-name bounds check chosen
      by `strict`.  The name kept is written NUL-terminated in C; here it is
      the sequence of its bytes, and `host_name_len` is its length. */
  function DecodeServerNameWith(w: seq<byte>, host: seq<byte>, strict: bool): (res: Parse<seq<byte>>)
    requires |w| <= UlongMax
    ensures strict ==> !res.Overread?
    ensures res.Fail? ==> res.alert == DecodeError
    ensures res.Ok? ==> |w| >= 2 && res.next == 2 + Be16(w, 0) <= |w|
    ensures |w| < 2 ==> res == Fail(DecodeError)
    ensures |w| >= 2 && Be16(w, 0) > |w| - 2 ==> res == Fail(DecodeError)
  {
    if |w| < 2 then Fail(DecodeError)
    else
      var listSz := Be16(w, 0);
      if listSz > |w| - 2 then Fail(DecodeError)
      else
        var r := ScanNames(w, 2, 2 + listSz, host, strict);
        if r.Ok? && r.next != 2 + listSz then Fail(DecodeError) else r
  }

  /** The server_name decoder as the C code has it. */
  function DecodeServerNameAsWritten(w: seq<byte>, host: seq<byte>): (res: Parse<seq<byte>>)
    requires |w| <= UlongMax
    ensures res.Fail? ==> res.alert == DecodeError
    ensures res.Ok? ==> |w| >= 2 && res.next == 2 + Be16(w, 0) <= |w|
  {
    DecodeServerNameWith(w, host, false)
  }

  /** The server_name decoder with the name bounds check corrected. */
  function DecodeServerName(w: seq<byte>, host: seq<byte>): (res: Parse<seq<byte>>)
    requires |w| <= UlongMax
    ensures !res.Overread?
    ensures res.Fail? ==> res.alert == DecodeError
    ensures res.Ok? ==> |w| >= 2 && res.next == 2 + Be16(w, 0) <= |w|
  {
    DecodeServerNameWith(w, host, true)
  }

  /** One entry of a server name list (section 3 of RFC 6066). */
  datatype NameEntry = NameEntry(nameType: byte, name: seq<byte>)

  /** Every name of the list fits its 16-bit length field. */
  predicate NamesFit(es: seq<NameEntry>)
  {
    forall i :: 0 <= i < |es| ==> |es[i].name| < 0x1_0000
  }

  function NameBytes(e: NameEntry): (b: seq<byte>)
    requires |e.name| < 0x1_0000
    ensures |b| == 3 + |e.name|
  {
    [e.nameType] + U16Bytes(|e.name|) + e.name
  }

  function NamesBytes(es: seq<NameEntry>): (b: seq<byte>)
    requires NamesFit(es)
    ensures es != [] ==> |b| >= 3
    decreases |es|
  {
    if es == [] then [] else NameBytes(es[0]) + NamesBytes(es[1..])
  }

  /** The name the server keeps from a list: the first non-empty DNS name
      shorter than 254 bytes, or none. */
  function FirstHost(es: seq<NameEntry>): seq<byte>
    decreases |es|
  {
    if es == [] then []
    else if es[0].nameType == NameTypeDns && 0 < |es[0].name| < 254 then es[0].name
    else FirstHost(es[1..])
  }

  /** One turn of the server name loop over a name that ends within the
      list. */
  lemma ScanNamesStep(w: seq<byte>, pos: nat, stop: nat, host: seq<byte>, strict: bool, e: NameEntry)
    requires pos < stop <= |w| <= UlongMax && |w| - pos >= 3
    requires w[pos] == e.nameType && Be16(w, pos + 1) == |e.name|
    requires pos + 3 + |e.name| <= stop && w[pos + 3..pos + 3 + |e.name|] == e.name
    ensures var host' := if e.nameType == NameTypeDns && |e.name| < 254 && host == [] then e.name else host;
            var next := pos + 3 + |e.name|;
            ScanNames(w, pos, stop, host, strict)
              == if next >= stop then Ok(host', next) else ScanNames(w, next, stop, host', strict)
  {
    var host' := if e.nameType == NameTypeDns && |e.name| < 254 && host == [] then e.name else host;
    var next := pos + 3 + |e.name|;
    assert NameStep(w, pos, stop, host, strict) == if next >= stop then NamesDone(Ok(host', next)) else NamesNext(next, host');
  }

  /** Where the first entry of an encoded name list sits in the buffer. */
  lemma NameEntryAt(w: seq<byte>, pos: nat, stop: nat, es: seq<NameEntry>)
    requires es != [] && NamesFit(es)
    requires stop <= |w| && stop == pos + |NamesBytes(es)| && w[pos..stop] == NamesBytes(es)
    ensures var e := es[0];
            var next := pos + 3 + |e.name|;
            && |w| - pos >= 3 && w[pos] == e.nameType && Be16(w, pos + 1) == |e.name|
            && next <= stop && w[pos + 3..next] == e.name
            && stop == next + |NamesBytes(es[1..])| && w[next..stop] == NamesBytes(es[1..])
    ensures NamesFit(es[1..])
  {
    var e := es[0];
    var eb := NameBytes(e);
    var tail := NamesBytes(es[1..]);
    assert NamesBytes(es) == eb + tail;
    SplitSlice(w, pos, eb, tail);
    NameBytesAt(w, pos, e);
  }

  /** Where the fields of one encoded name entry sit in the buffer. */
  lemma NameBytesAt(w: seq<byte>, pos: nat, e: NameEntry)
    requires |e.name| < 0x1_0000
    requires pos + 3 + |e.name| <= |w| && w[pos..pos + 3 + |e.name|] == NameBytes(e)
    ensures w[pos] == e.nameType && Be16(w, pos + 1) == |e.name|
    ensures w[pos + 3..pos + 3 + |e.name|] == e.name
  {
    SplitSlice(w, pos, [e.nameType], U16Bytes(|e.name|) + e.name);
    SplitSlice(w, pos + 1, U16Bytes(|e.name|), e.name);
    Be16RoundTrip(|e.name|, w, pos + 1);
  }

  /** Keeping the first entry's name, if it qualifies, and then looking
      at the rest gives the name `FirstHost` picks. */
  lemma FirstHostStep(es: seq<NameEntry>, host: seq<byte>, host': seq<byte>)
    requires es != []
    requires host' == if es[0].nameType == NameTypeDns && |es[0].name| < 254 && host == [] then es[0].name else host
    ensures (if host' != [] then host' else FirstHost(es[1..])) == (if host != [] then host else FirstHost(es))
  {
  }

  /** The names `es` lie back to back in `w` from `pos` to `stop`. */
  predicate NamesAt(w: seq<byte>, pos: nat, stop: nat, es: seq<NameEntry>)
    decreases |es|
  {
    if es == [] then pos == stop
    else
      var next := pos + 3 + |es[0].name|;
      && next <= stop <= |w| && w[pos] == es[0].nameType && Be16(w, pos + 1) == |es[0].name|
      && w[pos + 3..next] == es[0].name && NamesAt(w, next, stop, es[1..])
  }

  lemma {:induction false} NamesAtBytes(w: seq<byte>, pos: nat, stop: nat, es: seq<NameEntry>)
    requires NamesFit(es)
    requires stop <= |w| && stop == pos + |NamesBytes(es)| && w[pos..stop] == NamesBytes(es)
    ensures NamesAt(w, pos, stop, es)
    decreases |es|
  {
    if es != [] {
      NameEntryAt(w, pos, stop, es);
      NamesAtBytes(w, pos + 3 + |es[0].name|, stop, es[1..]);
    }
  }

  lemma {:induction false} ScanNamesEntries(w: seq<byte>, pos: nat, stop: nat, es: seq<NameEntry>, host: seq<byte>, strict: bool)
    requires pos <= stop <= |w| <= UlongMax
    requires NamesAt(w, pos, stop, es)
    ensures ScanNames(w, pos, stop, host, strict) == Ok(if host != [] then host else FirstHost(es), stop)
    decreases |es|
  {
    if es != [] {
      var e := es[0];
      var next := pos + 3 + |e.name|;
      var host' := if e.nameType == NameTypeDns && |e.name| < 254 && host == [] then e.name else host;
      ScanNamesStep(w, pos, stop, host, strict, e);
      FirstHostStep(es, host, host');
      if next < stop {
        ScanNamesEntries(w, next, stop, es[1..], host', strict);
      } else {
        assert es[1..] == [];
      }
    }
  }

  /** A well-formed server name list decodes, with either bounds check, to
      the first non-empty DNS name shorter than 254 bytes when no name was
      kept before, consuming the whole list. */
  lemma ServerNameRoundTrip(es: seq<NameEntry>, rest: seq<byte>, host: seq<byte>, strict: bool)
    requires NamesFit(es)
    requires |NamesBytes(es)| < 0x1_0000
    requires 2 + |NamesBytes(es)| + |rest| <= UlongMax
    ensures DecodeServerNameWith(U16Bytes(|NamesBytes(es)|) + NamesBytes(es) + rest, host, strict)
         == Ok(if host != [] then host else FirstHost(es), 2 + |NamesBytes(es)|)
  {
    var body := NamesBytes(es);
    LengthPrefixed(body, rest);
    ServerNameDecodesList(U16Bytes(|body|) + body + rest, es, host, strict);
  }

  /** A buffer whose length prefix and list are those of `es` decodes to
      the name `es` yields. */
  lemma ServerNameDecodesList(w: seq<byte>, es: seq<NameEntry>, host: seq<byte>, strict: bool)
    requires NamesFit(es)
    requires 2 + |NamesBytes(es)| <= |w| <= UlongMax && Be16(w, 0) == |NamesBytes(es)|
    requires w[2..2 + |NamesBytes(es)|] == NamesBytes(es)
    ensures DecodeServerNameWith(w, host, strict) == Ok(if host != [] then host else FirstHost(es), 2 + |NamesBytes(es)|)
  {
    var n := |NamesBytes(es)|;
    NamesAtBytes(w, 2, 2 + n, es);
    ScanNamesEntries(w, 2, 2 + n, es, host, strict);
    ServerNameFromScan(w, host, strict, n, if host != [] then host else FirstHost(es));
  }

  /** A list length that fits the buffer and a scan that ends exactly at
      the end of the list make the decoder return the scan's result. */
  lemma ServerNameFromScan(w: seq<byte>, host: seq<byte>, strict: bool, n: nat, x: seq<byte>)
    requires |w| <= UlongMax && 2 + n <= |w| && Be16(w, 0) == n
    requires ScanNames(w, 2, 2 + n, host, strict) == Ok(x, 2 + n)
    ensures DecodeServerNameWith(w, host, strict) == Ok(x, 2 + n)
  {
  }

  /** As written, a name header that straddles the end of the list makes
      `list_stop - wire_laddr` wrap around, so a name longer than the rest
      of the buffer passes the bounds check and is copied: here a one-byte
      list followed by a header asking for 200 bytes, with nothing after. */
  lemma ServerNameOverreadCounterexample()
    ensures DecodeServerNameAsWritten([0, 1, 0, 0, 200], []) == Overread
    ensures DecodeServerName([0, 1, 0, 0, 200], []) == Fail(DecodeError)
  {
    var w: seq<byte> := [0, 1, 0, 0, 200];
    assert Be16(w, 0) == 1;
    assert Be16(w, 3) == 200;
    assert SubWrap(3, 5) + 2 == UlongMod;
  }

  // ---------------------------------------------------------------------
  // ClientHello

  /** The parts of a ClientHello the server keeps.  Flags are only ever
      set by the decoders, never cleared. */
  datatype ClientHello = ClientHello(
    random: seq<byte>,
    aes128GcmSha256: bool,
    tls13: bool,
    serverName: seq<byte>,
    x25519Group: bool,
    ed25519: bool,
    keyShare: KeyShare)

  /** Decode the data of one extension of type `typ` and declared size `sz`
      from `data`, the rest of the whole buffer; unknown types are skipped
      by reporting `sz` bytes consumed. */
  function DecodeExt(typ: nat, data: seq<byte>, sz: nat, ch: ClientHello, strict: bool): (res: Parse<ClientHello>)
    requires |data| <= UlongMax
    ensures strict ==> !res.Overread?
    ensures res.Ok? ==> res.value.random == ch.random && res.value.aes128GcmSha256 == ch.aes128GcmSha256
    ensures typ !in {ExtSupportedVersions, ExtServerName, ExtSupportedGroups, ExtSignatureAlgorithms, ExtKeyShare}
            ==> res == Ok(ch, sz)
    ensures typ == ExtSupportedVersions ==>
      var d := DecodeSupportedVersions(data, ch.tls13);
      && (d.Ok? ==> res == Ok(ch.(tls13 := d.value), d.next))
      && (d.Fail? ==> res == Fail(d.alert)) && (d.Overread? ==> res.Overread?)
    ensures typ == ExtServerName ==>
      var d := DecodeServerNameWith(data, ch.serverName, strict);
      && (d.Ok? ==> res == Ok(ch.(serverName := d.value), d.next))
      && (d.Fail? ==> res == Fail(d.alert)) && (d.Overread? ==> res.Overread?)
    ensures typ == ExtSupportedGroups ==>
      var d := DecodeSupportedGroups(data, ch.x25519Group);
      && (d.Ok? ==> res == Ok(ch.(x25519Group := d.value), d.next))
      && (d.Fail? ==> res == Fail(d.alert)) && (d.Overread? ==> res.Overread?)
    ensures typ == ExtSignatureAlgorithms ==>
      var d := DecodeSignatureAlgorithms(data, ch.ed25519);
      && (d.Ok? ==> res == Ok(ch.(ed25519 := d.value), d.next))
      && (d.Fail? ==> res == Fail(d.alert)) && (d.Overread? ==> res.Overread?)
    ensures typ == ExtKeyShare ==>
      var d := DecodeKeyShareClient(data, ch.keyShare);
      && (d.Ok? ==> res == Ok(ch.(keyShare := d.value), d.next))
      && (d.Fail? ==> res == Fail(d.alert)) && (d.Overread? ==> res.Overread?)
  {
    if typ == ExtSupportedVersions then
      match DecodeSupportedVersions(data, ch.tls13)
      case Ok(v, n) => Ok(ch.(tls13 := v), n)
      case Fail(a) => Fail(a)
      case Overread => Overread
    else if typ == ExtServerName then
      match DecodeServerNameWith(data, ch.serverName, strict)
      case Ok(v, n) => Ok(ch.(serverName := v), n)
      case Fail(a) => Fail(a)
      case Overread => Overread
    else if typ == ExtSupportedGroups then
      match DecodeSupportedGroups(data, ch.x25519Group)
      case Ok(v, n) => Ok(ch.(x25519Group := v), n)
      case Fail(a) => Fail(a)
      case Overread => Overread
    else if typ == ExtSignatureAlgorithms then
      match DecodeSignatureAlgorithms(data, ch.ed25519)
      case Ok(v, n) => Ok(ch.(ed25519 := v), n)
      case Fail(a) => Fail(a)
      case Overread => Overread
    else if typ == ExtKeyShare then
      match DecodeKeyShareClient(data, ch.keyShare)
      case Ok(v, n) => Ok(ch.(keyShare := v), n)
      case Fail(a) => Fail(a)
      case Overread => Overread
    else Ok(ch, sz)
  }

  /** The extension loop: read a 4-byte extension header while `pos` is
      short of `stop`, bounds check the data against `stop`, decode it, and
      check that the decoder consumed exactly the declared size.  `strict`
      selects the bounds check: as written (`ext_stop - wire_laddr < ext_sz`
      in `ulong` arithmetic) or corrected (the header must also end within
      the extension block). */
  function ExtLoop(w: seq<byte>, pos: nat, stop: nat, ch: ClientHello, strict: bool): (res: Parse<ClientHello>)
    requires pos <= stop <= |w| <= UlongMax
    ensures strict ==> !res.Overread?
    ensures strict && res.Ok? ==> res.next == stop
    ensures res.Ok? ==> res.value.random == ch.random && res.value.aes128GcmSha256 == ch.aes128GcmSha256
    ensures pos < stop && |w| - pos < 4 ==> res == Fail(DecodeError)
    ensures pos + 4 <= stop && Be16(w, pos + 2) > stop - (pos + 4) ==> res == Fail(DecodeError)
    ensures strict && pos < stop < pos + 4 ==> res == Fail(DecodeError)
    decreases |w| - pos
  {
    if pos >= stop then Ok(ch, pos)
    else if |w| - pos < 4 then Fail(DecodeError)
    else
      var typ := Be16(w, pos);
      var sz := Be16(w, pos + 2);
      var h := pos + 4;
      var outside := if strict then h > stop || stop - h < sz else SubWrap(stop, h) < sz;
      if outside then Fail(DecodeError)
      else
        match DecodeExt(typ, w[h..], sz, ch, strict)
        case Fail(a) => Fail(a)
        case Overread => Overread
        case Ok(ch', n) =>
          if n != sz then Fail(DecodeError)
          else if h + sz >= stop then Ok(ch', h + sz)
          else ExtLoop(w, h + sz, stop, ch', strict)
  }

  /** One extension whose header and data fit before `stop`, under either
      bounds check (the two agree there): a decoder's alert or over-read is
      passed on, a decoder that consumes anything but the declared size is
      a DECODE_ERROR, a decoder that consumes exactly that size hands its
      updated ClientHello to the next turn, and an extension of unknown
      type is stepped over with nothing recorded. */
  lemma ExtLoopStep(w: seq<byte>, pos: nat, stop: nat, ch: ClientHello, strict: bool)
    requires pos < stop <= |w| <= UlongMax && pos + 4 <= stop
    requires Be16(w, pos + 2) <= stop - (pos + 4)
    ensures var typ, sz := Be16(w, pos), Be16(w, pos + 2);
            var ext := DecodeExt(typ, w[pos + 4..], sz, ch, strict);
            var res := ExtLoop(w, pos, stop, ch, strict);
            && (ext.Fail? ==> res == Fail(ext.alert))
            && (ext.Overread? ==> res == Overread)
            && (ext.Ok? && ext.next != sz ==> res == Fail(DecodeError))
            && (ext.Ok? && ext.next == sz ==>
                  res == (if pos + 4 + sz >= stop then Ok(ext.value, stop) else ExtLoop(w, pos + 4 + sz, stop, ext.value, strict)))
            && (typ !in {ExtSupportedVersions, ExtServerName, ExtSupportedGroups, ExtSignatureAlgorithms, ExtKeyShare}
                ==> res == (if pos + 4 + sz >= stop then Ok(ch, stop) else ExtLoop(w, pos + 4 + sz, stop, ch, strict)))
  {
    assert SubWrap(stop, pos + 4) == stop - (pos + 4);
  }

  /** A server_name extension holding a well-formed name list records, in
      the ClientHello, the name the list yields and consumes exactly its
      declared size. */
  lemma ServerNameExtRoundTrip(es: seq<NameEntry>, rest: seq<byte>, ch: ClientHello, strict: bool)
    requires NamesFit(es)
    requires |NamesBytes(es)| < 0x1_0000
    requires 2 + |NamesBytes(es)| + |rest| <= UlongMax
    ensures DecodeExt(ExtServerName, U16Bytes(|NamesBytes(es)|) + NamesBytes(es) + rest, 2 + |NamesBytes(es)|, ch, strict)
         == Ok(ch.(serverName := if ch.serverName != [] then ch.serverName else FirstHost(es)), 2 + |NamesBytes(es)|)
  {
    ServerNameRoundTrip(es, rest, ch.serverName, strict);
  }

  /** A key_share extension holding a well-formed share list records, in
      the ClientHello, the share the list leaves and consumes exactly its
      declared size. */
  lemma KeyShareExtRoundTrip(es: seq<ShareEntry>, rest: seq<byte>, ch: ClientHello, strict: bool)
    requires EntriesFit(es) && SharesWellSized(es)
    requires |EntriesBytes(es)| < 0x1_0000
    requires 2 + |EntriesBytes(es)| + |rest| <= UlongMax
    ensures DecodeExt(ExtKeyShare, U16Bytes(|EntriesBytes(es)|) + EntriesBytes(es) + rest, 2 + |EntriesBytes(es)|, ch, strict)
         == Ok(ch.(keyShare := SharesAfter(es, ch.keyShare)), 2 + |EntriesBytes(es)|)
  {
    KeyShareClientRoundTrip(es, rest, ch.keyShare);
  }

  /** The fixed parts of a ClientHello are all present: the first fixed
      part, the cipher suite list it announces (of even length), and the
      compression and extension length fields after it. */
  predicate HelloPrefixOk(w: seq<byte>)
  {
    |w| >= HelloFixedSz && Be16(w, 35) % 2 == 0 && HelloFixedSz + Be16(w, 35) + 4 <= |w|
  }

  /** The cipher suites a ClientHello offers. */
  function CipherSuites(w: seq<byte>): seq<nat>
    requires HelloPrefixOk(w)
  {
    U16s(w[HelloFixedSz..HelloFixedSz + Be16(w, 35)])
  }

  /** The end of the extension block the ClientHello announces. */
  function ExtBlockEnd(w: seq<byte>): nat
    requires HelloPrefixOk(w)
  {
    var comp := HelloFixedSz + Be16(w, 35);
    comp + 4 + Be16(w, comp + 2)
  }

  /** `fd_tls_decode_client_hello` with the extension bounds check (and the
      server_name one) chosen by `strict`. */
  function DecodeClientHelloWith(w: seq<byte>, ch: ClientHello, strict: bool): (res: Parse<ClientHello>)
    requires |w| <= UlongMax
    ensures strict ==> !res.Overread?
    ensures strict && res.Ok? ==> HelloPrefixOk(w) && res.next == ExtBlockEnd(w) <= |w|
    ensures res.Ok? ==> HelloPrefixOk(w) && res.value.random == w[2..34]
    ensures res.Ok? ==> (res.value.aes128GcmSha256 <==> ch.aes128GcmSha256 || SuiteAes128GcmSha256 in CipherSuites(w))
  {
    if |w| < HelloFixedSz then Fail(DecodeError)
    else
      var random := w[2..34];
      var sessionIdSz := w[34];
      var suitesSz := Be16(w, 35);
      if sessionIdSz != 0 then Fail(ProtocolVersion)
      else if suitesSz % 2 != 0 || suitesSz > |w| - HelloFixedSz then Fail(DecodeError)
      else
        var suitesStop := HelloFixedSz + suitesSz;
        ScanU16Even(w, HelloFixedSz, suitesStop, SuiteAes128GcmSha256, ch.aes128GcmSha256);
        var aes := ch.aes128GcmSha256 || SuiteAes128GcmSha256 in U16s(w[HelloFixedSz..suitesStop]);
        if |w| - suitesStop < 4 then Fail(DecodeError)
        else
          var compCnt := w[suitesStop];
          var extTotSz := Be16(w, suitesStop + 2);
          if compCnt != 1 then Fail(ProtocolVersion)
          else if extTotSz > |w| - (suitesStop + 4) then Fail(DecodeError)
          else
            var extStart := suitesStop + 4;
            ExtLoop(w, extStart, extStart + extTotSz, ch.(random := random, aes128GcmSha256 := aes), strict)
  }

  /** The ClientHello decoder as the C code has it. */
  function DecodeClientHelloAsWritten(w: seq<byte>, ch: ClientHello): (res: Parse<ClientHello>)
    requires |w| <= UlongMax
    ensures res.Ok? ==> HelloPrefixOk(w) && res.value.random == w[2..34]
    ensures res.Ok? ==> (res.value.aes128GcmSha256 <==> ch.aes128GcmSha256 || SuiteAes128GcmSha256 in CipherSuites(w))
    ensures res.Fail? && |w| < HelloFixedSz ==> res.alert == DecodeError
  {
    DecodeClientHelloWith(w, ch, false)
  }

  /** The ClientHello decoder with the extension and server name bounds
      checks corrected. */
  function DecodeClientHello(w: seq<byte>, ch: ClientHello): (res: Parse<ClientHello>)
    requires |w| <= UlongMax
    ensures !res.Overread?
    ensures res.Ok? ==> HelloPrefixOk(w) && res.next == ExtBlockEnd(w) <= |w|
    ensures res.Ok? ==> res.value.random == w[2..34]
    ensures res.Ok? ==> (res.value.aes128GcmSha256 <==> ch.aes128GcmSha256 || SuiteAes128GcmSha256 in CipherSuites(w))
  {
    DecodeClientHelloWith(w, ch, true)
  }

  /** The checks on the fixed parts come in this order, each with its own
      alert, whichever bounds check the extensions get. */
  lemma ClientHelloErrorOrder(w: seq<byte>, ch: ClientHello, strict: bool)
    requires |w| <= UlongMax
    ensures var res := DecodeClientHelloWith(w, ch, strict);
            var cs := if |w| >= HelloFixedSz then Be16(w, 35) else 0;
            var comp := HelloFixedSz + cs;
            && (|w| < HelloFixedSz ==> res == Fail(DecodeError))
            && ((|w| >= HelloFixedSz && w[34] != 0) ==> res == Fail(ProtocolVersion))
            && ((|w| >= HelloFixedSz && w[34] == 0 && (cs % 2 != 0 || comp > |w|))
                ==> res == Fail(DecodeError))
            && ((|w| >= HelloFixedSz && w[34] == 0 && cs % 2 == 0 && comp <= |w| < comp + 4)
                ==> res == Fail(DecodeError))
            && ((|w| >= HelloFixedSz && w[34] == 0 && cs % 2 == 0 && comp + 4 <= |w| && w[comp] != 1)
                ==> res == Fail(ProtocolVersion))
            && ((|w| >= HelloFixedSz && w[34] == 0 && cs % 2 == 0 && comp + 4 <= |w| && w[comp] == 1
                 && comp + 4 + Be16(w, comp + 2) > |w|)
                ==> res == Fail(DecodeError))
  {
  }

  /** As written, an extension header that straddles the end of the
      extension block makes `ext_stop - wire_laddr` wrap around, so the
      declared size of an unknown extension is never checked: a 45-byte
      ClientHello whose one-byte extension block is followed by the header
      of a 1000-byte extension decodes "successfully" as 1045 bytes.  The
      corrected check refuses it. */
  lemma ExtHeaderCrossingCounterexample(ch: ClientHello)
    ensures var w := [3, 3] + seq(32, _ => 0) + [0, 0, 0, 1, 0, 0, 1, 0xFF, 0xFF, 0x03, 0xE8];
            && |w| == 45
            && DecodeClientHelloAsWritten(w, ch).Ok?
            && DecodeClientHelloAsWritten(w, ch).next == 1045
            && DecodeClientHello(w, ch) == Fail(DecodeError)
  {
    var w: seq<byte> := [3, 3] + seq(32, _ => 0) + [0, 0, 0, 1, 0, 0, 1, 0xFF, 0xFF, 0x03, 0xE8];
    assert w[34] == 0;
    assert Be16(w, 35) == 0;
    assert w[37] == 1;
    assert Be16(w, 39) == 1;
    assert Be16(w, 41) == 0xFFFF;
    assert Be16(w, 43) == 1000;
    assert SubWrap(42, 45) + 3 == UlongMod;
  }
}

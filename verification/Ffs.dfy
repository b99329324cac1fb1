// Firmware files: the writer of fv_builder.py, and a reader after the UEFI
// Platform Initialization Specification, Volume 3, section 3.2.3.1.
module Ffs {
  import opened Bytes
  import opened Layout

  type Guid = s: seq<byte> | |s| == 16 witness seq(16, _ => 0)

  const EFI_FV_FILETYPE_RAW: byte := 0x01
  const FFS_ATTRIB_LARGE_FILE: byte := 0x01
  const FFS_ATTRIB_CHECKSUM: byte := 0x40
  const FFS_HEADER_SIZE: nat := 24
  const FFS_HEADER2_SIZE: nat := 32
  const FFS_FILE_STATE: byte := 0x07
  const FFS_STATE_OFFSET: nat := 23
  const FFS_MAX_SIZE: nat := 0xFFFFFF

  // ---------------------------------------------------------------------
  // Checksums
  // ---------------------------------------------------------------------

  function Sum8(s: seq<byte>): nat {
    if s == [] then 0 else s[0] + Sum8(s[1..])
  }

  /** The value that makes the 8-bit sum zero: `(0x100 - sum) & 0xFF`. */
  function Checksum8(s: seq<byte>): byte {
    (0x100 - Sum8(s)) % 0x100
  }

  lemma Checksum8Balances(s: seq<byte>)
    ensures (Sum8(s) + Checksum8(s)) % 0x100 == 0
  {
  }

  lemma {:induction false} Sum8Concat(a: seq<byte>, b: seq<byte>)
    ensures Sum8(a + b) == Sum8(a) + Sum8(b)
  {
    if a == [] {
      assert a + b == b;
    } else {
      assert (a + b)[1..] == a[1..] + b;
      Sum8Concat(a[1..], b);
    }
  }

  lemma Sum8Four(a: byte, b: byte, c: byte, d: byte)
    ensures Sum8([a, b, c, d]) == a + b + c + d
  {
    assert [a, b, c, d][1..] == [b, c, d];
    assert [b, c, d][1..] == [c, d];
    assert [c, d][1..] == [d];
    assert Sum8([c, d]) == c + Sum8([d]);
    assert Sum8([b, c, d]) == b + Sum8([c, d]);
  }

  lemma Sum8One(a: byte)
    ensures Sum8([a]) == a
  {
  }

  // ---------------------------------------------------------------------
  // Writing
  // ---------------------------------------------------------------------

  /** The header fields: 24 bytes, and the 64-bit size behind them in a large file. */
  datatype FfsHeader = FfsHeader(guid: Guid, headerCheck: byte, dataCheck: byte, attributes: byte,
                                 size: nat, state: byte, extendedSize: seq<byte>)

  function HeaderBytes(h: FfsHeader): (s: seq<byte>)
    ensures |s| == 24 + |h.extendedSize|
  {
    (h.guid + [h.headerCheck, h.dataCheck, EFI_FV_FILETYPE_RAW, h.attributes])
    + (Le(h.size, 3) + [h.state] + h.extendedSize)
  }

  /** Too big for the 24-bit size field. */
  predicate NeedsLarge(n: nat) { FFS_HEADER_SIZE + n > FFS_MAX_SIZE }

  /** The header before checksums and state are filled in. */
  function BlankHeader(guid: Guid, n: nat): FfsHeader {
    if NeedsLarge(n)
    then FfsHeader(guid, 0, 0, FFS_ATTRIB_CHECKSUM + FFS_ATTRIB_LARGE_FILE, 0, 0, Le(FFS_HEADER2_SIZE + n, 8))
    else FfsHeader(guid, 0, 0, FFS_ATTRIB_CHECKSUM, FFS_HEADER_SIZE + n, 0, [])
  }

  function RawHeader(guid: Guid, payload: seq<byte>): FfsHeader {
    var blank := BlankHeader(guid, |payload|);
    blank.(headerCheck := Checksum8(HeaderBytes(blank)), dataCheck := Checksum8(payload), state := FFS_FILE_STATE)
  }

  /** `build_raw_ffs`. None when the size does not fit 64 bits. */
  function RawFfs(guid: Guid, payload: seq<byte>): Option<seq<byte>> {
    if FFS_HEADER2_SIZE + |payload| >= Pow256(8) then None
    else Some(HeaderBytes(RawHeader(guid, payload)) + payload)
  }

  /** `buf` holds the fields of `h`. */
  predicate HoldsHeader(buf: seq<byte>, h: FfsHeader) {
    && |buf| == 24 + |h.extendedSize|
    && buf[..16] == h.guid && buf[16] == h.headerCheck && buf[17] == h.dataCheck
    && buf[18] == EFI_FV_FILETYPE_RAW && buf[19] == h.attributes
    && buf[20..23] == Le(h.size, 3) && buf[23] == h.state && buf[24..] == h.extendedSize
  }

  lemma HoldsIs(buf: seq<byte>, h: FfsHeader)
    requires HoldsHeader(buf, h)
    ensures buf == HeaderBytes(h)
  {
    assert buf == buf[..16] + [buf[16], buf[17], buf[18], buf[19]] + (buf[20..23] + [buf[23]] + buf[24..]);
  }

  /** The header buffer, filled slot by slot. */
  method FillHeader(guid: Guid, n: nat) returns (header: seq<byte>)
    requires FFS_HEADER2_SIZE + n < Pow256(8)
    ensures header == HeaderBytes(BlankHeader(guid, n))
  {
    ghost var b := BlankHeader(guid, n);
    var attributes: byte;
    if NeedsLarge(n) {
      header := Fill(FFS_HEADER2_SIZE, 0);
      attributes := FFS_ATTRIB_CHECKSUM + FFS_ATTRIB_LARGE_FILE;
      header := Put(header, 24, Le(FFS_HEADER2_SIZE + n, 8));
      ZeroSize(header);
    } else {
      header := Fill(FFS_HEADER_SIZE, 0);
      attributes := FFS_ATTRIB_CHECKSUM;
      header := Put(header, 20, Le(FFS_HEADER_SIZE + n, 3));
    }
    ghost var sized := header;
    assert SizeFilled(sized, b);
    header := Put(header, 0, guid);
    GuidFilled(sized, b, header);
    header := header[18 := EFI_FV_FILETYPE_RAW];
    header := header[19 := attributes];
    HoldsIs(header, b);
  }

  /** The size slots are filled, all others still zero. */
  predicate SizeFilled(buf: seq<byte>, h: FfsHeader) {
    && |buf| == 24 + |h.extendedSize| && buf[20..23] == Le(h.size, 3) && buf[24..] == h.extendedSize
    && buf[16] == 0 && buf[17] == 0 && buf[23] == 0
  }

  lemma GuidFilled(buf: seq<byte>, h: FfsHeader, filled: seq<byte>)
    requires SizeFilled(buf, h) && filled == Put(buf, 0, h.guid)
    ensures SizeFilled(filled, h) && filled[..16] == h.guid
  {
    assert filled == h.guid + buf[16..];
    assert filled[20..23] == buf[20..23] && filled[24..] == buf[24..];
  }

  lemma ZeroSize(s: seq<byte>)
    requires |s| >= 23 && s[20] == 0 && s[21] == 0 && s[22] == 0
    ensures s[20..23] == Le(0, 3)
  {
    assert Le(0, 3) == [0] + Le(0, 2) && Le(0, 2) == [0] + Le(0, 1) && Le(0, 1) == [0] + Le(0, 0);
  }

  method BuildRawFfs(guid: Guid, payload: seq<byte>) returns (ffs: Option<seq<byte>>)
    ensures ffs == RawFfs(guid, payload)
  {
    if FFS_HEADER2_SIZE + |payload| >= Pow256(8) {
      return None;
    }
    var header := FillHeader(guid, |payload|);
    header := FinishHeader(header, BlankHeader(guid, |payload|), payload);
    ffs := Some(header + payload);
  }

  method FinishHeader(blank: seq<byte>, ghost b: FfsHeader, payload: seq<byte>) returns (header: seq<byte>)
    requires blank == HeaderBytes(b) && b.headerCheck == 0 && b.dataCheck == 0 && b.state == 0
    ensures header == HeaderBytes(b.(headerCheck := Checksum8(blank), dataCheck := Checksum8(payload),
                                     state := FFS_FILE_STATE))
  {
    header := blank;
    header := header[16 := Checksum8(header)];
    header := header[17 := Checksum8(payload)];
    header := header[FFS_STATE_OFFSET := FFS_FILE_STATE];
    HoldsIs(header, b.(headerCheck := Checksum8(blank), dataCheck := Checksum8(payload), state := FFS_FILE_STATE));
  }

  // ---------------------------------------------------------------------
  // Reading
  // ---------------------------------------------------------------------

  datatype FfsFile = FfsFile(guid: seq<byte>, payload: seq<byte>)

  function HeaderSizeOf(attributes: byte): nat {
    if attributes % 2 == 1 then FFS_HEADER2_SIZE else FFS_HEADER_SIZE
  }

  /** A byte of the image, zero behind its end. */
  function At(img: seq<byte>, i: nat): byte { if i < |img| then img[i] else 0 }

  /** The declared size of the file at `pos`, header included. */
  function FileSize(img: seq<byte>, pos: nat): nat {
    if At(img, pos + 19) % 2 == 1 then Num(img, pos + 24, 8) else Num(img, pos + 20, 3)
  }

  /** The header sums to zero without the data checksum and the state. */
  predicate HeaderSumOk(img: seq<byte>, pos: nat, hdr: nat) {
    (Sum8(Slice(img, pos, pos + hdr)) - At(img, pos + 17) - At(img, pos + 23)) % 0x100 == 0
  }

  /** With the checksum attribute the payload and its check byte sum to zero. */
  predicate DataSumOk(img: seq<byte>, pos: nat, hdr: nat, size: nat) {
    if At(img, pos + 19) / 0x40 % 2 == 1
    then (Sum8(Slice(img, pos + hdr, pos + size)) + At(img, pos + 17)) % 0x100 == 0
    else At(img, pos + 17) == 0xAA
  }

  /** The raw file at `pos` of a volume with erase polarity 1, where state bits are stored
      inverted, and its size. None when a checksum, the type or the state is wrong. */
  function ReadFfs(img: seq<byte>, pos: nat): (r: Option<(FfsFile, nat)>)
    ensures r.Some? ==> FFS_HEADER_SIZE <= r.value.1 && pos + r.value.1 <= |img|
  {
    var hdr := HeaderSizeOf(At(img, pos + 19));
    var size := FileSize(img, pos);
    if pos + hdr > |img| || size < hdr || pos + size > |img| then None
    else if At(img, pos + 18) != EFI_FV_FILETYPE_RAW || 0xFF - At(img, pos + 23) != FFS_FILE_STATE then None
    else if !HeaderSumOk(img, pos, hdr) || !DataSumOk(img, pos, hdr, size) then None
    else Some((FfsFile(Slice(img, pos, pos + 16), Slice(img, pos + hdr, pos + size)), size))
  }

  // ---------------------------------------------------------------------
  // Reading undoes writing
  // ---------------------------------------------------------------------

  lemma HeaderSum(h: FfsHeader)
    ensures Sum8(HeaderBytes(h)) == Sum8(h.guid) + h.headerCheck + h.dataCheck + EFI_FV_FILETYPE_RAW + h.attributes
                                    + Sum8(Le(h.size, 3)) + h.state + Sum8(h.extendedSize)
  {
    var four := [h.headerCheck, h.dataCheck, EFI_FV_FILETYPE_RAW, h.attributes];
    Sum8Concat(h.guid + four, Le(h.size, 3) + [h.state] + h.extendedSize);
    Sum8Concat(h.guid, four);
    Sum8Four(h.headerCheck, h.dataCheck, EFI_FV_FILETYPE_RAW, h.attributes);
    Sum8Concat(Le(h.size, 3) + [h.state], h.extendedSize);
    Sum8Concat(Le(h.size, 3), [h.state]);
    Sum8One(h.state);
  }

  /** The header check is right for any state and data check. */
  lemma RawHeaderSum(guid: Guid, payload: seq<byte>, h: FfsHeader)
    requires h == RawHeader(guid, payload).(state := h.state)
    ensures (Sum8(HeaderBytes(h)) - h.dataCheck - h.state) % 0x100 == 0
  {
    var blank := BlankHeader(guid, |payload|);
    HeaderSum(h);
    HeaderSum(blank);
    Checksum8Balances(HeaderBytes(blank));
  }

  /** Where the fields of a header stand in an image. */
  predicate HeaderAt(img: seq<byte>, pos: nat, h: FfsHeader) {
    && pos + 24 + |h.extendedSize| <= |img|
    && img[pos..pos + 16] == h.guid
    && img[pos + 17] == h.dataCheck && img[pos + 18] == EFI_FV_FILETYPE_RAW && img[pos + 19] == h.attributes
    && img[pos + 20..pos + 23] == Le(h.size, 3) && img[pos + 23] == h.state
    && img[pos + 24..pos + 24 + |h.extendedSize|] == h.extendedSize
  }

  lemma HeaderPlaced(img: seq<byte>, pos: nat, h: FfsHeader)
    requires pos + |HeaderBytes(h)| <= |img| && img[pos..pos + |HeaderBytes(h)|] == HeaderBytes(h)
    ensures HeaderAt(img, pos, h)
  {
    var four := [h.headerCheck, h.dataCheck, EFI_FV_FILETYPE_RAW, h.attributes];
    TwoParts(img, pos, h.guid + four, Le(h.size, 3) + [h.state] + h.extendedSize);
    TwoParts(img, pos, h.guid, four);
    ThreeParts(img, pos + 20, Le(h.size, 3), [h.state], h.extendedSize);
    FourBytes(img, pos + 16, four);
    OneByte(img, pos + 23, h.state);
  }

  lemma FourBytes(img: seq<byte>, p: nat, four: seq<byte>)
    requires |four| == 4 && p + 4 <= |img| && img[p..p + 4] == four
    ensures img[p] == four[0] && img[p + 1] == four[1] && img[p + 2] == four[2] && img[p + 3] == four[3]
  {
    var w := img[p..p + 4];
    assert w[0] == img[p] && w[1] == img[p + 1] && w[2] == img[p + 2] && w[3] == img[p + 3];
  }

  lemma OneByte(img: seq<byte>, p: nat, b: byte)
    requires p + 1 <= |img| && img[p..p + 1] == [b]
    ensures img[p] == b
  {
    assert img[p..p + 1][0] == img[p];
  }

  lemma SizeRead(img: seq<byte>, pos: nat, guid: Guid, n: nat, h: FfsHeader)
    requires FFS_HEADER2_SIZE + n < Pow256(8) && HeaderAt(img, pos, h)
    requires var b := BlankHeader(guid, n); h.attributes == b.attributes && h.size == b.size && h.extendedSize == b.extendedSize
    ensures HeaderSizeOf(At(img, pos + 19)) == 24 + |h.extendedSize|
    ensures FileSize(img, pos) == 24 + |h.extendedSize| + n
  {
    if NeedsLarge(n) {
      NumAt(img, pos + 24, FFS_HEADER2_SIZE + n, 8);
    } else {
      assert Pow256(3) == 0x100_0000 by {
        assert Pow256(1) == 0x100 && Pow256(2) == 0x1_0000;
      }
      NumAt(img, pos + 20, FFS_HEADER_SIZE + n, 3);
    }
  }

  /** The header of a raw file in a volume: its state inverted. */
  function StoredHeader(guid: Guid, payload: seq<byte>): FfsHeader {
    RawHeader(guid, payload).(state := 0xFF - FFS_FILE_STATE)
  }

  lemma SumsRight(img: seq<byte>, pos: nat, guid: Guid, payload: seq<byte>, h: FfsHeader, hdr: nat)
    requires h == StoredHeader(guid, payload) && hdr == |HeaderBytes(h)| && HeaderAt(img, pos, h)
    requires pos + hdr + |payload| <= |img|
    requires img[pos..pos + hdr] == HeaderBytes(h) && img[pos + hdr..pos + hdr + |payload|] == payload
    ensures HeaderSumOk(img, pos, hdr) && DataSumOk(img, pos, hdr, hdr + |payload|)
  {
    RawHeaderSum(guid, payload, h);
    Checksum8Balances(payload);
    assert h.attributes == 0x40 || h.attributes == 0x41;
    assert Slice(img, pos, pos + hdr) == HeaderBytes(h);
    assert Slice(img, pos + hdr, pos + hdr + |payload|) == payload;
  }

  /** A raw file stored at `pos` of a volume is read back. */
  lemma StoredRead(img: seq<byte>, pos: nat, guid: Guid, payload: seq<byte>, file: seq<byte>)
    requires FFS_HEADER2_SIZE + |payload| < Pow256(8)
    requires file == HeaderBytes(StoredHeader(guid, payload)) + payload
    requires pos + |file| <= |img| && img[pos..pos + |file|] == file
    ensures ReadFfs(img, pos) == Some((FfsFile(guid, payload), |file|)) && img[pos + 18] == EFI_FV_FILETYPE_RAW
  {
    var h := StoredHeader(guid, payload);
    TwoParts(img, pos, HeaderBytes(h), payload);
    HeaderPlaced(img, pos, h);
    SizeRead(img, pos, guid, |payload|, h);
    SumsRight(img, pos, guid, payload, h, |HeaderBytes(h)|);
    FileAssembled(img, pos, 24 + |h.extendedSize|, |file|, guid, payload);
  }

  lemma FileAssembled(img: seq<byte>, pos: nat, hdr: nat, size: nat, guid: seq<byte>, payload: seq<byte>)
    requires hdr == HeaderSizeOf(At(img, pos + 19)) && size == FileSize(img, pos) && hdr <= size && pos + size <= |img|
    requires At(img, pos + 18) == EFI_FV_FILETYPE_RAW && At(img, pos + 23) == 0xFF - FFS_FILE_STATE
    requires HeaderSumOk(img, pos, hdr) && DataSumOk(img, pos, hdr, size)
    requires guid == img[pos..pos + 16] && payload == img[pos + hdr..pos + size]
    ensures ReadFfs(img, pos) == Some((FfsFile(guid, payload), size))
  {
  }
}

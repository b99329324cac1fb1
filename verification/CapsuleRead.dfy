// Decoding a capsule as `dump_info` does, and that decoding undoes encoding.
module CapsuleRead {
  import opened Bytes
  import opened Layout
  import opened Capsule

  // ---------------------------------------------------------------------
  // The decoder
  // ---------------------------------------------------------------------

  datatype AuthInfo = AuthInfo(count: nat, length: nat, revision: nat, kind: nat, certGuid: seq<byte>, cert: seq<byte>)

  datatype Mss1Info = Mss1Info(headerSize: nat, fwVersion: nat, lowest: nat, payload: seq<byte>)

  datatype ItemInfo = ItemInfo(
    version: nat, typeGuid: seq<byte>, imageIndex: nat, imageLen: nat, vendorLen: nat,
    hwInstance: nat, support: nat, auth: Option<AuthInfo>, image: seq<byte>, mss1: Option<Mss1Info>)

  datatype CapsuleInfo = CapsuleInfo(
    guid: seq<byte>, headerSize: nat, flags: nat, imageSize: nat, version: nat,
    drivers: seq<seq<byte>>, items: seq<ItemInfo>)

  /** `s[from:]` */
  function From(s: seq<byte>, from: nat): seq<byte> { s[Min(from, |s|)..] }

  /** The authentication header; None when it is truncated. */
  function ReadAuth(image: seq<byte>): Option<AuthInfo> {
    if |image| < AUTH_HEADER_SIZE then None
    else
      var length := Num(image, 8, 4);
      Some(AuthInfo(Num(image, 0, 8), length, Num(image, 12, 2), Num(image, 14, 2), image[16..32],
                    Slice(image, AUTH_HEADER_SIZE, 8 + length)))
  }

  /** The MSS1 header, if there is one; None when it is truncated. */
  function ReadMss1(image: seq<byte>): Option<Option<Mss1Info>> {
    if Slice(image, 0, 4) != PayloadSignature() then Some(None)
    else if |image| < FMP_PAYLOAD_HEADER_SIZE then None
    else
      var size := Num(image, 4, 4);
      Some(Some(Mss1Info(size, Num(image, 8, 4), Num(image, 12, 4), From(image, size))))
  }

  /** What an item holds behind its header: the authentication, the firmware image, and
      the MSS1 header of the image. */
  datatype Contents = Contents(auth: Option<AuthInfo>, image: seq<byte>, mss1: Option<Mss1Info>)

  function ReadContents(whole: seq<byte>, support: nat): Option<Contents> {
    var auth :- if support % 2 == 1 then Wrapped(ReadAuth(whole)) else Some(None);
    var image := if auth.Some? then From(whole, 8 + auth.value.length) else whole;
    var mss1 :- ReadMss1(image);
    Some(Contents(auth, image, mss1))
  }

  function ReadItem(item: seq<byte>): Option<ItemInfo> {
    if |item| < FMP_IMAGE_HEADER_SIZE then None
    else
      var c :- ReadContents(item[FMP_IMAGE_HEADER_SIZE..], Num(item, 40, 8));
      Some(ItemInfo(Num(item, 0, 4), item[4..20], Num(item, 20, 1), Num(item, 24, 4), Num(item, 28, 4),
                    Num(item, 32, 8), Num(item, 40, 8), c.auth, c.image, c.mss1))
  }

  function Wrapped<T>(x: Option<T>): Option<Option<T>> {
    if x.None? then None else Some(x)
  }

  /** Offset `i` of the table; None when it is truncated. */
  function ReadOffset(fmp: seq<byte>, i: nat): Option<nat> {
    var p := FMP_CAPSULE_HEADER_SIZE + 8 * i;
    if p + 8 > |fmp| then None else Some(Num(fmp, p, 8))
  }

  /** Offsets `i`, ..., `n - 1`. */
  function ReadOffsets(fmp: seq<byte>, i: nat, n: nat): Option<seq<nat>>
    decreases Max(0, n - i)
  {
    if i >= n then Some([])
    else
      var first :- ReadOffset(fmp, i);
      var rest :- ReadOffsets(fmp, i + 1, n);
      Some([first] + rest)
  }

  /** The pieces of the body that the offsets cut out; the last goes to the end. */
  function Pieces(fmp: seq<byte>, offsets: seq<nat>): (ps: seq<seq<byte>>)
    ensures |ps| == |offsets|
  {
    if offsets == [] then []
    else
      var end := if |offsets| > 1 then offsets[1] else |fmp|;
      [Slice(fmp, offsets[0], end)] + Pieces(fmp, offsets[1..])
  }

  function ReadItems(read: seq<byte> -> Option<ItemInfo>, pieces: seq<seq<byte>>): Option<seq<ItemInfo>> {
    if pieces == [] then Some([])
    else
      var first :- read(pieces[0]);
      var rest :- ReadItems(read, pieces[1..]);
      Some([first] + rest)
  }

  function ItemReader(): seq<byte> -> Option<ItemInfo> {
    (item: seq<byte>) => ReadItem(item)
  }

  /** `dump_info`. None when something is truncated or the declared size is wrong. */
  function Decode(data: seq<byte>): Option<CapsuleInfo> {
    if |data| < CAPSULE_HEADER_SIZE || Num(data, 24, 4) != |data| then None
    else
      var fmp := From(data, Num(data, 16, 4));
      if |fmp| < FMP_CAPSULE_HEADER_SIZE then None
      else
        var d, n := Num(fmp, 4, 2), Num(fmp, 4, 2) + Num(fmp, 6, 2);
        var offsets :- ReadOffsets(fmp, 0, n);
        var pieces := Pieces(fmp, offsets);
        var items :- ReadItems(ItemReader(), pieces[Min(d, |pieces|)..]);
        Some(CapsuleInfo(data[..16], Num(data, 16, 4), Num(data, 20, 4), Num(data, 24, 4), Num(fmp, 0, 4),
                         pieces[..Min(d, |pieces|)], items))
  }

  /** The offsets, read in a loop. */
  method CollectOffsets(fmp: seq<byte>, n: nat) returns (offsets: Option<seq<nat>>)
    ensures offsets == ReadOffsets(fmp, 0, n)
  {
    var done: seq<nat> := [];
    ghost var goal := ReadOffsets(fmp, 0, n);
    AppendedNothing(goal);
    for i := 0 to n
      invariant Appended(done, ReadOffsets(fmp, i, n)) == goal
    {
      var offset := ReadOffset(fmp, i);
      if offset.None? {
        return None;
      }
      AppendedNext(done, offset.value, ReadOffsets(fmp, i + 1, n));
      done := done + [offset.value];
    }
    assert done + [] == done;
    offsets := Some(done);
  }

  /** The items behind the drivers, decoded in a loop. */
  method DumpItems(pieces: seq<seq<byte>>) returns (items: Option<seq<ItemInfo>>)
    ensures items == ReadItems(ItemReader(), pieces)
  {
    var done: seq<ItemInfo> := [];
    ghost var goal := ReadItems(ItemReader(), pieces);
    AppendedNothing(goal);
    for k := 0 to |pieces|
      invariant Appended(done, ReadItems(ItemReader(), pieces[k..])) == goal
    {
      assert pieces[k..][1..] == pieces[k + 1..];
      var item := ReadItem(pieces[k]);
      if item.None? {
        return None;
      }
      AppendedNext(done, item.value, ReadItems(ItemReader(), pieces[k + 1..]));
      done := done + [item.value];
    }
    assert done + [] == done;
    items := Some(done);
  }

  method DumpInfo(data: seq<byte>) returns (info: Option<CapsuleInfo>)
    ensures info == Decode(data)
  {
    if |data| < CAPSULE_HEADER_SIZE || Num(data, 24, 4) != |data| {
      return None;
    }
    var fmp := From(data, Num(data, 16, 4));
    if |fmp| < FMP_CAPSULE_HEADER_SIZE {
      return None;
    }
    var d := Num(fmp, 4, 2);
    var offsets := CollectOffsets(fmp, d + Num(fmp, 6, 2));
    if offsets.None? {
      return None;
    }
    var pieces := Pieces(fmp, offsets.value);
    var items := DumpItems(pieces[Min(d, |pieces|)..]);
    if items.None? {
      return None;
    }
    info := Some(CapsuleInfo(data[..16], Num(data, 16, 4), Num(data, 20, 4), Num(data, 24, 4), Num(fmp, 0, 4),
                             pieces[..Min(d, |pieces|)], items.value));
  }

  // ---------------------------------------------------------------------
  // What an encoded payload decodes to
  // ---------------------------------------------------------------------

  function Mss1Of(p: Payload): Mss1Info
    requires 0 <= p.d.fwVersion && 0 <= p.d.lowestSupportedVersion
  {
    Mss1Info(FMP_PAYLOAD_HEADER_SIZE, p.d.fwVersion, p.d.lowestSupportedVersion, p.bytes)
  }

  function AuthOf(count: nat, cert: seq<byte>): AuthInfo {
    AuthInfo(count, WIN_CERT_PREFIX_LEN + |cert|, WIN_CERT_REVISION, WIN_CERT_TYPE_EFI_GUID, Pkcs7Guid(), cert)
  }

  lemma ImageRead(fw: nat, lowest: nat, payload: seq<byte>)
    requires fw < Pow256(4) && lowest < Pow256(4)
    ensures ReadMss1(PayloadImage(fw, lowest, payload))
         == Some(Some(Mss1Info(FMP_PAYLOAD_HEADER_SIZE, fw, lowest, payload)))
  {
    var image := PayloadImage(fw, lowest, payload);
    assert image[0..|image|] == image;
    ThreeParts(image, 0, PayloadSignature() + Le(FMP_PAYLOAD_HEADER_SIZE, 4), Le(fw, 4) + Le(lowest, 4), payload);
    TwoParts(image, 0, PayloadSignature(), Le(FMP_PAYLOAD_HEADER_SIZE, 4));
    TwoParts(image, 8, Le(fw, 4), Le(lowest, 4));
    NumAt(image, 4, FMP_PAYLOAD_HEADER_SIZE, 4);
    NumAt(image, 8, fw, 4);
    NumAt(image, 12, lowest, 4);
  }

  lemma AuthRead(count: nat, cert: seq<byte>, image: seq<byte>, whole: seq<byte>)
    requires count < Pow256(8) && WIN_CERT_PREFIX_LEN + |cert| < Pow256(4) && whole == AuthHeader(count, cert) + image
    ensures ReadAuth(whole) == Some(AuthOf(count, cert))
    ensures From(whole, 8 + WIN_CERT_PREFIX_LEN + |cert|) == image
  {
    var h := AuthHeader(count, cert);
    assert whole[0..|h|] == h;
    ThreeParts(whole, 0, Le(count, 8) + Le(WIN_CERT_PREFIX_LEN + |cert|, 4),
               Le(WIN_CERT_REVISION, 2) + Le(WIN_CERT_TYPE_EFI_GUID, 2), Pkcs7Guid() + cert);
    TwoParts(whole, 0, Le(count, 8), Le(WIN_CERT_PREFIX_LEN + |cert|, 4));
    TwoParts(whole, 12, Le(WIN_CERT_REVISION, 2), Le(WIN_CERT_TYPE_EFI_GUID, 2));
    TwoParts(whole, 16, Pkcs7Guid(), cert);
    NumAt(whole, 0, count, 8);
    NumAt(whole, 8, WIN_CERT_PREFIX_LEN + |cert|, 4);
    NumAt(whole, 12, WIN_CERT_REVISION, 2);
    NumAt(whole, 14, WIN_CERT_TYPE_EFI_GUID, 2);
  }

  lemma HeaderRead(item: seq<byte>, d: Descriptor, size: nat)
    requires 0 <= d.updateImageIndex <= 0xFF && 0 <= d.hardwareInstance < Pow256(8) && size < Pow256(4)
    requires FMP_IMAGE_HEADER_SIZE <= |item| && item[0..FMP_IMAGE_HEADER_SIZE] == ImageHeader(d, size)
    ensures Num(item, 0, 4) == FMP_IMAGE_HEADER_VERSION && item[4..20] == d.guid
    ensures Num(item, 20, 1) == d.updateImageIndex
    ensures Num(item, 24, 4) == size && Num(item, 28, 4) == 0
    ensures Num(item, 32, 8) == d.hardwareInstance && Num(item, 40, 8) == Support(d)
  {
    var sizes := Le(size, 4) + Le(0, 4);
    ThreeParts(item, 0, Le(FMP_IMAGE_HEADER_VERSION, 4) + d.guid, [d.updateImageIndex, 0, 0, 0] + sizes,
               Le(d.hardwareInstance, 8) + Le(Support(d), 8));
    TwoParts(item, 0, Le(FMP_IMAGE_HEADER_VERSION, 4), d.guid);
    TwoParts(item, 20, [d.updateImageIndex, 0, 0, 0], sizes);
    TwoParts(item, 24, Le(size, 4), Le(0, 4));
    TwoParts(item, 32, Le(d.hardwareInstance, 8), Le(Support(d), 8));
    NumAt(item, 0, FMP_IMAGE_HEADER_VERSION, 4);
    ByteRead(item, 20, d.updateImageIndex);
    NumAt(item, 24, size, 4);
    NumAt(item, 28, 0, 4);
    NumAt(item, 32, d.hardwareInstance, 8);
    NumAt(item, 40, Support(d), 8);
  }

  lemma ByteRead(item: seq<byte>, p: nat, b: byte)
    requires p + 4 <= |item| && item[p..p + 4] == [b, 0, 0, 0]
    ensures Num(item, p, 1) == b
  {
    assert item[p] == item[p..p + 4][0];
    assert Slice(item, p, p + 1) == [b];
    assert FromLe([b]) == b + 256 * FromLe([b][1..]);
  }

  /** The bytes of the firmware image of a payload: MSS1 header and contents. */
  function ImageOf(p: Payload): seq<byte>
    requires 0 <= p.d.fwVersion && 0 <= p.d.lowestSupportedVersion
  {
    PayloadImage(p.d.fwVersion, p.d.lowestSupportedVersion, p.bytes)
  }

  /** What is signed: the image and the monotonic count behind it. */
  function SignedContent(p: Payload): seq<byte>
    requires 0 <= p.d.fwVersion && 0 <= p.d.lowestSupportedVersion && 0 <= p.d.monotonicCount
  {
    ImageOf(p) + Le(p.d.monotonicCount, 8)
  }

  predicate InRange(sign: Signer, p: Payload) {
    && 0 <= p.d.fwVersion < Pow256(4) && 0 <= p.d.lowestSupportedVersion < Pow256(4)
    && 0 <= p.d.updateImageIndex <= 0xFF && 0 <= p.d.hardwareInstance < Pow256(8)
    && (p.d.sign ==>
          && 0 <= p.d.monotonicCount < Pow256(8) && sign(SignedContent(p)).Some?
          && WIN_CERT_PREFIX_LEN + |sign(SignedContent(p)).value| < Pow256(4))
  }

  /** The contents of an item behind its header. */
  function Whole(sign: Signer, p: Payload): seq<byte>
    requires InRange(sign, p)
  {
    if p.d.sign then AuthHeader(p.d.monotonicCount, sign(SignedContent(p)).value) + ImageOf(p) else ImageOf(p)
  }

  /** An item encodes exactly if its numbers fit their fields and signing succeeds. */
  lemma EncodesIff(sign: Signer, p: Payload)
    ensures EncodeItem(sign, p).Some? <==> InRange(sign, p) && |Whole(sign, p)| < Pow256(4)
    ensures EncodeItem(sign, p).Some? ==>
              EncodeItem(sign, p).value == ImageHeader(p.d, |Whole(sign, p)|) + Whole(sign, p)
  {
  }

  function AuthInfoOf(sign: Signer, p: Payload): Option<AuthInfo>
    requires InRange(sign, p)
  {
    if p.d.sign then Some(AuthOf(p.d.monotonicCount, sign(SignedContent(p)).value)) else None
  }

  /** What an item decodes to. */
  function InfoOf(sign: Signer, p: Payload): ItemInfo
    requires InRange(sign, p)
  {
    ItemInfo(FMP_IMAGE_HEADER_VERSION, p.d.guid, p.d.updateImageIndex, |Whole(sign, p)|, 0,
             p.d.hardwareInstance, Support(p.d), AuthInfoOf(sign, p), ImageOf(p), Some(Mss1Of(p)))
  }

  /** The authentication of an item is read exactly if it is signed. */
  lemma WholeRead(sign: Signer, p: Payload, whole: seq<byte>, support: nat, auth: Option<AuthInfo>, image: seq<byte>)
    requires InRange(sign, p) && whole == Whole(sign, p) && support == Support(p.d)
    requires auth == AuthInfoOf(sign, p) && image == ImageOf(p)
    ensures (if support % 2 == 1 then Wrapped(ReadAuth(whole)) else Some(None)) == Some(auth)
    ensures (if auth.Some? then From(whole, 8 + auth.value.length) else whole) == image
  {
    if p.d.sign {
      AuthRead(p.d.monotonicCount, sign(SignedContent(p)).value, image, whole);
    }
  }

  lemma ItemParts(d: Descriptor, whole: seq<byte>, item: seq<byte>)
    requires 0 <= d.updateImageIndex <= 0xFF && 0 <= d.hardwareInstance
    requires item == ImageHeader(d, |whole|) + whole
    ensures FMP_IMAGE_HEADER_SIZE <= |item| && item[FMP_IMAGE_HEADER_SIZE..] == whole
    ensures item[0..FMP_IMAGE_HEADER_SIZE] == ImageHeader(d, |whole|)
  {
  }

  /** Decoding an encoded item recovers the descriptor and the payload. */
  lemma ItemRead(sign: Signer, p: Payload, item: seq<byte>)
    requires EncodeItem(sign, p) == Some(item)
    ensures InRange(sign, p) && ReadItem(item) == Some(InfoOf(sign, p))
  {
    EncodesIff(sign, p);
    var whole := Whole(sign, p);
    ItemParts(p.d, whole, item);
    HeaderRead(item, p.d, |whole|);
    ContentsRead(sign, p, whole);
    ItemAssembled(item, whole, Num(item, 40, 8), Contents(AuthInfoOf(sign, p), ImageOf(p), Some(Mss1Of(p))));
  }

  lemma ContentsRead(sign: Signer, p: Payload, whole: seq<byte>)
    requires InRange(sign, p) && whole == Whole(sign, p)
    ensures ReadContents(whole, Support(p.d)) == Some(Contents(AuthInfoOf(sign, p), ImageOf(p), Some(Mss1Of(p))))
  {
    WholeRead(sign, p, whole, Support(p.d), AuthInfoOf(sign, p), ImageOf(p));
    ImageRead(p.d.fwVersion, p.d.lowestSupportedVersion, p.bytes);
    ContentsAssembled(whole, Support(p.d), AuthInfoOf(sign, p), ImageOf(p), Some(Mss1Of(p)));
  }

  lemma ContentsAssembled(whole: seq<byte>, support: nat, auth: Option<AuthInfo>, image: seq<byte>, mss1: Option<Mss1Info>)
    requires (if support % 2 == 1 then Wrapped(ReadAuth(whole)) else Some(None)) == Some(auth)
    requires (if auth.Some? then From(whole, 8 + auth.value.length) else whole) == image
    requires ReadMss1(image) == Some(mss1)
    ensures ReadContents(whole, support) == Some(Contents(auth, image, mss1))
  {
  }

  lemma ItemAssembled(item: seq<byte>, whole: seq<byte>, support: nat, c: Contents)
    requires FMP_IMAGE_HEADER_SIZE <= |item| && item[FMP_IMAGE_HEADER_SIZE..] == whole
    requires support == Num(item, 40, 8) && ReadContents(whole, support) == Some(c)
    ensures ReadItem(item)
         == Some(ItemInfo(Num(item, 0, 4), item[4..20], Num(item, 20, 1), Num(item, 24, 4), Num(item, 28, 4),
                          Num(item, 32, 8), support, c.auth, c.image, c.mss1))
  {
  }

  // ---------------------------------------------------------------------
  // The body
  // ---------------------------------------------------------------------

  function Offsets(items: seq<seq<byte>>, offset: nat): (os: seq<nat>)
    ensures |os| == |items|
  {
    if items == [] then [] else [offset] + Offsets(items[1..], offset + |items[0]|)
  }

  lemma {:induction false} OffsetsRead(fmp: seq<byte>, pre: seq<byte>, items: seq<seq<byte>>, offset: nat,
                                       table: seq<byte>, post: seq<byte>, i: nat, n: nat)
    requires OffsetTable(items, offset) == Some(table) && fmp == pre + table + post
    requires |pre| == FMP_CAPSULE_HEADER_SIZE + 8 * i && n == i + |items|
    ensures ReadOffsets(fmp, i, n) == Some(Offsets(items, offset))
    decreases items
  {
    if items != [] {
      var first := Le(offset, 8);
      var rest := OffsetTable(items[1..], offset + |items[0]|).value;
      TableHead(fmp, pre, first, rest, post);
      OffsetRead(fmp, |pre|, offset, i);
      OffsetsRead(fmp, pre + first, items[1..], offset + |items[0]|, rest, post, i + 1, n);
    }
  }

  lemma OffsetRead(fmp: seq<byte>, pos: nat, offset: nat, i: nat)
    requires pos == FMP_CAPSULE_HEADER_SIZE + 8 * i && offset < Pow256(8)
    requires pos + 8 <= |fmp| && fmp[pos..pos + 8] == Le(offset, 8)
    ensures ReadOffset(fmp, i) == Some(offset)
  {
    NumAt(fmp, pos, offset, 8);
  }

  lemma TableHead(fmp: seq<byte>, pre: seq<byte>, first: seq<byte>, rest: seq<byte>, post: seq<byte>)
    requires fmp == pre + (first + rest) + post
    ensures fmp == (pre + first) + rest + post
    ensures |pre| + |first| <= |fmp| && fmp[|pre|..|pre| + |first|] == first
  {
  }

  /** The offsets cut the body into exactly its items, the last of which ends with it. */
  lemma {:induction false} PiecesRead(fmp: seq<byte>, pre: seq<byte>, items: seq<seq<byte>>)
    requires fmp == pre + Join(items)
    ensures Pieces(fmp, Offsets(items, |pre|)) == items
    decreases items
  {
    if items != [] {
      var offsets := Offsets(items, |pre|);
      FirstPiece(fmp, pre, items[0], Join(items[1..]));
      PiecesRead(fmp, pre + items[0], items[1..]);
      assert offsets[1..] == Offsets(items[1..], |pre| + |items[0]|);
      if |items| == 1 {
        assert Join(items[1..]) == [];
      }
    }
  }

  lemma FirstPiece(fmp: seq<byte>, pre: seq<byte>, a: seq<byte>, b: seq<byte>)
    requires fmp == pre + (a + b)
    ensures fmp == (pre + a) + b && Slice(fmp, |pre|, |pre| + |a|) == a
  {
  }

  /** Offset `k` is the start of the table's end plus the lengths of all earlier items. */
  lemma {:induction false} OffsetIsSum(items: seq<seq<byte>>, offset: nat, k: nat)
    requires k < |items|
    ensures Offsets(items, offset)[k] == offset + |Join(items[..k])|
    ensures k == |items| - 1 ==> Offsets(items, offset)[k] + |items[k]| == offset + |Join(items)|
    decreases items
  {
    if k == 0 {
      assert items[..0] == [];
      if |items| == 1 {
        assert Join(items[1..]) == [];
      }
    } else {
      OffsetIsSum(items[1..], offset + |items[0]|, k - 1);
      assert items[..k] == [items[0]] + items[1..][..k - 1];
      assert items[..k][1..] == items[1..][..k - 1];
    }
  }
}

// The capsule round trip and what follows from it.
module CapsuleTrip {
  import opened Bytes
  import opened Bits
  import opened Layout
  import opened Capsule
  import opened CapsuleRead

  // ---------------------------------------------------------------------
  // Items and body
  // ---------------------------------------------------------------------

  predicate AllInRange(sign: Signer, ps: seq<Payload>) {
    ps != [] ==> InRange(sign, ps[0]) && AllInRange(sign, ps[1..])
  }

  function InfosOf(sign: Signer, ps: seq<Payload>): (infos: seq<ItemInfo>)
    requires AllInRange(sign, ps)
    ensures |infos| == |ps|
  {
    if ps == [] then [] else [InfoOf(sign, ps[0])] + InfosOf(sign, ps[1..])
  }

  ghost predicate Recovers(sign: Signer, read: seq<byte> -> Option<ItemInfo>) {
    forall p: Payload, item: seq<byte> :: EncodeItem(sign, p) == Some(item) ==>
      InRange(sign, p) && read(item) == Some(InfoOf(sign, p))
  }

  lemma ReaderRecovers(sign: Signer)
    ensures Recovers(sign, ItemReader())
  {
    forall p: Payload, item: seq<byte> | EncodeItem(sign, p) == Some(item)
      ensures InRange(sign, p) && ItemReader()(item) == Some(InfoOf(sign, p))
    {
      ItemRead(sign, p, item);
    }
  }

  lemma {:induction false} ItemsRead(sign: Signer, read: seq<byte> -> Option<ItemInfo>, ps: seq<Payload>,
                                     items: seq<seq<byte>>)
    requires Recovers(sign, read) && EncodeItems(sign, ps) == Some(items)
    ensures |items| == |ps| && AllInRange(sign, ps) && ReadItems(read, items) == Some(InfosOf(sign, ps))
    decreases ps
  {
    if ps != [] {
      var rest := EncodeItems(sign, ps[1..]).value;
      assert items == [items[0]] + rest && items[1..] == rest;
      assert EncodeItem(sign, ps[0]) == Some(items[0]);
      ItemsRead(sign, read, ps[1..], rest);
    }
  }

  lemma {:induction false} TableLength(items: seq<seq<byte>>, offset: nat)
    requires OffsetTable(items, offset).Some?
    ensures |OffsetTable(items, offset).value| == 8 * |items|
    decreases items
  {
    if items != [] {
      TableLength(items[1..], offset + |items[0]|);
    }
  }

  lemma BodyParts(body: seq<byte>, d: nat, n: nat, table: seq<byte>, joined: seq<byte>)
    requires d < Pow256(2) && n < Pow256(2) && body == FmpHeader(d, n) + table + joined
    ensures Num(body, 0, 4) == FMP_CAPSULE_HEADER_VERSION && Num(body, 4, 2) == d && Num(body, 6, 2) == n
  {
    assert body[0..8] == FmpHeader(d, n);
    TwoParts(body, 0, Le(FMP_CAPSULE_HEADER_VERSION, 4), Le(d, 2) + Le(n, 2));
    TwoParts(body, 4, Le(d, 2), Le(n, 2));
    NumAt(body, 0, FMP_CAPSULE_HEADER_VERSION, 4);
    NumAt(body, 4, d, 2);
    NumAt(body, 6, n, 2);
  }

  /** The offset table cuts the body into its items. */
  lemma BodyRead(items: seq<seq<byte>>, d: nat, n: nat, body: seq<byte>)
    requires EncodeBody(items, d, n) == Some(body) && d + n == |items|
    ensures FMP_CAPSULE_HEADER_SIZE <= |body|
    ensures Num(body, 0, 4) == FMP_CAPSULE_HEADER_VERSION && Num(body, 4, 2) == d && Num(body, 6, 2) == n
    ensures var start := FMP_CAPSULE_HEADER_SIZE + 8 * |items|;
            ReadOffsets(body, 0, d + n) == Some(Offsets(items, start)) && Pieces(body, Offsets(items, start)) == items
  {
    var start := FMP_CAPSULE_HEADER_SIZE + 8 * |items|;
    var table := OffsetTable(items, start).value;
    TableLength(items, start);
    BodyParts(body, d, n, table, Join(items));
    OffsetsRead(body, FmpHeader(d, n), items, start, table, Join(items), 0, |items|);
    PiecesRead(body, FmpHeader(d, n) + table, items);
  }

  // ---------------------------------------------------------------------
  // The capsule
  // ---------------------------------------------------------------------

  lemma OuterRead(data: seq<byte>, flags: nat, body: seq<byte>)
    requires data == OuterHeader(flags, CAPSULE_HEADER_SIZE + |body|) + body
    requires flags < Pow256(4) && CAPSULE_HEADER_SIZE + |body| < Pow256(4)
    ensures |data| == CAPSULE_HEADER_SIZE + |body| && data[..16] == CapsuleIdGuid()
    ensures Num(data, 16, 4) == CAPSULE_HEADER_SIZE && Num(data, 20, 4) == flags && Num(data, 24, 4) == |data|
    ensures From(data, CAPSULE_HEADER_SIZE) == body
  {
    var size := CAPSULE_HEADER_SIZE + |body|;
    assert data[0..32] == OuterHeader(flags, size);
    ThreeParts(data, 0, CapsuleIdGuid() + Le(CAPSULE_HEADER_SIZE, 4), Le(flags, 4) + Le(size, 4), Le(0, 4));
    TwoParts(data, 0, CapsuleIdGuid(), Le(CAPSULE_HEADER_SIZE, 4));
    TwoParts(data, 20, Le(flags, 4), Le(size, 4));
    assert data[..16] == data[0..16];
    NumAt(data, 16, CAPSULE_HEADER_SIZE, 4);
    NumAt(data, 20, flags, 4);
    NumAt(data, 24, size, 4);
  }

  lemma CapsuleParts(sign: Signer, ps: seq<Payload>, drivers: seq<seq<byte>>, names: seq<string>, oemFlags: int,
                     data: seq<byte>)
    returns (items: seq<seq<byte>>, body: seq<byte>, flags: nat)
    requires EncodeCapsule(sign, ps, drivers, names, oemFlags) == Some(data)
    ensures EncodeItems(sign, ps) == Some(items) && EncodeBody(drivers + items, |drivers|, |ps|) == Some(body)
    ensures 0 <= oemFlags && FoldFlags(oemFlags, names) == Some(flags)
    ensures flags < Pow256(4) && CAPSULE_HEADER_SIZE + |body| < Pow256(4)
    ensures data == OuterHeader(flags, CAPSULE_HEADER_SIZE + |body|) + body
  {
    items := EncodeItems(sign, ps).value;
    body := EncodeBody(drivers + items, |drivers|, |ps|).value;
    flags := FoldFlags(oemFlags, names).value;
  }

  lemma PiecesDecode(data: seq<byte>, body: seq<byte>, all: seq<seq<byte>>, d: nat, n: nat, offsets: seq<nat>,
                     items: seq<ItemInfo>)
    requires CAPSULE_HEADER_SIZE <= |data| == Num(data, 24, 4) && From(data, Num(data, 16, 4)) == body
    requires FMP_CAPSULE_HEADER_SIZE <= |body| && Num(body, 4, 2) == d && Num(body, 6, 2) == n
    requires ReadOffsets(body, 0, d + n) == Some(offsets) && Pieces(body, offsets) == all && d <= |all|
    requires ReadItems(ItemReader(), all[d..]) == Some(items)
    ensures Decode(data)
         == Some(CapsuleInfo(data[..16], Num(data, 16, 4), Num(data, 20, 4), Num(data, 24, 4), Num(body, 0, 4),
                             all[..d], items))
  {
  }

  lemma PartsDecode(all: seq<seq<byte>>, d: nat, n: nat, body: seq<byte>, flags: nat, data: seq<byte>,
                    infos: seq<ItemInfo>)
    requires EncodeBody(all, d, n) == Some(body) && d + n == |all|
    requires flags < Pow256(4) && CAPSULE_HEADER_SIZE + |body| < Pow256(4)
    requires data == OuterHeader(flags, CAPSULE_HEADER_SIZE + |body|) + body
    requires ReadItems(ItemReader(), all[d..]) == Some(infos)
    ensures Decode(data)
         == Some(CapsuleInfo(CapsuleIdGuid(), CAPSULE_HEADER_SIZE, flags, |data|, FMP_CAPSULE_HEADER_VERSION, all[..d], infos))
  {
    OuterRead(data, flags, body);
    BodyRead(all, d, n, body);
    PiecesDecode(data, body, all, d, n, Offsets(all, FMP_CAPSULE_HEADER_SIZE + 8 * |all|), infos);
  }

  /** Decoding recovers every driver, descriptor, flag word, certificate and payload from
      an encoded capsule; the declared size is the length of the file. */
  lemma RoundTrip(sign: Signer, ps: seq<Payload>, drivers: seq<seq<byte>>, names: seq<string>, oemFlags: int,
                  data: seq<byte>)
    requires EncodeCapsule(sign, ps, drivers, names, oemFlags) == Some(data)
    ensures AllInRange(sign, ps) && 0 <= oemFlags && FoldFlags(oemFlags, names).Some?
    ensures Decode(data)
         == Some(CapsuleInfo(CapsuleIdGuid(), CAPSULE_HEADER_SIZE, FoldFlags(oemFlags, names).value, |data|,
                             FMP_CAPSULE_HEADER_VERSION, drivers, InfosOf(sign, ps)))
  {
    var items, body, flags := CapsuleParts(sign, ps, drivers, names, oemFlags, data);
    ReaderRecovers(sign);
    ItemsRead(sign, ItemReader(), ps, items);
    var all := drivers + items;
    assert all[|drivers|..] == items && all[..|drivers|] == drivers;
    PartsDecode(all, |drivers|, |ps|, body, flags, data, InfosOf(sign, ps));
  }

  // ---------------------------------------------------------------------
  // Encoding is injective
  // ---------------------------------------------------------------------

  /** Nothing that a capsule records differs: the monotonic count is recorded only when
      the payload is signed. */
  predicate SamePayload(p: Payload, q: Payload) {
    && p.bytes == q.bytes && p.d.guid == q.d.guid
    && p.d.fwVersion == q.d.fwVersion && p.d.lowestSupportedVersion == q.d.lowestSupportedVersion
    && p.d.hardwareInstance == q.d.hardwareInstance && p.d.updateImageIndex == q.d.updateImageIndex
    && p.d.sign == q.d.sign && (p.d.sign ==> p.d.monotonicCount == q.d.monotonicCount)
  }

  predicate SamePayloads(ps: seq<Payload>, qs: seq<Payload>) {
    |ps| == |qs| && (ps != [] ==> SamePayload(ps[0], qs[0]) && SamePayloads(ps[1..], qs[1..]))
  }

  lemma InfoInjective(s: Signer, t: Signer, p: Payload, q: Payload)
    requires InRange(s, p) && InRange(t, q) && InfoOf(s, p) == InfoOf(t, q)
    ensures SamePayload(p, q)
  {
    assert Mss1Of(p) == Mss1Of(q);
    assert AuthInfoOf(s, p) == AuthInfoOf(t, q);
  }

  lemma {:induction false} InfosInjective(s: Signer, t: Signer, ps: seq<Payload>, qs: seq<Payload>)
    requires AllInRange(s, ps) && AllInRange(t, qs) && InfosOf(s, ps) == InfosOf(t, qs)
    ensures SamePayloads(ps, qs)
    decreases ps
  {
    if ps != [] {
      var a, b := InfosOf(s, ps), InfosOf(t, qs);
      assert a[0] == b[0] && a[1..] == b[1..];
      assert a[1..] == InfosOf(s, ps[1..]) && b[1..] == InfosOf(t, qs[1..]);
      InfoInjective(s, t, ps[0], qs[0]);
      InfosInjective(s, t, ps[1..], qs[1..]);
    }
  }

  /** Equal capsules come from equal drivers, payloads and flag words, whoever signed. */
  lemma EncodingInjective(s: Signer, t: Signer, ps: seq<Payload>, qs: seq<Payload>,
                          ds: seq<seq<byte>>, es: seq<seq<byte>>, ms: seq<string>, ns: seq<string>,
                          f: int, g: int, data: seq<byte>)
    requires EncodeCapsule(s, ps, ds, ms, f) == Some(data) == EncodeCapsule(t, qs, es, ns, g)
    ensures ds == es && SamePayloads(ps, qs)
    ensures 0 <= f && 0 <= g && FoldFlags(f, ms) == FoldFlags(g, ns)
  {
    RoundTrip(s, ps, ds, ms, f, data);
    RoundTrip(t, qs, es, ns, g, data);
    InfosInjective(s, t, ps, qs);
  }

  // ---------------------------------------------------------------------
  // What a verifier rebuilds
  // ---------------------------------------------------------------------

  /** The bytes after the certificate and the count from the authentication header. */
  function RebuiltContent(info: ItemInfo): seq<byte>
    requires info.auth.Some?
  {
    info.image + Le(info.auth.value.count, 8)
  }

  /** Of a signed item a verifier rebuilds exactly what was signed, and finds the
      certificate that signing it gave; an unsigned item has no certificate. */
  lemma VerifierSees(sign: Signer, p: Payload, item: seq<byte>, info: ItemInfo)
    requires EncodeItem(sign, p) == Some(item) && ReadItem(item) == Some(info)
    ensures info.auth.Some? <==> p.d.sign
    ensures p.d.sign ==> 0 <= p.d.fwVersion && 0 <= p.d.lowestSupportedVersion && 0 <= p.d.monotonicCount
    ensures p.d.sign ==> RebuiltContent(info) == SignedContent(p)
                         && sign(RebuiltContent(info)) == Some(info.auth.value.cert)
  {
    ItemRead(sign, p, item);
  }

  // ---------------------------------------------------------------------
  // Flags
  // ---------------------------------------------------------------------

  lemma {:induction false} BitOfPow2(k: nat, j: nat)
    ensures Bit(Pow2(k), j) <==> j == k
    decreases k
  {
    if k > 0 && j > 0 {
      BitOfPow2(k - 1, j - 1);
      assert Pow2(k) / 2 == Pow2(k - 1);
    } else if k == 0 && j > 0 {
      NoBits(0, 0, j - 1);
    }
  }

  /** A number below `2^k` has no bit at `k` or above. */
  lemma {:induction false} NoBits(n: nat, k: nat, j: nat)
    requires n < Pow2(k) && k <= j
    ensures !Bit(n, j)
    decreases j
  {
    if j > 0 {
      if k > 0 {
        NoBits(n / 2, k - 1, j - 1);
      } else {
        NoBits(0, 0, j - 1);
      }
    }
  }

  /** A bit of the flag word was there before or is that of one of the names. */
  lemma {:induction false} FoldedBit(flags: nat, names: seq<string>, j: nat)
    requires FoldFlags(flags, names).Some?
    ensures Bit(FoldFlags(flags, names).value, j)
       <==> Bit(flags, j) || exists k :: 0 <= k < |names| && FlagBit(names[k]) == Some(j)
    decreases names
  {
    if names != [] {
      var bit := FlagBit(names[0]).value;
      OrBit(flags, Pow2(bit), j);
      BitOfPow2(bit, j);
      FoldedBit(Or(flags, Pow2(bit)), names[1..], j);
      SplitExists(names, j);
    }
  }

  lemma SplitExists(names: seq<string>, j: nat)
    requires names != []
    ensures (exists k :: 0 <= k < |names| && FlagBit(names[k]) == Some(j))
       <==> FlagBit(names[0]) == Some(j) || exists k :: 0 <= k < |names[1..]| && FlagBit(names[1..][k]) == Some(j)
  {
    if k :| 0 <= k < |names| && FlagBit(names[k]) == Some(j) {
      if k > 0 {
        assert FlagBit(names[1..][k - 1]) == Some(j);
      }
    }
    if k :| 0 <= k < |names[1..]| && FlagBit(names[1..][k]) == Some(j) {
      assert FlagBit(names[k + 1]) == Some(j);
    }
  }

  /** With OEM flags of 16 bits, a flag is found in the flag word exactly if its name was
      given, and the OEM flags are found there as they were. */
  lemma FlagsRecovered(oemFlags: nat, names: seq<string>, name: string, j: nat)
    requires FoldFlags(oemFlags, names).Some? && oemFlags < Pow2(16) && FlagBit(name).Some? && j < 16
    ensures Bit(FoldFlags(oemFlags, names).value, FlagBit(name).value) <==> name in names
    ensures Bit(FoldFlags(oemFlags, names).value, j) <==> Bit(oemFlags, j)
  {
    var bit := FlagBit(name).value;
    FoldedBit(oemFlags, names, bit);
    FoldedBit(oemFlags, names, j);
    NoBits(oemFlags, 16, bit);
    if name in names {
      var k :| 0 <= k < |names| && names[k] == name;
      assert FlagBit(names[k]) == Some(bit);
    }
  }
}

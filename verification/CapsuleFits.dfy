// Exactly when a capsule is encoded: its numbers have to fit, its items have to
// encode, and its flags have to be known.
module CapsuleFits {
  import opened Bytes
  import opened Bits
  import opened Capsule
  import opened CapsuleTrip
  import opened CapsuleBytes

  // ---------------------------------------------------------------------
  // The flag word
  // ---------------------------------------------------------------------

  lemma {:induction false} OrBelow(a: nat, b: nat, k: nat)
    ensures Or(a, b) < Pow2(k) <==> a < Pow2(k) && b < Pow2(k)
    decreases k
  {
    if k > 0 {
      OrBelow(a / 2, b / 2, k - 1);
      OrHalves(a, b);
      assert Pow2(k) == 2 * Pow2(k - 1);
    } else {
      OrHalves(a, b);
    }
  }

  lemma OrHalves(a: nat, b: nat)
    ensures Or(a, b) == 2 * Or(a / 2, b / 2) + (if a % 2 == 1 || b % 2 == 1 then 1 else 0)
    ensures Or(a, b) == 0 ==> a == 0 && b == 0
    ensures Or(0, 0) == 0
  {
    OrLeast(a, b);
  }

  lemma {:induction false} OrLeast(a: nat, b: nat)
    ensures a <= Or(a, b) && b <= Or(a, b)
    decreases a + b
  {
    if a + b > 0 {
      OrLeast(a / 2, b / 2);
    }
  }

  /** One of the three flags. */
  predicate Known(name: string) { name in {"PersistAcrossReset", "PopulateSystemTable", "InitiateReset"} }

  lemma {:induction false} NamesIff(flags: nat, names: seq<string>)
    ensures FoldFlags(flags, names).Some? <==> forall name :: name in names ==> Known(name)
    decreases names
  {
    if names != [] {
      assert names == [names[0]] + names[1..];
      NameKnown(names[0]);
      if Known(names[0]) {
        NamesIff(Or(flags, Pow2(FlagBit(names[0]).value)), names[1..]);
      } else {
        assert names[0] in names;
      }
    }
  }

  /** The flag word has 32 bits if and only if the OEM flags have. */
  lemma {:induction false} WordIff(flags: nat, names: seq<string>)
    requires FoldFlags(flags, names).Some?
    ensures FoldFlags(flags, names).value < Pow2(32) <==> flags < Pow2(32)
    decreases names
  {
    if names != [] {
      var bit := FlagBit(names[0]).value;
      NameKnown(names[0]);
      OrBelow(flags, Pow2(bit), 32);
      Pow2Less(bit, 32);
      WordIff(Or(flags, Pow2(bit)), names[1..]);
    }
  }

  lemma NameKnown(name: string)
    ensures FlagBit(name).Some? <==> Known(name)
    ensures FlagBit(name).Some? ==> FlagBit(name).value < 32
  {
    NameIs(name);
  }

  lemma {:induction false} Pow2Less(m: nat, n: nat)
    requires m < n
    ensures Pow2(m) < Pow2(n)
  {
    if m + 1 < n {
      Pow2Less(m, n - 1);
    }
  }

  lemma Pow2Of32(n: nat, w: nat)
    requires n == 32 && w == 4
    ensures Pow2(n) == 0x1_0000_0000 == Pow256(w)
  {
    Pow2Is16(16);
    Pow2Add(16, 16);
    Word32(w);
  }

  // ---------------------------------------------------------------------
  // Items and body
  // ---------------------------------------------------------------------

  lemma {:induction false} ItemsIff(sign: Signer, ps: seq<Payload>)
    ensures EncodeItems(sign, ps).Some? <==> forall p :: p in ps ==> EncodeItem(sign, p).Some?
  {
    if ps != [] {
      assert ps == [ps[0]] + ps[1..];
      ItemsIff(sign, ps[1..]);
    }
  }

  lemma {:induction false} TableFits(items: seq<seq<byte>>, offset: nat)
    requires offset + |Join(items)| < Pow256(8)
    ensures OffsetTable(items, offset).Some?
  {
    if items != [] {
      TableFits(items[1..], offset + |items[0]|);
    }
  }

  /** How long a body is, and what it takes. */
  lemma BodyLength(items: seq<seq<byte>>, drivers: nat, payloads: nat, body: seq<byte>)
    requires EncodeBody(items, drivers, payloads) == Some(body)
    ensures drivers < 0x1_0000 && payloads < 0x1_0000 && |body| == 8 + 8 * |items| + |Join(items)|
  {
    TableLength(items, FMP_CAPSULE_HEADER_SIZE + 8 * |items|);
    Word16(2);
  }

  lemma BodyFits(items: seq<seq<byte>>, drivers: nat, payloads: nat)
    requires 8 + 8 * |items| + |Join(items)| < 0x1_0000_0000 && drivers < 0x1_0000 && payloads < 0x1_0000
    ensures EncodeBody(items, drivers, payloads).Some?
  {
    Word16(2);
    Word64(8);
    TableFits(items, FMP_CAPSULE_HEADER_SIZE + 8 * |items|);
  }

  lemma Word64(w: nat)
    requires w == 8
    ensures Pow256(w) == 0x1_0000_0000_0000_0000
  {
    Word32(w - 4);
    assert Pow256(6) == 256 * 256 * Pow256(w - 4);
  }

  // ---------------------------------------------------------------------
  // The capsule
  // ---------------------------------------------------------------------

  /** A capsule is encoded if and only if both counts are 16-bit numbers, the OEM flags are a
      32-bit number, every flag is known, and header, table and items are shorter than 4 GiB. */
  lemma CapsuleEncodesIff(sign: Signer, ps: seq<Payload>, drivers: seq<seq<byte>>, names: seq<string>, oemFlags: int,
                          items: seq<seq<byte>>)
    requires EncodeItems(sign, ps) == Some(items)
    ensures EncodeCapsule(sign, ps, drivers, names, oemFlags).Some?
       <==> && |drivers| < 0x1_0000 && |ps| < 0x1_0000 && 0 <= oemFlags < 0x1_0000_0000
            && (forall name :: name in names ==> Known(name))
            && 40 + 8 * |drivers + items| + |Join(drivers + items)| < 0x1_0000_0000
  {
    var all, d, n := drivers + items, |drivers|, |ps|;
    if 0 <= oemFlags {
      NamesIff(oemFlags, names);
      if FoldFlags(oemFlags, names).Some? {
        WordIff(oemFlags, names);
      }
      Pow2Of32(32, 4);
    }
    if EncodeCapsule(sign, ps, drivers, names, oemFlags).Some? {
      BodyLength(all, d, n, EncodeBody(all, d, n).value);
    }
    if d < 0x1_0000 && n < 0x1_0000 && 40 + 8 * |all| + |Join(all)| < 0x1_0000_0000 {
      BodyFits(all, d, n);
      BodyLength(all, d, n, EncodeBody(all, d, n).value);
    }
  }

  /** It is not if some item does not encode. */
  lemma ItemsEncode(sign: Signer, ps: seq<Payload>, drivers: seq<seq<byte>>, names: seq<string>, oemFlags: int)
    ensures EncodeItems(sign, ps).None? ==> EncodeCapsule(sign, ps, drivers, names, oemFlags).None?
    ensures EncodeItems(sign, ps).Some? <==> forall p :: p in ps ==> EncodeItem(sign, p).Some?
  {
    ItemsIff(sign, ps);
  }
}

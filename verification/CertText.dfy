// How the certificate travels: `bin_to_hex` turns its bytes into a text of
// hexadecimal words, and the `@list:` form of `_encode_dtb_value` turns that
// text into the value of the device-tree property.
module CertText {
  import opened Bytes

  // ---------------------------------------------------------------------
  // Hexadecimal digits
  // ---------------------------------------------------------------------

  function Digit(n: nat): char
    requires n < 16
  {
    if n < 10 then ('0' as int + n) as char else ('a' as int + (n - 10)) as char
  }

  /** `f"{n:x}"` */
  function HexNum(n: nat): (s: string)
    ensures |s| > 0
  {
    if n < 16 then [Digit(n)] else HexNum(n / 16) + [Digit(n % 16)]
  }

  /** `f"{b:02x}"` */
  function HexByte(b: byte): string { [Digit(b / 16), Digit(b % 16)] }

  function HexBytes(c: seq<byte>): (s: string)
    ensures |s| == 2 * |c|
  {
    if c == [] then "" else HexByte(c[0]) + HexBytes(c[1..])
  }

  /** `s.zfill(8)` */
  function ZFill(s: string): string {
    if |s| >= 8 then s else seq(8 - |s|, _ => '0') + s
  }

  /** The value of a digit, either case; None for any other character. */
  function DigitValue(c: char): Option<nat> {
    if '0' <= c <= '9' then Some(c as int - '0' as int)
    else if 'a' <= c <= 'f' then Some(10 + (c as int - 'a' as int))
    else if 'A' <= c <= 'F' then Some(10 + (c as int - 'A' as int))
    else None
  }

  /** `int(s, 16)` for a string of digits. */
  function ParseHex(s: string): Option<nat> {
    if s == "" then None
    else if |s| == 1 then DigitValue(s[0])
    else
      var high :- ParseHex(s[..|s| - 1]);
      var low :- DigitValue(s[|s| - 1]);
      Some(16 * high + low)
  }

  // ---------------------------------------------------------------------
  // bin_to_hex
  // ---------------------------------------------------------------------

  /** One word for every four bytes, the last padded on the left. */
  function ChunkWords(b: seq<byte>): seq<string> {
    if b == [] then [] else [ZFill(HexBytes(Slice(b, 0, 4)))] + ChunkWords(b[Min(4, |b|)..])
  }

  /** The length word and the words of the bytes. */
  function HexWords(b: seq<byte>): seq<string> {
    [ZFill(HexNum(|b|))] + ChunkWords(b)
  }

  /** `" ".join(words)` */
  function Spaced(words: seq<string>): string {
    if words == [] then "" else if |words| == 1 then words[0] else words[0] + " " + Spaced(words[1..])
  }

  function HexText(b: seq<byte>): string { Spaced(HexWords(b)) }

  lemma NextChunk(b: seq<byte>, i: nat)
    requires i < |b|
    ensures ChunkWords(b[i..]) == [ZFill(HexBytes(Slice(b, i, i + 4)))] + ChunkWords(b[Min(i + 4, |b|)..])
  {
    var rest := b[i..];
    assert Slice(rest, 0, 4) == Slice(b, i, i + 4);
    assert rest[Min(4, |rest|)..] == b[Min(i + 4, |b|)..];
  }

  method BinToHex(b: seq<byte>) returns (text: string)
    ensures text == HexText(b)
  {
    var hexChunks := [ZFill(HexNum(|b|))];
    var i := 0;
    while i < |b|
      invariant 0 <= i
      invariant hexChunks + ChunkWords(b[Min(i, |b|)..]) == HexWords(b)
      decreases |b| - i
    {
      NextChunk(b, i);
      var chunk := Slice(b, i, i + 4);
      hexChunks := hexChunks + [ZFill(HexBytes(chunk))];
      i := i + 4;
    }
    assert b[Min(i, |b|)..] == [];
    assert hexChunks + [] == hexChunks;
    text := Spaced(hexChunks);
  }

  // ---------------------------------------------------------------------
  // _encode_dtb_value("@list:...")
  // ---------------------------------------------------------------------

  /** White space or a comma. */
  predicate IsSeparator(c: char) {
    c == ' ' || c == ',' || '\t' <= c <= '\r' || '\U{1C}' <= c <= '\U{1F}'
  }

  /** Length of the run of non-separators at the start. */
  function RunLength(text: string): (n: nat)
    ensures n <= |text|
  {
    if text == "" || IsSeparator(text[0]) then 0 else 1 + RunLength(text[1..])
  }

  /** The non-empty parts between separators. */
  function Parts(text: string): seq<string>
    decreases |text|
  {
    if text == "" then []
    else if IsSeparator(text[0]) then Parts(text[1..])
    else [text[..RunLength(text)]] + Parts(text[RunLength(text)..])
  }

  /** Each part as a 32-bit big-endian word; None when one is no number or does not fit. */
  function EncodeParts(parts: seq<string>): Option<seq<byte>> {
    if parts == [] then Some([])
    else
      var v :- ParseHex(parts[0]);
      if v >= Pow256(4) then None
      else
        var rest :- EncodeParts(parts[1..]);
        Some(Be(v, 4) + rest)
  }

  function EncodeList(text: string): Option<seq<byte>> { EncodeParts(Parts(text)) }

  // ---------------------------------------------------------------------
  // The text splits into its words
  // ---------------------------------------------------------------------

  predicate IsWord(s: string) {
    s != "" && forall i :: 0 <= i < |s| ==> !IsSeparator(s[i])
  }

  lemma {:induction false} RunOfWord(s: string, rest: string)
    requires forall i :: 0 <= i < |s| ==> !IsSeparator(s[i])
    requires rest == "" || IsSeparator(rest[0])
    ensures RunLength(s + rest) == |s|
  {
    if s == "" {
      assert s + rest == rest;
    } else {
      assert (s + rest)[1..] == s[1..] + rest;
      RunOfWord(s[1..], rest);
    }
  }

  lemma PartsOfWord(s: string, rest: string)
    requires IsWord(s) && (rest == "" || IsSeparator(rest[0]))
    ensures Parts(s + rest) == [s] + Parts(rest)
  {
    RunOfWord(s, rest);
    assert (s + rest)[..|s|] == s && (s + rest)[|s|..] == rest;
  }

  predicate AllWords(words: seq<string>) {
    words != [] ==> IsWord(words[0]) && AllWords(words[1..])
  }

  lemma {:induction false} PartsOfSpaced(words: seq<string>)
    requires AllWords(words)
    ensures Parts(Spaced(words)) == words
  {
    if words == [] {
    } else if |words| == 1 {
      PartsOfWord(words[0], "");
      assert words[0] + "" == words[0];
      assert words == [words[0]];
    } else {
      var rest := " " + Spaced(words[1..]);
      assert words[0] + " " + Spaced(words[1..]) == words[0] + rest;
      PartsOfWord(words[0], rest);
      assert rest[1..] == Spaced(words[1..]);
      PartsOfSpaced(words[1..]);
    }
  }

  // ---------------------------------------------------------------------
  // Words and numbers
  // ---------------------------------------------------------------------

  lemma DigitRead(n: nat)
    requires n < 16
    ensures DigitValue(Digit(n)) == Some(n) && !IsSeparator(Digit(n))
  {
  }

  /** A string of digits that stands for `v`. */
  predicate Stands(s: string, v: nat) {
    IsWord(s) && ParseHex(s) == Some(v)
  }

  lemma OneDigit(n: nat)
    requires n < 16
    ensures Stands([Digit(n)], n)
  {
    DigitRead(n);
  }

  lemma MoreDigits(s: string, v: nat, n: nat)
    requires Stands(s, v) && n < 16
    ensures Stands(s + [Digit(n)], 16 * v + n)
  {
    DigitRead(n);
    assert (s + [Digit(n)])[..|s|] == s;
  }

  lemma {:induction false} HexNumStands(n: nat)
    ensures Stands(HexNum(n), n)
  {
    if n < 16 {
      OneDigit(n);
    } else {
      HexNumStands(n / 16);
      MoreDigits(HexNum(n / 16), n / 16, n % 16);
    }
  }

  lemma {:induction false} LeadingZero(s: string, v: nat)
    requires Stands(s, v)
    ensures Stands(['0'] + s, v)
  {
    var t := ['0'] + s;
    if |s| == 1 {
      assert t[..1] == ['0'];
    } else {
      LeadingZeroParse(s, v);
    }
  }

  lemma {:induction false} LeadingZeroParse(s: string, v: nat)
    requires s != "" && ParseHex(s) == Some(v)
    ensures ParseHex(['0'] + s) == Some(v)
  {
    var t, n := ['0'] + s, |s|;
    assert t[..n] == ['0'] + s[..n - 1] && t[n] == s[n - 1];
    if n == 1 {
      assert t[..1] == ['0'];
    } else {
      LeadingZeroParse(s[..n - 1], ParseHex(s[..n - 1]).value);
    }
  }

  lemma {:induction false} ZerosStand(k: nat, s: string, v: nat)
    requires Stands(s, v)
    ensures Stands(seq(k, _ => '0') + s, v)
  {
    if k == 0 {
      assert seq(k, _ => '0') + s == s;
    } else {
      ZerosStand(k - 1, s, v);
      LeadingZero(seq(k - 1, _ => '0') + s, v);
      assert seq(k, _ => '0') + s == ['0'] + (seq(k - 1, _ => '0') + s);
    }
  }

  lemma ZFillStands(s: string, v: nat)
    requires Stands(s, v)
    ensures Stands(ZFill(s), v)
  {
    if |s| < 8 {
      ZerosStand(8 - |s|, s, v);
    }
  }

  lemma {:induction false} HexBytesSnoc(c: seq<byte>, b: byte)
    ensures HexBytes(c + [b]) == HexBytes(c) + HexByte(b)
  {
    if c == [] {
      assert c + [b] == [b];
      assert HexBytes([b]) == HexByte(b) + HexBytes([b][1..]);
    } else {
      assert (c + [b])[1..] == c[1..] + [b];
      HexBytesSnoc(c[1..], b);
    }
  }

  /** The digits of some bytes stand for their big-endian value. */
  lemma {:induction false} HexBytesStand(c: seq<byte>)
    requires c != []
    ensures Stands(HexBytes(c), FromBe(c))
  {
    var n, b := |c| - 1, c[|c| - 1];
    assert c == c[..n] + [b];
    HexBytesSnoc(c[..n], b);
    if n == 0 {
      assert c[..n] == [];
      OneDigit(b / 16);
      MoreDigits([Digit(b / 16)], b / 16, b % 16);
      assert HexBytes(c) == [Digit(b / 16)] + [Digit(b % 16)];
    } else {
      var s := HexBytes(c[..n]);
      HexBytesStand(c[..n]);
      MoreDigits(s, FromBe(c[..n]), b / 16);
      MoreDigits(s + [Digit(b / 16)], 16 * FromBe(c[..n]) + b / 16, b % 16);
      assert HexBytes(c) == s + [Digit(b / 16)] + [Digit(b % 16)];
    }
  }

  // ---------------------------------------------------------------------
  // The round trip
  // ---------------------------------------------------------------------

  /** The bytes in words of four, the last padded on the left with zeros. */
  function Padded(b: seq<byte>): seq<byte> {
    if b == [] then []
    else if |b| < 4 then Fill(4 - |b|, 0) + b
    else b[..4] + Padded(b[4..])
  }

  /** The property value: length word and padded bytes. */
  function CertValue(b: seq<byte>): seq<byte> { Be(|b|, 4) + Padded(b) }

  lemma {:induction false} BeZeros(c: seq<byte>, k: nat)
    ensures Be(FromBe(c), |c| + k) == Fill(k, 0) + c
    decreases |c| + k
  {
    if c == [] {
      if k > 0 {
        BeZeros(c, k - 1);
        assert Fill(k - 1, 0) + [0] == Fill(k, 0);
      }
      assert Fill(k, 0) + c == Fill(k, 0);
    } else {
      var n := |c| - 1;
      BeZeros(c[..n], k);
      assert FromBe(c) / 256 == FromBe(c[..n]) && FromBe(c) % 256 == c[n];
      assert Fill(k, 0) + c[..n] + [c[n]] == Fill(k, 0) + c;
    }
  }

  /** One word of the text. */
  lemma WordOf(c: seq<byte>)
    requires 0 < |c| <= 4
    ensures Stands(ZFill(HexBytes(c)), FromBe(c)) && FromBe(c) < Pow256(4)
    ensures Be(FromBe(c), 4) == Fill(4 - |c|, 0) + c
  {
    HexBytesStand(c);
    ZFillStands(HexBytes(c), FromBe(c));
    BeZeros(c, 4 - |c|);
    FromBeBound(c);
    Pow256Grows(|c|, 4);
  }

  lemma {:induction false} Pow256Grows(m: nat, n: nat)
    requires m <= n
    ensures Pow256(m) <= Pow256(n)
  {
    if m < n {
      Pow256Grows(m, n - 1);
    }
  }

  lemma {:induction false} ChunksEncode(b: seq<byte>)
    ensures AllWords(ChunkWords(b)) && EncodeParts(ChunkWords(b)) == Some(Padded(b))
  {
    if b != [] {
      var c := Slice(b, 0, 4);
      WordOf(c);
      ChunksEncode(b[Min(4, |b|)..]);
      if |b| < 4 {
        assert c == b && b[Min(4, |b|)..] == [];
        assert Fill(4 - |b|, 0) + b + [] == Fill(4 - |b|, 0) + b;
      } else {
        assert c == b[..4] && Fill(0, 0) + c == c;
      }
    }
  }

  lemma LengthWord(n: nat)
    ensures Stands(ZFill(HexNum(n)), n)
  {
    HexNumStands(n);
    ZFillStands(HexNum(n), n);
  }

  /** The value made from the text of `bin_to_hex(b)` is the length and the bytes, the last
      word padded on the left; a length of 2^32 or more cannot be packed. */
  lemma TextEncodes(b: seq<byte>)
    ensures EncodeList(HexText(b)) == if |b| < Pow256(4) then Some(CertValue(b)) else None
  {
    LengthWord(|b|);
    ChunksEncode(b);
    var words := HexWords(b);
    assert words[1..] == ChunkWords(b);
    PartsOfSpaced(words);
  }

  /** The text for the five bytes DE AD BE EF 05: the length and two words of eight digits. */
  lemma FiveBytes(b: seq<byte>)
    requires b == [0xDE, 0xAD, 0xBE, 0xEF, 0x05]
    ensures HexText(b) == "00000005 deadbeef 00000005"
  {
    var head, last := b[..4], b[4..];
    assert Slice(b, 0, 4) == head && b[Min(4, |b|)..] == last;
    assert Slice(last, 0, 4) == last && last[Min(4, |last|)..] == [];
    FourDigits(head);
    OneDigitPair(last);
    assert ChunkWords(last) == ["00000005"];
    EightDigits("5");
    assert HexNum(5) == "5";
    assert HexWords(b) == ["00000005", "deadbeef", "00000005"];
    ThreeWords("00000005", "deadbeef", "00000005");
  }

  lemma ThreeWords(a: string, b: string, c: string)
    ensures Spaced([a, b, c]) == a + " " + (b + " " + c)
  {
    assert [a, b, c][1..] == [b, c] && [b, c][1..] == [c];
    assert Spaced([b, c]) == b + " " + Spaced([c]);
  }

  lemma OneDigitPair(last: seq<byte>)
    requires last == [0x05]
    ensures ZFill(HexBytes(last)) == "00000005"
  {
    assert HexBytes(last) == "05" + HexBytes(last[1..]);
    EightDigits("05");
  }

  lemma EightDigits(s: string)
    ensures s == "5" || s == "05" ==> ZFill(s) == "00000005"
  {
    assert seq(6, _ => '0') == "000000" && seq(7, _ => '0') == "0000000";
  }

  lemma FourDigits(head: seq<byte>)
    requires head == [0xDE, 0xAD, 0xBE, 0xEF]
    ensures HexBytes(head) == "deadbeef"
  {
    assert HexBytes(head[3..]) == "ef" + HexBytes(head[3..][1..]);
    assert head[2..][1..] == head[3..] && head[1..][1..] == head[2..];
    assert HexBytes(head[2..]) == "be" + HexBytes(head[3..]);
    assert HexBytes(head[1..]) == "ad" + HexBytes(head[2..]);
  }

  lemma {:induction false} PaddedLength(b: seq<byte>)
    ensures |Padded(b)| == 4 * ((|b| + 3) / 4)
  {
    if |b| >= 4 {
      PaddedLength(b[4..]);
    }
  }

  /** Its length is `4 * (1 + ceil(n / 4))`. */
  lemma CertValueLength(b: seq<byte>)
    ensures |CertValue(b)| == 4 * (1 + (|b| + 3) / 4)
  {
    PaddedLength(b);
  }

  /** Reading the padded bytes back, given how many there are. */
  function Unpadded(v: seq<byte>, n: nat): seq<byte> {
    if n == 0 then []
    else if n < 4 then Slice(v, 4 - n, 4)
    else Slice(v, 0, 4) + Unpadded(v[Min(4, |v|)..], n - 4)
  }

  lemma {:induction false} PaddedReads(b: seq<byte>)
    ensures Unpadded(Padded(b), |b|) == b
  {
    if |b| >= 4 {
      PaddedReads(b[4..]);
      assert Padded(b)[4..] == Padded(b[4..]);
      assert b == b[..4] + b[4..];
    }
  }

  /** The value determines the certificate: the length word says how many of the padding
      zeros to drop. */
  lemma CertValueReads(b: seq<byte>)
    requires |b| < Pow256(4)
    ensures |CertValue(b)| >= 4
    ensures FromBe(CertValue(b)[..4]) == |b| && Unpadded(CertValue(b)[4..], |b|) == b
  {
    BeRoundTrip(|b|, 4);
    PaddedReads(b);
    assert CertValue(b)[..4] == Be(|b|, 4) && CertValue(b)[4..] == Padded(b);
  }

  lemma CertValueInjective(b: seq<byte>, c: seq<byte>)
    requires |b| < Pow256(4) && |c| < Pow256(4) && EncodeList(HexText(b)) == EncodeList(HexText(c))
    ensures b == c
  {
    TextEncodes(b);
    TextEncodes(c);
    CertValueReads(b);
    CertValueReads(c);
  }
}

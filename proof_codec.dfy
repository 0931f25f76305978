/** The proof payload encoder: every hex-encoded Merkle proof is written as a
    64-hex-digit, zero-padded count of its bytes followed by the proof itself;
    the entries are concatenated in order behind a "0x" marker.
    A decoder is given only to state that the encoding loses nothing. */
module ProofCodec {
  import opened Outcomes

  /** Width in hex digits of every length prefix (32 bytes). */
  const PrefixWidth: nat := 64

  // ---------------------------------------------------------------------
  // Hex numerals, as produced by Number.prototype.toString(16)
  // ---------------------------------------------------------------------

  /** Lower-case hex digits, the only ones toString(16) produces. */
  predicate IsHexDigit(c: char) {
    '0' <= c <= '9' || 'a' <= c <= 'f'
  }

  predicate AllHex(s: string) {
    forall i :: 0 <= i < |s| ==> IsHexDigit(s[i])
  }

  function HexDigit(d: nat): (c: char)
    requires d < 16
    ensures IsHexDigit(c)
  {
    if d < 10 then (48 + d) as char else (87 + d) as char
  }

  function DigitValue(c: char): (d: nat)
    requires IsHexDigit(c)
    ensures d < 16
  {
    if c <= '9' then c as int - 48 else c as int - 87
  }

  lemma DigitRoundTrip(d: nat, c: char)
    requires d < 16 && IsHexDigit(c)
    ensures DigitValue(HexDigit(d)) == d
    ensures HexDigit(DigitValue(c)) == c
  {
  }

  function Pow16(k: nat): (p: nat)
    ensures p >= 1
  {
    if k == 0 then 1 else 16 * Pow16(k - 1)
  }

  /** The value of a hex numeral, most significant digit first. */
  function ParseHex(s: string): nat
    requires AllHex(s)
  {
    if s == [] then 0 else 16 * ParseHex(s[..|s| - 1]) + DigitValue(s[|s| - 1])
  }

  /** toString(16) of a non-negative integer: the shortest hex numeral,
      "0" for zero, no leading zeros otherwise. */
  function ToHex(n: nat): (s: string)
    ensures |s| >= 1 && AllHex(s)
    ensures |s| > 1 ==> s[0] != '0'
    ensures ParseHex(s) == n
  {
    if n < 16 then
      DigitRoundTrip(n, '0');
      [HexDigit(n)]
    else
      var s := ToHex(n / 16) + [HexDigit(n % 16)];
      DigitRoundTrip(n % 16, '0');
      assert s[..|s| - 1] == ToHex(n / 16);
      s
  }

  function Zeros(k: nat): string {
    seq(k, _ => '0')
  }

  /** Left-pads with '0' up to width characters; longer numerals are kept. */
  function LeftPad(s: string, width: nat): string {
    if |s| >= width then s else Zeros(width - |s|) + s
  }

  // ---------------------------------------------------------------------
  // The length prefix
  // ---------------------------------------------------------------------

  /** The prefix written before a proof of n bytes. */
  function LengthPrefix(n: nat): (r: string)
    ensures AllHex(r) && ParseHex(r) == n
    ensures |r| >= PrefixWidth
    ensures Fits(n) <==> |r| == PrefixWidth
    ensures !Fits(n) ==> r == ToHex(n)
  {
    var h := ToHex(n);
    PaddingKeepsValue(h, PrefixWidth);
    LeftPad(h, PrefixWidth)
  }

  /** The byte count n can be written in the 64 digits of a prefix;
      by ToHexFits this is n < 16^64 = 2^256. */
  predicate Fits(n: nat) {
    |ToHex(n)| <= PrefixWidth
  }

  /** encodeProofSize: the byte count of a hex proof, as a numeral
      left-padded with '0' by a loop until it is 64 characters long. */
  method EncodeProofSize(proof: string) returns (res: string)
    requires |proof| % 2 == 0
    ensures res == LengthPrefix(|proof| / 2)
  {
    var proofSize := |proof| / 2;
    res := ToHex(proofSize);
    ghost var h := res;
    var len := |res|;
    while len < PrefixWidth
      invariant |h| <= len == |res|
      invariant len > PrefixWidth ==> len == |h|
      invariant res == Zeros(len - |h|) + h
    {
      PadOneMore(len - |h|, h);
      res := "0" + res;
      len := len + 1;
    }
    assert len == |h| ==> res == h;
  }

  lemma PadOneMore(k: nat, s: string)
    ensures "0" + (Zeros(k) + s) == Zeros(k + 1) + s
  {
  }

  lemma {:induction false} ParseHexAllZeros(s: string)
    requires forall i :: 0 <= i < |s| ==> s[i] == '0'
    ensures AllHex(s) && ParseHex(s) == 0
  {
    if s != [] {
      ParseHexAllZeros(s[..|s| - 1]);
    }
  }

  /** Leading zeros do not change the value of a numeral. */
  lemma {:induction false} ParseHexLeadingZeros(k: nat, s: string)
    requires AllHex(s)
    ensures AllHex(Zeros(k) + s) && ParseHex(Zeros(k) + s) == ParseHex(s)
  {
    var z := Zeros(k) + s;
    if s == [] {
      assert z == Zeros(k);
      ParseHexAllZeros(z);
    } else {
      var s' := s[..|s| - 1];
      ParseHexLeadingZeros(k, s');
      assert z[..|z| - 1] == Zeros(k) + s';
    }
  }

  lemma PaddingKeepsValue(s: string, width: nat)
    requires AllHex(s)
    ensures AllHex(LeftPad(s, width)) && ParseHex(LeftPad(s, width)) == ParseHex(s)
  {
    if |s| < width {
      ParseHexLeadingZeros(width - |s|, s);
    }
  }

  lemma {:induction false} Pow16Monotone(i: nat, j: nat)
    requires i <= j
    ensures Pow16(i) <= Pow16(j)
  {
    if i < j {
      Pow16Monotone(i, j - 1);
    }
  }

  /** A numeral of k digits is below 16^k. */
  lemma {:induction false} ParseHexBound(s: string)
    requires AllHex(s)
    ensures ParseHex(s) < Pow16(|s|)
  {
    if s != [] {
      ParseHexBound(s[..|s| - 1]);
    }
  }

  /** toString(16) of n has at most k digits exactly when n < 16^k. */
  lemma {:induction false} ToHexFits(n: nat, k: nat)
    requires k >= 1
    ensures |ToHex(n)| <= k <==> n < Pow16(k)
  {
    if |ToHex(n)| <= k {
      ParseHexBound(ToHex(n));
      Pow16Monotone(|ToHex(n)|, k);
    }
    if n < Pow16(k) && n >= 16 {
      assert k >= 2;
      assert n / 16 < Pow16(k - 1);
      ToHexFits(n / 16, k - 1);
    }
  }

  /** Every numeral of width digits is the padded toString(16) of its value:
      the prefix has one spelling per value. */
  lemma {:induction false} PaddedNumeralIsCanonical(h: string)
    requires |h| >= 1 && AllHex(h)
    ensures LeftPad(ToHex(ParseHex(h)), |h|) == h
  {
    var k := |h|;
    var c := h[k - 1];
    var h' := h[..k - 1];
    var p := ParseHex(h');
    assert h == h' + [c];
    assert ParseHex(h) == 16 * p + DigitValue(c);
    LastDigitSplit(p, c);
    if p == 0 {
      AllZerosWhenZero(h');
      PadSingle(h', c);
    } else {
      PaddedNumeralIsCanonical(h');
      PadAppend(ToHex(p), h', c);
    }
  }

  lemma PadSingle(zeros: string, c: char)
    requires zeros == Zeros(|zeros|)
    ensures LeftPad([c], |zeros| + 1) == zeros + [c]
  {
  }

  /** Appending a digit to a non-zero value appends it to its numeral. */
  lemma LastDigitSplit(p: nat, c: char)
    requires IsHexDigit(c)
    ensures p == 0 ==> ToHex(16 * p + DigitValue(c)) == [c]
    ensures p > 0 ==> ToHex(16 * p + DigitValue(c)) == ToHex(p) + [c]
  {
    var n := 16 * p + DigitValue(c);
    DigitRoundTrip(0, c);
    assert n / 16 == p && n % 16 == DigitValue(c);
  }

  lemma PadAppend(s: string, padded: string, c: char)
    requires LeftPad(s, |padded|) == padded
    ensures LeftPad(s + [c], |padded| + 1) == padded + [c]
  {
    if |s| < |padded| {
      assert Zeros(|padded| - |s|) + (s + [c]) == (Zeros(|padded| - |s|) + s) + [c];
    }
  }


  lemma {:induction false} AllZerosWhenZero(s: string)
    requires AllHex(s) && ParseHex(s) == 0
    ensures s == Zeros(|s|)
  {
    if s != [] {
      var s' := s[..|s| - 1];
      AllZerosWhenZero(s');
      DigitRoundTrip(0, s[|s| - 1]);
      assert s == s' + [s[|s| - 1]];
    }
  }

  // ---------------------------------------------------------------------
  // The payload
  // ---------------------------------------------------------------------

  /** A proof the prefix can describe: an even number of hex characters
      whose byte count fits in 32 bytes. */
  predicate Encodable(p: string) {
    |p| % 2 == 0 && Fits(|p| / 2)
  }

  predicate AllEncodable(proofs: seq<string>) {
    forall i :: 0 <= i < |proofs| ==> Encodable(proofs[i])
  }

  predicate AllEven(proofs: seq<string>) {
    forall i :: 0 <= i < |proofs| ==> |proofs[i]| % 2 == 0
  }

  /** One entry: encodeProofSize(proof) + proof. */
  function Entry(p: string): string {
    LengthPrefix(|p| / 2) + p
  }

  /** The entries of all proofs, joined in order. */
  function Entries(proofs: seq<string>): string {
    if proofs == [] then [] else Entry(proofs[0]) + Entries(proofs[1..])
  }

  /** extendedBufArrToHex. */
  function ExtendedBufArrToHex(proofs: seq<string>): (r: string)
    requires AllEven(proofs)
    ensures |r| >= 2 && r[..2] == "0x"
    ensures proofs == [] ==> r == "0x"
  {
    "0x" + Entries(proofs)
  }

  /** The length of the payload when every prefix is exactly 64 digits. */
  function PayloadSize(proofs: seq<string>): nat {
    if proofs == [] then 0 else PrefixWidth + |proofs[0]| + PayloadSize(proofs[1..])
  }

  lemma {:induction false} EntriesLength(proofs: seq<string>)
    requires AllEncodable(proofs)
    ensures |Entries(proofs)| == PayloadSize(proofs)
  {
    if proofs != [] {
      EntriesLength(proofs[1..]);
    }
  }

  /** The payload of encodable proofs is "0x" plus 64 + |p| characters per proof. */
  lemma {:induction false} PayloadLength(proofs: seq<string>)
    requires AllEncodable(proofs)
    ensures |ExtendedBufArrToHex(proofs)| == 2 + PayloadSize(proofs)
  {
    EntriesLength(proofs);
  }

  /** Joining distributes over concatenation of proof lists. */
  lemma {:induction false} EntriesAppend(a: seq<string>, b: seq<string>)
    ensures Entries(a + b) == Entries(a) + Entries(b)
  {
    if a == [] {
      assert a + b == b;
    } else {
      assert (a + b)[1..] == a[1..] + b;
      EntriesAppend(a[1..], b);
    }
  }

  // ---------------------------------------------------------------------
  // Decoding
  // ---------------------------------------------------------------------

  /** Reads 64 hex digits as L, then takes 2L characters, until nothing is left. */
  function DecodeEntries(s: string): Option<seq<string>>
    decreases |s|
  {
    if s == [] then Some([])
    else if |s| < PrefixWidth || !AllHex(s[..PrefixWidth]) then None
    else
      var n := ParseHex(s[..PrefixWidth]);
      var rest := s[PrefixWidth..];
      if 2 * n > |rest| then None
      else
        match DecodeEntries(rest[2 * n..])
        case None => None
        case Some(ps) => Some([rest[..2 * n]] + ps)
  }

  function DecodePayload(s: string): Option<seq<string>> {
    if |s| >= 2 && s[..2] == "0x" then DecodeEntries(s[2..]) else None
  }

  /** The decoder reads one entry back off the front of a string. */
  lemma DecodeOneEntry(p: string, tail: string)
    requires Encodable(p)
    ensures DecodeEntries(Entry(p) + tail)
         == match DecodeEntries(tail)
            case None => None
            case Some(ps) => Some([p] + ps)
  {
    var pre := LengthPrefix(|p| / 2);
    var s := Entry(p) + tail;
    assert s == pre + (p + tail);
    assert s[..PrefixWidth] == pre;
    var rest := s[PrefixWidth..];
    assert rest == p + tail;
    assert rest[..|p|] == p;
    assert rest[|p|..] == tail;
  }

  lemma {:induction false} DecodeEntriesOfEntries(proofs: seq<string>)
    requires AllEncodable(proofs)
    ensures DecodeEntries(Entries(proofs)) == Some(proofs)
  {
    if proofs != [] {
      DecodeEntriesOfEntries(proofs[1..]);
      DecodeOneEntry(proofs[0], Entries(proofs[1..]));
      assert [proofs[0]] + proofs[1..] == proofs;
    }
  }

  /** Decoding an encoded payload gives back the proofs, in order. */
  lemma DecodeEncode(proofs: seq<string>)
    requires AllEncodable(proofs)
    ensures DecodePayload(ExtendedBufArrToHex(proofs)) == Some(proofs)
  {
    var s := ExtendedBufArrToHex(proofs);
    assert s[2..] == Entries(proofs);
    DecodeEntriesOfEntries(proofs);
  }

  /** The encoding is injective on encodable proof lists. */
  lemma EncodingInjective(a: seq<string>, b: seq<string>)
    requires AllEncodable(a) && AllEncodable(b)
    requires ExtendedBufArrToHex(a) == ExtendedBufArrToHex(b)
    ensures a == b
  {
    DecodeEncode(a);
    DecodeEncode(b);
  }

  /** A non-empty string the decoder accepts starts with a 64-digit numeral n,
      then the 2n characters of the first proof, then what decodes to the rest. */
  lemma DecodeFront(s: string)
    requires s != [] && DecodeEntries(s).Some?
    ensures |s| >= PrefixWidth && AllHex(s[..PrefixWidth])
    ensures var n := ParseHex(s[..PrefixWidth]);
      && PrefixWidth + 2 * n <= |s|
      && var p := s[PrefixWidth..PrefixWidth + 2 * n];
         var tail := s[PrefixWidth + 2 * n..];
         && s == s[..PrefixWidth] + p + tail
         && DecodeEntries(tail).Some?
         && DecodeEntries(s).value == [p] + DecodeEntries(tail).value
  {
    var n := ParseHex(s[..PrefixWidth]);
    var rest := s[PrefixWidth..];
    assert rest[..2 * n] == s[PrefixWidth..PrefixWidth + 2 * n];
    assert rest[2 * n..] == s[PrefixWidth + 2 * n..];
    assert s == s[..PrefixWidth] + s[PrefixWidth..PrefixWidth + 2 * n] + s[PrefixWidth + 2 * n..];
  }

  lemma {:induction false} EntriesOfDecodeEntries(s: string, proofs: seq<string>)
    requires DecodeEntries(s) == Some(proofs)
    ensures AllEncodable(proofs)
    ensures Entries(proofs) == s
    decreases |s|
  {
    if s != [] {
      DecodeFront(s);
      var h := s[..PrefixWidth];
      var n := ParseHex(h);
      var p := s[PrefixWidth..PrefixWidth + 2 * n];
      var tail := s[PrefixWidth + 2 * n..];
      var ps := DecodeEntries(tail).value;
      EntriesOfDecodeEntries(tail, ps);
      PaddedNumeralIsCanonical(h);
      assert |p| / 2 == n;
      assert LengthPrefix(n) == h;
      assert proofs == [p] + ps;
      assert proofs[0] == p && proofs[1..] == ps;
      assert Entries(proofs) == Entry(p) + Entries(ps);
    }
  }

  /** Every string the decoder accepts is the encoding of what it returns:
      the encoder and decoder are inverse bijections. */
  lemma EncodeDecode(s: string, proofs: seq<string>)
    requires DecodePayload(s) == Some(proofs)
    ensures AllEncodable(proofs)
    ensures ExtendedBufArrToHex(proofs) == s
  {
    EntriesOfDecodeEntries(s[2..], proofs);
    assert s == s[..2] + s[2..];
  }
}

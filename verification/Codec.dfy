/** Little-endian integers, hex and concatenation, as the preimages and hex fields use them. */
module Codec {
  import opened Bytes

  // ---------------------------------------------------------------- little-endian integers

  function Pow256(k: nat): (p: nat)
    ensures p >= 1
  {
    if k == 0 then 1 else 256 * Pow256(k - 1)
  }

  /** The low k bytes of n, least significant first. */
  function LeBytes(n: nat, k: nat): (b: bytes)
    ensures |b| == k
  {
    if k == 0 then [] else [n % 256] + LeBytes(n / 256, k - 1)
  }

  function LeValue(b: bytes): nat {
    if b == [] then 0 else b[0] + 256 * LeValue(b[1..])
  }

  lemma {:induction false} LeRoundTrip(n: nat, k: nat)
    requires n < Pow256(k)
    ensures LeValue(LeBytes(n, k)) == n
  {
    if k > 0 {
      LeRoundTrip(n / 256, k - 1);
      assert LeBytes(n, k)[1..] == LeBytes(n / 256, k - 1);
    }
  }

  lemma {:induction false} LeCanonical(b: bytes)
    ensures LeValue(b) < Pow256(|b|)
    ensures LeBytes(LeValue(b), |b|) == b
  {
    if b != [] {
      LeCanonical(b[1..]);
      assert b == [b[0]] + b[1..];
    }
  }

  /** Two little-endian bytes; None outside 16 bits. */
  function U16le(n: int): Option<bytes> {
    if 0 <= n <= 0xFFFF then Some(LeBytes(n, 2)) else None
  }

  /** Eight little-endian bytes; None outside the safe integers. */
  function U64le(n: int): Option<bytes> {
    if 0 <= n <= MAX_SAFE then Some(LeBytes(n, 8)) else None
  }

  lemma LeStep(n: nat, k: nat)
    requires k >= 1
    ensures LeBytes(n, k) == [n % 256] + LeBytes(n / 256, k - 1)
  {
  }

  /** Fills the eight bytes in a loop. */
  method FillU64le(n: int) returns (r: Option<bytes>)
    ensures r == U64le(n)
    ensures r.Some? <==> 0 <= n <= 0x1F_FFFF_FFFF_FFFF
  {
    if n < 0 || n > MAX_SAFE { return None; }
    var out := new byte[8];
    var v: nat := n;
    for i := 0 to 8
      invariant out[..i] + LeBytes(v, 8 - i) == LeBytes(n, 8)
    {
      LeStep(v, 8 - i);
      ghost var done := out[..i];
      out[i] := v % 256;
      assert out[..i + 1] == done + [v % 256];
      v := v / 256;
    }
    assert out[..] == out[..8] + [];
    return Some(out[..]);
  }

  lemma LeTail(b: bytes, i: nat)
    requires i < |b|
    ensures LeValue(b[i..]) == b[i] + 256 * LeValue(b[i + 1..])
  {
    assert b[i..][1..] == b[i + 1..];
  }

  /** The weight of each byte written out: two bytes, and eight. */
  lemma TwoBytes(b: bytes)
    requires |b| == 2
    ensures LeValue(b) == b[0] as int + b[1] as int * 0x100
  {
    LeTail(b, 0);
    LeTail(b, 1);
    assert b[0..] == b && b[2..] == [];
  }

  lemma EightBytes(b: bytes)
    requires |b| == 8
    ensures LeValue(b) == b[0] as int + b[1] as int * 0x100 + b[2] as int * 0x1_0000 + b[3] as int * 0x100_0000
                          + b[4] as int * 0x1_0000_0000 + b[5] as int * 0x100_0000_0000
                          + b[6] as int * 0x1_0000_0000_0000 + b[7] as int * 0x100_0000_0000_0000
  {
    LeTail(b, 0);
    LeTail(b, 1);
    LeTail(b, 2);
    LeTail(b, 3);
    LeTail(b, 4);
    LeTail(b, 5);
    LeTail(b, 6);
    LeTail(b, 7);
    assert b[0..] == b && b[8..] == [];
  }

  /** Every safe integer survives its eight bytes. */
  lemma U64leReads(n: int)
    requires 0 <= n <= MAX_SAFE
    ensures LeValue(U64le(n).value) == n
    ensures var b := U64le(n).value;
            n == b[0] as int + b[1] as int * 0x100 + b[2] as int * 0x1_0000 + b[3] as int * 0x100_0000
                 + b[4] as int * 0x1_0000_0000 + b[5] as int * 0x100_0000_0000 + b[6] as int * 0x1_0000_0000_0000
                 + b[7] as int * 0x100_0000_0000_0000
  {
    assert Pow256(8) == 0x1_0000_0000_0000_0000;
    LeRoundTrip(n, 8);
    EightBytes(U64le(n).value);
  }

  lemma U16leReads(n: int)
    requires U16le(n).Some?
    ensures 0 <= n <= 0xFFFF
    ensures LeValue(U16le(n).value) == n
    ensures var b := U16le(n).value; n == b[0] as int + b[1] as int * 0x100
  {
    assert Pow256(2) == 0x1_0000;
    LeRoundTrip(n, 2);
    TwoBytes(U16le(n).value);
  }

  // ---------------------------------------------------------------- hex

  function Lower(c: char): char {
    if 'A' <= c <= 'Z' then c + 32 as char else c
  }

  function LowerAll(s: string): (r: string)
    ensures |r| == |s|
  {
    seq(|s|, i requires 0 <= i < |s| => Lower(s[i]))
  }

  /** Lower-cased and without one leading 0x. */
  function Clean(s: string): string {
    var l := LowerAll(s);
    if |l| >= 2 && l[..2] == "0x" then l[2..] else l
  }

  predicate IsHexChar(c: char) { '0' <= c <= '9' || 'a' <= c <= 'f' }

  predicate IsHex(s: string) { forall i :: 0 <= i < |s| ==> IsHexChar(s[i]) }

  function HexValue(c: char): (v: nat)
    requires IsHexChar(c)
    ensures v < 16
  {
    if c <= '9' then c as int - '0' as int else c as int - 'a' as int + 10
  }

  function HexChar(d: nat): (c: char)
    requires d < 16
    ensures IsHexChar(c) && HexValue(c) == d
  {
    if d < 10 then '0' + d as char else 'a' + (d - 10) as char
  }

  function DecodeHex(s: string): (b: bytes)
    requires IsHex(s) && |s| % 2 == 0
    ensures |b| == |s| / 2
  {
    if s == [] then [] else [16 * HexValue(s[0]) + HexValue(s[1])] + DecodeHex(s[2..])
  }

  /** The bytes of cleaned hex; None for an odd length or a character that is no hex digit. */
  function HexToBytes(hex: string): Option<bytes> {
    var clean := Clean(hex);
    if IsHex(clean) && |clean| % 2 == 0 then Some(DecodeHex(clean)) else None
  }

  function BytesToHex(b: bytes): (s: string)
    ensures |s| == 2 * |b| && IsHex(s)
  {
    if b == [] then [] else [HexChar(b[0] / 16), HexChar(b[0] % 16)] + BytesToHex(b[1..])
  }

  lemma HexByteReads(x: byte)
    ensures 16 * HexValue(HexChar(x / 16)) + HexValue(HexChar(x % 16)) == x
  {
  }

  lemma {:induction false} DecodeHexEncodes(b: bytes)
    ensures DecodeHex(BytesToHex(b)) == b
  {
    if b != [] {
      DecodeHexEncodes(b[1..]);
      HexByteReads(b[0]);
      assert BytesToHex(b)[2..] == BytesToHex(b[1..]);
      assert b == [b[0]] + b[1..];
    }
  }

  lemma HexCharUnique(c: char)
    requires IsHexChar(c)
    ensures HexChar(HexValue(c)) == c
  {
  }

  lemma {:induction false} EncodeDecodedHex(s: string)
    requires IsHex(s) && |s| % 2 == 0
    ensures BytesToHex(DecodeHex(s)) == s
  {
    if s != [] {
      var rest := s[2..];
      EncodeDecodedHex(rest);
      HexCharUnique(s[0]);
      HexCharUnique(s[1]);
      var first := 16 * HexValue(s[0]) + HexValue(s[1]);
      assert first / 16 == HexValue(s[0]) && first % 16 == HexValue(s[1]);
      assert DecodeHex(s) == [first] + DecodeHex(rest);
      assert DecodeHex(s)[1..] == DecodeHex(rest);
      assert s == [s[0], s[1]] + rest;
    }
  }

  /** Printed hex is already clean, with or without the prefix. */
  lemma CleanPrinted(b: bytes)
    ensures Clean(BytesToHex(b)) == BytesToHex(b) == Clean("0x" + BytesToHex(b))
  {
    var s := BytesToHex(b);
    assert forall i :: 0 <= i < |s| ==> IsHexChar(s[i]) && Lower(s[i]) == s[i];
    assert LowerAll(s) == s;
    assert |s| >= 2 ==> s[1] != 'x';
    var p := "0x" + s;
    assert LowerAll(p) == p by {
      forall i | 0 <= i < |p| ensures Lower(p[i]) == p[i] {
        if i >= 2 { assert p[i] == s[i - 2]; }
      }
    }
    assert p[..2] == "0x" && p[2..] == s;
  }

  lemma HexRoundTrip(b: bytes)
    ensures HexToBytes(BytesToHex(b)) == Some(b) == HexToBytes("0x" + BytesToHex(b))
  {
    CleanPrinted(b);
    DecodeHexEncodes(b);
  }

  /** Two valid hex strings name the same bytes exactly when their clean forms are equal. */
  lemma CleanDecides(s: string, t: string)
    requires HexToBytes(s).Some? && HexToBytes(t).Some?
    ensures HexToBytes(s) == HexToBytes(t) <==> Clean(s) == Clean(t)
    ensures BytesToHex(HexToBytes(s).value) == Clean(s)
  {
    EncodeDecodedHex(Clean(s));
    EncodeDecodedHex(Clean(t));
  }

  /** Each byte is its own pair of digits. */
  lemma {:induction false} DecodeHexAt(s: string, k: nat)
    requires IsHex(s) && |s| % 2 == 0 && 2 * k + 1 < |s|
    ensures DecodeHex(s)[k] == 16 * HexValue(s[2 * k]) + HexValue(s[2 * k + 1])
  {
    if k > 0 {
      DecodeHexAt(s[2..], k - 1);
    }
  }

  const HEX_DIGITS := "0123456789abcdef"

  /** Two characters that differ at most in the case of a letter. */
  predicate SameLetter(c: char, d: char) {
    || c == d
    || ('A' <= c <= 'Z' && d as int == c as int + 32) || ('A' <= d <= 'Z' && c as int == d as int + 32)
  }

  /** The case of a hex string, and of its prefix, does not change the bytes. */
  lemma HexIgnoresCase(s: string, t: string)
    requires |s| == |t| && forall i :: 0 <= i < |s| ==> SameLetter(s[i], t[i])
    ensures HexToBytes(s) == HexToBytes(t)
  {
    assert LowerAll(s) == LowerAll(t);
  }

  /** Byte k is printed as its two digits, the high one first. */
  lemma {:induction false} BytesToHexAt(b: bytes, k: nat)
    requires k < |b|
    ensures BytesToHex(b)[2 * k] == HEX_DIGITS[b[k] / 16] && BytesToHex(b)[2 * k + 1] == HEX_DIGITS[b[k] % 16]
  {
    if k > 0 {
      BytesToHexAt(b[1..], k - 1);
    }
  }

  /** The byte-filling loop of hexToBytes. */
  method FillFromHex(hex: string) returns (r: Option<bytes>)
    ensures r == HexToBytes(hex)
  {
    var clean := Clean(hex);
    if !IsHex(clean) || |clean| % 2 != 0 { return None; }
    ghost var decoded := DecodeHex(clean);
    var out := new byte[|clean| / 2];
    for i := 0 to out.Length
      invariant forall k :: 0 <= k < i ==> out[k] == decoded[k]
    {
      DecodeHexAt(clean, i);
      out[i] := 16 * HexValue(clean[2 * i]) + HexValue(clean[2 * i + 1]);
    }
    assert out[..] == decoded;
    return Some(out[..]);
  }

  /** The appending loop of bytesToHex. */
  method PrintHex(b: bytes) returns (s: string)
    ensures s == BytesToHex(b)
    ensures |s| == 2 * |b| && forall k :: 0 <= k < |b| ==> s[2 * k] == HEX_DIGITS[b[k] / 16]
    ensures forall k :: 0 <= k < |b| ==> s[2 * k + 1] == HEX_DIGITS[b[k] % 16]
  {
    s := "";
    for i := 0 to |b|
      invariant s + BytesToHex(b[i..]) == BytesToHex(b)
    {
      assert b[i..][1..] == b[i + 1..];
      s := s + [HexChar(b[i] / 16), HexChar(b[i] % 16)];
    }
    assert s + [] == s;
    forall k | 0 <= k < |b| ensures s[2 * k] == HEX_DIGITS[b[k] / 16] && s[2 * k + 1] == HEX_DIGITS[b[k] % 16] {
      BytesToHexAt(b, k);
    }
  }

  // ---------------------------------------------------------------- concatenation

  function Flatten(parts: seq<bytes>): bytes {
    if parts == [] then [] else parts[0] + Flatten(parts[1..])
  }

  lemma FlattenCons(p: bytes, parts: seq<bytes>)
    ensures Flatten([p] + parts) == p + Flatten(parts)
  {
    assert ([p] + parts)[1..] == parts;
  }

  lemma {:induction false} FlattenSnoc(parts: seq<bytes>, p: bytes)
    ensures Flatten(parts + [p]) == Flatten(parts) + p
  {
    if parts == [] {
      assert [p][1..] == [];
    } else {
      FlattenSnoc(parts[1..], p);
      assert (parts + [p])[1..] == parts[1..] + [p];
      assert (parts[0] + Flatten(parts[1..])) + p == parts[0] + (Flatten(parts[1..]) + p);
    }
  }

  lemma {:induction false} FlattenPrefix(parts: seq<bytes>, i: nat)
    requires i <= |parts|
    ensures |Flatten(parts[..i])| <= |Flatten(parts)|
    decreases |parts| - i
  {
    if i < |parts| {
      FlattenSnoc(parts[..i], parts[i]);
      assert parts[..i + 1] == parts[..i] + [parts[i]];
      FlattenPrefix(parts, i + 1);
    } else {
      assert parts[..i] == parts;
    }
  }

  /** Copies the parts one after another into a buffer of their total length. */
  method ConcatBytes(parts: seq<bytes>) returns (r: bytes)
    ensures r == Flatten(parts)
  {
    var len := 0;
    for i := 0 to |parts|
      invariant len == |Flatten(parts[..i])|
    {
      FlattenSnoc(parts[..i], parts[i]);
      assert parts[..i + 1] == parts[..i] + [parts[i]];
      len := len + |parts[i]|;
    }
    assert parts[..|parts|] == parts;
    var out := new byte[len](_ => 0);
    var off := 0;
    for i := 0 to |parts|
      invariant off == |Flatten(parts[..i])| <= len
      invariant out[..off] == Flatten(parts[..i])
    {
      FlattenSnoc(parts[..i], parts[i]);
      assert parts[..i + 1] == parts[..i] + [parts[i]];
      FlattenPrefix(parts, i + 1);
      ghost var done := out[..off];
      forall j | 0 <= j < |parts[i]| {
        out[off + j] := parts[i][j];
      }
      assert out[..off + |parts[i]|] == done + parts[i];
      off := off + |parts[i]|;
    }
    assert out[..] == out[..off];
    return out[..];
  }
}

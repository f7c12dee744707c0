/** Base58 decoding, and the textbook encoder it inverts. */
module Base58 {
  import opened Bytes

  // ---------------------------------------------------------------- positional notation

  ghost predicate DigitsBelow(ds: seq<nat>, base: nat) { forall i :: 0 <= i < |ds| ==> ds[i] < base }

  /** The two bases the decoder moves between. */
  type Radix = b: nat | b == 58 || b == 256 witness 58

  /** The number with the given digits, most significant first. */
  function FromDigits(ds: seq<nat>, base: Radix): nat {
    if ds == [] then 0 else FromDigits(ds[..|ds| - 1], base) * base + ds[|ds| - 1]
  }

  /** The digits of n without leading zeros; none for 0. */
  function ToDigits(n: nat, base: Radix): (ds: seq<nat>)
    ensures DigitsBelow(ds, base)
    ensures ds != [] ==> ds[0] != 0
    ensures ds == [] <==> n == 0
  {
    if n == 0 then [] else ToDigits(n / base, base) + [n % base]
  }

  lemma DivModStep(q: nat, d: nat, base: Radix)
    requires d < base
    ensures (q * base + d) / base == q && (q * base + d) % base == d
  {
    if base == 58 {
      assert (q * 58 + d) / 58 == q;
    } else {
      assert (q * 256 + d) / 256 == q;
    }
  }

  lemma DivModJoin(n: nat, base: Radix)
    ensures (n / base) * base + n % base == n
  {
    if base == 58 {
    } else {
    }
  }

  lemma {:induction false} FromToDigits(n: nat, base: Radix)
    ensures FromDigits(ToDigits(n, base), base) == n
  {
    if n > 0 {
      FromToDigits(n / base, base);
      DivModJoin(n, base);
      var front := ToDigits(n / base, base);
      assert (front + [n % base])[..|front|] == front;
    }
  }

  lemma {:induction false} ToFromDigits(ds: seq<nat>, base: Radix)
    requires DigitsBelow(ds, base) && (ds != [] ==> ds[0] != 0)
    ensures ToDigits(FromDigits(ds, base), base) == ds
  {
    if ds != [] {
      var front, last := ds[..|ds| - 1], ds[|ds| - 1];
      ToFromDigits(front, base);
      DivModStep(FromDigits(front, base), last, base);
      assert ds == front + [last];
      if front == [] {
        assert FromDigits(ds, base) == last;
      } else {
        assert FromDigits(front, base) != 0;
        assert FromDigits(front, base) * base > 0;
      }
    }
  }

  function Repeat<T>(x: T, n: nat): (s: seq<T>)
    ensures |s| == n && forall i :: 0 <= i < n ==> s[i] == x
  {
    seq(n, _ => x)
  }

  /** How many leading elements equal x. */
  function Leading<T(==)>(s: seq<T>, x: T): (n: nat)
    ensures n <= |s| && (forall i :: 0 <= i < n ==> s[i] == x) && (n < |s| ==> s[n] != x)
  {
    if s == [] || s[0] != x then 0 else 1 + Leading(s[1..], x)
  }

  lemma {:induction false} LeadingIs<T>(s: seq<T>, x: T, n: nat)
    requires n <= |s| && (forall i :: 0 <= i < n ==> s[i] == x) && (n < |s| ==> s[n] != x)
    ensures Leading(s, x) == n
  {
    if n > 0 {
      LeadingIs(s[1..], x, n - 1);
    }
  }

  /** Leading zero digits do not change the number. */
  lemma {:induction false} LeadingZeros(z: nat, ds: seq<nat>, base: Radix)
    ensures FromDigits(Repeat<nat>(0, z) + ds, base) == FromDigits(ds, base)
    decreases z + |ds|
  {
    var all: seq<nat> := Repeat<nat>(0, z) + ds;
    if ds != [] {
      LeadingZeros(z, ds[..|ds| - 1], base);
      assert all[..|all| - 1] == Repeat<nat>(0, z) + ds[..|ds| - 1];
    } else if z > 0 {
      LeadingZeros(z - 1, [], base);
      assert all[..z - 1] == Repeat<nat>(0, z - 1) + [];
      assert |all| == z && all[z - 1] == 0;
      assert FromDigits(all[..z - 1], base) == 0;
      assert 0 * base == 0;
    }
  }

  // ---------------------------------------------------------------- the alphabet

  /** The character's position in the alphabet, which leaves out 0, I, O and l. */
  function DigitOf(c: char): Option<nat> {
    if '1' <= c <= '9' then Some(c as nat - 49)
    else if 'A' <= c <= 'H' then Some(c as nat - 56)
    else if 'J' <= c <= 'N' then Some(c as nat - 57)
    else if 'P' <= c <= 'Z' then Some(c as nat - 58)
    else if 'a' <= c <= 'k' then Some(c as nat - 64)
    else if 'm' <= c <= 'z' then Some(c as nat - 65)
    else None
  }

  /** The alphabet's character at a position. */
  function CharOf(d: nat): char
    requires d < 58
  {
    if d < 9 then (d + 49) as char
    else if d < 17 then (d + 56) as char
    else if d < 22 then (d + 57) as char
    else if d < 33 then (d + 58) as char
    else if d < 44 then (d + 64) as char
    else (d + 65) as char
  }

  /** The two directions of the table are inverse, so a character stands for one digit. */
  lemma DigitOfInvertsCharOf(c: char, d: nat)
    requires d < 58
    ensures DigitOf(c) == Some(d) <==> c == CharOf(d)
  {
    assert CharOf(d) as nat == (if d < 9 then d + 49 else if d < 17 then d + 56 else if d < 22 then d + 57
                                else if d < 33 then d + 58 else if d < 44 then d + 64 else d + 65);
  }

  const ALPHABET := "123456789" + "ABCDEFGH" + "JKLMN" + "PQRSTUVWXYZ" + "abcdefghijk" + "mnopqrstuvwxyz"

  lemma AlphabetIs(c: char, d: nat)
    requires d < 58
    ensures |ALPHABET| == 58 && CharOf(d) == ALPHABET[d]
    ensures DigitOf(c) == Some(d) <==> c == ALPHABET[d]
  {
    DigitOfInvertsCharOf(c, d);
  }

  lemma InAlphabet(c: char)
    ensures DigitOf(c).Some? <==> c in ALPHABET
  {
    if DigitOf(c).Some? {
      AlphabetIs(c, DigitOf(c).value);
    } else if c in ALPHABET {
      var d: nat :| d < |ALPHABET| && ALPHABET[d] == c;
      AlphabetIs(c, d);
    }
  }

  // ---------------------------------------------------------------- decoder and encoder

  /** The digits of a string; None if a character is not in the alphabet. */
  function DigitsOf(s: string): Option<seq<nat>> {
    if s == "" then Some([])
    else
      match DigitsOf(s[..|s| - 1])
      case None => None
      case Some(front) =>
        match DigitOf(s[|s| - 1])
        case None => None
        case Some(d) => Some(front + [d])
  }

  function ToBytes(ds: seq<nat>): bytes
    requires DigitsBelow(ds, 256)
  {
    seq(|ds|, i requires 0 <= i < |ds| => ds[i])
  }

  function DecodeBase58(value: string, maxChars: nat): Option<bytes> {
    if value == "" || |value| > maxChars then None
    else
      match DigitsOf(value)
      case None => None
      case Some(ds) => Some(Repeat<byte>(0, Leading(value, '1')) + ToBytes(ToDigits(FromDigits(ds, 58), 256)))
  }

  function Reversed(s: bytes): (r: bytes)
    ensures |r| == |s|
  {
    seq(|s|, i requires 0 <= i < |s| => s[|s| - 1 - i])
  }

  lemma ReversedSnoc(s: bytes, x: byte)
    ensures Reversed(s + [x]) == [x] + Reversed(s)
  {
  }

  lemma {:induction false} DigitsOfPrefix(s: string, i: nat)
    requires i <= |s| && DigitsOf(s[..i]).None?
    ensures DigitsOf(s).None?
    decreases |s| - i
  {
    if i < |s| {
      assert s[..i + 1][..i] == s[..i];
      DigitsOfPrefix(s, i + 1);
    } else {
      assert s[..i] == s;
    }
  }

  /** The decoder as it runs: one big integer, bytes pushed and reversed, leading ones counted. */
  method RunDecodeBase58(value: string, maxChars: nat) returns (r: Option<bytes>)
    ensures r == DecodeBase58(value, maxChars)
  {
    if value == "" || |value| > maxChars { return None; }
    var n: nat := 0;
    ghost var ds: seq<nat> := [];
    for i := 0 to |value|
      invariant DigitsOf(value[..i]) == Some(ds) && FromDigits(ds, 58) == n
    {
      var digit := DigitOf(value[i]);
      assert value[..i + 1][..i] == value[..i] && value[..i + 1][i] == value[i];
      if digit.None? {
        DigitsOfPrefix(value, i + 1);
        return None;
      }
      n := n * 58 + digit.value;
      ds := ds + [digit.value];
      assert ds[..|ds| - 1] + [digit.value] == ds;
    }
    assert value[..|value|] == value;
    ghost var total := n;
    var body: bytes := [];
    while n > 0
      invariant ToDigits(total, 256) == ToDigits(n, 256) + Reversed(body)
    {
      ghost var before := body;
      body := body + [n % 256];
      ReversedSnoc(before, n % 256);
      n := n / 256;
    }
    var leadingZeros: nat := 0;
    while leadingZeros < |value| && value[leadingZeros] == '1'
      invariant leadingZeros <= |value| && forall i :: 0 <= i < leadingZeros ==> value[i] == '1'
    {
      leadingZeros := leadingZeros + 1;
    }
    LeadingIs(value, '1', leadingZeros);
    assert ToBytes(ToDigits(total, 256)) == Reversed(body);
    return Some(Repeat<byte>(0, leadingZeros) + Reversed(body));
  }

  function Chars(ds: seq<nat>): string
    requires DigitsBelow(ds, 58)
  {
    seq(|ds|, i requires 0 <= i < |ds| => CharOf(ds[i]))
  }

  function ToNats(b: bytes): (ds: seq<nat>)
    ensures DigitsBelow(ds, 256) && |ds| == |b|
  {
    seq(|b|, i requires 0 <= i < |b| => b[i])
  }

  /** The textbook encoder: a one per leading zero byte, then the digits of the number. */
  function EncodeBase58(b: bytes): string {
    Repeat('1', Leading(b, 0)) + Chars(ToDigits(FromDigits(ToNats(b), 256), 58))
  }

  lemma {:induction false} DigitsOfChars(ds: seq<nat>)
    requires DigitsBelow(ds, 58)
    ensures DigitsOf(Chars(ds)) == Some(ds)
  {
    if ds != [] {
      var front := ds[..|ds| - 1];
      DigitsOfChars(front);
      assert Chars(ds)[..|ds| - 1] == Chars(front);
      DigitOfInvertsCharOf(CharOf(ds[|ds| - 1]), ds[|ds| - 1]);
      assert ds == front + [ds[|ds| - 1]];
    }
  }

  lemma CharsSnoc(ds: seq<nat>, d: nat)
    requires DigitsBelow(ds, 58) && d < 58
    ensures DigitsBelow(ds + [d], 58) && Chars(ds + [d]) == Chars(ds) + [CharOf(d)]
  {
  }

  lemma {:induction false} CharsOfDigits(s: string)
    requires DigitsOf(s).Some?
    ensures var ds := DigitsOf(s).value; |ds| == |s| && DigitsBelow(ds, 58) && Chars(ds) == s
  {
    if s != "" {
      CharsOfDigits(s[..|s| - 1]);
      DigitOfInvertsCharOf(s[|s| - 1], DigitOf(s[|s| - 1]).value);
      var front := DigitsOf(s[..|s| - 1]).value;
      CharsSnoc(front, DigitOf(s[|s| - 1]).value);
      assert s == s[..|s| - 1] + [s[|s| - 1]];
    }
  }

  /** Keeps the leading zeros and rewrites the number in another base. */
  function Convert(ds: seq<nat>, from: Radix, to: Radix): (r: seq<nat>)
    requires DigitsBelow(ds, from)
    ensures DigitsBelow(r, to)
  {
    Repeat<nat>(0, Leading(ds, 0)) + ToDigits(FromDigits(ds, from), to)
  }

  /** Converting back restores the digits, leading zeros included. */
  lemma ConvertBack(ds: seq<nat>, from: Radix, to: Radix)
    requires DigitsBelow(ds, from)
    ensures Convert(Convert(ds, from, to), to, from) == ds
  {
    var z, n := Leading(ds, 0), FromDigits(ds, from);
    var body, r := ToDigits(n, to), Convert(ds, from, to);
    assert ds == Repeat<nat>(0, z) + ds[z..];
    LeadingZeros(z, ds[z..], from);
    ToFromDigits(ds[z..], from);
    LeadingZeros(z, body, to);
    FromToDigits(n, to);
    LeadingIs(r, 0, z);
  }

  /** The ones that lead a string are the zeros that lead its digits. */
  lemma LeadingOnes(s: string, ds: seq<nat>)
    requires DigitsBelow(ds, 58) && s == Chars(ds)
    ensures Leading(s, '1') == Leading(ds, 0)
  {
    var z := Leading(ds, 0);
    if z < |ds| {
      DigitOfInvertsCharOf(s[z], ds[z]);
    }
    LeadingIs(s, '1', z);
  }

  lemma ToBytesSplit(z: nat, body: seq<nat>)
    requires DigitsBelow(body, 256)
    ensures ToNats(Repeat<byte>(0, z) + ToBytes(body)) == Repeat<nat>(0, z) + body
  {
  }

  lemma ToNatsLeading(b: bytes)
    ensures Leading(ToNats(b), 0) == Leading(b, 0)
  {
    LeadingIs(ToNats(b), 0, Leading(b, 0));
  }

  lemma {:induction false} DigitsExactly(s: string)
    ensures DigitsOf(s).Some? <==> forall i :: 0 <= i < |s| ==> DigitOf(s[i]).Some?
  {
    if s != "" {
      DigitsExactly(s[..|s| - 1]);
      assert forall i :: 0 <= i < |s| - 1 ==> s[..|s| - 1][i] == s[i];
    }
  }

  /** A string decodes exactly when it is not empty, no longer than the limit and spelt in the alphabet. */
  lemma DecodesExactly(value: string, maxChars: nat)
    ensures DecodeBase58(value, maxChars).Some?
       <==> 1 <= |value| <= maxChars && forall i :: 0 <= i < |value| ==> value[i] in ALPHABET
  {
    DigitsExactly(value);
    forall i | 0 <= i < |value| ensures DigitOf(value[i]).Some? <==> value[i] in ALPHABET {
      InAlphabet(value[i]);
    }
  }

  /** Decoding converts the digits from base 58 to base 256. */
  lemma DecodeConverts(s: string, ds: seq<nat>, maxChars: nat)
    requires s != "" && |s| <= maxChars && DigitsOf(s) == Some(ds) && DigitsBelow(ds, 58) && s == Chars(ds)
    ensures DecodeBase58(s, maxChars).Some?
    ensures ToNats(DecodeBase58(s, maxChars).value) == Convert(ds, 58, 256)
  {
    LeadingOnes(s, ds);
    ToBytesSplit(Leading(ds, 0), ToDigits(FromDigits(ds, 58), 256));
  }

  /** Encoding converts the bytes from base 256 to base 58. */
  lemma EncodeConverts(b: bytes)
    ensures EncodeBase58(b) == Chars(Convert(ToNats(b), 256, 58))
  {
    ToNatsLeading(b);
  }

  lemma ToNatsInjective(a: bytes, b: bytes)
    requires ToNats(a) == ToNats(b)
    ensures a == b
  {
    assert forall i :: 0 <= i < |a| ==> a[i] == ToNats(a)[i] == ToNats(b)[i];
  }

  /** Decoding an encoding gives the bytes back, leading zeros included. */
  lemma DecodeEncode(b: bytes, maxChars: nat)
    requires b != [] && |EncodeBase58(b)| <= maxChars
    ensures DecodeBase58(EncodeBase58(b), maxChars) == Some(b)
  {
    var ds := Convert(ToNats(b), 256, 58);
    EncodeConverts(b);
    DigitsOfChars(ds);
    ConvertBack(ToNats(b), 256, 58);
    DecodeConverts(EncodeBase58(b), ds, maxChars);
    ToNatsInjective(b, DecodeBase58(EncodeBase58(b), maxChars).value);
  }

  /** Every accepted string is the encoding of what it decodes to. */
  lemma EncodeDecode(s: string, maxChars: nat)
    requires DecodeBase58(s, maxChars).Some?
    ensures EncodeBase58(DecodeBase58(s, maxChars).value) == s
  {
    var ds := DigitsOf(s).value;
    CharsOfDigits(s);
    DecodeConverts(s, ds, maxChars);
    ConvertBack(ds, 58, 256);
    EncodeConverts(DecodeBase58(s, maxChars).value);
  }

  /** Distinct accepted strings decode to distinct bytes. */
  lemma DecodeInjective(s: string, t: string, maxChars: nat)
    requires DecodeBase58(s, maxChars).Some? && DecodeBase58(s, maxChars) == DecodeBase58(t, maxChars)
    ensures s == t
  {
    EncodeDecode(s, maxChars);
    EncodeDecode(t, maxChars);
  }
}

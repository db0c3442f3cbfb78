/** Device-address text: the scanner prints a 64-bit address as
    `xx:xx:xx:xx:xx:xx` (win10_scanner.cpp), and the GATT back-end reads such
    text back into an integer by erasing the separators and calling
    `stoull(..., 16)` (win10_api.cpp). */
module MacAddress {
  import opened Common

  const Pow48: nat := 0x1_0000_0000_0000
  const Pow64: nat := 0x1_0000_0000_0000_0000

  function Pow16(n: nat): (p: nat)
    ensures p > 0
  {
    if n == 0 then 1 else 16 * Pow16(n - 1)
  }

  function Pow256(n: nat): (p: nat)
    ensures p > 0
  {
    if n == 0 then 1 else 256 * Pow256(n - 1)
  }

  // ---------------------------------------------------------------- digits

  predicate IsHexChar(c: char) {
    '0' <= c <= '9' || 'a' <= c <= 'f' || 'A' <= c <= 'F'
  }

  predicate IsLowerHexChar(c: char) {
    '0' <= c <= '9' || 'a' <= c <= 'f'
  }

  predicate AllHex(s: string) {
    forall i | 0 <= i < |s| :: IsHexChar(s[i])
  }

  /** The digit `%x` prints for 0..15. */
  function HexDigit(d: nat): (c: char)
    requires d < 16
    ensures IsLowerHexChar(c)
  {
    if d < 10 then ('0' as int + d) as char else ('a' as int + d - 10) as char
  }

  /** The value strtoull gives a hexadecimal digit of either case. */
  function DigitValue(c: char): (d: nat)
    requires IsHexChar(c)
    ensures d < 16
  {
    if c <= '9' then c as int - '0' as int
    else if c >= 'a' then c as int - 'a' as int + 10
    else c as int - 'A' as int + 10
  }

  function ToLower(c: char): char {
    if 'A' <= c <= 'Z' then (c as int - 'A' as int + 'a' as int) as char else c
  }

  function Lower(s: string): (r: string)
    ensures |r| == |s|
    ensures forall i | 0 <= i < |s| :: r[i] == ToLower(s[i])
  {
    seq(|s|, i requires 0 <= i < |s| => ToLower(s[i]))
  }

  lemma DigitRoundTrip(c: char)
    requires IsHexChar(c)
    ensures HexDigit(DigitValue(c)) == ToLower(c)
  {
  }

  /** `%02x` of one octet. */
  function Hex2(b: uint8): (s: string)
    ensures |s| == 2 && IsLowerHexChar(s[0]) && IsLowerHexChar(s[1])
    ensures DigitValue(s[0]) == b / 16 && DigitValue(s[1]) == b % 16
  {
    [HexDigit(b / 16), HexDigit(b % 16)]
  }

  // ------------------------------------------------------------ formatting

  /** Byte `k` of the little-endian in-memory form of `a` (byte 0 is the least
      significant), i.e. `((unsigned char*)&mac_raw)[k]`. */
  function Byte(a: nat, k: nat): (b: uint8)
    ensures b == (a / Pow256(k)) % 256
  {
    if k == 0 then a % 256
    else
      DivDiv(a, 256, Pow256(k - 1));
      Byte(a / 256, k - 1)
  }

  /** Dividing by `b` and then by `c` divides by `b * c`. */
  lemma DivDiv(a: nat, b: nat, c: nat)
    requires b > 0 && c > 0
    ensures a / b / c == a / (b * c)
  {
    var q, r1 := a / b, a % b;
    var q2, r2 := q / c, q % c;
    assert a == b * q + r1;
    assert q == c * q2 + r2;
    SplitProduct(b, c, q2, r2);
    assert b * q == b * c * q2 + b * r2;
    BelowProduct(b, c, r1, r2);
    DivModUnique(a, b * c, q2, b * r2 + r1);
  }

  lemma SplitProduct(b: nat, c: nat, q2: nat, r2: nat)
    ensures b * (c * q2 + r2) == b * c * q2 + b * r2
  {
  }

  lemma BelowProduct(b: nat, c: nat, r1: nat, r2: nat)
    requires r1 < b && r2 < c
    ensures b * r2 + r1 < b * c
  {
    assert b * r2 <= b * (c - 1);
  }

  /** The text `sprintf_s("%02x:%02x:%02x:%02x:%02x:%02x", bytes[5], ..., bytes[0])`
      produces: bits 47..0 of the address, most significant octet first,
      lower-case, colon separated. */
  function FormatMac(a: uint64): (s: string)
    ensures IsMacText(s)
    ensures forall i | 0 <= i < |s| :: i % 3 != 2 ==> IsLowerHexChar(s[i])
  {
    JoinOctets(Hex2(Byte(a, 5)), Hex2(Byte(a, 4)), Hex2(Byte(a, 3)), Hex2(Byte(a, 2)), Hex2(Byte(a, 1)), Hex2(Byte(a, 0)))
  }

  /** Two-digit octets joined with ':', most significant first. */
  function JoinOctets(o5: string, o4: string, o3: string, o2: string, o1: string, o0: string): (s: string)
    requires IsLowerOctet(o5) && IsLowerOctet(o4) && IsLowerOctet(o3)
    requires IsLowerOctet(o2) && IsLowerOctet(o1) && IsLowerOctet(o0)
    ensures IsMacText(s)
    ensures forall i | 0 <= i < |s| :: i % 3 != 2 ==> IsLowerHexChar(s[i])
  {
    var o := [o5, o4, o3, o2, o1, o0];
    var s := o5 + ":" + o4 + ":" + o3 + ":" + o2 + ":" + o1 + ":" + o0;
    assert forall i | 0 <= i < 17 :: s[i] == if i % 3 == 2 then ':' else o[i / 3][i % 3];
    s
  }

  /** Two lower-case hexadecimal digits. */
  predicate IsLowerOctet(o: string) {
    |o| == 2 && IsLowerHexChar(o[0]) && IsLowerHexChar(o[1])
  }

  /** Well-formed address text: six two-digit hexadecimal octets, either case,
      with ':' between them. */
  predicate IsMacText(s: string) {
    |s| == 17 && forall i | 0 <= i < 17 :: if i % 3 == 2 then s[i] == ':' else IsHexChar(s[i])
  }

  // --------------------------------------------------------------- parsing

  /** `std::string::erase(pos, 1)`: None stands for the out_of_range exception
      thrown when `pos` is past the end; at the end it erases nothing. */
  function Erase(s: string, pos: nat): (r: Option<string>)
    ensures r.None? <==> pos > |s|
    ensures r.Some? && pos == |s| ==> r.value == s
    ensures r.Some? && pos < |s| ==> r.value == s[..pos] + s[pos + 1..]
  {
    if pos > |s| then None
    else if pos == |s| then Some(s)
    else Some(s[..pos] + s[pos + 1..])
  }

  /** What is left of `mac` after the five erasures at 2, 4, 6, 8 and 10,
      described on the original text: the characters at 2, 5, 8, 11 and 14 are
      gone. None when one of the erasures throws (text shorter than 14). */
  function MacDigits(mac: string): (r: Option<string>)
    ensures r.Some? <==> |mac| >= 14
    ensures r.Some? ==> |r.value| == |mac| - (if |mac| == 14 then 4 else 5)
  {
    if |mac| < 14 then None
    else if |mac| == 14 then Some(mac[..2] + mac[3..5] + mac[6..8] + mac[9..11] + mac[12..14])
    else Some(mac[..2] + mac[3..5] + mac[6..8] + mac[9..11] + mac[12..14] + mac[15..])
  }

  /** The `mac_copy.erase(...)` calls of `connect_async`, one after the other. */
  method StripMacSeparators(mac: string) returns (digits: Option<string>)
    ensures digits == MacDigits(mac)
  {
    var copy := mac;
    var step := Erase(copy, 2);
    if step.None? { return None; }
    copy := step.value;
    assert |mac| >= 14 ==> copy == mac[..2] + mac[3..];
    step := Erase(copy, 4);
    if step.None? { return None; }
    copy := step.value;
    assert |mac| >= 14 ==> copy == mac[..2] + mac[3..5] + mac[6..];
    step := Erase(copy, 6);
    if step.None? { return None; }
    copy := step.value;
    assert |mac| >= 14 ==> copy == mac[..2] + mac[3..5] + mac[6..8] + mac[9..];
    step := Erase(copy, 8);
    if step.None? { return None; }
    copy := step.value;
    assert |mac| >= 14 ==> copy == mac[..2] + mac[3..5] + mac[6..8] + mac[9..11] + mac[12..];
    ghost var before := copy;
    ghost var kept := mac[..2] + mac[3..5] + mac[6..8] + mac[9..11];
    step := Erase(copy, 10);
    if step.None? { return None; }
    if |mac| >= 15 {
      assert before == kept + mac[12..];
      assert before[..10] == kept + mac[12..14];
      assert before[11..] == mac[15..];
    }
    copy := step.value;
    if |mac| == 14 {
      assert copy == mac[..2] + mac[3..5] + mac[6..8] + mac[9..11] + mac[12..14];
    } else {
      assert copy == mac[..2] + mac[3..5] + mac[6..8] + mac[9..11] + mac[12..14] + mac[15..];
    }
    digits := Some(copy);
  }

  /** Number of leading hexadecimal digits of `s`. */
  function HexPrefixLength(s: string): (n: nat)
    ensures n <= |s| && AllHex(s[..n])
    ensures n < |s| ==> !IsHexChar(s[n])
  {
    if s == [] || !IsHexChar(s[0]) then 0
    else
      var n := 1 + HexPrefixLength(s[1..]);
      assert s[..n] == [s[0]] + s[1..][..n - 1];
      n
  }

  /** The number a string of hexadecimal digits denotes, first digit most significant. */
  function HexValue(s: string): (v: nat)
    requires AllHex(s)
    ensures v < Pow16(|s|)
  {
    if s == [] then 0
    else
      var p := HexValue(s[..|s| - 1]);
      assert p * 16 + 15 < Pow16(|s|) by {
        assert p + 1 <= Pow16(|s| - 1);
        assert (p + 1) * 16 <= Pow16(|s| - 1) * 16;
      }
      p * 16 + DigitValue(s[|s| - 1])
  }

  /** The exceptions `std::erase` and `std::stoull` throw. */
  datatype StdException = InvalidArgument | OutOfRange

  /** `std::stoull(s, &pos, 16)` on text that does not start with blanks, a sign
      or "0x": the longest run of leading hexadecimal digits, InvalidArgument
      when there is none, OutOfRange when its value needs more than 64 bits. */
  function Stoull16(s: string): (r: Result<uint64, StdException>)
    ensures r.Err? && r.error == InvalidArgument <==> HexPrefixLength(s) == 0
    ensures r.Ok? ==> r.value == HexValue(s[..HexPrefixLength(s)])
    ensures r.Err? && r.error == OutOfRange <==>
              HexPrefixLength(s) > 0 && HexValue(s[..HexPrefixLength(s)]) >= Pow64
  {
    var n := HexPrefixLength(s);
    if n == 0 then Err(InvalidArgument)
    else
      var v := HexValue(s[..n]);
      if v >= Pow64 then Err(OutOfRange) else Ok(v)
  }

  /** The address `connect_async` computes from the `mac` option. */
  function ParseMac(mac: string): (r: Result<uint64, StdException>)
    ensures |mac| < 14 ==> r == Err(OutOfRange)
    ensures r.Err? && r.error == InvalidArgument <==> |mac| >= 14 && HexPrefixLength(MacDigits(mac).value) == 0
    ensures r.Ok? ==> |mac| >= 14 && r.value == HexValue(MacDigits(mac).value[..HexPrefixLength(MacDigits(mac).value)])
  {
    match MacDigits(mac)
    case None => Err(OutOfRange)
    case Some(digits) => Stoull16(digits)
  }

  // ----------------------------------------------------------- round trips

  /** The twelve digits of the low `n` octets of `a`, most significant first. */
  function HexOctets(a: nat, n: nat): (s: string)
    ensures |s| == 2 * n && AllHex(s)
  {
    if n == 0 then [] else HexOctets(a / 256, n - 1) + Hex2(a % 256)
  }

  lemma {:induction false} HexOctetsPrepend(a: nat, k: nat)
    ensures HexOctets(a, k + 1) == Hex2(Byte(a, k)) + HexOctets(a, k)
    decreases k
  {
    if k > 0 {
      HexOctetsPrepend(a / 256, k - 1);
    }
  }

  lemma HexValueAppend2(s: string, c1: char, c2: char)
    requires AllHex(s) && IsHexChar(c1) && IsHexChar(c2)
    ensures AllHex(s + [c1, c2])
    ensures HexValue(s + [c1, c2]) == HexValue(s) * 256 + (DigitValue(c1) * 16 + DigitValue(c2))
  {
    var t := s + [c1, c2];
    assert t[..|t| - 1] == s + [c1];
    assert (s + [c1])[..|s|] == s;
  }

  /** `a == d * k + t` with `0 <= t < d` determines `a / d` and `a % d`. */
  lemma DivModUnique(a: nat, d: nat, k: nat, t: nat)
    requires d > 0 && t < d && a == d * k + t
    ensures a / d == k && a % d == t
  {
    var q, r := a / d, a % d;
    var m := q - k;
    assert d * m == t - r;
    assert m < 1 && m > -1;
  }

  lemma ModStep(a: nat, p: nat)
    requires p > 0
    ensures ((a / 256) % p) * 256 + a % 256 == a % (256 * p)
  {
    var q, r := a / 256, a % 256;
    var k, m := q / p, q % p;
    assert a == 256 * q + r;
    assert q == p * k + m;
    assert a == (256 * p) * k + (256 * m + r) by {
      assert 256 * q == 256 * (p * k) + 256 * m;
    }
    assert 256 * m + r < 256 * p by {
      assert m + 1 <= p;
      assert 256 * (m + 1) <= 256 * p;
    }
    DivModUnique(a, 256 * p, k, 256 * m + r);
  }

  lemma {:induction false} HexOctetsValue(a: nat, n: nat)
    ensures HexValue(HexOctets(a, n)) == a % Pow256(n)
    decreases n
  {
    if n > 0 {
      var s := HexOctets(a / 256, n - 1);
      var h := Hex2(a % 256);
      HexOctetsValue(a / 256, n - 1);
      HexValueAppend2(s, h[0], h[1]);
      assert s + h == s + [h[0], h[1]];
      assert DigitValue(h[0]) * 16 + DigitValue(h[1]) == a % 256;
      ModStep(a, Pow256(n - 1));
    }
  }

  /** Erasing the separators of a formatted address leaves its twelve digits. */
  lemma MacDigitsOfFormat(a: uint64)
    ensures MacDigits(FormatMac(a)) == Some(HexOctets(a, 6))
  {
    var b5, b4, b3, b2, b1, b0 := Hex2(Byte(a, 5)), Hex2(Byte(a, 4)), Hex2(Byte(a, 3)),
      Hex2(Byte(a, 2)), Hex2(Byte(a, 1)), Hex2(Byte(a, 0));
    HexOctetsPrepend(a, 5);
    HexOctetsPrepend(a, 4);
    HexOctetsPrepend(a, 3);
    HexOctetsPrepend(a, 2);
    HexOctetsPrepend(a, 1);
    HexOctetsPrepend(a, 0);
    assert HexOctets(a, 6) == b5 + b4 + b3 + b2 + b1 + b0;
    var s := FormatMac(a);
    assert s == b5 + ":" + b4 + ":" + b3 + ":" + b2 + ":" + b1 + ":" + b0;
    assert s[..2] == b5 && s[3..5] == b4 && s[6..8] == b3;
    assert s[9..11] == b2 && s[12..14] == b1 && s[15..] == b0;
  }

  /** Parsing a formatted address gives back its low 48 bits: the two halves of
      the back-end agree on the octet order. */
  lemma ParseFormatRoundTrip(a: uint64)
    ensures ParseMac(FormatMac(a)) == Ok(a % Pow48)
  {
    MacDigitsOfFormat(a);
    var d := HexOctets(a, 6);
    HexOctetsValue(a, 6);
    assert Pow256(6) == Pow48;
    HexPrefixOfDigits(d);
    assert d[..12] == d;
  }

  /** Twelve digits read by HexValue and printed again by HexOctets come back in
      lower case. */
  lemma {:induction false} HexOctetsOfValue(d: string, n: nat)
    requires |d| == 2 * n && AllHex(d)
    ensures HexOctets(HexValue(d), n) == Lower(d)
    decreases n
  {
    if n > 0 {
      var d' := d[..2 * n - 2];
      var c1, c2 := d[2 * n - 2], d[2 * n - 1];
      assert d == d' + [c1, c2];
      HexValueAppend2(d', c1, c2);
      var low := DigitValue(c1) * 16 + DigitValue(c2);
      DivModUnique(HexValue(d), 256, HexValue(d'), low);
      HexOctetsOfValue(d', n - 1);
      DivModUnique(low, 16, DigitValue(c1), DigitValue(c2));
      DigitRoundTrip(c1);
      DigitRoundTrip(c2);
      assert Hex2(low) == [ToLower(c1), ToLower(c2)];
      assert Lower(d) == Lower(d') + [ToLower(c1), ToLower(c2)];
    }
  }

  /** The digits of well-formed address text, and where each came from. */
  lemma MacDigitsOfText(s: string)
    requires IsMacText(s)
    ensures MacDigits(s).Some? && |MacDigits(s).value| == 12 && AllHex(MacDigits(s).value)
    ensures forall i | 0 <= i < 12 :: MacDigits(s).value[i] == s[i + i / 2]
  {
    var d := MacDigits(s).value;
    assert d == s[..2] + s[3..5] + s[6..8] + s[9..11] + s[12..14] + s[15..];
    assert forall i | 0 <= i < 12 :: d[i] == s[i + i / 2];
  }

  /** Text made only of hexadecimal digits is read by stoull to its end. */
  lemma {:induction false} HexPrefixOfDigits(s: string)
    requires AllHex(s)
    ensures HexPrefixLength(s) == |s|
  {
    if s != [] {
      HexPrefixOfDigits(s[1..]);
    }
  }

  /** Well-formed address text parses to a 48-bit address whose formatted text
      is the input in lower case. */
  lemma FormatParseRoundTrip(s: string)
    requires IsMacText(s)
    ensures ParseMac(s).Ok? && ParseMac(s).value < Pow48
    ensures FormatMac(ParseMac(s).value) == Lower(s)
  {
    MacDigitsOfText(s);
    var d := MacDigits(s).value;
    HexPrefixOfDigits(d);
    assert d[..12] == d;
    var v := HexValue(d);
    assert Pow16(12) == Pow48;
    assert ParseMac(s) == Ok(v);
    HexOctetsOfValue(d, 6);
    var f := FormatMac(v);
    MacDigitsOfFormat(v);
    MacDigitsOfText(f);
    DigitsAgree(f, s, d, HexOctets(v, 6));
    LowerFromDigits(f, s);
  }

  /** The digits of `f` are the lower-case digits of `s`, position by
      position, when both digit strings are read off their texts. */
  lemma DigitsAgree(f: string, s: string, d: string, fd: string)
    requires |d| == 12 && |f| == 17 && |s| == 17
    requires fd == Lower(d)
    requires forall j | 0 <= j < 12 :: fd[j] == f[j + j / 2]
    requires forall j | 0 <= j < 12 :: d[j] == s[j + j / 2]
    ensures forall j | 0 <= j < 12 :: f[j + j / 2] == ToLower(s[j + j / 2])
  {
    forall j | 0 <= j < 12
      ensures f[j + j / 2] == ToLower(s[j + j / 2])
    {
      assert fd[j] == f[j + j / 2];
      assert d[j] == s[j + j / 2];
      assert fd[j] == ToLower(d[j]);
    }
  }

  /** Two address texts whose digits agree up to case agree everywhere up to
      case: the separators are ':' in both. */
  lemma LowerFromDigits(f: string, s: string)
    requires IsMacText(f) && IsMacText(s)
    requires forall j | 0 <= j < 12 :: f[j + j / 2] == ToLower(s[j + j / 2])
    ensures f == Lower(s)
  {
    forall i | 0 <= i < 17
      ensures f[i] == Lower(s)[i]
    {
      if i % 3 != 2 {
        var j := i - i / 3;
        assert j + j / 2 == i;
        assert f[j + j / 2] == ToLower(s[j + j / 2]);
      }
    }
  }
}

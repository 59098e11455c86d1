/** Printing and parsing of MAC and IPv4 addresses (model.rs and the standard library's dotted quad). */
module Text {
  import opened Base

  function Split(s: string, sep: char): (parts: seq<string>)
    ensures |parts| > 0
  {
    if s == "" then [""]
    else
      var rest := Split(s[1..], sep);
      if s[0] == sep then [""] + rest else [[s[0]] + rest[0]] + rest[1..]
  }

  function Join(parts: seq<string>, sep: char): string
    requires |parts| > 0
  {
    if |parts| == 1 then parts[0] else parts[0] + [sep] + Join(parts[1..], sep)
  }

  lemma {:induction false} SplitPrefix(head: string, s: string, sep: char)
    requires sep !in head
    ensures Split(head + [sep] + s, sep) == [head] + Split(s, sep)
    ensures Split(head, sep) == [head]
  {
    if head == "" {
      assert (head + [sep] + s)[1..] == s;
    } else {
      SplitPrefix(head[1..], s, sep);
      assert (head + [sep] + s)[1..] == head[1..] + [sep] + s;
      assert [head[0]] + head[1..] == head;
    }
  }

  /** Splitting undoes joining when no part contains the separator. */
  lemma {:induction false} SplitJoin(parts: seq<string>, sep: char)
    requires |parts| > 0 && forall i :: 0 <= i < |parts| ==> sep !in parts[i]
    ensures Split(Join(parts, sep), sep) == parts
  {
    if |parts| == 1 {
      SplitPrefix(parts[0], "", sep);
    } else {
      SplitJoin(parts[1..], sep);
      SplitPrefix(parts[0], Join(parts[1..], sep), sep);
    }
  }

  // ---- MAC addresses -----------------------------------------------------------------

  function HexDigit(n: nat): char
    requires n < 16
  {
    if n < 10 then '0' + n as char else 'a' + (n - 10) as char
  }

  function HexValue(c: char): (v: Option<nat>)
    ensures v.Some? ==> v.value < 16
  {
    if '0' <= c <= '9' then Some((c - '0') as nat)
    else if 'a' <= c <= 'f' then Some((c - 'a') as nat + 10)
    else if 'A' <= c <= 'F' then Some((c - 'A') as nat + 10)
    else None
  }

  function HexByte(b: byte): string
  {
    [HexDigit(b / 16), HexDigit(b % 16)]
  }

  /** Two characters as an octet: two hex digits, or a plus sign and one digit. */
  function ParseHexByte(part: string): Option<byte>
  {
    if |part| != 2 then None
    else if HexValue(part[1]).None? then None
    else if part[0] == '+' then Some(HexValue(part[1]).value)
    else if HexValue(part[0]).None? then None
    else Some(HexValue(part[0]).value * 16 + HexValue(part[1]).value)
  }

  function MacText(m: Mac): string
  {
    Join([HexByte(m.o0), HexByte(m.o1), HexByte(m.o2), HexByte(m.o3), HexByte(m.o4), HexByte(m.o5)], ':')
  }

  function ParseMac(s: string): Option<Mac>
  {
    var parts := Split(s, ':');
    if |parts| != 6 || ParseHexByte(parts[0]).None? || ParseHexByte(parts[1]).None?
       || ParseHexByte(parts[2]).None? || ParseHexByte(parts[3]).None?
       || ParseHexByte(parts[4]).None? || ParseHexByte(parts[5]).None? then None
    else
      Some(Mac(ParseHexByte(parts[0]).value, ParseHexByte(parts[1]).value, ParseHexByte(parts[2]).value,
               ParseHexByte(parts[3]).value, ParseHexByte(parts[4]).value, ParseHexByte(parts[5]).value))
  }

  lemma HexByteRoundTrip(b: byte)
    ensures ParseHexByte(HexByte(b)) == Some(b) && ':' !in HexByte(b)
  {}

  /** Parsing inverts printing, so printing is injective. */
  lemma MacRoundTrip(m: Mac)
    ensures ParseMac(MacText(m)) == Some(m)
  {
    HexByteRoundTrip(m.o0);
    HexByteRoundTrip(m.o1);
    HexByteRoundTrip(m.o2);
    HexByteRoundTrip(m.o3);
    HexByteRoundTrip(m.o4);
    HexByteRoundTrip(m.o5);
    SplitJoin([HexByte(m.o0), HexByte(m.o1), HexByte(m.o2), HexByte(m.o3), HexByte(m.o4), HexByte(m.o5)], ':');
  }

  /** Six octets of two lower-case digits, high digit first, between colons. */
  lemma MacTextLooks()
    ensures MacText(Mac(0x52, 0x54, 0, 0xab, 0x0c, 0xf9)) == "52:54:00:ab:0c:f9"
  {
    OctetsLook();
    JoinSix(["52", "54", "00", "ab", "0c", "f9"]);
  }

  lemma OctetsLook()
    ensures HexByte(0x52) == "52" && HexByte(0x54) == "54" && HexByte(0) == "00"
    ensures HexByte(0xab) == "ab" && HexByte(0x0c) == "0c" && HexByte(0xf9) == "f9"
  {}

  lemma JoinSix(p: seq<string>)
    requires |p| == 6
    ensures Join(p, ':') == p[0] + ":" + p[1] + ":" + p[2] + ":" + p[3] + ":" + p[4] + ":" + p[5]
  {
    assert p[1..][1..] == p[2..] && p[2..][1..] == p[3..] && p[3..][1..] == p[4..] && p[4..][1..] == p[5..];
    assert Join(p[4..], ':') == p[4] + ":" + p[5];
    assert Join(p[3..], ':') == p[3] + ":" + Join(p[4..], ':');
    assert Join(p[2..], ':') == p[2] + ":" + Join(p[3..], ':');
  }

  // ---- letter case -------------------------------------------------------------------------------------

  function UpperChar(c: char): char
  {
    if 'a' <= c <= 'z' then 'A' + (c - 'a') else c
  }

  function Upper(s: string): (r: string)
    ensures |r| == |s| && forall i :: 0 <= i < |s| ==> r[i] == UpperChar(s[i])
  {
    seq(|s|, i requires 0 <= i < |s| => UpperChar(s[i]))
  }

  lemma {:induction false} SplitUpper(s: string)
    ensures |Split(Upper(s), ':')| == |Split(s, ':')|
    ensures forall i :: 0 <= i < |Split(s, ':')| ==> Split(Upper(s), ':')[i] == Upper(Split(s, ':')[i])
  {
    if s != "" {
      SplitUpper(s[1..]);
      assert Upper(s)[1..] == Upper(s[1..]);
      var rest := Split(s[1..], ':');
      assert Upper([s[0]] + rest[0]) == [UpperChar(s[0])] + Upper(rest[0]);
    }
  }

  lemma HexByteUpper(part: string)
    ensures ParseHexByte(Upper(part)) == ParseHexByte(part)
  {}

  predicate IsHex(c: char)
  {
    c in "0123456789abcdefABCDEF"
  }

  /** An octet is two hex digits, or, as the integer parser allows, a plus sign and one, standing for a leading zero. */
  lemma HexByteAccepted(part: string)
    ensures ParseHexByte(part).Some? <==> |part| == 2 && IsHex(part[1]) && (part[0] == '+' || IsHex(part[0]))
    ensures |part| == 2 && part[0] == '+' ==> ParseHexByte(part) == ParseHexByte(['0', part[1]])
  {}

  /** Parsing does not depend on the case of the digits. */
  lemma ParseIgnoresCase(s: string)
    ensures ParseMac(Upper(s)) == ParseMac(s)
  {
    SplitUpper(s);
    var parts := Split(s, ':');
    forall i | 0 <= i < |parts| ensures ParseHexByte(Split(Upper(s), ':')[i]) == ParseHexByte(parts[i]) {
      HexByteUpper(parts[i]);
    }
  }

  /** The parsing loop, filling six octets in place. */
  method ReadMac(s: string) returns (r: Option<Mac>)
    ensures r == ParseMac(s)
  {
    var parts := Split(s, ':');
    if |parts| != 6 {
      return None;
    }
    var octets := new byte[6](_ => 0);
    for i := 0 to 6
      invariant forall k :: 0 <= k < i ==> ParseHexByte(parts[k]) == Some(octets[k])
    {
      var value := ParseHexByte(parts[i]);
      if value.None? {
        return None;
      }
      octets[i] := value.value;
    }
    return Some(Mac(octets[0], octets[1], octets[2], octets[3], octets[4], octets[5]));
  }

  // ---- IPv4 addresses -----------------------------------------------------------------

  function Digit(n: nat): char
    requires n < 10
  {
    '0' + n as char
  }

  function DecByte(b: byte): string
  {
    if b < 10 then [Digit(b)]
    else if b < 100 then [Digit(b / 10), Digit(b % 10)]
    else [Digit(b / 100), Digit(b / 10 % 10), Digit(b % 10)]
  }

  predicate IsDigit(c: char)
  {
    '0' <= c <= '9'
  }

  function DigitValue(c: char): nat
    requires IsDigit(c)
  {
    (c - '0') as nat
  }

  function DecValue(s: string): nat
    requires 1 <= |s| <= 3 && forall i :: 0 <= i < |s| ==> IsDigit(s[i])
  {
    var d := DigitValue(s[0]);
    if |s| == 1 then d
    else if |s| == 2 then 10 * d + DigitValue(s[1])
    else 10 * (10 * d + DigitValue(s[1])) + DigitValue(s[2])
  }

  /** One to three digits, no leading zero, at most 255. */
  function ParseDecByte(part: string): Option<byte>
  {
    if !(1 <= |part| <= 3) || !(forall i :: 0 <= i < |part| ==> IsDigit(part[i])) then None
    else if |part| > 1 && part[0] == '0' then None
    else if DecValue(part) > 255 then None
    else Some(DecValue(part))
  }

  function IpText(ip: Ip): string
  {
    var o := Be32Bytes(ip);
    Join([DecByte(o[0]), DecByte(o[1]), DecByte(o[2]), DecByte(o[3])], '.')
  }

  function ParseIp(s: string): Option<Ip>
  {
    var parts := Split(s, '.');
    if |parts| != 4 || ParseDecByte(parts[0]).None? || ParseDecByte(parts[1]).None?
       || ParseDecByte(parts[2]).None? || ParseDecByte(parts[3]).None? then None
    else
      Some(Be32(ParseDecByte(parts[0]).value, ParseDecByte(parts[1]).value,
                ParseDecByte(parts[2]).value, ParseDecByte(parts[3]).value))
  }

  lemma DecByteRoundTrip(b: byte)
    ensures ParseDecByte(DecByte(b)) == Some(b) && '.' !in DecByte(b)
  {
    DigitIsDigit(b % 10);
    DigitIsDigit(b / 10 % 10);
    DigitIsDigit(b / 100);
  }

  lemma DigitIsDigit(n: nat)
    requires n < 10
    ensures IsDigit(Digit(n)) && DigitValue(Digit(n)) == n && (Digit(n) == '0' <==> n == 0)
  {}

  lemma DigitOfValue(c: char)
    requires IsDigit(c)
    ensures DigitValue(c) < 10 && Digit(DigitValue(c)) == c && (c == '0' <==> DigitValue(c) == 0)
  {}

  lemma DecDigits(x: nat, y: nat, z: nat)
    requires x < 10 && y < 10 && z < 10
    ensures (10 * y + z) / 10 == y && (10 * y + z) % 10 == z
    ensures var n := 10 * (10 * x + y) + z; n / 100 == x && n / 10 % 10 == y && n % 10 == z
  {}

  lemma IpRoundTrip(ip: Ip)
    ensures ParseIp(IpText(ip)) == Some(ip)
  {
    var o := Be32Bytes(ip);
    DecByteRoundTrip(o[0]);
    DecByteRoundTrip(o[1]);
    DecByteRoundTrip(o[2]);
    DecByteRoundTrip(o[3]);
    SplitJoin([DecByte(o[0]), DecByte(o[1]), DecByte(o[2]), DecByte(o[3])], '.');
  }

  lemma {:induction false} JoinSplit(s: string, sep: char)
    ensures Join(Split(s, sep), sep) == s
  {
    if s != "" {
      JoinSplit(s[1..], sep);
      var parts, rest := Split(s, sep), Split(s[1..], sep);
      if s[0] == sep {
        assert parts[1..] == rest;
      } else {
        assert parts[1..] == rest[1..];
      }
    }
  }

  lemma DecByteIsCanonical(part: string)
    requires ParseDecByte(part).Some?
    ensures DecByte(ParseDecByte(part).value) == part
  {
    forall i | 0 <= i < |part| ensures Digit(DigitValue(part[i])) == part[i] { DigitOfValue(part[i]); }
    var x := DigitValue(part[0]);
    DigitOfValue(part[0]);
    if |part| == 2 {
      DigitOfValue(part[1]);
      DecDigits(0, x, DigitValue(part[1]));
    } else if |part| == 3 {
      DigitOfValue(part[1]);
      DigitOfValue(part[2]);
      DecDigits(x, DigitValue(part[1]), DigitValue(part[2]));
    }
  }

  /** An address has exactly one text: parsing accepts what printing gives and nothing else. */
  lemma IpTextIsCanonical(s: string, ip: Ip)
    ensures ParseIp(s) == Some(ip) <==> s == IpText(ip)
  {
    IpRoundTrip(ip);
    if ParseIp(s) == Some(ip) {
      var parts, o := Split(s, '.'), Be32Bytes(ip);
      JoinSplit(s, '.');
      forall i | 0 <= i < 4 ensures DecByte(ParseDecByte(parts[i]).value) == parts[i] { DecByteIsCanonical(parts[i]); }
      Be32Injective(o[0], o[1], o[2], o[3], ParseDecByte(parts[0]).value, ParseDecByte(parts[1]).value,
                    ParseDecByte(parts[2]).value, ParseDecByte(parts[3]).value);
      assert parts == [DecByte(o[0]), DecByte(o[1]), DecByte(o[2]), DecByte(o[3])];
    }
  }

  /** Dotted decimal, most significant octet first. */
  lemma IpTextLooks()
    ensures IpText(0x0a01_00fe) == "10.1.0.254"
  {
    BytesOf(0x0a01_00fe);
    var parts := ["10", "1", "0", "254"];
    assert parts[1..][1..][1..] == ["254"];
  }

  lemma BytesOf(ip: Ip)
    requires ip == 0x0a01_00fe
    ensures Be32Bytes(ip) == [10, 1, 0, 254]
  {}
}

/** Hexadecimal text for UUIDs, addresses and handles (pybtp/btp.py, pybtp/types.py, stack/gap.py). */
module Text {
  import opened Bytes

  datatype Case = Upper | Lower

  /** The hexadecimal digit of a number below 16. */
  function Digit(c: Case, d: int): char
    requires 0 <= d < 16
  {
    if d < 10 then (d + '0' as int) as char
    else if c.Upper? then (d - 10 + 'A' as int) as char
    else (d - 10 + 'a' as int) as char
  }

  /** The value of a hexadecimal digit, in either case. */
  function DigitValue(c: char): Option<int> {
    if '0' <= c <= '9' then Some(c as int - '0' as int)
    else if 'a' <= c <= 'f' then Some(c as int - 'a' as int + 10)
    else if 'A' <= c <= 'F' then Some(c as int - 'A' as int + 10)
    else None
  }

  /** `binascii.hexlify`, with the digits of the given case. */
  function Hexlify(digits: Case, b: seq<byte>): (s: string)
    ensures |s| == 2 * |b|
  {
    if b == [] then []
    else [Digit(digits, b[0] / 16), Digit(digits, b[0] % 16)] + Hexlify(digits, b[1..])
  }

  /** `binascii.unhexlify`: an odd length or a non-digit is an error. */
  function Unhexlify(s: string): Result<seq<byte>> {
    if s == [] then Ok([])
    else if |s| == 1 then Err(ValueError)
    else
      match (DigitValue(s[0]), DigitValue(s[1]))
      case (Some(hi), Some(lo)) =>
        var rest :- Unhexlify(s[2..]);
        Ok([16 * hi + lo] + rest)
      case _ => Err(ValueError)
  }

  lemma DigitsAreValued(digits: Case, d: int)
    requires 0 <= d < 16
    ensures DigitValue(Digit(digits, d)) == Some(d)
  {
  }

  lemma {:induction false} UnhexlifyHexlify(digits: Case, b: seq<byte>)
    ensures Unhexlify(Hexlify(digits, b)) == Ok(b)
  {
    if b != [] {
      DigitsAreValued(digits, b[0] / 16);
      DigitsAreValued(digits, b[0] % 16);
      UnhexlifyHexlify(digits, b[1..]);
      assert Hexlify(digits, b)[2..] == Hexlify(digits, b[1..]);
      assert [b[0]] + b[1..] == b;
    }
  }

  /** `format(n, 'X')`: upper-case hexadecimal without leading zeros. */
  function FormatHex(n: nat): (s: string)
    ensures |s| >= 1
  {
    if n < 16 then [Digit(Upper, n)] else FormatHex(n / 16) + [Digit(Upper, n % 16)]
  }

  /** `s.zfill(4)` of an unsigned string, and the padding of `"%04X"`. */
  function Zfill4(s: string): string
  {
    seq(if |s| < 4 then 4 - |s| else 0, _ => '0') + s
  }

  /** `"%04X" % n`. */
  function Hex4(n: nat): string {
    Zfill4(FormatHex(n))
  }

  /** `int(s, 16)` of a string of hexadecimal digits. */
  function ParseHex(s: string): Result<nat> {
    if s == [] then Err(ValueError) else ParseDigits(s, 0)
  }

  function ParseDigits(s: string, acc: nat): Result<nat> {
    if s == [] then Ok(acc)
    else
      match DigitValue(s[0])
      case None => Err(ValueError)
      case Some(d) => ParseDigits(s[1..], 16 * acc + d)
  }

  /** The four digits of a 16-bit number, most significant first. */
  datatype Quad = Quad(a: int, b: int, c: int, d: int) {
    predicate Valid() {
      0 <= a < 16 && 0 <= b < 16 && 0 <= c < 16 && 0 <= d < 16
    }

    function Number(): nat
      requires Valid()
    {
      16 * (16 * (16 * a + b) + c) + d
    }

    function Text(): string
      requires Valid()
    {
      [Digit(Upper, a), Digit(Upper, b), Digit(Upper, c), Digit(Upper, d)]
    }
  }

  function Digits(n: u16): (q: Quad)
    ensures q.Valid() && q.Number() == n
  {
    Quad(n / 16 / 16 / 16, n / 16 / 16 % 16, n / 16 % 16, n % 16)
  }

  lemma FormatHexStep(m: nat, d: int)
    requires 0 <= d < 16 && m > 0
    ensures FormatHex(16 * m + d) == FormatHex(m) + [Digit(Upper, d)]
  {
    assert (16 * m + d) / 16 == m && (16 * m + d) % 16 == d;
  }

  lemma Hex4Digits(q: Quad)
    requires q.Valid()
    ensures Hex4(q.Number()) == q.Text()
  {
    var Quad(a, b, c, d) := q;
    var ab := 16 * a + b;
    var abc := 16 * ab + c;
    assert FormatHex(a) == [Digit(Upper, a)];
    if a > 0 { FormatHexStep(a, b); } else { assert FormatHex(ab) == [Digit(Upper, b)]; }
    if ab > 0 { FormatHexStep(ab, c); } else { assert FormatHex(abc) == [Digit(Upper, c)]; }
    if abc > 0 { FormatHexStep(abc, d); } else { assert FormatHex(q.Number()) == [Digit(Upper, d)]; }
  }

  lemma ParseDigit(c: char, rest: string, d: int, acc: nat)
    requires DigitValue(c) == Some(d)
    ensures d >= 0 && ParseDigits([c] + rest, acc) == ParseDigits(rest, 16 * acc + d)
  {
    assert ([c] + rest)[1..] == rest;
  }

  lemma ParseTwo(c: char, d: char, rest: string, acc: nat)
    requires DigitValue(c).Some? && DigitValue(d).Some?
    ensures DigitValue(c).value >= 0 && DigitValue(d).value >= 0
    ensures ParseDigits([c, d] + rest, acc) ==
            ParseDigits(rest, 16 * (16 * acc + DigitValue(c).value) + DigitValue(d).value)
  {
    ParseDigit(c, [d] + rest, DigitValue(c).value, acc);
    ParseDigit(d, rest, DigitValue(d).value, 16 * acc + DigitValue(c).value);
    assert [c, d] + rest == [c] + ([d] + rest);
  }

  lemma ParseQuad(q: Quad)
    requires q.Valid()
    ensures ParseHex(q.Text()) == Ok(q.Number())
  {
    var t := q.Text();
    DigitsAreValued(Upper, q.a);
    DigitsAreValued(Upper, q.b);
    DigitsAreValued(Upper, q.c);
    DigitsAreValued(Upper, q.d);
    ParseTwo(t[0], t[1], [t[2], t[3]], 0);
    ParseTwo(t[2], t[3], [], 16 * q.a + q.b);
    assert t == [t[0], t[1]] + [t[2], t[3]] && [t[2], t[3]] == [t[2], t[3]] + [];
  }

  /** Parsing undoes the handle text that GATT_CL keeps. */
  lemma HandleTextRoundTrip(h: u16)
    ensures ParseHex(Hex4(h)) == Ok(h)
  {
    Hex4Digits(Digits(h));
    ParseQuad(Digits(h));
  }

  /** Python's `<` on strings. */
  predicate StringLess(a: string, b: string) {
    b != [] && (a == [] || a[0] < b[0] || (a[0] == b[0] && StringLess(a[1..], b[1..])))
  }

  lemma DigitOrder(i: int, j: int)
    requires 0 <= i < 16 && 0 <= j < 16
    ensures Digit(Upper, i) < Digit(Upper, j) <==> i < j
    ensures Digit(Upper, i) == Digit(Upper, j) <==> i == j
  {
    DigitsAreValued(Upper, i);
    DigitsAreValued(Upper, j);
  }

  lemma CompareHead(x: char, s: string, y: char, t: string)
    ensures StringLess([x] + s, [y] + t) <==> x < y || (x == y && StringLess(s, t))
  {
    assert ([x] + s)[1..] == s && ([y] + t)[1..] == t;
  }

  /** Sorting handle texts sorts the handles. */
  lemma HandleTextOrder(m: u16, n: u16)
    ensures StringLess(Hex4(m), Hex4(n)) <==> m < n
  {
    var p, q := Digits(m), Digits(n);
    Hex4Digits(p);
    Hex4Digits(q);
    DigitOrder(p.a, q.a);
    DigitOrder(p.b, q.b);
    DigitOrder(p.c, q.c);
    DigitOrder(p.d, q.d);
    assert p.Text() == [Digit(Upper, p.a)] + ([Digit(Upper, p.b)] + ([Digit(Upper, p.c)] + ([Digit(Upper, p.d)] + [])));
    assert q.Text() == [Digit(Upper, q.a)] + ([Digit(Upper, q.b)] + ([Digit(Upper, q.c)] + ([Digit(Upper, q.d)] + [])));
    CompareHead(Digit(Upper, p.d), [], Digit(Upper, q.d), []);
    CompareHead(Digit(Upper, p.c), [Digit(Upper, p.d)] + [], Digit(Upper, q.c), [Digit(Upper, q.d)] + []);
    CompareHead(Digit(Upper, p.b), [Digit(Upper, p.c)] + ([Digit(Upper, p.d)] + []),
                Digit(Upper, q.b), [Digit(Upper, q.c)] + ([Digit(Upper, q.d)] + []));
    CompareHead(Digit(Upper, p.a), [Digit(Upper, p.b)] + ([Digit(Upper, p.c)] + ([Digit(Upper, p.d)] + [])),
                Digit(Upper, q.a), [Digit(Upper, q.b)] + ([Digit(Upper, q.c)] + ([Digit(Upper, q.d)] + [])));
  }

  // ---- UUIDs ----

  predicate IsUuid(u: seq<byte>) {
    |u| == 2 || |u| == 16
  }

  /** `btp2uuid`: 2 bytes as a number, anything else through `uuid.UUID`, which takes 16 bytes. */
  function Btp2Uuid(len: nat, uu: seq<byte>): Result<string> {
    if len == 2 then
      if |uu| != 2 then Err(StructError) else Ok(Zfill4(FormatHex(UnpackU16(uu))))
    else
      if |uu| != 16 then Err(ValueError) else Ok(Hexlify(Upper, Reversed(uu)))
  }

  /** The text of a 2- or 16-byte UUID. */
  function UuidText(u: seq<byte>): string {
    Hexlify(Upper, Reversed(u))
  }

  lemma ShortUuidIsHex(lo: byte, hi: byte)
    ensures Btp2Uuid(2, [lo, hi]) == Ok(UuidText([lo, hi]))
  {
    var q := Quad(hi / 16, hi % 16, lo / 16, lo % 16);
    Hex4Digits(q);
    assert q.Number() == UnpackU16([lo, hi]);
    var r := Reversed([lo, hi]);
    assert r == [hi] + [lo] && r[1..] == [lo] && [lo][1..] == [];
    assert Hexlify(Upper, [lo]) == [Digit(Upper, q.c), Digit(Upper, q.d)];
    assert Hexlify(Upper, r) == q.Text();
  }

  /** Both branches write the bytes, last first, as upper-case digits. */
  lemma Btp2UuidIsHex(u: seq<byte>)
    ensures IsUuid(u) ==> Btp2Uuid(|u|, u) == Ok(UuidText(u))
    ensures !IsUuid(u) ==> Btp2Uuid(|u|, u) == Err(ValueError)
  {
    if |u| == 2 {
      ShortUuidIsHex(u[0], u[1]);
      assert u == [u[0], u[1]];
    }
  }

  /** `binascii.unhexlify(text)[::-1]`, as the commands do with a UUID they send. */
  function UuidBytes(text: string): Result<seq<byte>> {
    var b :- Unhexlify(text);
    Ok(Reversed(b))
  }

  /** Sending back a UUID that was received restores its bytes. */
  lemma UuidRoundTrip(u: seq<byte>)
    requires IsUuid(u)
    ensures Btp2Uuid(|u|, u).Ok? && UuidBytes(Btp2Uuid(|u|, u).value) == Ok(u)
  {
    Btp2UuidIsHex(u);
    UnhexlifyHexlify(Upper, Reversed(u));
    ReversedTwice(u);
  }

  /** Hence two UUIDs have one text only if they are the same bytes. */
  lemma UuidTextInjective(u: seq<byte>, v: seq<byte>)
    requires UuidText(u) == UuidText(v)
    ensures u == v
  {
    UnhexlifyHexlify(Upper, Reversed(u));
    UnhexlifyHexlify(Upper, Reversed(v));
    ReversedTwice(u);
    ReversedTwice(v);
  }

  // ---- Addresses ----

  /** `"".join(s.split(':'))`. */
  function WithoutColons(s: string): string {
    if s == [] then [] else (if s[0] == ':' then [] else [s[0]]) + WithoutColons(s[1..])
  }

  /** `addr2btp_ba`. */
  function Addr2BtpBa(addr: string): Result<seq<byte>> {
    var b :- Unhexlify(WithoutColons(addr));
    Ok(Reversed(b))
  }

  /** The address text the event callbacks build: `hexlify(addr[::-1]).decode()`. */
  function AddrText(addr: seq<byte>): string {
    Hexlify(Lower, Reversed(addr))
  }

  lemma KeepNonColon(c: char, s: string)
    requires c != ':'
    ensures WithoutColons([c] + s) == [c] + WithoutColons(s)
  {
    assert ([c] + s)[1..] == s;
  }

  lemma {:induction false} HexHasNoColons(digits: Case, b: seq<byte>)
    ensures WithoutColons(Hexlify(digits, b)) == Hexlify(digits, b)
  {
    if b != [] {
      var x, y, rest := Digit(digits, b[0] / 16), Digit(digits, b[0] % 16), Hexlify(digits, b[1..]);
      HexHasNoColons(digits, b[1..]);
      KeepNonColon(y, rest);
      KeepNonColon(x, [y] + rest);
      assert [x, y] + rest == [x] + ([y] + rest);
      assert [x] + ([y] + rest) == Hexlify(digits, b);
    }
  }

  /** An address read from the wire is written back with the same bytes. */
  lemma AddrRoundTrip(addr: seq<byte>)
    ensures Addr2BtpBa(AddrText(addr)) == Ok(addr)
  {
    HexHasNoColons(Lower, Reversed(addr));
    UnhexlifyHexlify(Lower, Reversed(addr));
    ReversedTwice(addr);
  }

  function LowerChar(c: char): char {
    if 'A' <= c <= 'Z' then (c as int + 32) as char else c
  }

  /** `s.lower()`, for ASCII text. */
  function ToLower(s: string): (r: string)
    ensures |r| == |s|
  {
    seq(|s|, i requires 0 <= i < |s| => LowerChar(s[i]))
  }

  lemma DigitOfValue(c: char)
    requires DigitValue(c).Some?
    ensures 0 <= DigitValue(c).value < 16 && Digit(Lower, DigitValue(c).value) == LowerChar(c)
  {
  }

  lemma HexlifyCons(digits: Case, hi: int, lo: int, rest: seq<byte>)
    requires 0 <= hi < 16 && 0 <= lo < 16
    ensures Hexlify(digits, [16 * hi + lo] + rest) == [Digit(digits, hi), Digit(digits, lo)] + Hexlify(digits, rest)
  {
    assert (16 * hi + lo) / 16 == hi && (16 * hi + lo) % 16 == lo;
    assert ([16 * hi + lo] + rest)[1..] == rest;
  }

  lemma {:induction false} HexlifyUnhexlify(s: string)
    requires Unhexlify(s).Ok?
    ensures Hexlify(Lower, Unhexlify(s).value) == ToLower(s)
  {
    if s != [] {
      DigitOfValue(s[0]);
      DigitOfValue(s[1]);
      HexlifyUnhexlify(s[2..]);
      HexlifyCons(Lower, DigitValue(s[0]).value, DigitValue(s[1]).value, Unhexlify(s[2..]).value);
      assert ToLower(s) == [LowerChar(s[0]), LowerChar(s[1])] + ToLower(s[2..]);
    }
  }

  /** An address that can be sent, in either case and with or without colons, comes back in one form. */
  lemma AddrTextRoundTrip(addr: string)
    requires Addr2BtpBa(addr).Ok?
    ensures AddrText(Addr2BtpBa(addr).value) == ToLower(WithoutColons(addr))
  {
    var b := Unhexlify(WithoutColons(addr)).value;
    ReversedTwice(b);
    HexlifyUnhexlify(WithoutColons(addr));
  }

  /** The forms of the texts: digits in pairs, the last byte first; upper case in UUIDs, lower case in addresses. */
  lemma FormOfUuid(a: byte, b: byte)
    ensures UuidText([a, b]) == [Digit(Upper, b / 16), Digit(Upper, b % 16), Digit(Upper, a / 16), Digit(Upper, a % 16)]
    ensures Digit(Upper, 9) == '9' && Digit(Upper, 10) == 'A' && Digit(Upper, 15) == 'F'
  {
    TwoBytes(Upper, a, b);
    Btp2UuidIsHex([a, b]);
  }

  lemma FormOfAddress(a: byte, b: byte)
    ensures AddrText([a, b]) == [Digit(Lower, b / 16), Digit(Lower, b % 16), Digit(Lower, a / 16), Digit(Lower, a % 16)]
    ensures Digit(Lower, 9) == '9' && Digit(Lower, 10) == 'a' && Digit(Lower, 15) == 'f'
  {
    TwoBytes(Lower, a, b);
  }

  lemma TwoBytes(digits: Case, a: byte, b: byte)
    ensures Reversed([a, b]) == [b, a]
    ensures Hexlify(digits, [b, a]) ==
            [Digit(digits, b / 16), Digit(digits, b % 16), Digit(digits, a / 16), Digit(digits, a % 16)]
  {
    assert [b, a][1..] == [a] && [a][1..] == [];
    assert Hexlify(digits, [a]) == [Digit(digits, a / 16), Digit(digits, a % 16)];
  }

  /** The form of a handle's text: four upper-case digits, the highest first. */
  lemma FormOfHandle(a: int, b: int, c: int, d: int)
    requires 0 <= a < 16 && 0 <= b < 16 && 0 <= c < 16 && 0 <= d < 16
    ensures Hex4(4096 * a + 256 * b + 16 * c + d) == [Digit(Upper, a), Digit(Upper, b), Digit(Upper, c),
            Digit(Upper, d)]
  {
    Hex4Digits(Quad(a, b, c, d));
    assert Quad(a, b, c, d).Number() == 4096 * a + 256 * b + 16 * c + d;
  }
}

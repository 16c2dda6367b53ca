/**
 * The Ruby string operations the SASL mechanisms rely on, over byte strings.
 * Every Ruby string of the library is modelled as a sequence of bytes (one
 * `char` below 256 per byte), which is how the mechanisms treat their inputs.
 */
module Strings {

  /** One byte of a binary Ruby string. */
  type Byte = c: char | c <= '\U{FF}'

  type Bytes = seq<Byte>

  const NUL: Byte := '\0'

  /** Ruby's `\s`: space, tab, line feed, vertical tab, form feed, carriage return. */
  predicate IsSpace(c: Byte) {
    c == ' ' || c == '\t' || c == '\n' || c == '\U{B}' || c == '\U{C}' || c == '\r'
  }

  /** Ruby's `\w`: an ASCII letter, a digit or an underscore. */
  predicate IsWordChar(c: Byte) {
    ('a' <= c <= 'z') || ('A' <= c <= 'Z') || ('0' <= c <= '9') || c == '_'
  }

  predicate IsDigit(c: Byte) {
    '0' <= c <= '9'
  }

  predicate IsLower(c: Byte) {
    'a' <= c <= 'z'
  }

  /** ASCII `upcase` of one byte; every other byte is left alone. */
  function UpcaseByte(c: Byte): (u: Byte)
    ensures !IsLower(u)
    ensures !IsLower(c) ==> u == c
  {
    if IsLower(c) then (c as int - 32) as char else c
  }

  /** `String#upcase`, restricted to ASCII letters. */
  function Upcase(s: Bytes): (r: Bytes)
    ensures |r| == |s|
    ensures forall i :: 0 <= i < |s| ==> r[i] == UpcaseByte(s[i])
  {
    if s == [] then [] else [UpcaseByte(s[0])] + Upcase(s[1..])
  }

  /** Upcasing twice is upcasing once, so an upcased name is its own key. */
  lemma UpcaseIdempotent(s: Bytes)
    ensures Upcase(Upcase(s)) == Upcase(s)
  {
    assert forall i :: 0 <= i < |s| ==> Upcase(Upcase(s))[i] == Upcase(s)[i];
  }

  /** A string without lower-case letters is its own upcase. */
  lemma {:induction false} UpcaseOfUpper(s: Bytes)
    requires forall i :: 0 <= i < |s| ==> !IsLower(s[i])
    ensures Upcase(s) == s
  {
    if s != [] {
      UpcaseOfUpper(s[1..]);
    }
  }

  predicate StartsWith(s: Bytes, prefix: Bytes) {
    |prefix| <= |s| && s[..|prefix|] == prefix
  }

  predicate EndsWith(s: Bytes, suffix: Bytes) {
    |suffix| <= |s| && s[|s| - |suffix|..] == suffix
  }

  /** Substring search: `String#include?`, and `=~` with a regexp that is a plain literal. */
  predicate Contains(s: Bytes, sub: Bytes)
    decreases |s|
  {
    StartsWith(s, sub) || (|s| > 0 && Contains(s[1..], sub))
  }

  /** Text placed around a substring does not hide it. */
  lemma {:induction false} ContainsInfix(a: Bytes, sub: Bytes, b: Bytes)
    ensures Contains(a + sub + b, sub)
  {
    if a == [] {
      assert (a + sub + b)[..|sub|] == sub;
    } else {
      ContainsInfix(a[1..], sub, b);
      assert (a + sub + b)[1..] == a[1..] + sub + b;
    }
  }

  /** The fields of `s` between occurrences of `sep`, keeping empty ones: `s.split(sep, -1)`. */
  function RawSplit(s: Bytes, sep: Byte): (r: seq<Bytes>)
    ensures |r| >= 1
  {
    if s == [] then [[]]
    else
      var rest := RawSplit(s[1..], sep);
      if s[0] == sep then [[]] + rest else [[s[0]] + rest[0]] + rest[1..]
  }

  /** `Array#join`: the fields with `sep` between neighbours. */
  function Join(parts: seq<Bytes>, sep: Bytes): Bytes {
    if |parts| == 0 then []
    else if |parts| == 1 then parts[0]
    else parts[0] + sep + Join(parts[1..], sep)
  }

  /** Joining the fields of a split gives the string back. */
  lemma {:induction false} JoinRawSplit(s: Bytes, sep: Byte)
    ensures Join(RawSplit(s, sep), [sep]) == s
  {
    if s != [] {
      JoinRawSplit(s[1..], sep);
      var rest := RawSplit(s[1..], sep);
      if s[0] != sep && |rest| > 1 {
        assert Join(rest, [sep]) == rest[0] + [sep] + Join(rest[1..], [sep]);
        assert RawSplit(s, sep)[1..] == rest[1..];
      }
    }
  }

  /** Splitting at the first separator: the field before it and the fields after it. */
  lemma {:induction false} RawSplitCons(a: Bytes, sep: Byte, b: Bytes)
    requires sep !in a
    ensures RawSplit(a + [sep] + b, sep) == [a] + RawSplit(b, sep)
  {
    if a == [] {
      assert (a + [sep] + b)[1..] == b;
    } else {
      assert (a + [sep] + b)[1..] == a[1..] + [sep] + b;
      RawSplitCons(a[1..], sep, b);
      assert [a[0]] + a[1..] == a;
    }
  }

  /** A string free of the separator is a single field. */
  lemma {:induction false} RawSplitNoSep(a: Bytes, sep: Byte)
    requires sep !in a
    ensures RawSplit(a, sep) == [a]
  {
    if a != [] {
      RawSplitNoSep(a[1..], sep);
      assert [a[0]] + a[1..] == a;
    }
  }

  /** Splitting a join of separator-free fields gives the fields back. */
  lemma {:induction false} RawSplitJoin(parts: seq<Bytes>, sep: Byte)
    requires |parts| >= 1
    requires forall i :: 0 <= i < |parts| ==> sep !in parts[i]
    ensures RawSplit(Join(parts, [sep]), sep) == parts
  {
    if |parts| == 1 {
      RawSplitNoSep(parts[0], sep);
    } else {
      RawSplitJoin(parts[1..], sep);
      RawSplitCons(parts[0], sep, Join(parts[1..], [sep]));
    }
  }

  /** Drops the empty fields at the end, as `String#split` without a limit does. */
  function DropTrailingEmpty(parts: seq<Bytes>): (r: seq<Bytes>)
    ensures |r| <= |parts| && r == parts[..|r|]
    ensures |r| > 0 ==> r[|r| - 1] != []
    ensures forall i :: |r| <= i < |parts| ==> parts[i] == []
  {
    if |parts| > 0 && parts[|parts| - 1] == [] then DropTrailingEmpty(parts[..|parts| - 1]) else parts
  }

  /** `String#split` on a one-byte separator. */
  function Split(s: Bytes, sep: Byte): seq<Bytes> {
    DropTrailingEmpty(RawSplit(s, sep))
  }

  /** Ruby `chomp`: removes one trailing "\r\n", "\n" or "\r". */
  function Chomp(s: Bytes): (r: Bytes)
    ensures StartsWith(s, r) && |s| - 2 <= |r|
    ensures |r| < |s| <==> EndsWith(s, "\n") || EndsWith(s, "\r")
  {
    if EndsWith(s, "\r\n") then s[..|s| - 2]
    else if EndsWith(s, "\n") || EndsWith(s, "\r") then s[..|s| - 1]
    else s
  }

  /** `chomp` takes back a newline appended to a line that does not end in "\r". */
  lemma ChompLine(line: Bytes)
    requires line == [] || line[|line| - 1] != '\r'
    ensures Chomp(line + "\n") == line
  {
    var s := line + "\n";
    assert s[|s| - 1] == '\n';
    if line != [] {
      assert s[|s| - 2] == line[|line| - 1];
    }
    assert s[..|s| - 1] == line;
  }

  /** A lower-case hexadecimal digit. */
  predicate IsLowerHexDigit(c: Byte) {
    ('0' <= c <= '9') || ('a' <= c <= 'f')
  }

  predicate IsLowerHex(s: Bytes) {
    forall i :: 0 <= i < |s| ==> IsLowerHexDigit(s[i])
  }

  function HexDigit(v: nat): (c: Byte)
    requires v < 16
    ensures IsLowerHexDigit(c)
  {
    if v < 10 then (v + '0' as int) as char else (v - 10 + 'a' as int) as char
  }

  /** Lower-case hexadecimal rendering, two digits per byte, as `Digest#hexdigest` and `SecureRandom.hex` give. */
  function Hex(b: Bytes): (r: Bytes)
    ensures |r| == 2 * |b|
    ensures IsLowerHex(r)
  {
    if b == [] then []
    else [HexDigit(b[0] as int / 16), HexDigit(b[0] as int % 16)] + Hex(b[1..])
  }

  /** The value of a lower-case hexadecimal digit, the inverse of `HexDigit`. */
  function HexValue(c: Byte): (v: nat)
    ensures v < 16
  {
    if '0' <= c <= '9' then c as int - '0' as int
    else if 'a' <= c <= 'f' then c as int - 'a' as int + 10
    else 0
  }

  /** Reading hexadecimal text two digits at a time. */
  function Unhex(s: Bytes): (b: Bytes)
    requires |s| % 2 == 0
    ensures |b| == |s| / 2
  {
    if s == [] then [] else [(16 * HexValue(s[0]) + HexValue(s[1])) as char] + Unhex(s[2..])
  }

  /** Digits `2i` and `2i + 1` of the rendering are the high and the low half of byte `i`. */
  lemma {:induction false} HexPair(b: Bytes, i: nat)
    requires i < |b|
    ensures 16 * HexValue(Hex(b)[2 * i]) + HexValue(Hex(b)[2 * i + 1]) == b[i] as int
  {
    var h := Hex(b);
    if i == 0 {
      var v := b[0] as int;
      assert HexValue(HexDigit(v / 16)) == v / 16 && HexValue(HexDigit(v % 16)) == v % 16;
    } else {
      HexPair(b[1..], i - 1);
      assert h[2..] == Hex(b[1..]);
      assert h[2 * i] == Hex(b[1..])[2 * (i - 1)] && h[2 * i + 1] == Hex(b[1..])[2 * (i - 1) + 1];
    }
  }

  /** The rendering loses nothing: reading it back gives the bytes. */
  lemma {:induction false} HexRoundTrip(b: Bytes)
    ensures Unhex(Hex(b)) == b
  {
    if b != [] {
      var h := Hex(b);
      HexRoundTrip(b[1..]);
      HexPair(b, 0);
      assert h[2..] == Hex(b[1..]);
    }
  }

  function DigitByte(d: nat): (c: Byte)
    requires d < 10
    ensures IsDigit(c)
  {
    (d + '0' as int) as char
  }

  /** The decimal digits of `n`, most significant first, without leading zeros. */
  function Decimal(n: nat): (r: Bytes)
    ensures 1 <= |r|
    ensures forall i :: 0 <= i < |r| ==> IsDigit(r[i])
  {
    if n < 10 then [DigitByte(n)] else Decimal(n / 10) + [DigitByte(n % 10)]
  }

  /** The number a run of decimal digits denotes. */
  function DigitsValue(s: Bytes): nat
    requires forall i :: 0 <= i < |s| ==> IsDigit(s[i])
  {
    if s == [] then 0
    else
      assert IsDigit(s[|s| - 1]);
      10 * DigitsValue(s[..|s| - 1]) + (s[|s| - 1] as int - '0' as int)
  }

  /** `Decimal` is a faithful rendering: reading its digits back gives the number. */
  lemma {:induction false} DecimalValue(n: nat)
    ensures DigitsValue(Decimal(n)) == n
  {
    if n >= 10 {
      DecimalValue(n / 10);
      var d := Decimal(n);
      assert d[..|d| - 1] == Decimal(n / 10);
    }
  }

  function Repeat(c: Byte, k: nat): (r: Bytes)
    ensures |r| == k && forall i :: 0 <= i < k ==> r[i] == c
  {
    if k == 0 then [] else [c] + Repeat(c, k - 1)
  }

  /** Leading zeros do not change the value of a run of digits. */
  lemma {:induction false} LeadingZerosValue(k: nat, s: Bytes)
    requires forall i :: 0 <= i < |s| ==> IsDigit(s[i])
    ensures DigitsValue(Repeat('0', k) + s) == DigitsValue(s)
    decreases |s|
  {
    if s == [] {
      assert Repeat('0', k) + s == Repeat('0', k);
      ZerosValue(k);
    } else {
      var t := Repeat('0', k) + s;
      assert t[..|t| - 1] == Repeat('0', k) + s[..|s| - 1];
      LeadingZerosValue(k, s[..|s| - 1]);
    }
  }

  lemma {:induction false} ZerosValue(k: nat)
    ensures DigitsValue(Repeat('0', k)) == 0
  {
    if k > 0 {
      assert Repeat('0', k)[..k - 1] == Repeat('0', k - 1);
      ZerosValue(k - 1);
    }
  }

  /** `"%0*d" % [width, n]` for a natural number: decimal digits, zero-padded on the left. */
  function ZeroPadded(n: nat, width: nat): (r: Bytes)
    ensures forall i :: 0 <= i < |r| ==> IsDigit(r[i])
  {
    var d := Decimal(n);
    if |d| < width then Repeat('0', width - |d|) + d else d
  }

  /** Zero padding keeps the value and reaches the width. */
  lemma ZeroPaddedValue(n: nat, width: nat)
    ensures DigitsValue(ZeroPadded(n, width)) == n
    ensures |ZeroPadded(n, width)| >= width
  {
    DecimalValue(n);
    var d := Decimal(n);
    if |d| < width {
      LeadingZerosValue(width - |d|, d);
    }
  }

  /** Numbers below 10^8 render in exactly eight digits (`"%08d"`). */
  lemma {:induction false} DecimalLength(n: nat, k: nat)
    requires n < Pow10(k) && k >= 1
    ensures |Decimal(n)| <= k
  {
    if n >= 10 {
      assert k > 1;
      DecimalLength(n / 10, k - 1);
    }
  }

  function Pow10(k: nat): (p: nat)
    ensures p >= 1
  {
    if k == 0 then 1 else 10 * Pow10(k - 1)
  }

  /**
   * `String#to_i` in base 10: leading white space, an optional sign, an
   * optional `0d`/`0D` radix prefix, then a digit followed by digits that may
   * each be preceded by a single underscore; 0 if no digit follows.
   */
  function ToI(s: Bytes): int {
    var t := DropSpaces(s);
    if |t| > 0 && t[0] == '-' then 0 - NumeralValue(t[1..]) as int
    else if |t| > 0 && t[0] == '+' then NumeralValue(t[1..])
    else NumeralValue(t)
  }

  /** The value of the unsigned numeral at the start of `u`. */
  function NumeralValue(u: Bytes): nat {
    DigitsValue(LeadingDigits(DropRadix(u)))
  }

  function DropSpaces(s: Bytes): (r: Bytes)
    ensures |r| <= |s| && r == s[|s| - |r|..]
    ensures r == [] || !IsSpace(r[0])
  {
    if s != [] && IsSpace(s[0]) then DropSpaces(s[1..]) else s
  }

  /** The base-10 prefix `0d` or `0D`, skipped when present. */
  function DropRadix(s: Bytes): (r: Bytes)
    ensures r == s || (|s| >= 2 && s[0] == '0' && (s[1] == 'd' || s[1] == 'D') && r == s[2..])
  {
    if |s| >= 2 && s[0] == '0' && (s[1] == 'd' || s[1] == 'D') then s[2..] else s
  }

  /** The digits of the numeral at the start of `s`, underscores removed: none unless `s` starts with a digit. */
  function LeadingDigits(s: Bytes): (r: Bytes)
    ensures |r| <= |s|
    ensures forall i :: 0 <= i < |r| ==> IsDigit(r[i])
    ensures r == [] <==> s == [] || !IsDigit(s[0])
  {
    if s != [] && IsDigit(s[0]) then [s[0]] + MoreDigits(s[1..]) else []
  }

  const Underscore: Byte := '_'

  /** After a digit: the next digit, or an underscore and the digit after it, and so on. */
  function MoreDigits(s: Bytes): (r: Bytes)
    ensures |r| <= |s|
    ensures forall i :: 0 <= i < |r| ==> IsDigit(r[i])
  {
    if s != [] && IsDigit(s[0]) then [s[0]] + MoreDigits(s[1..])
    else if |s| >= 2 && s[0] == Underscore && IsDigit(s[1]) then [s[1]] + MoreDigits(s[2..])
    else []
  }

  /** `to_i` reads back what `Decimal` writes. */
  lemma ToIDecimal(n: nat)
    ensures ToI(Decimal(n)) == n
  {
    DecimalValue(n);
    var d := Decimal(n);
    ToINumeral(d);
    AllDigitsLeading(d);
  }

  /** A single underscore between two runs of digits does not change the number (`"4_096".to_i == 4096`). */
  lemma ToIUnderscore(a: Bytes, b: Bytes)
    requires a != [] && b != []
    requires forall i :: 0 <= i < |a| ==> IsDigit(a[i])
    requires forall i :: 0 <= i < |b| ==> IsDigit(b[i])
    ensures ToI(a + [Underscore] + b) == ToI(a + b) == DigitsValue(a + b)
  {
    var s := a + [Underscore] + b;
    assert s[0] == a[0] && s[1] == (if |a| == 1 then Underscore else a[1]);
    ToINumeral(s);
    LeadingUnderscore(a, b);
    ToINumeral(a + b);
    AllDigitsLeading(a + b);
  }

  lemma LeadingUnderscore(a: Bytes, b: Bytes)
    requires a != [] && b != []
    requires forall i :: 0 <= i < |a| ==> IsDigit(a[i])
    requires forall i :: 0 <= i < |b| ==> IsDigit(b[i])
    ensures LeadingDigits(a + [Underscore] + b) == a + b
  {
    var s := a + [Underscore] + b;
    assert s[0] == a[0] && s[1..] == a[1..] + [Underscore] + b;
    MoreDigitsUnderscore(a[1..], b);
    assert [a[0]] + (a[1..] + b) == a + b;
  }

  /** The radix prefix `0d` or `0D` is skipped (`"0d12".to_i == 12`). */
  lemma ToIRadixPrefix(prefix: Bytes, d: Bytes)
    requires prefix == "0d" || prefix == "0D"
    requires d != []
    requires forall i :: 0 <= i < |d| ==> IsDigit(d[i])
    ensures ToI(prefix + d) == ToI(d) == DigitsValue(d)
  {
    var t := prefix + d;
    assert t[0] == prefix[0] && t[1] == prefix[1] && t[2..] == d;
    PrefixedNumeral(t);
    ToINumeral(d);
    AllDigitsLeading(d);
  }

  /** A numeral that starts with a digit and has no radix prefix is read from its first byte. */
  lemma ToINumeral(s: Bytes)
    requires s != [] && IsDigit(s[0])
    requires |s| >= 2 ==> IsDigit(s[1]) || s[1] == '_'
    ensures ToI(s) == DigitsValue(LeadingDigits(s))
  {
    UnsignedNumeral(s);
    UnprefixedNumeral(s);
  }

  lemma UnsignedNumeral(s: Bytes)
    requires s != [] && !IsSpace(s[0]) && s[0] != '-' && s[0] != '+'
    ensures ToI(s) == NumeralValue(s)
  {
    assert DropSpaces(s) == s;
  }

  lemma UnprefixedNumeral(s: Bytes)
    requires s != [] && IsDigit(s[0])
    requires |s| >= 2 ==> IsDigit(s[1]) || s[1] == '_'
    ensures NumeralValue(s) == DigitsValue(LeadingDigits(s))
  {
    assert DropRadix(s) == s;
  }

  lemma PrefixedNumeral(t: Bytes)
    requires |t| >= 2 && t[0] == '0' && (t[1] == 'd' || t[1] == 'D')
    ensures ToI(t) == DigitsValue(LeadingDigits(t[2..]))
  {
    UnsignedNumeral(t);
    assert DropRadix(t) == t[2..];
  }

  /** Two underscores in a row end the number, whatever follows (`"1__2".to_i == 1`). */
  lemma ToIDoubleUnderscore(a: Bytes, b: Bytes)
    requires a != []
    requires forall i :: 0 <= i < |a| ==> IsDigit(a[i])
    ensures ToI(a + [Underscore, Underscore] + b) == DigitsValue(a)
  {
    var s := a + [Underscore, Underscore] + b;
    assert s[0] == a[0] && s[1] == (if |a| == 1 then Underscore else a[1]);
    ToINumeral(s);
    LeadingDoubleUnderscore(a, b);
  }

  lemma LeadingDoubleUnderscore(a: Bytes, b: Bytes)
    requires a != []
    requires forall i :: 0 <= i < |a| ==> IsDigit(a[i])
    ensures LeadingDigits(a + [Underscore, Underscore] + b) == a
  {
    var s := a + [Underscore, Underscore] + b;
    assert s[0] == a[0] && s[1..] == a[1..] + [Underscore, Underscore] + b;
    MoreDigitsDoubleUnderscore(a[1..], b);
    assert [a[0]] + a[1..] == a;
  }

  lemma {:induction false} MoreDigitsDoubleUnderscore(a: Bytes, b: Bytes)
    requires forall i :: 0 <= i < |a| ==> IsDigit(a[i])
    ensures MoreDigits(a + [Underscore, Underscore] + b) == a
  {
    var s := a + [Underscore, Underscore] + b;
    if a == [] {
      assert s[0] == Underscore && s[1] == Underscore;
    } else {
      assert s[0] == a[0] && s[1..] == a[1..] + [Underscore, Underscore] + b;
      MoreDigitsDoubleUnderscore(a[1..], b);
      assert [a[0]] + a[1..] == a;
    }
  }

  lemma {:induction false} AllDigitsLeading(s: Bytes)
    requires forall i :: 0 <= i < |s| ==> IsDigit(s[i])
    ensures LeadingDigits(s) == s
  {
    if s != [] {
      MoreDigitsAll(s[1..]);
    }
  }

  lemma {:induction false} MoreDigitsAll(s: Bytes)
    requires forall i :: 0 <= i < |s| ==> IsDigit(s[i])
    ensures MoreDigits(s) == s
  {
    if s != [] {
      MoreDigitsAll(s[1..]);
    }
  }

  lemma {:induction false} MoreDigitsUnderscore(a: Bytes, b: Bytes)
    requires b != []
    requires forall i :: 0 <= i < |a| ==> IsDigit(a[i])
    requires forall i :: 0 <= i < |b| ==> IsDigit(b[i])
    ensures MoreDigits(a + [Underscore] + b) == a + b
  {
    var s := a + [Underscore] + b;
    if a == [] {
      assert s[0] == Underscore && s[1] == b[0] && s[2..] == b[1..];
      MoreDigitsAll(b[1..]);
      assert [b[0]] + b[1..] == b;
    } else {
      assert s[0] == a[0] && s[1..] == a[1..] + [Underscore] + b;
      MoreDigitsUnderscore(a[1..], b);
      assert [a[0]] + (a[1..] + b) == a + b;
    }
  }
}

/**
 * Character classes and the C library conversions the HTTP engine relies on
 * (isspace, _strnicmp, strchrn, sscanf("%u"), strtoul base 16, sprintfn("%.8x")).
 * size_t and unsigned long are 32 bits wide, as on the arm build.
 */
module HttpText {
  import opened Util

  const UINT_MAX: nat := 0xFFFF_FFFF
  const UPPER_CASE: string := "ABCDEFGHIJKLMNOPQRSTUVWXYZ"
  const LOWER_CASE: string := "abcdefghijklmnopqrstuvwxyz"
  const UPPER_DIGITS: string := "0123456789ABCDEF"
  const LOWER_DIGITS: string := "0123456789abcdef"

  predicate IsSpace(c: char)
    ensures IsSpace(c) <==> c in {' ', '\t', '\n', '\U{0B}', '\U{0C}', '\r'}
  {
    c == ' ' || 9 <= c as int <= 13
  }

  function TrimRight(s: string): string {
    if s != "" && IsSpace(s[|s| - 1]) then TrimRight(s[..|s| - 1]) else s
  }

  function TrimLeft(s: string): string {
    if s != "" && IsSpace(s[0]) then TrimLeft(s[1..]) else s
  }

  function ToLower(c: char): char {
    if 'A' <= c <= 'Z' then (c as int + 32) as char else c
  }

  predicate EqualsIgnoreCase(a: string, b: string) {
    |a| == |b| && forall i :: 0 <= i < |a| ==> ToLower(a[i]) == ToLower(b[i])
  }

  /** Blanks are cut off the end, and nothing else is. */
  lemma {:induction false} TrimRightMeans(s: string)
    ensures TrimRight(s) <= s && forall i :: |TrimRight(s)| <= i < |s| ==> IsSpace(s[i])
    ensures TrimRight(s) == "" || !IsSpace(TrimRight(s)[|TrimRight(s)| - 1])
  {
    if s != "" && IsSpace(s[|s| - 1]) { TrimRightMeans(s[..|s| - 1]); }
  }

  lemma {:induction false} TrimLeftMeans(s: string)
    ensures |TrimLeft(s)| <= |s| && TrimLeft(s) == s[|s| - |TrimLeft(s)|..]
    ensures forall i :: 0 <= i < |s| - |TrimLeft(s)| ==> IsSpace(s[i])
    ensures TrimLeft(s) == "" || !IsSpace(TrimLeft(s)[0])
  {
    if s != "" && IsSpace(s[0]) {
      TrimLeftMeans(s[1..]);
      assert forall i :: 0 < i < |s| ==> s[i] == s[1..][i - 1];
    }
  }

  lemma Letters()
    ensures forall k :: 0 <= k < 26 ==> UPPER_CASE[k] == ('A' as int + k) as char
    ensures forall k :: 0 <= k < 26 ==> LOWER_CASE[k] == ('a' as int + k) as char
  {
  }

  /** The letters of the alphabet have two cases; nothing else has. */
  lemma ToLowerMeans(c: char, k: nat)
    ensures k < 26 ==> ToLower(UPPER_CASE[k]) == ToLower(LOWER_CASE[k]) == LOWER_CASE[k]
    ensures c !in UPPER_CASE ==> ToLower(c) == c
  {
    Letters();
    if 'A' <= c <= 'Z' { assert c == UPPER_CASE[c as int - 'A' as int]; }
  }

  predicate SameLetter(c: char, d: char) {
    || c == d
    || (exists k :: 0 <= k < 26 && c == UPPER_CASE[k] && d == LOWER_CASE[k])
    || (exists k :: 0 <= k < 26 && d == UPPER_CASE[k] && c == LOWER_CASE[k])
  }

  lemma SameLetterMeans(c: char, d: char)
    ensures ToLower(c) == ToLower(d) <==> SameLetter(c, d)
  {
    Letters();
    if 'A' <= c <= 'Z' { assert UPPER_CASE[c as int - 'A' as int] == c; }
    if 'A' <= d <= 'Z' { assert UPPER_CASE[d as int - 'A' as int] == d; }
  }

  /** Two texts are equal but for the case of their letters. */
  lemma EqualsIgnoreCaseMeans(a: string, b: string)
    ensures EqualsIgnoreCase(a, b) <==> |a| == |b| && forall i :: 0 <= i < |a| ==> SameLetter(a[i], b[i])
  {
    forall c: char, d: char ensures ToLower(c) == ToLower(d) <==> SameLetter(c, d) { SameLetterMeans(c, d); }
  }

  /** strchrn: the position of the first c, looked for up to a zero byte; |s| when there is none. */
  function IndexOf(s: string, c: char): (i: nat)
    ensures i <= |s|
    ensures i < |s| ==> s[i] == c && c !in s[..i] && '\0' !in s[..i]
    ensures i == |s| ==> forall k :: 0 <= k < |s| && s[k] == c ==> '\0' in s[..k + 1]
  {
    if s == "" || s[0] == '\0' then |s|
    else if s[0] == c then 0
    else
      var i := 1 + IndexOf(s[1..], c);
      assert i < |s| ==> s[..i] == [s[0]] + s[1..][..i - 1];
      assert forall k :: 0 < k < |s| ==> s[..k + 1] == [s[0]] + s[1..][..k];
      assert i == |s| ==> forall k :: 0 < k < |s| ==> s[k] == s[1..][k - 1];
      i
  }

  /** What "%.*s" prints: the text up to a zero byte. */
  function CText(s: string): (t: string)
    ensures t <= s && '\0' !in t
    ensures |t| < |s| ==> s[|t|] == '\0'
  {
    if s == "" || s[0] == '\0' then "" else [s[0]] + CText(s[1..])
  }

  // ---- Numbers -----------------------------------------------------------

  predicate IsHex(c: char) { '0' <= c <= '9' || 'a' <= c <= 'f' || 'A' <= c <= 'F' }

  predicate IsDecimal(c: char) { '0' <= c <= '9' }

  function HexDigitValue(c: char): (v: nat)
    requires IsHex(c)
    ensures v < 16
  {
    if c <= '9' then c as int - '0' as int
    else if c <= 'F' then c as int - 'A' as int + 10
    else c as int - 'a' as int + 10
  }

  /** The value of a digit string, most significant digit first. */
  function ValueOf(digits: string, base: nat): nat
    requires forall c :: c in digits ==> IsHex(c)
  {
    if digits == "" then 0
    else ValueOf(digits[..|digits| - 1], base) * base + HexDigitValue(digits[|digits| - 1])
  }

  /** The longest prefix of s made of digits of the given base (10 or 16). */
  function DigitPrefix(s: string, base: nat): (p: string)
    ensures p <= s
    ensures forall c :: c in p ==> IsHex(c)
    ensures |p| < |s| ==> !(if base == 10 then IsDecimal(s[|p|]) else IsHex(s[|p|]))
  {
    if s != "" && (if base == 10 then IsDecimal(s[0]) else IsHex(s[0]))
    then [s[0]] + DigitPrefix(s[1..], base)
    else ""
  }

  /** The result of the unsigned conversions: saturated, and negated modulo 2^32 after a '-'. */
  function Unsigned32(negative: bool, magnitude: nat): (v: nat)
    ensures v < 0x1_0000_0000
    ensures magnitude >= 0x1_0000_0000 ==> v == 0xFFFF_FFFF
    ensures magnitude < 0x1_0000_0000 ==> if negative then (v + magnitude) % 0x1_0000_0000 == 0 else v == magnitude
  {
    if magnitude > UINT_MAX then UINT_MAX
    else if negative && magnitude != 0 then UINT_MAX + 1 - magnitude
    else magnitude
  }

  function SkipSign(s: string): string {
    if s != "" && (s[0] == '+' || s[0] == '-') then s[1..] else s
  }

  predicate IsNegative(s: string) { s != "" && s[0] == '-' }

  /** sscanf(s, "%u"): leading blanks, an optional sign, at least one digit; the rest is ignored. */
  function ScanUnsigned(s: string): Option<nat> {
    var t := TrimLeft(s);
    var digits := DigitPrefix(SkipSign(t), 10);
    if digits == "" then None else Some(Unsigned32(IsNegative(t), ValueOf(digits, 10)))
  }

  /** 0x in front of a digit is passed over. */
  function WithoutPrefix(s: string): string {
    if |s| >= 3 && s[0] == '0' && (s[1] == 'x' || s[1] == 'X') && IsHex(s[2]) then s[2..] else s
  }

  /** strtoul(s, &end, 16): the value, and whether end is the end of s. */
  function StrToUl16(s: string): (r: (nat, bool)) {
    var t := TrimLeft(s);
    var u := SkipSign(t);
    var w := WithoutPrefix(u);
    var digits := DigitPrefix(w, 16);
    (Unsigned32(IsNegative(t), ValueOf(digits, 16)), digits != "" && digits == w)
  }

  function HexDigit(d: nat): (c: char)
    requires d < 16
    ensures IsHex(c) && HexDigitValue(c) == d
  {
    if d < 10 then ('0' as int + d) as char else ('a' as int + (d - 10)) as char
  }

  /** sprintf("%.*x", width, n) for n < 16^width: zero-padded lower-case hexadecimal. */
  function HexDigits(n: nat, width: nat): (s: string)
    ensures |s| == width
    ensures forall c :: c in s ==> IsHex(c)
  {
    if width == 0 then "" else HexDigits(n / 16, width - 1) + [HexDigit(n % 16)]
  }

  function Power16(k: nat): nat { if k == 0 then 1 else 16 * Power16(k - 1) }

  lemma {:induction false} HexDigitsValue(n: nat, width: nat)
    requires n < Power16(width)
    ensures ValueOf(HexDigits(n, width), 16) == n
  {
    if width > 0 {
      HexDigitsValue(n / 16, width - 1);
      var s := HexDigits(n, width);
      assert s[..|s| - 1] == HexDigits(n / 16, width - 1);
    }
  }

  // ---- What numbers are read as ------------------------------------------

  /** The sixteen digits, in both cases, and nothing else. */
  lemma DigitMeans(d: nat, c: char)
    requires d < 16
    ensures IsHex(LOWER_DIGITS[d]) && HexDigitValue(LOWER_DIGITS[d]) == d && HexDigit(d) == LOWER_DIGITS[d]
    ensures IsHex(UPPER_DIGITS[d]) && HexDigitValue(UPPER_DIGITS[d]) == d
    ensures IsDecimal(c) <==> c in LOWER_DIGITS[..10]
    ensures IsHex(c) <==> c in LOWER_DIGITS || c in UPPER_DIGITS
  {
    forall k | 0 <= k < 10
      ensures LOWER_DIGITS[..10][k] == LOWER_DIGITS[k] == UPPER_DIGITS[k] == ('0' as int + k) as char
    {
    }
    forall k | 10 <= k < 16
      ensures LOWER_DIGITS[k] == ('a' as int + k - 10) as char && UPPER_DIGITS[k] == ('A' as int + k - 10) as char
    {
    }
    if IsDecimal(c) { assert c == LOWER_DIGITS[..10][c as int - '0' as int]; }
    if 'a' <= c <= 'f' { assert c == LOWER_DIGITS[c as int - 'a' as int + 10]; }
    if 'A' <= c <= 'F' { assert c == UPPER_DIGITS[c as int - 'A' as int + 10]; }
  }

  /** Reading digits from the left, as the C library does. */
  function Horner(digits: string, base: nat, read: nat): nat
    requires forall c :: c in digits ==> IsHex(c)
  {
    if digits == "" then read else Horner(digits[1..], base, read * base + HexDigitValue(digits[0]))
  }

  lemma {:induction false} HornerSnoc(digits: string, c: char, base: nat, read: nat)
    requires IsHex(c) && forall d :: d in digits ==> IsHex(d)
    ensures Horner(digits + [c], base, read) == Horner(digits, base, read) * base + HexDigitValue(c)
    decreases |digits|
  {
    if digits == "" {
      assert (digits + [c])[1..] == "";
    } else {
      assert (digits + [c])[1..] == digits[1..] + [c];
      HornerSnoc(digits[1..], c, base, read * base + HexDigitValue(digits[0]));
    }
  }

  lemma {:induction false} ValueIsHorner(digits: string, base: nat)
    requires forall c :: c in digits ==> IsHex(c)
    ensures ValueOf(digits, base) == Horner(digits, base, 0)
  {
    if digits != "" {
      var n := |digits| - 1;
      ValueIsHorner(digits[..n], base);
      HornerSnoc(digits[..n], digits[n], base, 0);
      assert digits == digits[..n] + [digits[n]];
    }
  }

  /** sprintf("%u", n). */
  function Decimal(n: nat): (s: string)
    ensures s != ""
  {
    if n < 10 then [LOWER_DIGITS[n]] else Decimal(n / 10) + [LOWER_DIGITS[n % 10]]
  }

  lemma {:induction false} DecimalValue(n: nat)
    ensures forall c :: c in Decimal(n) ==> IsDecimal(c) && IsHex(c)
    ensures ValueOf(Decimal(n), 10) == n
  {
    DigitMeans(n % 10, LOWER_DIGITS[n % 10]);
    assert LOWER_DIGITS[..10][n % 10] == LOWER_DIGITS[n % 10];
    if n < 10 {
      assert Decimal(n)[..0] == "";
    } else {
      DecimalValue(n / 10);
      assert Decimal(n)[..|Decimal(n)| - 1] == Decimal(n / 10);
    }
  }

  predicate IsDigit(c: char, base: nat) { if base == 10 then IsDecimal(c) else IsHex(c) }

  /** A text that starts with other characters than digits of that base. */
  predicate NoDigit(s: string, base: nat) { s == "" || !IsDigit(s[0], base) }

  lemma {:induction false} DigitsInFront(digits: string, rest: string, base: nat)
    requires (forall c :: c in digits ==> IsDigit(c, base)) && NoDigit(rest, base)
    ensures DigitPrefix(digits + rest, base) == digits
  {
    if digits == "" {
      assert digits + rest == rest;
    } else {
      assert digits[0] in digits && digits == [digits[0]] + digits[1..];
      DigitsInFront(digits[1..], rest, base);
      assert (digits + rest)[1..] == digits[1..] + rest;
    }
  }

  lemma {:induction false} BlanksInFront(blanks: string, s: string)
    requires (forall c :: c in blanks ==> IsSpace(c)) && (s == "" || !IsSpace(s[0]))
    ensures TrimLeft(blanks + s) == s
  {
    if blanks == "" {
      assert blanks + s == s;
    } else {
      BlanksInFront(blanks[1..], s);
      assert (blanks + s)[1..] == blanks[1..] + s;
    }
  }

  lemma SignInFront(sign: string, s: string)
    requires sign in {"", "+", "-"} && s != "" && IsHex(s[0])
    ensures SkipSign(sign + s) == s && (IsNegative(sign + s) <==> sign == "-") && !IsSpace((sign + s)[0])
  {
    if sign == "" { assert sign + s == s; } else { assert (sign + s)[1..] == s; }
  }

  /** What %u makes of a number, behind blanks and a sign and in front of anything that is no digit. */
  lemma DecimalReadsBack(blanks: string, sign: string, n: nat, rest: string)
    requires (forall c :: c in blanks ==> IsSpace(c)) && sign in {"", "+", "-"} && NoDigit(rest, 10)
    ensures ScanUnsigned(blanks + sign + Decimal(n) + rest) == Some(Unsigned32(sign == "-", n))
  {
    hide TrimLeft, SkipSign, IsNegative, DigitPrefix, ValueOf, Decimal, Unsigned32;
    var digits := Decimal(n);
    DecimalValue(n);
    assert digits[0] in digits;
    assert IsHex((digits + rest)[0]);
    SignInFront(sign, digits + rest);
    BlanksInFront(blanks, sign + (digits + rest));
    DigitsInFront(digits, rest, 10);
    assert blanks + sign + digits + rest == blanks + (sign + (digits + rest));
  }

  /** Without a digit there is no number. */
  lemma NothingToScan(blanks: string, rest: string)
    requires (forall c :: c in blanks ==> IsSpace(c)) && NoDigit(rest, 10)
    requires rest == "" || !(IsSpace(rest[0]) || rest[0] in {'+', '-'})
    ensures ScanUnsigned(blanks + rest) == None
    ensures ScanUnsigned(blanks + ("+" + rest)) == ScanUnsigned(blanks + ("-" + rest)) == None
  {
    BlanksInFront(blanks, rest);
    BlanksInFront(blanks, "+" + rest);
    BlanksInFront(blanks, "-" + rest);
    assert ("+" + rest)[1..] == rest && ("-" + rest)[1..] == rest;
  }

  lemma NoHex(c: char)
    requires IsHex(c)
    ensures c !in {'x', 'X'}
  {
  }

  lemma PrefixInFront(prefix: string, digits: string, rest: string)
    requires prefix in {"", "0x", "0X"} && digits != "" && forall c :: c in digits ==> IsHex(c)
    requires prefix == "" ==> digits != "0" || rest == "" || rest[0] !in {'x', 'X'}
    ensures WithoutPrefix(prefix + digits + rest) == digits + rest
  {
    hide IsHex;
    var text := prefix + digits + rest;
    assert digits[0] in digits;
    if prefix == "" {
      assert text == digits + rest;
      if |digits| > 1 {
        assert digits[1] in digits && IsHex(digits[1]) && text[1] == digits[1];
        NoHex(digits[1]);
      } else {
        assert digits == [digits[0]] && (digits[0] == '0' ==> digits == "0");
      }
    } else {
      assert text[2..] == digits + rest && text[2] == digits[0];
    }
  }

  /** What strtoul makes of hexadecimal digits, and whether it has read everything. */
  lemma HexReadsBack(blanks: string, sign: string, prefix: string, digits: string, rest: string)
    requires (forall c :: c in blanks ==> IsSpace(c)) && sign in {"", "+", "-"} && prefix in {"", "0x", "0X"}
    requires digits != "" && (forall c :: c in digits ==> IsHex(c)) && NoDigit(rest, 16)
    requires prefix == "" ==> digits != "0" || rest == "" || rest[0] !in {'x', 'X'}
    ensures StrToUl16(blanks + sign + (prefix + digits) + rest)
      == (Unsigned32(sign == "-", Horner(digits, 16, 0)), rest == "")
  {
    hide TrimLeft, SkipSign, IsNegative, DigitPrefix, ValueOf, Unsigned32, IsSpace, WithoutPrefix;
    var text := prefix + digits + rest;
    assert digits[0] in digits && IsHex(text[0]);
    PrefixInFront(prefix, digits, rest);
    SignInFront(sign, text);
    BlanksInFront(blanks, sign + text);
    assert blanks + sign + (prefix + digits) + rest == blanks + (sign + text);
    DigitsInFront(digits, rest, 16);
    ValueIsHorner(digits, 16);
    assert digits == digits + rest <==> rest == "" by { if rest == "" { assert digits + rest == digits; } }
  }

  /** The chunk size the printer writes reads back as the same number. */
  lemma ChunkSizeReadsBack(n: nat)
    requires n < Power16(7)
    ensures StrToUl16(HexDigits(n, 8)) == (n, true)
  {
    hide StrToUl16, HexDigits, Horner, ValueOf;
    var s := HexDigits(n, 8);
    assert n < Power16(8) && Power16(7) == 0x1000_0000;
    HexDigitsValue(n, 8);
    ValueIsHorner(s, 16);
    HexReadsBack("", "", "", s, "");
    assert "" + "" + ("" + s) + "" == s;
  }

  // ---- Trimming ----------------------------------------------------------

  lemma {:induction false} TrimRightAppend(s: string, blanks: string)
    requires forall c :: c in blanks ==> IsSpace(c)
    ensures TrimRight(s + blanks) == TrimRight(s)
    decreases |blanks|
  {
    if blanks == "" {
      assert s + blanks == s;
    } else {
      var shorter := blanks[..|blanks| - 1];
      assert (s + blanks)[..|s + blanks| - 1] == s + shorter;
      TrimRightAppend(s, shorter);
    }
  }
}

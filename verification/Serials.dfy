// Serial numbers as text: normalisation (pkg/storage/storage.go) and the hexadecimal codec (pkg/ca/serial.go).
module Serials {
  import opened Wrappers
  import opened Text

  // NormalizeSerial: trim, strip one "0x", then one "0X", then lower-case.
  function NormalizeSerial(serial: string): string {
    ToLower(TrimPrefix(TrimPrefix(TrimSpace(serial), "0x"), "0X"))
  }

  function HexDigit(d: nat): char
    requires d < 16
  {
    "0123456789abcdef"[d]
  }

  predicate IsHexDigit(c: char) {
    '0' <= c <= '9' || 'a' <= c <= 'f' || 'A' <= c <= 'F'
  }

  function HexValue(c: char): (v: nat)
    requires IsHexDigit(c)
    ensures v < 16
  {
    if c <= '9' then c as int - '0' as int
    else if c <= 'F' then c as int - 'A' as int + 10
    else c as int - 'a' as int + 10
  }

  // big.Int.Text(16): minimal lower-case digits, with a minus sign for negative numbers.
  function NatText(n: nat): string {
    if n < 16 then [HexDigit(n)] else NatText(n / 16) + [HexDigit(n % 16)]
  }

  function Text16(n: int): string {
    if n < 0 then "-" + NatText(-n) else NatText(n)
  }

  // FormatSerial; None stands for a nil *big.Int.
  function FormatSerial(serial: Option<int>): string {
    if serial.None? then "" else ToLower(Text16(serial.value))
  }

  predicate AllHex(s: string) {
    forall i :: 0 <= i < |s| ==> IsHexDigit(s[i])
  }

  function DigitsValue(s: string): nat
    requires AllHex(s)
  {
    if s == [] then 0 else 16 * DigitsValue(s[..|s| - 1]) + HexValue(s[|s| - 1])
  }

  // big.Int.SetString(s, 16): an optional sign followed by at least one hexadecimal digit.
  function SetString16(s: string): Option<int> {
    var signed := s != [] && (s[0] == '+' || s[0] == '-');
    var digits := if signed then s[1..] else s;
    if digits == [] || !AllHex(digits) then None
    else
      var magnitude: int := DigitsValue(digits);
      Some(if signed && s[0] == '-' then -magnitude else magnitude)
  }

  datatype ParseError = EmptySerial | NotHexadecimal | NotPositive

  function ParseSerial(hexStr: string): Result<int, ParseError> {
    var cleaned := NormalizeSerial(hexStr);
    if cleaned == "" then Err(EmptySerial)
    else match SetString16(cleaned) {
      case None => Err(NotHexadecimal)
      case Some(n) => if n <= 0 then Err(NotPositive) else Ok(n)
    }
  }

  // A serial as FormatSerial writes it for a positive number.
  ghost predicate Canonical(s: string) {
    exists n: nat :: n > 0 && s == NatText(n)
  }

  // ----- The text of a number -----

  predicate LowerHexChar(c: char) {
    '0' <= c <= '9' || 'a' <= c <= 'f'
  }

  lemma {:induction false} NatTextChars(n: nat)
    ensures |NatText(n)| > 0
    ensures forall i :: 0 <= i < |NatText(n)| ==> LowerHexChar(NatText(n)[i])
    ensures |NatText(n)| > 1 ==> NatText(n)[0] != '0'
  {
    if n >= 16 {
      NatTextChars(n / 16);
      if |NatText(n / 16)| == 1 {
        assert n / 16 < 16 ==> NatText(n / 16) == [HexDigit(n / 16)];
      }
    }
  }

  lemma AppendDigit(s: string, d: nat)
    requires AllHex(s) && d < 16
    ensures AllHex(s + [HexDigit(d)]) && DigitsValue(s + [HexDigit(d)]) == 16 * DigitsValue(s) + d
  {
    assert (s + [HexDigit(d)])[..|s|] == s;
  }

  lemma OneDigit(d: nat)
    requires d < 16
    ensures AllHex([HexDigit(d)]) && DigitsValue([HexDigit(d)]) == d
  {
    AppendDigit("", d);
    assert "" + [HexDigit(d)] == [HexDigit(d)];
  }

  lemma {:induction false} NatTextValue(n: nat)
    ensures AllHex(NatText(n)) && DigitsValue(NatText(n)) == n
  {
    hide HexDigit, AllHex, DigitsValue;
    if n >= 16 {
      NatTextValue(n / 16);
      AppendDigit(NatText(n / 16), n % 16);
    } else {
      OneDigit(n);
    }
  }

  // The text of a number: lower-case digits, no leading zero, and it reads back.
  lemma NatTextShape(n: nat)
    ensures |NatText(n)| > 0
    ensures forall i :: 0 <= i < |NatText(n)| ==> LowerHexChar(NatText(n)[i])
    ensures AllHex(NatText(n)) && DigitsValue(NatText(n)) == n
    ensures |NatText(n)| > 1 ==> NatText(n)[0] != '0'
  {
    NatTextChars(n);
    NatTextValue(n);
  }

  // Distinct numbers have distinct texts.
  lemma Text16Injective(m: int, n: int)
    ensures Text16(m) == Text16(n) ==> m == n
  {
    NatTextShape(if m < 0 then -m else m);
    NatTextShape(if n < 0 then -n else n);
    if Text16(m) == Text16(n) && m < 0 {
      assert Text16(m)[1..] == NatText(-m);
      assert Text16(n)[0] == '-';
      assert Text16(n)[1..] == NatText(-n);
    }
  }

  lemma LowerFixesHexText(s: string)
    requires forall i :: 0 <= i < |s| ==> LowerHexChar(s[i]) || s[i] == '-'
    ensures ToLower(s) == s
  {
  }

  lemma TrimKeeps(s: string)
    requires s == [] || (!IsSpace(s[0]) && !IsSpace(s[|s| - 1]))
    ensures TrimSpace(s) == s
  {
  }

  // NormalizeSerial is the identity on every formatted serial, so a reserved, saved and looked-up
  // serial is one and the same map key.
  lemma NormalizeFixesFormatted(n: int)
    ensures FormatSerial(Some(n)) == Text16(n)
    ensures NormalizeSerial(Text16(n)) == Text16(n)
    ensures Text16(n) != ""
  {
    var a: nat := if n < 0 then -n else n;
    NatTextShape(a);
    HexTextIsNormal(NatText(a), n < 0);
  }

  lemma HexTextIsNormal(digits: string, negative: bool)
    requires digits != [] && forall i :: 0 <= i < |digits| ==> LowerHexChar(digits[i])
    requires |digits| > 1 ==> digits[0] != '0'
    ensures var s := if negative then "-" + digits else digits; ToLower(s) == s && NormalizeSerial(s) == s
  {
    var s := if negative then "-" + digits else digits;
    assert forall i :: 0 <= i < |s| ==> s[i] == '-' || s[i] in digits;
    LowerFixesHexText(s);
    TrimKeeps(s);
    assert s[0] == '0' ==> |s| == 1;
    assert TrimPrefix(TrimPrefix(s, "0x"), "0X") == s;
  }

  // SetString16 inverts Text16 on every integer.
  lemma SetStringInvertsText(n: int)
    ensures SetString16(Text16(n)) == Some(n)
  {
    var a: nat := if n < 0 then -n else n;
    NatTextShape(a);
    SetStringReadsDigits(NatText(a), n < 0);
  }

  lemma SetStringReadsDigits(digits: string, negative: bool)
    requires digits != [] && AllHex(digits) && LowerHexChar(digits[0])
    ensures var v: int := DigitsValue(digits);
            SetString16(if negative then "-" + digits else digits) == Some(if negative then -v else v)
  {
    assert ("-" + digits)[1..] == digits;
  }

  // ParseSerial accepts a formatted serial exactly when the number is positive, and returns that number.
  lemma ParseInvertsFormat(n: int)
    ensures ParseSerial(FormatSerial(Some(n))) == if n > 0 then Ok(n) else Err(NotPositive)
  {
    NormalizeFixesFormatted(n);
    SetStringInvertsText(n);
  }

  // A canonical serial is the text of exactly one number.
  lemma CanonicalParses(s: string) returns (n: nat)
    requires Canonical(s)
    ensures n > 0 && s == NatText(n) && s == Text16(n)
    ensures NormalizeSerial(s) == s && SetString16(s) == Some(n)
  {
    n :| n > 0 && s == NatText(n);
    NormalizeFixesFormatted(n);
    SetStringInvertsText(n);
  }

  // ----- Normalising twice -----

  lemma {:induction false} TrimRightEnds(s: string)
    ensures TrimRight(s) <= s
    ensures TrimRight(s) != [] ==> !IsSpace(TrimRight(s)[|TrimRight(s)| - 1])
  {
    if s != [] && IsSpace(s[|s| - 1]) { TrimRightEnds(s[..|s| - 1]); }
  }

  lemma LowerKeepsSpace(c: char)
    ensures IsSpace(LowerChar(c)) == IsSpace(c)
    ensures LowerChar(LowerChar(c)) == LowerChar(c)
    ensures LowerChar(c) != 'X'
  {
  }

  // Once lower-cased, a string changes under a second normalisation exactly when it still starts with
  // "0x" or with white space.
  lemma LoweredIsStable(r: string)
    requires ToLower(r) == r
    requires r != [] ==> !IsSpace(r[|r| - 1])
    ensures NormalizeSerial(r) == r <==> !("0x" <= r) && (r == [] || !IsSpace(r[0]))
  {
    if r != [] && !IsSpace(r[0]) {
      TrimKeeps(r);
      if "0X" <= r { assert r[1] == 'X'; LowerKeepsSpace(r[1]); }
      if !("0x" <= r) {
        assert NormalizeSerial(r) == r;
      } else {
        assert |NormalizeSerial(r)| < |r|;
      }
    } else if r != [] {
      TrimLeftShrinks(r);
      TrimRightEnds(TrimLeft(r));
      assert |NormalizeSerial(r)| < |r|;
    }
  }

  lemma {:induction false} TrimLeftShrinks(s: string)
    ensures |TrimLeft(s)| <= |s|
    ensures s != [] && IsSpace(s[0]) ==> |TrimLeft(s)| < |s|
  {
    if s != [] && IsSpace(s[0]) { TrimLeftShrinks(s[1..]); }
  }

  lemma LowerTwice(u: string)
    ensures ToLower(ToLower(u)) == ToLower(u)
  {
    forall i | 0 <= i < |u| ensures ToLower(ToLower(u))[i] == ToLower(u)[i] { LowerKeepsSpace(u[i]); }
  }

  // NormalizeSerial strips one prefix only, so it is idempotent exactly on the strings whose normal form
  // does not itself begin with "0x" or white space.
  lemma NormalizeIdempotentIff(s: string)
    ensures var r := NormalizeSerial(s);
            NormalizeSerial(r) == r <==> !("0x" <= r) && (r == [] || !IsSpace(r[0]))
  {
    var t := TrimSpace(s);
    TrimRightEnds(TrimLeft(s));
    var u := TrimPrefix(TrimPrefix(t, "0x"), "0X");
    var r := NormalizeSerial(s);
    assert r == ToLower(u);
    LowerTwice(u);
    if r != [] {
      assert u[|u| - 1] == t[|t| - 1];
      LowerKeepsSpace(u[|u| - 1]);
    }
    LoweredIsStable(r);
  }

  lemma NormalizeNotIdempotent()
    ensures NormalizeSerial("0x0x1") == "0x1"
    ensures NormalizeSerial("0x1") == "1"
  {
    TrimKeeps("0x0x1");
    TrimKeeps("0x1");
    assert "0x0x1"[2..] == "0x1";
    assert "0x1"[2..] == "1";
    assert TrimPrefix("0x0x1", "0x") == "0x1" && TrimPrefix("0x1", "0x") == "1";
    assert "0x1"[1] != "0X"[1];
    assert !("0X" <= "0x1") && !("0X" <= "1");
    assert ToLower("0x1") == "0x1" && ToLower("1") == "1";
  }

  // ----- Spellings -----

  // The digits of n in the usual hexadecimal notation, each letter in either case.
  predicate DigitsOf(digits: string, n: nat) {
    var t := NatText(n);
    |digits| == |t| && forall i :: 0 <= i < |t| ==>
      digits[i] == t[i] || ('a' <= t[i] <= 'f' && digits[i] as int == t[i] as int - 32)
  }

  // A way to write n: white space, perhaps "0x" or "0X", digits in either case, white space.
  ghost predicate Spells(x: string, n: nat) {
    exists a, prefix, digits, b ::
      x == a + (prefix + digits) + b && AllSpace(a) && AllSpace(b)
      && (prefix == "" || prefix == "0x" || prefix == "0X") && DigitsOf(digits, n)
  }

  // A digit written in either case: which characters it can be.
  lemma DigitChars(digits: string, n: nat)
    requires DigitsOf(digits, n)
    ensures digits != "" && ToLower(digits) == NatText(n)
    ensures forall i :: 0 <= i < |digits| ==> IsHexDigit(digits[i]) && !IsSpace(digits[i])
  {
    NatTextChars(n);
    var t := NatText(n);
    forall i | 0 <= i < |t| ensures ToLower(digits)[i] == t[i] && IsHexDigit(digits[i]) && !IsSpace(digits[i]) {
      assert LowerHexChar(t[i]);
    }
  }

  lemma PrefixStripped(prefix: string, digits: string)
    requires (prefix == "" || prefix == "0x" || prefix == "0X")
    requires digits != "" && forall i :: 0 <= i < |digits| ==> IsHexDigit(digits[i])
    ensures TrimPrefix(TrimPrefix(prefix + digits, "0x"), "0X") == digits
  {
    var core := prefix + digits;
    assert !("0x" <= digits) && !("0X" <= digits) by {
      if |digits| >= 2 { assert digits[1] != 'x' && digits[1] != 'X'; }
    }
    if prefix == "" {
      assert core == digits;
    } else {
      assert core[2..] == digits && core[..2] == prefix && core[1] == prefix[1];
    }
  }

  // Every spelling of n has the one normal form that FormatSerial writes.
  lemma SpellingIsNormalized(x: string, n: nat)
    requires Spells(x, n)
    ensures NormalizeSerial(x) == Text16(n)
  {
    var a, prefix, digits, b :|
      x == a + (prefix + digits) + b && AllSpace(a) && AllSpace(b)
      && (prefix == "" || prefix == "0x" || prefix == "0X") && DigitsOf(digits, n);
    hide NormalizeSerial, DigitsOf, AllSpace;
    PartsNormalized(a, prefix, digits, b, n);
  }

  lemma PartsNormalized(a: string, prefix: string, digits: string, b: string, n: nat)
    requires AllSpace(a) && AllSpace(b) && (prefix == "" || prefix == "0x" || prefix == "0X") && DigitsOf(digits, n)
    ensures NormalizeSerial(a + (prefix + digits) + b) == Text16(n)
  {
    DigitChars(digits, n);
    hide DigitsOf, IsHexDigit, AllSpace, TrimSpace, TrimPrefix, NatText;
    var core := prefix + digits;
    assert core[|core| - 1] == digits[|digits| - 1];
    assert core[0] == if prefix == "" then digits[0] else '0';
    TrimSpaceDrops(a, core, b);
    PrefixStripped(prefix, digits);
  }

  // A normal form holds no capital letter.
  lemma NormalFormIsLower(x: string)
    ensures forall i :: 0 <= i < |NormalizeSerial(x)| ==> !('A' <= NormalizeSerial(x)[i] <= 'Z')
  {
  }

  // The notation itself: most significant digit first, "0" to "9" then "a" to "f".
  lemma NotationOfDigits(d: nat)
    requires d < 16
    ensures NatText(d) == ["0123456789abcdef"[d]]
    ensures d < 10 ==> NatText(d) == ['0' + d as char]
    ensures d >= 10 ==> NatText(d) == ['a' + (d - 10) as char]
  {
  }

  lemma NotationIsBigEndian(n: nat, d: nat)
    requires n > 0 && d < 16
    ensures NatText(16 * n + d) == NatText(n) + NatText(d)
  {
  }
}

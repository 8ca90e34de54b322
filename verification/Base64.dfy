// Base64 as encoding/base64 defines it (sections 4 and 5 of RFC 4648): two alphabets, padded or not, and a decoder
// that skips line ends and does not look at the unused low bits of a final group.
module Base64 {
  import opened Wrappers
  import opened Text

  datatype Encoding = Encoding(url: bool, padded: bool)

  const STD := Encoding(false, true)
  const URL := Encoding(true, true)
  const RAW_STD := Encoding(false, false)
  const RAW_URL := Encoding(true, false)

  type sextet = x: int | 0 <= x < 64

  function Symbol(url: bool, v: sextet): char {
    if v < 26 then 'A' + v as char
    else if v < 52 then 'a' + (v - 26) as char
    else if v < 62 then '0' + (v - 52) as char
    else if v == 62 then (if url then '-' else '+')
    else (if url then '_' else '/')
  }

  function Value(url: bool, c: char): Option<sextet> {
    if 'A' <= c <= 'Z' then Some(c as int - 'A' as int)
    else if 'a' <= c <= 'z' then Some(c as int - 'a' as int + 26)
    else if '0' <= c <= '9' then Some(c as int - '0' as int + 52)
    else if c == (if url then '-' else '+') then Some(62)
    else if c == (if url then '_' else '/') then Some(63)
    else None
  }

  lemma ValueOfSymbol(url: bool, v: sextet)
    ensures Value(url, Symbol(url, v)) == Some(v)
  {
  }

  // ----- Encoding -----

  function Encode(e: Encoding, b: seq<byte>): string
    decreases |b|
  {
    if |b| == 0 then ""
    else if |b| == 1 then
      [Symbol(e.url, b[0] / 4), Symbol(e.url, b[0] % 4 * 16)] + (if e.padded then "==" else "")
    else if |b| == 2 then
      [Symbol(e.url, b[0] / 4), Symbol(e.url, b[0] % 4 * 16 + b[1] / 16), Symbol(e.url, b[1] % 16 * 4)]
      + (if e.padded then "=" else "")
    else
      Group(e.url, b[0], b[1], b[2]) + Encode(e, b[3..])
  }

  function Group(url: bool, a: byte, b: byte, c: byte): (s: string)
    ensures |s| == 4
  {
    [Symbol(url, a / 4), Symbol(url, a % 4 * 16 + b / 16), Symbol(url, b % 16 * 4 + c / 64), Symbol(url, c % 64)]
  }

  // ----- Decoding -----

  function StripLineEnds(s: string): string {
    if s == "" then ""
    else if s[0] == '\n' || s[0] == '\r' then StripLineEnds(s[1..])
    else [s[0]] + StripLineEnds(s[1..])
  }

  function Byte0(v0: sextet, v1: sextet): byte { v0 * 4 + v1 / 16 }
  function Byte1(v1: sextet, v2: sextet): byte { v1 % 16 * 16 + v2 / 4 }
  function Byte2(v2: sextet, v3: sextet): byte { v2 % 4 * 64 + v3 }

  // decodeQuantum, applied to text without line ends.
  function Quanta(e: Encoding, s: string): Option<seq<byte>> {
    if s == "" then Some([])
    else if |s| == 1 then None
    else
      var v0, v1 := Value(e.url, s[0]), Value(e.url, s[1]);
      if v0.None? || v1.None? then None
      else if |s| == 2 then if e.padded then None else Some([Byte0(v0.value, v1.value)])
      else
        var v2 := Value(e.url, s[2]);
        if v2.None? then
          if e.padded && s[2..] == "==" then Some([Byte0(v0.value, v1.value)]) else None
        else if |s| == 3 then
          if e.padded then None else Some([Byte0(v0.value, v1.value), Byte1(v1.value, v2.value)])
        else
          var v3 := Value(e.url, s[3]);
          if v3.None? then
            if e.padded && s[3..] == "=" then Some([Byte0(v0.value, v1.value), Byte1(v1.value, v2.value)]) else None
          else
            var rest := Quanta(e, s[4..]);
            if rest.None? then None
            else Some([Byte0(v0.value, v1.value), Byte1(v1.value, v2.value), Byte2(v2.value, v3.value)] + rest.value)
  }

  function Decode(e: Encoding, s: string): Option<seq<byte>> {
    Quanta(e, StripLineEnds(s))
  }

  // ----- Round trip -----

  // The 6-bit split of three bytes, and its inverse.
  lemma SplitAndJoin(a: byte, b: byte, c: byte)
    ensures Byte0(a / 4, a % 4 * 16 + b / 16) == a
    ensures Byte1(a % 4 * 16 + b / 16, b % 16 * 4 + c / 64) == b
    ensures Byte2(b % 16 * 4 + c / 64, c % 64) == c
  {
  }

  lemma FullQuantum(e: Encoding, s: string, v: seq<sextet>)
    requires |s| >= 4 && |v| == 4 && forall i :: 0 <= i < 4 ==> Value(e.url, s[i]) == Some(v[i])
    requires Quanta(e, s[4..]).Some?
    ensures Quanta(e, s) == Some([Byte0(v[0], v[1]), Byte1(v[1], v[2]), Byte2(v[2], v[3])] + Quanta(e, s[4..]).value)
  {
  }

  lemma GroupDecodes(e: Encoding, a: byte, b: byte, c: byte, rest: string)
    requires Quanta(e, rest).Some?
    ensures Quanta(e, Group(e.url, a, b, c) + rest) == Some([a, b, c] + Quanta(e, rest).value)
  {
    var s := Group(e.url, a, b, c) + rest;
    var v: seq<sextet> := [a / 4, a % 4 * 16 + b / 16, b % 16 * 4 + c / 64, c % 64];
    forall i | 0 <= i < 4 ensures Value(e.url, s[i]) == Some(v[i]) {
      assert s[i] == Group(e.url, a, b, c)[i] == Symbol(e.url, v[i]);
      ValueOfSymbol(e.url, v[i]);
    }
    assert s[4..] == rest;
    FullQuantum(e, s, v);
    SplitAndJoin(a, b, c);
  }

  lemma TwoSymbols(e: Encoding, s: string, v0: sextet, v1: sextet)
    requires |s| >= 2 && Value(e.url, s[0]) == Some(v0) && Value(e.url, s[1]) == Some(v1)
    requires if e.padded then s[2..] == "==" else |s| == 2
    ensures Quanta(e, s) == Some([Byte0(v0, v1)])
  {
    hide Byte0;
    if e.padded { assert s[2] == s[2..][0]; }
  }

  lemma ThreeSymbols(e: Encoding, s: string, v0: sextet, v1: sextet, v2: sextet)
    requires |s| >= 3
    requires Value(e.url, s[0]) == Some(v0) && Value(e.url, s[1]) == Some(v1) && Value(e.url, s[2]) == Some(v2)
    requires if e.padded then s[3..] == "=" else |s| == 3
    ensures Quanta(e, s) == Some([Byte0(v0, v1), Byte1(v1, v2)])
  {
    hide Byte0, Byte1;
    if e.padded { assert s[3] == s[3..][0]; }
  }

  lemma TailDecodes(e: Encoding, b: seq<byte>)
    requires 1 <= |b| <= 2
    ensures Quanta(e, Encode(e, b)) == Some(b)
  {
    hide Symbol, Value, Quanta;
    var s := Encode(e, b);
    ValueOfSymbol(e.url, b[0] / 4);
    if |b| == 1 {
      ValueOfSymbol(e.url, b[0] % 4 * 16);
      assert e.padded ==> s[2..] == "==";
      TwoSymbols(e, s, b[0] / 4, b[0] % 4 * 16);
      SplitAndJoin(b[0], 0, 0);
      assert b == [b[0]];
    } else {
      ValueOfSymbol(e.url, b[0] % 4 * 16 + b[1] / 16);
      ValueOfSymbol(e.url, b[1] % 16 * 4);
      assert e.padded ==> s[3..] == "=";
      ThreeSymbols(e, s, b[0] / 4, b[0] % 4 * 16 + b[1] / 16, b[1] % 16 * 4);
      SplitAndJoin(b[0], b[1], 0);
      assert b == [b[0], b[1]];
    }
  }

  lemma {:induction false} QuantaInvertEncode(e: Encoding, b: seq<byte>)
    ensures Quanta(e, Encode(e, b)) == Some(b)
    decreases |b|
  {
    if |b| >= 3 {
      QuantaInvertEncode(e, b[3..]);
      GroupDecodes(e, b[0], b[1], b[2], Encode(e, b[3..]));
      assert [b[0], b[1], b[2]] + b[3..] == b;
    } else if b != [] {
      TailDecodes(e, b);
    }
  }

  predicate InAlphabet(e: Encoding, s: string) {
    forall i :: 0 <= i < |s| ==> Value(e.url, s[i]).Some? || (e.padded && s[i] == '=')
  }

  lemma {:induction false} EncodeInAlphabet(e: Encoding, b: seq<byte>)
    ensures InAlphabet(e, Encode(e, b))
    decreases |b|
  {
    if |b| >= 3 {
      EncodeInAlphabet(e, b[3..]);
      GroupInAlphabet(e, b[0], b[1], b[2]);
    }
  }

  lemma GroupInAlphabet(e: Encoding, a: byte, b: byte, c: byte)
    ensures InAlphabet(e, Group(e.url, a, b, c))
  {
  }

  lemma {:induction false} NoLineEndsToStrip(s: string)
    requires forall i :: 0 <= i < |s| ==> s[i] != '\n' && s[i] != '\r'
    ensures StripLineEnds(s) == s
  {
    if s != "" { NoLineEndsToStrip(s[1..]); }
  }

  // Every encoding's decoder recovers every byte string.
  lemma DecodeInvertsEncode(e: Encoding, b: seq<byte>)
    ensures Decode(e, Encode(e, b)) == Some(b)
  {
    QuantaInvertEncode(e, b);
    EncodeInAlphabet(e, b);
    NoLineEndsToStrip(Encode(e, b));
  }

  lemma EncodeInjective(e: Encoding, a: seq<byte>, b: seq<byte>)
    ensures Encode(e, a) == Encode(e, b) ==> a == b
  {
    QuantaInvertEncode(e, a);
    QuantaInvertEncode(e, b);
  }

  // Whole groups of three encode on their own.
  lemma {:induction false} EncodeAppend(e: Encoding, a: seq<byte>, b: seq<byte>)
    requires |a| % 3 == 0
    ensures Encode(e, a + b) == Encode(e, a) + Encode(e, b)
    decreases |a|
  {
    hide Symbol, Group;
    if a == [] {
      assert a + b == b;
    } else {
      var x, a' := a[..3], a[3..];
      EncodeAppend(e, a', b);
      EncodeGroup(e, x, a');
      EncodeGroup(e, x, a' + b);
      assert a == x + a' && a + b == x + (a' + b);
      Concat(Encode(e, x), Encode(e, a'), Encode(e, b));
    }
  }

  lemma EncodeGroup(e: Encoding, x: seq<byte>, rest: seq<byte>)
    requires |x| == 3
    ensures Encode(e, x + rest) == Encode(e, x) + Encode(e, rest)
  {
    assert (x + rest)[3..] == rest && x[3..] == [];
    assert Encode(e, x) == Group(e.url, x[0], x[1], x[2]);
  }

  lemma Concat(a: string, b: string, c: string)
    ensures a + b + c == a + (b + c)
  {
  }

  // A padded encoding has four characters for every three bytes begun.
  lemma {:induction false} PaddedLength(e: Encoding, b: seq<byte>)
    requires e.padded
    ensures |Encode(e, b)| == (|b| + 2) / 3 * 4
    decreases |b|
  {
    if |b| >= 3 { PaddedLength(e, b[3..]); }
  }

  // ----- Any two decoders that accept a text agree on it -----

  lemma {:induction false} QuantaAgree(s: string, d: Encoding, e: Encoding)
    requires Quanta(d, s).Some? && Quanta(e, s).Some?
    ensures Quanta(d, s) == Quanta(e, s)
  {
    if |s| >= 4 && Value(d.url, s[2]).Some? && Value(d.url, s[3]).Some? {
      QuantaAgree(s[4..], d, e);
    }
  }

  // ----- The published forms -----

  // Tables 1 and 2 of RFC 4648: "A" to "Z", "a" to "z", "0" to "9", and two more.
  lemma Alphabets(url: bool, v: sextet)
    ensures Symbol(url, 0) == 'A' && Symbol(url, 25) == 'Z' && Symbol(url, 26) == 'a' && Symbol(url, 51) == 'z'
    ensures Symbol(url, 52) == '0' && Symbol(url, 61) == '9'
    ensures Symbol(false, 62) == '+' && Symbol(false, 63) == '/' && Symbol(true, 62) == '-' && Symbol(true, 63) == '_'
    ensures v < 61 && v != 25 && v != 51 ==> Symbol(url, v + 1) as int == Symbol(url, v) as int + 1
  {
  }

  // Section 4 of RFC 4648: three octets, taken as 24 bits from the most significant, are four 6-bit symbols.
  lemma GroupIsBits(e: Encoding, a: byte, b: byte, c: byte, w: sextet, x: sextet, y: sextet, z: sextet)
    requires (a as int) * 65536 + (b as int) * 256 + (c as int)
          == (w as int) * 262144 + (x as int) * 4096 + (y as int) * 64 + (z as int)
    ensures Encode(e, [a, b, c]) == [Symbol(e.url, w), Symbol(e.url, x), Symbol(e.url, y), Symbol(e.url, z)]
  {
    assert [a, b, c][3..] == [];
    assert Encode(e, [a, b, c]) == Group(e.url, a, b, c) + Encode(e, []);
    assert w == a / 4 && x == a % 4 * 16 + b / 16 && y == b % 16 * 4 + c / 64 && z == c % 64;
  }

  // One or two octets left over are padded with zero bits; their last symbols are dropped, or '=' in a padded form.
  lemma TailIsGroup(e: Encoding, a: byte, b: byte)
    ensures Encode(e, [a]) == Encode(e, [a, 0, 0])[..2] + if e.padded then "==" else ""
    ensures Encode(e, [a, b]) == Encode(e, [a, b, 0])[..3] + if e.padded then "=" else ""
  {
    assert [a, b, 0][3..] == [] && [a, 0, 0][3..] == [];
    assert Encode(e, [a, 0, 0]) == Group(e.url, a, 0, 0) + Encode(e, []);
    assert Encode(e, [a, b, 0]) == Group(e.url, a, b, 0) + Encode(e, []);
  }
}

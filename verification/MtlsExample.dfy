// The hand-written base64 and PEM encoders of the mTLS example (examples/mtls/main.go:171-218).
module MtlsExample {
  import opened Wrappers
  import opened Text
  import opened Base64

  // val >> k & 0x3F, for shift == 2^k
  function At(val: nat, shift: nat): sextet
    requires shift > 0
  {
    val / shift % 64
  }

  // a<<16 | b<<8 | c
  function Bits24(a: byte, b: byte, c: byte): nat {
    var x: nat, y: nat, z: nat := a, b, c;
    x * 65536 + y * 256 + z
  }

  lemma Quotient(q: nat, r: nat, d: nat)
    requires r < d
    ensures (q * d + r) / d == q && (q * d + r) % d == r
  {
    var n := q * d + r;
    var k := n / d - q;
    assert n == n / d * d + n % d;
    assert k * d == r - n % d by { assert (n / d - q) * d == n / d * d - q * d; }
    assert k >= 1 ==> k * d >= d;
    assert k <= -1 ==> k * d <= 0 - d;
  }

  // The four 6-bit fields of a 24-bit group.
  lemma SixBitFields(a: byte, b: byte, c: byte)
    ensures var val := Bits24(a, b, c);
      && At(val, 262144) == a / 4 && At(val, 4096) == a % 4 * 16 + b / 16
      && At(val, 64) == b % 16 * 4 + c / 64 && At(val, 1) == c % 64
  {
    var x: nat, y: nat, z: nat := a, b, c;
    Quotient(x / 4, x % 4 * 65536 + y * 256 + z, 262144);
    Quotient(x * 16 + y / 16, y % 16 * 256 + z, 4096);
    Quotient(x / 4, x % 4 * 16 + y / 16, 64);
    Quotient(x * 1024 + y * 4 + z / 64, z % 64, 64);
    Quotient(x * 16 + y / 16, y % 16 * 4 + z / 64, 64);
    Quotient(x * 1024 + y * 4 + z / 64, z % 64, 64);
  }

  // Write the symbols of one group at di; the last ones may be padding.
  method Put(buf: array<char>, di: nat, c0: char, c1: char, c2: char, c3: char)
    requires di + 4 <= buf.Length
    modifies buf
    ensures buf[..di + 4] == old(buf[..di]) + [c0, c1, c2, c3]
  {
    buf[di] := c0;
    buf[di + 1] := c1;
    buf[di + 2] := c2;
    buf[di + 3] := c3;
  }

  // Fill a buffer of ((n+2)/3)*4 characters group by group; the one or two bytes left over are padded.
  method Base64Encode(b: seq<byte>) returns (s: string)
    ensures s == Encode(STD, b)
    ensures |s| == (|b| + 2) / 3 * 4
  {
    hide Encode, Symbol, Bits24, At;
    PaddedLength(STD, b);
    var nb := |b|;
    var buf := new char[(nb + 2) / 3 * 4];
    var di, si := 0, 0;
    var n := nb / 3 * 3;
    EncodeNothing();
    while si < n
      invariant 0 <= si <= n && si % 3 == 0 && di == si / 3 * 4
      invariant buf[..di] == Encode(STD, b[..si])
    {
      var val := Bits24(b[si], b[si + 1], b[si + 2]);
      Put(buf, di, Symbol(false, At(val, 262144)), Symbol(false, At(val, 4096)),
          Symbol(false, At(val, 64)), Symbol(false, At(val, 1)));
      GroupEncodes(b, si);
      si := si + 3;
      di := di + 4;
    }
    var remain := nb - si;
    Remaining(b, si);
    if remain == 1 {
      var val := Bits24(b[si], 0, 0);
      Put(buf, di, Symbol(false, At(val, 262144)), Symbol(false, At(val, 4096)), '=', '=');
    } else if remain == 2 {
      var val := Bits24(b[si], b[si + 1], 0);
      Put(buf, di, Symbol(false, At(val, 262144)), Symbol(false, At(val, 4096)), Symbol(false, At(val, 64)), '=');
    }
    assert buf[..buf.Length] == buf[..];
    s := buf[..];
  }

  // What the last one or two bytes add.
  lemma Remaining(b: seq<byte>, si: nat)
    requires si <= |b| < si + 3 && si % 3 == 0
    ensures |b| == si ==> Encode(STD, b) == Encode(STD, b[..si])
    ensures |b| == si + 1 ==>
      var val := Bits24(b[si], 0, 0);
      Encode(STD, b) == Encode(STD, b[..si]) + [Symbol(false, At(val, 262144)), Symbol(false, At(val, 4096)), '=', '=']
    ensures |b| == si + 2 ==>
      var val := Bits24(b[si], b[si + 1], 0);
      Encode(STD, b) == Encode(STD, b[..si]) + [Symbol(false, At(val, 262144)), Symbol(false, At(val, 4096)),
                                                Symbol(false, At(val, 64)), '=']
  {
    hide Encode, Symbol, Bits24, At;
    EncodeAppend(STD, b[..si], b[si..]);
    assert b == b[..si] + b[si..];
    if |b| == si {
      assert b[..si] == b;
    } else if |b| == si + 1 {
      assert b[si..] == [b[si]];
      OneLeft(b[si]);
    } else {
      assert b[si..] == [b[si], b[si + 1]];
      TwoLeft(b[si], b[si + 1]);
    }
  }

  lemma EncodeNothing()
    ensures Encode(STD, []) == ""
  {
  }

  lemma OneLeft(a: byte)
    ensures var val := Bits24(a, 0, 0);
            Encode(STD, [a]) == [Symbol(false, At(val, 262144)), Symbol(false, At(val, 4096)), '=', '=']
  {
    hide Symbol;
    SixBitFields(a, 0, 0);
  }

  lemma TwoLeft(a: byte, b: byte)
    ensures var val := Bits24(a, b, 0);
            Encode(STD, [a, b]) == [Symbol(false, At(val, 262144)), Symbol(false, At(val, 4096)),
                                    Symbol(false, At(val, 64)), '=']
  {
    hide Symbol;
    SixBitFields(a, b, 0);
  }

  lemma GroupEncodes(b: seq<byte>, si: nat)
    requires si + 3 <= |b| && si % 3 == 0
    ensures var val := Bits24(b[si], b[si + 1], b[si + 2]);
            Encode(STD, b[..si + 3])
            == Encode(STD, b[..si]) + [Symbol(false, At(val, 262144)), Symbol(false, At(val, 4096)),
                                       Symbol(false, At(val, 64)), Symbol(false, At(val, 1))]
  {
    hide Symbol;
    var g := b[si..si + 3];
    assert b[..si + 3] == b[..si] + g;
    EncodeAppend(STD, b[..si], g);
    SixBitFields(b[si], b[si + 1], b[si + 2]);
    assert g[3..] == [] && g[0] == b[si] && g[1] == b[si + 1] && g[2] == b[si + 2];
    assert Encode(STD, g) == Group(false, g[0], g[1], g[2]);
  }

  // ----- PEM -----

  // s with a line end after every 64 characters.
  function Broken(s: string): string {
    if |s| < 64 then s else s[..64] + "\n" + Broken(s[64..])
  }

  // The body of a PEM block: lines of 64 characters, the last one shorter or equal, each ended.
  function Wrapped(s: string): string {
    if s == "" then "" else if |s| <= 64 then s + "\n" else s[..64] + "\n" + Wrapped(s[64..])
  }

  function BeginLine(pemType: string): string { "-----BEGIN " + pemType + "-----\n" }
  function EndLine(pemType: string): string { "-----END " + pemType + "-----\n" }

  // The source indexes the last character of the body, so it asks for at least one byte.
  method EncodePEM(pemType: string, b: seq<byte>) returns (block: string)
    requires |b| > 0
    ensures block == BeginLine(pemType) + Wrapped(Encode(STD, b)) + EndLine(pemType)
    ensures block == ("-----BEGIN " + pemType + "-----\n") + Wrapped(Encode(STD, b)) + ("-----END " + pemType + "-----\n")
  {
    block := BeginLine(pemType);
    var base64Str := "";
    var text := Base64Encode(b);
    PaddedLength(STD, b);
    for i := 0 to |text|
      invariant base64Str == Broken(text[..i])
    {
      BrokenSnoc(text[..i], text[i]);
      assert text[..i + 1] == text[..i] + [text[i]];
      base64Str := base64Str + [text[i]];
      if (i + 1) % 64 == 0 {
        base64Str := base64Str + "\n";
      }
    }
    assert text[..|text|] == text;
    EncodeHasNoLineEnd(b);
    BrokenEnd(text);
    WrappedIsBroken(text);
    if base64Str[|base64Str| - 1] != '\n' {
      base64Str := base64Str + "\n";
    }
    block := block + base64Str;
    block := block + EndLine(pemType);
  }

  lemma {:induction false} BrokenSnoc(s: string, c: char)
    ensures Broken(s + [c]) == Broken(s) + [c] + (if (|s| + 1) % 64 == 0 then "\n" else "")
  {
    if |s| >= 64 {
      BrokenSnoc(s[64..], c);
      assert (s + [c])[..64] == s[..64] && (s + [c])[64..] == s[64..] + [c];
      assert |s[64..]| % 64 == |s| % 64;
    } else if |s| == 63 {
      assert (s + [c])[..64] == s + [c] && (s + [c])[64..] == "";
    }
  }

  lemma {:induction false} BrokenEnd(s: string)
    requires s != "" && forall i :: 0 <= i < |s| ==> s[i] != '\n'
    ensures Broken(s) != "" && (Broken(s)[|Broken(s)| - 1] == '\n' <==> |s| % 64 == 0)
  {
    if |s| > 64 {
      BrokenEnd(s[64..]);
      assert |s[64..]| % 64 == |s| % 64;
    }
  }

  lemma {:induction false} WrappedIsBroken(s: string)
    requires s != ""
    ensures Wrapped(s) == Broken(s) + (if |s| % 64 == 0 then "" else "\n")
  {
    if |s| > 64 {
      WrappedIsBroken(s[64..]);
      assert |s[64..]| % 64 == |s| % 64;
      Concat(s[..64] + "\n", Broken(s[64..]), if |s| % 64 == 0 then "" else "\n");
    } else if |s| == 64 {
      assert s[..64] == s && s[64..] == "";
    }
  }

  lemma EncodeHasNoLineEnd(b: seq<byte>)
    ensures forall i :: 0 <= i < |Encode(STD, b)| ==> Encode(STD, b)[i] != '\n' && Encode(STD, b)[i] != '\r'
  {
    EncodeInAlphabet(STD, b);
  }

  lemma {:induction false} StripAppend(s: string, t: string)
    ensures StripLineEnds(s + t) == StripLineEnds(s) + StripLineEnds(t)
  {
    if s != "" {
      StripAppend(s[1..], t);
      assert (s + t)[1..] == s[1..] + t;
    } else {
      assert s + t == t;
    }
  }

  lemma {:induction false} StripWrapped(s: string)
    requires forall i :: 0 <= i < |s| ==> s[i] != '\n' && s[i] != '\r'
    ensures StripLineEnds(Wrapped(s)) == s
    decreases |s|
  {
    if s != "" {
      var n := if |s| <= 64 then |s| else 64;
      var line, rest := s[..n], s[n..];
      assert s == line + rest;
      StripWrapped(rest);
      NoLineEndsToStrip(line);
      StripAppend(line, "\n");
      StripAppend(line + "\n", Wrapped(rest));
      assert StripLineEnds("\n") == "";
      assert Wrapped(s) == line + "\n" + Wrapped(rest);
    }
  }

  function LineWidth(s: string, k: nat): nat
    requires 64 * k < |s|
  {
    if |s| - 64 * k < 64 then |s| - 64 * k else 64
  }

  // w has the k-th 64 characters of s as its k-th line, which is the last one of both or of neither.
  ghost predicate LineAt(s: string, w: string, k: nat) {
    && 64 * k < |s|
    && var width := LineWidth(s, k);
       && 65 * k + width < |w|
       && w[65 * k..65 * k + width] == s[64 * k..64 * k + width] && w[65 * k + width] == '\n'
       && (64 * k + width == |s| ==> |w| == 65 * k + width + 1)
  }

  // The k-th line of the body, counted from 0 (section 2 of RFC 7468): it holds the next 64 characters, or all that
  // are left in the last line, and a line end follows it.
  lemma {:induction false} LinesOf64(s: string, k: nat)
    requires 64 * k < |s|
    ensures LineAt(s, Wrapped(s), k)
  {
    if k > 0 {
      LinesOf64(s[64..], k - 1);
      LineBefore(s[..64], s[64..], Wrapped(s[64..]), k);
      assert s == s[..64] + s[64..];
    }
  }

  lemma LineBefore(line: string, s: string, w: string, k: nat)
    requires |line| == 64 && k > 0 && LineAt(s, w, k - 1)
    ensures LineAt(line + s, line + "\n" + w, k)
  {
    var width := LineWidth(s, k - 1);
    Shifted(line + "\n", w, 65 * (k - 1), 65 * (k - 1) + width);
    Shifted(line, s, 64 * (k - 1), 64 * (k - 1) + width);
  }

  lemma Shifted(pre: string, w: string, i: nat, j: nat)
    requires i <= j <= |w|
    ensures (pre + w)[|pre| + i..|pre| + j] == w[i..j]
    ensures j < |w| ==> (pre + w)[|pre| + j] == w[j]
  {
  }

  // Stripping the frame and decoding recovers the bytes.
  lemma PemRoundTrip(pemType: string, b: seq<byte>)
    ensures var block := BeginLine(pemType) + Wrapped(Encode(STD, b)) + EndLine(pemType);
            var body := block[|BeginLine(pemType)|..|block| - |EndLine(pemType)|];
            body == Wrapped(Encode(STD, b)) && Decode(STD, body) == Some(b)
  {
    EncodeHasNoLineEnd(b);
    StripWrapped(Encode(STD, b));
    QuantaInvertEncode(STD, b);
  }
}

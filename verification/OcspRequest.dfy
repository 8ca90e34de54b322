// How the OCSP responder recovers the request bytes from a GET URL (pkg/protocols/ocsp/responder.go:159-182):
// percent-decoding, then four base64 decoders in turn.
module OcspRequest {
  import opened Wrappers
  import opened Text
  import opened Base64
  import opened Serials

  // net/url unescaping of a path or, with plusIsSpace, of a query component.
  function Unescape(s: string, plusIsSpace: bool): Option<string> {
    if s == "" then Some("")
    else if s[0] == '%' then
      if |s| < 3 || !IsHexDigit(s[1]) || !IsHexDigit(s[2]) then None
      else
        var rest := Unescape(s[3..], plusIsSpace);
        if rest.None? then None else Some([(16 * HexValue(s[1]) + HexValue(s[2])) as char] + rest.value)
    else
      var rest := Unescape(s[1..], plusIsSpace);
      if rest.None? then None else Some([if plusIsSpace && s[0] == '+' then ' ' else s[0]] + rest.value)
  }

  // strings.ReplaceAll(s, " ", "+")
  function SpacesToPlus(s: string): string {
    seq(|s|, i requires 0 <= i < |s| => if s[i] == ' ' then '+' else s[i])
  }

  datatype RequestError = MissingRequest | InvalidUrlEncoding | InvalidBase64

  // The part of a GET URL taken for the request: what the path has after "/ocsp/" or "/ocsp", less one further slash, or
  // else the query.
  function RawText(escapedPath: string, path: string, rawQuery: string): string {
    var full := if escapedPath == "" then path else escapedPath;
    var rest := if "/ocsp/" <= full then full[6..] else TrimPrefix(full, "/ocsp");
    var text := TrimPrefix(rest, "/");
    if text == "" then rawQuery else text
  }

  // The decoders in the order the handler tries them; the first that accepts wins.
  function Chain(s: string): Option<seq<byte>> {
    if Decode(STD, s).Some? then Decode(STD, s)
    else if Decode(URL, s).Some? then Decode(URL, s)
    else if Decode(RAW_STD, s).Some? then Decode(RAW_STD, s)
    else Decode(RAW_URL, s)
  }

  // What the handler makes of the text.
  function Decoded(raw: string): Result<seq<byte>, RequestError> {
    if raw == "" then Err(MissingRequest)
    else
      var unescaped := Unescape(raw, false);
      if unescaped.None? then Err(InvalidUrlEncoding)
      else
        var reqBytes := Chain(SpacesToPlus(unescaped.value));
        if reqBytes.None? then Err(InvalidBase64) else Ok(reqBytes.value)
  }

  method RequestBytes(escapedPath: string, path: string, rawQuery: string) returns (r: Result<seq<byte>, RequestError>)
    ensures r == Decoded(RawText(escapedPath, path, rawQuery))
  {
    var raw := escapedPath;
    if raw == "" { raw := path; }
    ghost var full := raw;
    var prefixes := ["/ocsp/", "/ocsp"];
    for i := 0 to 2
      invariant raw == full
      invariant i >= 1 ==> !("/ocsp/" <= full)
      invariant i >= 2 ==> !("/ocsp" <= full)
    {
      if prefixes[i] <= raw {
        raw := TrimPrefix(raw, prefixes[i]);
        break;
      }
    }
    raw := TrimPrefix(raw, "/");
    if raw == "" { raw := rawQuery; }
    assert raw == RawText(escapedPath, path, rawQuery);
    if raw == "" { return Err(MissingRequest); }

    var unescaped := Unescape(raw, false);
    if unescaped.None? {
      UnescapeFailsAlike(raw);
      unescaped := Unescape(raw, true);
      if unescaped.None? { return Err(InvalidUrlEncoding); }
    }
    var text := SpacesToPlus(unescaped.value);
    var reqBytes := Decode(STD, text);
    if reqBytes.None? {
      reqBytes := Decode(URL, text);
      if reqBytes.None? {
        reqBytes := Decode(RAW_STD, text);
        if reqBytes.None? {
          reqBytes := Decode(RAW_URL, text);
          if reqBytes.None? { return Err(InvalidBase64); }
        }
      }
    }
    r := Ok(reqBytes.value);
  }

  // The handler's second attempt, as a query component, never rescues a text the first attempt refused.
  lemma {:induction false} UnescapeFailsAlike(s: string)
    ensures Unescape(s, false).None? <==> Unescape(s, true).None?
  {
    if s != "" {
      UnescapeFailsAlike(s[1..]);
      if |s| >= 3 { UnescapeFailsAlike(s[3..]); }
    }
  }

  // The order of the decoders is immaterial: the chain yields v exactly when some decoder does.
  lemma ChainIsAnyDecoder(s: string, v: seq<byte>)
    ensures Chain(s) == Some(v) <==> exists e: Encoding :: Decode(e, s) == Some(v)
  {
    var t := StripLineEnds(s);
    if e: Encoding :| Decode(e, s) == Some(v) {
      assert e == STD || e == URL || e == RAW_STD || e == RAW_URL by {
        assert e == Encoding(e.url, e.padded);
      }
      forall d: Encoding | Decode(d, s).Some? ensures Decode(d, s) == Some(v) { QuantaAgree(t, d, e); }
    }
  }

  // For every byte string in each of the four encodings, the chain returns it.
  lemma ChainDecodes(e: Encoding, b: seq<byte>)
    ensures Chain(Encode(e, b)) == Some(b)
  {
    DecodeInvertsEncode(e, b);
    ChainIsAnyDecoder(Encode(e, b), b);
  }

  // x writes s with each character either literal or as a percent escape, in either hexadecimal case.
  ghost predicate Escapes(x: string, s: string) {
    if s == "" then x == ""
    else
      || (x != "" && x[0] != '%' && x[0] == s[0] && Escapes(x[1..], s[1..]))
      || (|x| >= 3 && x[0] == '%' && IsHexDigit(x[1]) && IsHexDigit(x[2])
          && 16 * HexValue(x[1]) + HexValue(x[2]) == s[0] as int && Escapes(x[3..], s[1..]))
  }

  lemma {:induction false} UnescapeInvertsEscapes(x: string, s: string)
    requires Escapes(x, s)
    ensures Unescape(x, false) == Some(s)
  {
    if s != "" {
      if x[0] != '%' {
        UnescapeInvertsEscapes(x[1..], s[1..]);
      } else {
        UnescapeInvertsEscapes(x[3..], s[1..]);
      }
      assert s == [s[0]] + s[1..];
    }
  }

  // y is s after some '+' may have been turned into spaces on the way.
  predicate SpacedPlus(y: string, s: string) {
    |y| == |s| && forall i :: 0 <= i < |s| ==> y[i] == s[i] || (s[i] == '+' && y[i] == ' ')
  }

  // A text that carries the encoding of b, with whatever percent escapes and with '+' perhaps turned into a space.
  ghost predicate Carries(x: string, e: Encoding, b: seq<byte>) {
    exists y :: Escapes(x, y) && SpacedPlus(y, Encode(e, b))
  }

  lemma {:induction false} EscapesDrop(x: string, s: string, k: nat)
    requires Escapes(x, s) && k <= |x| && forall i :: 0 <= i < k ==> x[i] != '%'
    ensures k <= |s| && x[..k] == s[..k] && Escapes(x[k..], s[k..])
  {
    if k > 0 {
      EscapesDrop(x[1..], s[1..], k - 1);
      assert x[..k] == [x[0]] + x[1..][..k - 1] && s[..k] == [s[0]] + s[1..][..k - 1];
      assert x[1..][k - 1..] == x[k..] && s[1..][k - 1..] == s[k..];
    } else {
      assert x[0..] == x && s[0..] == s;
    }
  }

  // What the decoders see of a carrying text that has lost its first k literal characters.
  lemma CarriedTail(x: string, e: Encoding, b: seq<byte>, k: nat)
    requires Carries(x, e, b) && k <= |x| && forall i :: 0 <= i < k ==> x[i] != '%'
    ensures k <= |Encode(e, b)| && Unescape(x[k..], false).Some?
    ensures SpacesToPlus(Unescape(x[k..], false).value) == Encode(e, b)[k..]
    ensures forall i :: 0 <= i < k && x[i] != ' ' ==> Encode(e, b)[i] == x[i]
  {
    var y :| Escapes(x, y) && SpacedPlus(y, Encode(e, b));
    EscapesDrop(x, y, k);
    UnescapeInvertsEscapes(x[k..], y[k..]);
    EncodeInAlphabet(e, b);
    assert SpacesToPlus(y[k..]) == Encode(e, b)[k..];
    assert forall i :: 0 <= i < k ==> x[i] == x[..k][i] == y[i];
  }

  // The characters that carry bits.
  function DataChars(s: string): nat {
    if s == "" then 0 else (if s[0] == '=' then 0 else 1) + DataChars(s[1..])
  }

  lemma {:induction false} DataCharsAfter(s: string, k: nat)
    requires k <= |s| && forall i :: 0 <= i < k ==> s[i] != '='
    ensures DataChars(s[k..]) == DataChars(s) - k
  {
    if k > 0 {
      DataCharsAfter(s[1..], k - 1);
      assert s[1..][k - 1..] == s[k..];
    } else {
      assert s[0..] == s;
    }
  }

  lemma {:induction false} DecodedLength(d: Encoding, s: string)
    requires Quanta(d, s).Some?
    ensures 4 * |Quanta(d, s).value| <= 3 * DataChars(s)
  {
    if s != "" {
      var two := s[1..];
      assert DataChars(s) == 1 + DataChars(two) && DataChars(two) >= 1;
      if |s| >= 3 && Value(d.url, s[2]).Some? {
        assert two[1..][0] == s[2];
        assert DataChars(two[1..]) == 1 + DataChars(two[1..][1..]);
        if |s| >= 4 && Value(d.url, s[3]).Some? {
          assert two[1..][1..][0] == s[3] && two[1..][1..][1..] == s[4..];
          DecodedLength(d, s[4..]);
        }
      }
    }
  }

  lemma {:induction false} EncodedDataChars(e: Encoding, b: seq<byte>)
    ensures 3 * DataChars(Encode(e, b)) < 4 * |b| + 3
    decreases |b|
  {
    if |b| >= 3 {
      EncodedDataChars(e, b[3..]);
      GroupChars(e, b[0], b[1], b[2], Encode(e, b[3..]));
    } else if b != [] {
      ShortChars(e, b);
    }
  }

  lemma GroupChars(e: Encoding, x: byte, y: byte, z: byte, rest: string)
    ensures DataChars(Group(e.url, x, y, z) + rest) == 4 + DataChars(rest)
  {
    var s := Group(e.url, x, y, z) + rest;
    DataCharsAfter(s, 4);
    assert s[4..] == rest;
  }

  lemma ShortChars(e: Encoding, b: seq<byte>)
    requires 1 <= |b| <= 2
    ensures DataChars(Encode(e, b)) == |b| + 1
  {
    var s := Encode(e, b);
    DataCharsAfter(s, |b| + 1);
    var pad := s[|b| + 1..];
    assert pad == "" || pad == "=" || pad == "==";
    assert DataChars("=") == 0 by { assert "="[1..] == ""; }
    assert DataChars("==") == 0 by { assert "=="[1..] == "="; }
  }

  // Without its first characters the encoding of b never decodes to b.
  lemma TailNeverDecodes(e: Encoding, b: seq<byte>, k: nat)
    requires 1 <= k <= |Encode(e, b)| && forall i :: 0 <= i < k ==> Encode(e, b)[i] != '='
    ensures Chain(Encode(e, b)[k..]) != Some(b)
  {
    var s, t := Encode(e, b), Encode(e, b)[k..];
    EncodedDataChars(e, b);
    DataCharsAfter(s, k);
    EncodeInAlphabet(e, b);
    NoLineEndsToStrip(t);
    if Chain(t) == Some(b) {
      ChainIsAnyDecoder(t, b);
      var d: Encoding :| Decode(d, t) == Some(b);
      DecodedLength(d, t);
    }
  }

  // A carrying text that reaches the decoders whole gives back the bytes; one that has lost a character does not.
  lemma WholeDecodes(x: string, e: Encoding, b: seq<byte>)
    requires Carries(x, e, b) && b != []
    ensures x != "" && Decoded(x) == Ok(b)
  {
    assert x[0..] == x;
    CarriedTail(x, e, b, 0);
    assert Encode(e, b)[0..] == Encode(e, b);
    ChainDecodes(e, b);
    assert Encode(e, b) != "";
    assert Unescape("", false) == Some("") && SpacesToPlus("") == "";
  }

  lemma CutNeverDecodes(x: string, e: Encoding, b: seq<byte>, k: nat)
    requires Carries(x, e, b) && 1 <= k <= |x| && forall i :: 0 <= i < k ==> x[i] !in "%= "
    ensures Decoded(x[k..]) != Ok(b)
  {
    CarriedTail(x, e, b, k);
    TailNeverDecodes(e, b, k);
  }

  // A GET of /ocsp/x, with any query, where x carries the encoding of some bytes in any of the four encodings: the
  // handler recovers them exactly when x does not begin with a literal slash, which it takes for part of the path.
  lemma GetUnderOcspIff(x: string, path: string, query: string, e: Encoding, b: seq<byte>)
    requires Carries(x, e, b) && b != []
    ensures Decoded(RawText("/ocsp/" + x, path, query)) == Ok(b) <==> !("/" <= x)
  {
    WholeDecodes(x, e, b);
    assert ("/ocsp/" + x)[6..] == x && "/ocsp/" <= "/ocsp/" + x;
    if "/" <= x {
      assert x[0] == '/';
      CutNeverDecodes(x, e, b, 1);
      AtLeastTwo(x, e, b);
      assert RawText("/ocsp/" + x, path, query) == x[1..];
    }
  }

  lemma AtLeastTwo(x: string, e: Encoding, b: seq<byte>)
    requires Carries(x, e, b) && b != [] && "/" <= x
    ensures |x| >= 2
  {
    CarriedTail(x, e, b, 1);
    assert |Encode(e, b)| >= 2;
    assert Unescape("", false) == Some("") && SpacesToPlus("") == "";
  }

  // No bytes at all are carried by the empty text alone, which is no request.
  lemma EmptyRequestMissing(x: string, e: Encoding)
    requires Carries(x, e, [])
    ensures x == "" && Decoded(RawText("/ocsp/" + x, "", "")) == Err(MissingRequest)
  {
    var y :| Escapes(x, y) && SpacedPlus(y, Encode(e, []));
    assert y == "";
    assert "/ocsp/"[6..] == "" && "/ocsp/" + x == "/ocsp/";
  }

  // A GET of /x from a handler at the root: exactly when x does not begin with "ocsp".
  lemma GetAtRootIff(x: string, e: Encoding, b: seq<byte>)
    requires Carries(x, e, b) && b != []
    ensures Decoded(RawText("/" + x, "", "")) == Ok(b) <==> !("ocsp" <= x)
  {
    hide Decoded, Carries, RawText;
    WholeDecodes(x, e, b);
    if "ocsp" <= x {
      assert x[0] == 'o' && x[1] == 'c' && x[2] == 's' && x[3] == 'p';
      var k := if |x| > 4 && x[4] == '/' then if |x| > 5 && x[5] == '/' then 6 else 5 else 4;
      CutNeverDecodes(x, e, b, k);
      RootCut(x, k);
    } else {
      RootWhole(x);
    }
  }

  lemma RootWhole(x: string)
    requires !("ocsp" <= x) && x != ""
    ensures RawText("/" + x, "", "") == x
  {
    var full := "/" + x;
    assert full[1..] == x;
    OcspPrefix(x);
  }

  lemma OcspPrefix(x: string)
    ensures "/ocsp" <= "/" + x <==> "ocsp" <= x
    ensures "/ocsp/" <= "/" + x ==> "ocsp" <= x
  {
    var full := "/" + x;
    assert full[1..] == x;
    if "/ocsp" <= full { assert x[..4] == full[..5][1..]; }
    if "/ocsp/" <= full { assert x[..4] == full[..6][1..5]; }
    if "ocsp" <= x { assert full[..5] == "/" + x[..4]; }
  }

  lemma RootCut(x: string, k: nat)
    requires "ocsp" <= x
    requires k == if |x| > 4 && x[4] == '/' then if |x| > 5 && x[5] == '/' then 6 else 5 else 4
    ensures RawText("/" + x, "", "") == x[k..]
  {
    var full := "/" + x;
    assert full[..5] == "/ocsp";
    assert full[5..] == x[4..] && full[1..] == x;
    if |x| > 4 && x[4] == '/' {
      assert full[..6] == "/ocsp" + [x[4]];
      assert full[6..] == x[5..];
      assert "/" <= x[5..] <==> |x| > 5 && x[5] == '/';
      if k == 6 { assert x[5..][1..] == x[6..]; }
    } else {
      assert !("/ocsp/" <= full);
      assert !("/" <= x[4..]);
    }
  }

  // A GET of /ocsp?x, which is how the server's own route can be reached: always.
  lemma GetByQuery(x: string, e: Encoding, b: seq<byte>)
    requires Carries(x, e, b) && b != []
    ensures Decoded(RawText("/ocsp", "", x)) == Ok(b)
  {
    WholeDecodes(x, e, b);
    assert "/ocsp"[5..] == "";
    assert !("/ocsp/" <= "/ocsp");
  }

  // The byte 255 in the standard encoding is such a text: the handler drops its slash and refuses the rest.
  lemma LeadingSlashLost()
    ensures Encode(STD, [255]) == "/w==" && Carries("/w==", STD, [255])
    ensures Decoded(RawText("/ocsp//w==", "", "")) == Err(InvalidBase64)
  {
    var y := "/w==";
    assert Encode(STD, [255]) == y;
    assert Escapes("", "") && Escapes("=", "=") && Escapes("==", "==") && Escapes("w==", "w==") && Escapes(y, y) by {
      assert "="[1..] == "" && "=="[1..] == "=" && "w=="[1..] == "==" && y[1..] == "w==";
    }
    assert SpacedPlus(y, y);
    var rest := "w==";
    assert "/ocsp//w=="[6..] == y && y[1..] == rest;
    assert "/ocsp//w=="[..6] == "/ocsp/";
    UnescapeInvertsEscapes(rest, rest);
    assert SpacesToPlus(rest) == rest;
    NoLineEndsToStrip(rest);
    forall d: Encoding ensures Decode(d, rest).None? {
      assert Value(d.url, rest[1]).None?;
    }
  }
}

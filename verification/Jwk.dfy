// JSON web keys, thumbprints and ES256 signatures (pkg/protocols/acme/jws.go).
module Jwk {
  import opened Wrappers
  import opened Text
  import opened BigEndian
  import opened Base64

  // An *rsa.PublicKey has a 64-bit signed exponent; an *ecdsa.PublicKey on another curve than P-256 is OtherKey.
  datatype PublicKey = RSA(n: nat, e: int) | P256(x: nat, y: nat) | OtherKey

  datatype JWK = JWK(kty: string, crv: string, x: string, y: string, n: string, e: string)

  datatype JwkError = Unsupported | BadEncoding | NotOnCurve | UnknownKty

  predicate IsInt64(v: int) {
    -0x8000_0000_0000_0000 <= v < 0x8000_0000_0000_0000
  }

  // The Go types of the key's fields.
  predicate WellTyped(k: PublicKey) {
    (k.RSA? ==> IsInt64(k.e)) && (k.P256? ==> k.x < Pow256(32) && k.y < Pow256(32))
  }

  function Abs(v: int): nat {
    if v < 0 then -v else v
  }

  // big.Int.Int64: the low 64 bits as a signed number.
  function Int64(v: nat): int {
    var low := v % 0x1_0000_0000_0000_0000;
    if low < 0x8000_0000_0000_0000 then low else low - 0x1_0000_0000_0000_0000
  }

  // What KeyToJWK produces.
  function ToJWK(k: PublicKey): Result<JWK, JwkError> {
    match k
    case RSA(n, e) => Ok(JWK("RSA", "", "", "", Encode(RAW_URL, Minimal(n)), Encode(RAW_URL, Minimal(Abs(e)))))
    case P256(x, y) => Ok(JWK("EC", "P-256", Encode(RAW_URL, Fixed(x, 32)), Encode(RAW_URL, Fixed(y, 32)), "", ""))
    case OtherKey => Err(Unsupported)
  }

  // copy(padded[k-len(b):], b) into k zero octets.
  method PadLeft(n: nat, k: nat) returns (padded: seq<byte>)
    requires n < Pow256(k)
    ensures padded == Fixed(n, k)
  {
    MinimalLength(n, k);
    PaddedIsFixed(n, k);
    var bytes := Minimal(n);
    var buf := new byte[k](_ => 0);
    forall i | 0 <= i < |bytes| { buf[k - |bytes| + i] := bytes[i]; }
    padded := buf[..];
    assert padded == seq(k - |bytes|, _ => 0) + bytes;
  }

  method KeyToJWK(k: PublicKey) returns (r: Result<JWK, JwkError>)
    requires WellTyped(k)
    ensures r == ToJWK(k)
  {
    match k
    case RSA(n, e) =>
      r := Ok(JWK("RSA", "", "", "", Encode(RAW_URL, Minimal(n)), Encode(RAW_URL, Minimal(Abs(e)))));
    case P256(x, y) =>
      var xPadded := PadLeft(x, 32);
      var yPadded := PadLeft(y, 32);
      r := Ok(JWK("EC", "P-256", Encode(RAW_URL, xPadded), Encode(RAW_URL, yPadded), "", ""));
    case OtherKey =>
      r := Err(Unsupported);
  }

  // onCurve is the curve equation, a foreign call.
  function JWKToKey(jwk: JWK, onCurve: (nat, nat) -> bool): Result<PublicKey, JwkError> {
    if jwk.kty == "RSA" then
      var nBytes, eBytes := Decode(RAW_URL, jwk.n), Decode(RAW_URL, jwk.e);
      if nBytes.None? || eBytes.None? then Err(BadEncoding)
      else Ok(RSA(ToNat(nBytes.value), Int64(ToNat(eBytes.value))))
    else if jwk.kty == "EC" then
      if jwk.crv != "P-256" then Err(Unsupported)
      else
        var xBytes, yBytes := Decode(RAW_URL, jwk.x), Decode(RAW_URL, jwk.y);
        if xBytes.None? || yBytes.None? then Err(BadEncoding)
        else
          var x, y := ToNat(xBytes.value), ToNat(yBytes.value);
          if onCurve(x, y) then Ok(P256(x, y)) else Err(NotOnCurve)
    else Err(UnknownKty)
  }

  // An RSA key survives the round trip exactly when its exponent is not negative, or is the one negative number that
  // 64 bits cannot negate.
  lemma RsaRoundTripIff(n: nat, e: int, onCurve: (nat, nat) -> bool)
    requires IsInt64(e)
    ensures ToJWK(RSA(n, e)).Ok?
    ensures JWKToKey(ToJWK(RSA(n, e)).value, onCurve) == Ok(RSA(n, e)) <==> e >= 0 || e == -0x8000_0000_0000_0000
  {
    hide Encode, Decode, Minimal, ToNat, Int64, Abs;
    DecodeInvertsEncode(RAW_URL, Minimal(n));
    DecodeInvertsEncode(RAW_URL, Minimal(Abs(e)));
    ToNatMinimal(n);
    ToNatMinimal(Abs(e));
    Int64OfMagnitude(e);
  }

  lemma Int64OfMagnitude(e: int)
    requires IsInt64(e)
    ensures Int64(Abs(e)) == e <==> e >= 0 || e == -0x8000_0000_0000_0000
  {
  }

  // A P-256 key on the curve always does; off the curve it is refused.
  lemma EcRoundTripIff(x: nat, y: nat, onCurve: (nat, nat) -> bool)
    requires WellTyped(P256(x, y))
    ensures ToJWK(P256(x, y)).Ok?
    ensures JWKToKey(ToJWK(P256(x, y)).value, onCurve) == if onCurve(x, y) then Ok(P256(x, y)) else Err(NotOnCurve)
  {
    hide Encode, Decode, Fixed, ToNat, Pow256;
    DecodeInvertsEncode(RAW_URL, Fixed(x, 32));
    DecodeInvertsEncode(RAW_URL, Fixed(y, 32));
    ToNatFixed(x, 32);
    ToNatFixed(y, 32);
  }

  // ----- Thumbprints (RFC 7638) -----

  // %q of a text with no character to escape.
  function Quoted(s: string): string {
    "\"" + s + "\""
  }

  function CanonicalJson(jwk: JWK): string {
    if jwk.kty == "RSA" then
      "{\"e\":" + (Quoted(jwk.e) + (",\"kty\":" + Quoted(jwk.kty) + ",\"n\":" + (Quoted(jwk.n) + "}")))
    else
      "{\"crv\":" + Quoted(jwk.crv) + ",\"kty\":" + Quoted(jwk.kty) + ",\"x\":"
      + (Quoted(jwk.x) + (",\"y\":" + (Quoted(jwk.y) + "}")))
  }

  // sha is SHA-256 followed by base64url.
  function Thumbprint(k: PublicKey, sha: string -> string): Result<string, JwkError> {
    match ToJWK(k)
    case Ok(jwk) => Ok(sha(CanonicalJson(jwk)))
    case Err(error) => Err(error)
  }

  predicate NoQuote(s: string) {
    '"' !in s
  }

  lemma PrefixedSplits(pre: string, a: string, r: string, b: string, t: string)
    requires NoQuote(a) && NoQuote(b) && pre + (Quoted(a) + r) == pre + (Quoted(b) + t)
    ensures a == b && r == t
  {
    var u, v := pre + (Quoted(a) + r), pre + (Quoted(b) + t);
    assert u[|pre|..] == Quoted(a) + r && v[|pre|..] == Quoted(b) + t;
    assert (Quoted(a) + r)[1..] == a + "\"" + r;
    assert (Quoted(b) + t)[1..] == b + "\"" + t;
    SplitsAtSeparator('"', a, r, b, t);
  }

  lemma EncodedHasNoQuote(b: seq<byte>)
    ensures NoQuote(Encode(RAW_URL, b))
  {
    EncodeInAlphabet(RAW_URL, b);
  }

  lemma MinimalInjective(m: nat, n: nat)
    ensures Encode(RAW_URL, Minimal(m)) == Encode(RAW_URL, Minimal(n)) ==> m == n
  {
    EncodeInjective(RAW_URL, Minimal(m), Minimal(n));
    ToNatMinimal(m);
    ToNatMinimal(n);
  }

  lemma FixedInjective(m: nat, n: nat)
    requires m < Pow256(32) && n < Pow256(32)
    ensures Encode(RAW_URL, Fixed(m, 32)) == Encode(RAW_URL, Fixed(n, 32)) ==> m == n
  {
    EncodeInjective(RAW_URL, Fixed(m, 32), Fixed(n, 32));
    ToNatFixed(m, 32);
    ToNatFixed(n, 32);
  }

  // Section 3 of RFC 7638: the canonical text determines the key, up to the sign of an RSA exponent.
  lemma CanonicalJsonInjective(k: PublicKey, l: PublicKey)
    requires WellTyped(k) && WellTyped(l) && ToJWK(k).Ok? && ToJWK(l).Ok?
    ensures CanonicalJson(ToJWK(k).value) == CanonicalJson(ToJWK(l).value)
       <==> k == l || (k.RSA? && l.RSA? && k.n == l.n && Abs(k.e) == Abs(l.e))
  {
    hide Encode, Minimal, Fixed, CanonicalJson, Abs;
    var j, j' := ToJWK(k).value, ToJWK(l).value;
    FirstMember(j);
    FirstMember(j');
    if CanonicalJson(j) == CanonicalJson(j') {
      if k.RSA? {
        RsaJsonInjective(k.n, Abs(k.e), l.n, Abs(l.e));
      } else {
        EcJsonInjective(k.x, k.y, l.x, l.y);
      }
    }
  }

  // The canonical text starts with the alphabetically first member: e for RSA, crv for EC.
  lemma FirstMember(jwk: JWK)
    ensures |CanonicalJson(jwk)| > 2 && CanonicalJson(jwk)[2] == if jwk.kty == "RSA" then 'e' else 'c'
  {
    hide Quoted;
  }

  lemma RsaJsonInjective(n: nat, e: nat, n': nat, e': nat)
    requires CanonicalJson(JWK("RSA", "", "", "", Encode(RAW_URL, Minimal(n)), Encode(RAW_URL, Minimal(e))))
          == CanonicalJson(JWK("RSA", "", "", "", Encode(RAW_URL, Minimal(n')), Encode(RAW_URL, Minimal(e'))))
    ensures n == n' && e == e'
  {
    hide Encode, Minimal, Quoted;
    var en, ee, en', ee' := Encode(RAW_URL, Minimal(n)), Encode(RAW_URL, Minimal(e)),
                            Encode(RAW_URL, Minimal(n')), Encode(RAW_URL, Minimal(e'));
    EncodedHasNoQuote(Minimal(n)); EncodedHasNoQuote(Minimal(e));
    EncodedHasNoQuote(Minimal(n')); EncodedHasNoQuote(Minimal(e'));
    var mid := ",\"kty\":" + Quoted("RSA") + ",\"n\":";
    PrefixedSplits("{\"e\":", ee, mid + (Quoted(en) + "}"), ee', mid + (Quoted(en') + "}"));
    PrefixedSplits(mid, en, "}", en', "}");
    MinimalInjective(n, n');
    MinimalInjective(e, e');
  }

  lemma EcJsonInjective(x: nat, y: nat, x': nat, y': nat)
    requires x < Pow256(32) && y < Pow256(32) && x' < Pow256(32) && y' < Pow256(32)
    requires CanonicalJson(JWK("EC", "P-256", Encode(RAW_URL, Fixed(x, 32)), Encode(RAW_URL, Fixed(y, 32)), "", ""))
          == CanonicalJson(JWK("EC", "P-256", Encode(RAW_URL, Fixed(x', 32)), Encode(RAW_URL, Fixed(y', 32)), "", ""))
    ensures x == x' && y == y'
  {
    hide Encode, Fixed, Quoted;
    var ex, ey, ex', ey' := Encode(RAW_URL, Fixed(x, 32)), Encode(RAW_URL, Fixed(y, 32)),
                            Encode(RAW_URL, Fixed(x', 32)), Encode(RAW_URL, Fixed(y', 32));
    EncodedHasNoQuote(Fixed(x, 32)); EncodedHasNoQuote(Fixed(y, 32));
    EncodedHasNoQuote(Fixed(x', 32)); EncodedHasNoQuote(Fixed(y', 32));
    var pre := "{\"crv\":" + Quoted("P-256") + ",\"kty\":" + Quoted("EC") + ",\"x\":";
    PrefixedSplits(pre, ex, ",\"y\":" + (Quoted(ey) + "}"), ex', ",\"y\":" + (Quoted(ey') + "}"));
    PrefixedSplits(",\"y\":", ey, "}", ey', "}");
    FixedInjective(x, x');
    FixedInjective(y, y');
  }

  // A key that JWKToKey yields from some JWK with a non-negative exponent, however many leading zero octets it had,
  // re-encodes to the one canonical text of that key: two such keys share a thumbprint exactly when they are equal,
  // unless sha collides.
  lemma ThumbprintIdentifiesKey(k: PublicKey, l: PublicKey, sha: string -> string)
    requires WellTyped(k) && WellTyped(l) && !k.OtherKey? && !l.OtherKey?
    requires (k.RSA? ==> k.e >= 0) && (l.RSA? ==> l.e >= 0)
    ensures k == l ==> Thumbprint(k, sha) == Thumbprint(l, sha)
    ensures Thumbprint(k, sha) == Thumbprint(l, sha) ==> k == l || ShaCollides(sha, k, l)
  {
    CanonicalJsonInjective(k, l);
  }

  predicate ShaCollides(sha: string -> string, k: PublicKey, l: PublicKey) {
    && ToJWK(k).Ok? && ToJWK(l).Ok?
    && CanonicalJson(ToJWK(k).value) != CanonicalJson(ToJWK(l).value)
    && sha(CanonicalJson(ToJWK(k).value)) == sha(CanonicalJson(ToJWK(l).value))
  }

  lemma {:induction false} LeadingZerosIgnored(zeros: nat, b: seq<byte>)
    ensures ToNat(seq(zeros, _ => 0) + b) == ToNat(b)
  {
    if b == [] {
      ZeroFixed(zeros);
      ToNatFixed(0, zeros);
      assert seq(zeros, _ => 0 as byte) + b == Fixed(0, zeros);
    } else {
      var z: seq<byte> := seq(zeros, _ => 0);
      LeadingZerosIgnored(zeros, b[..|b| - 1]);
      assert (z + b)[..|z + b| - 1] == z + b[..|b| - 1];
    }
  }

  // Padding any field of a JWK with zero octets changes neither the key nor whether it is accepted.
  lemma PaddedJwkIsSameKey(zn: nat, ze: nat, n: seq<byte>, e: seq<byte>, onCurve: (nat, nat) -> bool)
    ensures JWKToKey(JWK("RSA", "", "", "", Encode(RAW_URL, seq(zn, _ => 0) + n), Encode(RAW_URL, seq(ze, _ => 0) + e)), onCurve)
         == JWKToKey(JWK("RSA", "", "", "", Encode(RAW_URL, n), Encode(RAW_URL, e)), onCurve)
    ensures JWKToKey(JWK("EC", "P-256", Encode(RAW_URL, seq(zn, _ => 0) + n), Encode(RAW_URL, seq(ze, _ => 0) + e), "", ""), onCurve)
         == JWKToKey(JWK("EC", "P-256", Encode(RAW_URL, n), Encode(RAW_URL, e), "", ""), onCurve)
  {
    hide Encode;
    DecodeInvertsEncode(RAW_URL, seq(zn, _ => 0) + n);
    DecodeInvertsEncode(RAW_URL, n);
    DecodeInvertsEncode(RAW_URL, seq(ze, _ => 0) + e);
    DecodeInvertsEncode(RAW_URL, e);
    LeadingZerosIgnored(zn, n);
    LeadingZerosIgnored(ze, e);
  }

  // ----- ES256 signatures (section 3.4 of RFC 7518) -----

  // SignJWS: R and S right-aligned in the halves of 64 zero octets.
  method PackSignature(r: nat, s: nat) returns (rawSig: seq<byte>)
    requires r < Pow256(32) && s < Pow256(32)
    ensures rawSig == Fixed(r, 32) + Fixed(s, 32)
  {
    var rPart := PadLeft(r, 32);
    var sPart := PadLeft(s, 32);
    rawSig := rPart + sPart;
  }

  // DecodeAndVerifyJWS: None when the length is not 64.
  function SplitSignature(sigBytes: seq<byte>): Option<(nat, nat)> {
    if |sigBytes| != 64 then None else Some((ToNat(sigBytes[..32]), ToNat(sigBytes[32..])))
  }

  lemma SignatureRoundTrip(r: nat, s: nat)
    requires r < Pow256(32) && s < Pow256(32)
    ensures SplitSignature(Fixed(r, 32) + Fixed(s, 32)) == Some((r, s))
  {
    ToNatFixed(r, 32);
    ToNatFixed(s, 32);
    assert (Fixed(r, 32) + Fixed(s, 32))[..32] == Fixed(r, 32);
    assert (Fixed(r, 32) + Fixed(s, 32))[32..] == Fixed(s, 32);
  }

  // Conversely every 64-octet signature is the packing of the pair it splits into.
  lemma SplitThenPack(sigBytes: seq<byte>)
    requires |sigBytes| == 64
    ensures var (r, s) := SplitSignature(sigBytes).value;
            r < Pow256(32) && s < Pow256(32) && Fixed(r, 32) + Fixed(s, 32) == sigBytes
  {
    FixedToNat(sigBytes[..32]);
    FixedToNat(sigBytes[32..]);
    assert sigBytes[..32] + sigBytes[32..] == sigBytes;
  }

  // ----- The published forms -----

  // Section 3.2 of RFC 7638: the required members only, in the order of their names, without white space. Sections 6.2.1
  // and 6.3.1 of RFC 7518: coordinates take exactly 32 octets, RSA numbers no more than they need.
  lemma CanonicalForms(n: nat, e: int, x: nat, y: nat, sha: string -> string)
    requires x < Pow256(32) && y < Pow256(32)
    ensures CanonicalJson(ToJWK(RSA(n, e)).value)
         == "{\"e\":\"" + (Encode(RAW_URL, Minimal(Abs(e))) + ("\",\"kty\":\"RSA\",\"n\":\"" + (Encode(RAW_URL, Minimal(n)) + "\"}")))
    ensures CanonicalJson(ToJWK(P256(x, y)).value)
         == "{\"crv\":\"P-256\",\"kty\":\"EC\",\"x\":\""
            + (Encode(RAW_URL, Fixed(x, 32)) + ("\",\"y\":\"" + (Encode(RAW_URL, Fixed(y, 32)) + "\"}")))
    ensures Thumbprint(RSA(n, e), sha) == Ok(sha(CanonicalJson(ToJWK(RSA(n, e)).value)))
    ensures Thumbprint(P256(x, y), sha) == Ok(sha(CanonicalJson(ToJWK(P256(x, y)).value)))
  {
    hide Encode, Minimal, Fixed, Abs;
    RsaText(Encode(RAW_URL, Minimal(Abs(e))), Encode(RAW_URL, Minimal(n)));
    EcText(Encode(RAW_URL, Fixed(x, 32)), Encode(RAW_URL, Fixed(y, 32)));
    hide CanonicalJson;
  }

  lemma QuotedInside(pre: string, x: string, post: string)
    ensures pre + (Quoted(x) + post) == (pre + "\"") + (x + ("\"" + post))
  {
  }

  lemma RsaText(ee: string, en: string)
    ensures CanonicalJson(JWK("RSA", "", "", "", en, ee))
         == "{\"e\":\"" + (ee + ("\",\"kty\":\"RSA\",\"n\":\"" + (en + "\"}")))
  {
    var mid := ",\"kty\":" + Quoted("RSA") + ",\"n\":";
    assert "\"" + (mid + "\"") == "\",\"kty\":\"RSA\",\"n\":\"";
    hide Quoted;
    TwoQuoted("{\"e\":", ee, mid, en, "}");
    assert "{\"e\":" + "\"" == "{\"e\":\"" && "\"" + "}" == "\"}";
  }

  lemma EcText(ex: string, ey: string)
    ensures CanonicalJson(JWK("EC", "P-256", ex, ey, "", ""))
         == "{\"crv\":\"P-256\",\"kty\":\"EC\",\"x\":\"" + (ex + ("\",\"y\":\"" + (ey + "\"}")))
  {
    var pre := "{\"crv\":" + Quoted("P-256") + ",\"kty\":" + Quoted("EC") + ",\"x\":";
    assert pre + "\"" == "{\"crv\":\"P-256\",\"kty\":\"EC\",\"x\":\"";
    hide Quoted;
    TwoQuoted(pre, ex, ",\"y\":", ey, "}");
    assert "\"" + (",\"y\":" + "\"") == "\",\"y\":\"" && "\"" + "}" == "\"}";
  }

  lemma TwoQuoted(pre: string, a: string, mid: string, b: string, post: string)
    ensures pre + (Quoted(a) + (mid + (Quoted(b) + post)))
         == (pre + "\"") + (a + (("\"" + (mid + "\"")) + (b + ("\"" + post))))
  {
    QuotedInside(mid, b, post);
    QuotedInside(pre, a, mid + (Quoted(b) + post));
    hide Quoted;
    Regroup("\"", mid + "\"", b + ("\"" + post));
  }

  lemma Regroup(a: string, b: string, c: string)
    ensures a + (b + c) == (a + b) + c
  {
  }
}

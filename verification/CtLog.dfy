// Certificate Transparency (pkg/ctlog): signed certificate timestamps, the SCT list extension and the
// pre-certificate transformation.
module CtLog {
  import opened Wrappers
  import opened Text
  import opened BigEndian

  // ----- One SCT: pkg/ctlog/models.go -----

  datatype SCT = SCT(version: byte, logID: seq<byte>, timestamp: nat, extensions: seq<byte>,
                     hashAlgo: byte, sigAlgo: byte, signature: seq<byte>)
  {
    // The Go field types: [32]byte and uint64.
    predicate WellTyped() {
      |logID| == 32 && timestamp < Pow256(8)
    }
  }

  datatype SctError = ExtensionsTooLong | SignatureTooLong

  // The presentation of section 3.2 of RFC 6962: 43 octets, the extensions, and the DigitallySigned structure.
  function Header(version: byte, logID: seq<byte>, timestamp: nat, extLen: nat): seq<byte> {
    [version] + logID + Fixed(timestamp, 8) + Fixed(extLen, 2)
  }

  function DigitallySigned(hashAlgo: byte, sigAlgo: byte, signature: seq<byte>): seq<byte> {
    [hashAlgo, sigAlgo] + Fixed(|signature|, 2) + signature
  }

  function Encode(s: SCT): seq<byte> {
    Header(s.version, s.logID, s.timestamp, |s.extensions|) + s.extensions
    + DigitallySigned(s.hashAlgo, s.sigAlgo, s.signature)
  }

  // copy(buf[offset:], src), seen as extending the part of buf already written.
  method CopyInto(buf: array<byte>, offset: nat, src: seq<byte>)
    requires offset + |src| <= buf.Length
    modifies buf
    ensures buf[..offset + |src|] == old(buf[..offset]) + src
  {
    forall i | 0 <= i < |src| { buf[offset + i] := src[i]; }
  }

  method WriteHeader(buf: array<byte>, version: byte, logID: seq<byte>, timestamp: nat, extLen: nat)
    requires |logID| == 32 && 43 <= buf.Length
    modifies buf
    ensures buf[..43] == Header(version, logID, timestamp, extLen)
  {
    var offset := 0;
    CopyInto(buf, offset, [version]);
    offset := offset + 1;
    CopyInto(buf, offset, logID);
    offset := offset + 32;
    CopyInto(buf, offset, Fixed(timestamp, 8));
    offset := offset + 8;
    CopyInto(buf, offset, Fixed(extLen, 2));
  }

  method WriteSigned(buf: array<byte>, start: nat, hashAlgo: byte, sigAlgo: byte, signature: seq<byte>)
    requires start + 4 + |signature| == buf.Length
    modifies buf
    ensures buf[..] == old(buf[..start]) + DigitallySigned(hashAlgo, sigAlgo, signature)
  {
    var offset := start;
    CopyInto(buf, offset, [hashAlgo, sigAlgo]);
    offset := offset + 2;
    CopyInto(buf, offset, Fixed(|signature|, 2));
    offset := offset + 2;
    CopyInto(buf, offset, signature);
    assert buf[..buf.Length] == buf[..];
  }

  // Write the fields into a buffer of the exact size at an advancing offset.
  method MarshalBinary(sct: SCT) returns (r: Result<seq<byte>, SctError>)
    requires sct.WellTyped()
    ensures r == if |sct.extensions| > 65535 then Err(ExtensionsTooLong)
                 else if |sct.signature| > 65535 then Err(SignatureTooLong)
                 else Ok(Encode(sct))
  {
    var extLen := |sct.extensions|;
    if extLen > 65535 { return Err(ExtensionsTooLong); }
    var sigLen := |sct.signature|;
    if sigLen > 65535 { return Err(SignatureTooLong); }
    var totalLen := 1 + 32 + 8 + 2 + extLen + 1 + 1 + 2 + sigLen;
    var buf := new byte[totalLen];
    WriteHeader(buf, sct.version, sct.logID, sct.timestamp, extLen);
    var offset := 43;
    if extLen > 0 {
      CopyInto(buf, offset, sct.extensions);
      offset := offset + extLen;
    }
    assert buf[..offset] == Header(sct.version, sct.logID, sct.timestamp, extLen) + sct.extensions;
    WriteSigned(buf, offset, sct.hashAlgo, sct.sigAlgo, sct.signature);
    r := Ok(buf[..]);
  }

  // A reader for the same presentation: the SCT and what follows it.
  function ParseSCT(b: seq<byte>): Option<(SCT, seq<byte>)> {
    if |b| < 43 then None
    else
      var h, rest := b[..43], b[43..];
      var extLen := ToNat(h[41..]);
      if |rest| < extLen then None
      else
        var signed := ParseDigitallySigned(rest[extLen..]);
        if signed.None? then None
        else
          var (hashAlgo, sigAlgo, signature, suffix) := signed.value;
          Some((SCT(h[0], h[1..33], ToNat(h[33..41]), rest[..extLen], hashAlgo, sigAlgo, signature), suffix))
  }

  function ParseDigitallySigned(b: seq<byte>): Option<(byte, byte, seq<byte>, seq<byte>)> {
    if |b| < 4 || |b| < 4 + ToNat(b[2..4]) then None
    else
      var sigLen := ToNat(b[2..4]);
      Some((b[0], b[1], b[4..4 + sigLen], b[4 + sigLen..]))
  }

  lemma HeaderFields(version: byte, logID: seq<byte>, timestamp: nat, extLen: nat)
    requires |logID| == 32
    ensures var h := Header(version, logID, timestamp, extLen);
      |h| == 43 && h[0] == version && h[1..33] == logID && h[33..41] == Fixed(timestamp, 8) && h[41..] == Fixed(extLen, 2)
  {
  }

  lemma TrailerFields(hashAlgo: byte, sigAlgo: byte, signature: seq<byte>, suffix: seq<byte>)
    requires |signature| <= 65535
    ensures var t := DigitallySigned(hashAlgo, sigAlgo, signature) + suffix;
            ParseDigitallySigned(t) == Some((hashAlgo, sigAlgo, signature, suffix))
  {
    Small();
    ToNatFixed(|signature|, 2);
    var t := DigitallySigned(hashAlgo, sigAlgo, signature) + suffix;
    assert t[2..4] == Fixed(|signature|, 2);
    assert t[4..4 + |signature|] == signature;
    assert t[4 + |signature|..] == suffix;
  }

  // The form is self-delimiting: whatever follows, the reader returns the SCT and that suffix.
  lemma ParseInvertsEncode(s: SCT, suffix: seq<byte>)
    requires s.WellTyped() && |s.extensions| <= 65535 && |s.signature| <= 65535
    ensures ParseSCT(Encode(s) + suffix) == Some((s, suffix))
  {
    Small();
    ToNatFixed(s.timestamp, 8);
    ToNatFixed(|s.extensions|, 2);
    HeaderFields(s.version, s.logID, s.timestamp, |s.extensions|);
    TrailerFields(s.hashAlgo, s.sigAlgo, s.signature, suffix);
    ParseParts(Header(s.version, s.logID, s.timestamp, |s.extensions|), s.extensions,
               DigitallySigned(s.hashAlgo, s.sigAlgo, s.signature), suffix);
  }

  lemma ParseParts(h: seq<byte>, x: seq<byte>, t: seq<byte>, suffix: seq<byte>)
    requires |h| == 43 && ToNat(h[41..]) == |x|
    requires ParseDigitallySigned(t + suffix).Some?
    ensures var (hashAlgo, sigAlgo, signature, rest) := ParseDigitallySigned(t + suffix).value;
            ParseSCT(h + x + t + suffix)
            == Some((SCT(h[0], h[1..33], ToNat(h[33..41]), x, hashAlgo, sigAlgo, signature), rest))
  {
    var b := h + x + t + suffix;
    assert b[..43] == h;
    assert b[43..][..|x|] == x;
    assert b[43..][|x|..] == t + suffix;
  }

  lemma EncodeInjective(a: SCT, b: SCT)
    requires a.WellTyped() && |a.extensions| <= 65535 && |a.signature| <= 65535
    requires b.WellTyped() && |b.extensions| <= 65535 && |b.signature| <= 65535
    ensures Encode(a) == Encode(b) ==> a == b
  {
    ParseInvertsEncode(a, []);
    ParseInvertsEncode(b, []);
    assert Encode(a) + [] == Encode(a) && Encode(b) + [] == Encode(b);
  }

  // The octets of the marshalled form (section 3.2 of RFC 6962), by their positions.
  lemma EncodeLayout(s: SCT)
    requires s.WellTyped() && |s.extensions| <= 65535 && |s.signature| <= 65535
    ensures var b, x := Encode(s), 43 + |s.extensions|;
      && |b| == x + 4 + |s.signature|
      && b[0] == s.version && b[1..33] == s.logID && ToNat(b[33..41]) == s.timestamp
      && ToNat(b[41..43]) == |s.extensions| && b[43..x] == s.extensions
      && b[x] == s.hashAlgo && b[x + 1] == s.sigAlgo && ToNat(b[x + 2..x + 4]) == |s.signature| && b[x + 4..] == s.signature
  {
    Small();
    ToNatFixed(s.timestamp, 8);
    ToNatFixed(|s.extensions|, 2);
    ToNatFixed(|s.signature|, 2);
    HeaderFields(s.version, s.logID, s.timestamp, |s.extensions|);
    var h := Header(s.version, s.logID, s.timestamp, |s.extensions|);
    var d := DigitallySigned(s.hashAlgo, s.sigAlgo, s.signature);
    SignedFields(s.hashAlgo, s.sigAlgo, s.signature);
    hide Header, DigitallySigned;
    PartsAt(h, s.extensions, d);
  }

  lemma SignedFields(hashAlgo: byte, sigAlgo: byte, signature: seq<byte>)
    ensures var d := DigitallySigned(hashAlgo, sigAlgo, signature);
      |d| == 4 + |signature| && d[0] == hashAlgo && d[1] == sigAlgo && d[2..4] == Fixed(|signature|, 2) && d[4..] == signature
  {
  }

  lemma PartsAt(h: seq<byte>, x: seq<byte>, d: seq<byte>)
    requires |h| == 43 && |d| >= 4
    ensures var b, k := h + x + d, 43 + |x|;
      && b[0] == h[0] && b[1..33] == h[1..33] && b[33..41] == h[33..41] && b[41..43] == h[41..]
      && b[43..k] == x && b[k] == d[0] && b[k + 1] == d[1] && b[k + 2..k + 4] == d[2..4] && b[k + 4..] == d[4..]
  {
  }

  // ----- The submitter's packing: pkg/ctlog/client.go -----

  // uint8(int) and uint16(int) truncate.
  method PackResponse(version: int, logID: seq<byte>, timestamp: nat, extBytes: seq<byte>, sigBytes: seq<byte>)
    returns (sct: seq<byte>)
    requires |logID| == 32 && timestamp < Pow256(8)
    ensures sct == Pack(version, logID, timestamp, extBytes, sigBytes)
  {
    var totalLen := 1 + 32 + 8 + 2 + |extBytes| + |sigBytes|;
    var sctBytes := new byte[totalLen];
    WriteHeader(sctBytes, version % 256, logID, timestamp, |extBytes| % 65536);
    CopyInto(sctBytes, 43, extBytes);
    CopyInto(sctBytes, 43 + |extBytes|, sigBytes);
    assert sctBytes[..totalLen] == sctBytes[..];
    sct := sctBytes[..];
  }

  function Pack(version: int, logID: seq<byte>, timestamp: nat, extBytes: seq<byte>, sigBytes: seq<byte>): seq<byte>
    requires |logID| == 32
  {
    Header(version % 256, logID, timestamp, |extBytes| % 65536) + extBytes + sigBytes
  }

  // Exactly when the packing is the marshalled form of an SCT, for responses of any size: the version agrees up to
  // truncation to 8 bits, the truncated length of the extensions is the SCT's, and extensions and signature together
  // are the SCT's extensions and DigitallySigned structure. For extensions of at most 65535 octets that means each is
  // the other. Longer ones are never read back whole: what is past the truncated length passes for signature.
  lemma PackIsEncodeIff(version: int, timestamp: nat, extBytes: seq<byte>, sigBytes: seq<byte>, s: SCT)
    requires s.WellTyped() && timestamp < Pow256(8) && |s.extensions| <= 65535
    ensures Pack(version, s.logID, timestamp, extBytes, sigBytes) == Encode(s)
       <==> version % 256 == s.version && timestamp == s.timestamp && |extBytes| % 65536 == |s.extensions|
            && extBytes + sigBytes == s.extensions + DigitallySigned(s.hashAlgo, s.sigAlgo, s.signature)
    ensures |extBytes| <= 65535 ==>
      (Pack(version, s.logID, timestamp, extBytes, sigBytes) == Encode(s)
       <==> version % 256 == s.version && timestamp == s.timestamp && extBytes == s.extensions
            && sigBytes == DigitallySigned(s.hashAlgo, s.sigAlgo, s.signature))
    ensures |extBytes| > 65535 && Pack(version, s.logID, timestamp, extBytes, sigBytes) == Encode(s) ==>
      s.extensions == extBytes[..|extBytes| % 65536] && s.extensions != extBytes
  {
    var n := |extBytes| % 65536;
    var signed := DigitallySigned(s.hashAlgo, s.sigAlgo, s.signature);
    var h, h' := Header(version % 256, s.logID, timestamp, n), Header(s.version, s.logID, s.timestamp, |s.extensions|);
    HeaderEqual(version % 256, timestamp, n, s.version, s.timestamp, |s.extensions|, s.logID);
    HeaderFields(version % 256, s.logID, timestamp, n);
    HeaderFields(s.version, s.logID, s.timestamp, |s.extensions|);
    hide Header, DigitallySigned;
    Concat3(h, extBytes, sigBytes);
    Concat3(h', s.extensions, signed);
    PrefixesEqual(h, extBytes + sigBytes, h', s.extensions + signed);
    SameLengthParts(extBytes, sigBytes, s.extensions, signed);
    if n == |s.extensions| && extBytes + sigBytes == s.extensions + signed {
      FrontOfConcat(extBytes, sigBytes, s.extensions, signed);
    }
  }

  lemma PrefixesEqual(a: seq<byte>, x: seq<byte>, b: seq<byte>, y: seq<byte>)
    requires |a| == |b|
    ensures a + x == b + y <==> a == b && x == y
  {
    if a + x == b + y {
      assert a == (a + x)[..|a|] && b == (b + y)[..|b|];
      assert x == (a + x)[|a|..] && y == (b + y)[|b|..];
    }
  }

  lemma SameLengthParts(a: seq<byte>, x: seq<byte>, b: seq<byte>, y: seq<byte>)
    ensures |a| == |b| ==> (a + x == b + y <==> a == b && x == y)
  {
    if |a| == |b| { PrefixesEqual(a, x, b, y); }
  }

  lemma FrontOfConcat(a: seq<byte>, x: seq<byte>, b: seq<byte>, y: seq<byte>)
    requires a + x == b + y && |b| <= |a|
    ensures b == a[..|b|]
  {
    assert (a + x)[..|b|] == a[..|b|];
    assert (b + y)[..|b|] == b;
  }

  lemma HeaderEqual(v: byte, t: nat, n: nat, v': byte, t': nat, n': nat, logID: seq<byte>)
    requires |logID| == 32 && t < Pow256(8) && t' < Pow256(8) && n <= 65535 && n' <= 65535
    ensures Header(v, logID, t, n) == Header(v', logID, t', n') <==> v == v' && t == t' && n == n'
  {
    Small();
    HeaderFields(v, logID, t, n);
    HeaderFields(v', logID, t', n');
    ToNatFixed(t, 8); ToNatFixed(t', 8);
    ToNatFixed(n, 2); ToNatFixed(n', 2);
  }

  // ----- The SCT list: pkg/ctlog/precert.go -----

  datatype ListError = EmptyList | InvalidLength(length: nat, index: nat) | ListTooLong(length: nat)

  // Each SCT behind its 16-bit length.
  function Prefixed(scts: seq<seq<byte>>): seq<byte> {
    if scts == [] then []
    else Prefixed(scts[..|scts| - 1]) + Element(scts[|scts| - 1])
  }

  function Element(sct: seq<byte>): seq<byte> {
    Fixed(|sct|, 2) + sct
  }

  // asn1.Marshal of a []byte: tag 4, definite length in the shortest form, contents.
  function DerLength(n: nat): seq<byte>
    requires n < Pow256(126)
  {
    if n < 128 then [n] else MinimalLength(n, 126); [128 + |Minimal(n)|] + Minimal(n)
  }

  function OctetString(content: seq<byte>): seq<byte>
    requires |content| < Pow256(126)
  {
    [4] + DerLength(|content|) + content
  }

  predicate Serializable(scts: seq<seq<byte>>) {
    scts != [] && (forall i :: 0 <= i < |scts| ==> 1 <= |scts[i]| <= 65535) && |Prefixed(scts)| <= 65535
  }

  lemma SmallEnough(n: nat)
    requires n <= 65537
    ensures n < Pow256(3) && Pow256(3) <= Pow256(126)
  {
    Small();
    assert Pow256(3) == 256 * Pow256(2);
    Pow256Monotone(3, 126);
  }

  lemma {:induction false} Pow256Monotone(a: nat, b: nat)
    requires a <= b
    ensures Pow256(a) <= Pow256(b)
  {
    if a < b { Pow256Monotone(a, b - 1); }
  }

  lemma PrefixedSnoc(scts: seq<seq<byte>>, i: nat)
    requires i < |scts|
    ensures Prefixed(scts[..i + 1]) == Prefixed(scts[..i]) + Fixed(|scts[i]|, 2) + scts[i]
  {
    assert scts[..i + 1][..i] == scts[..i];
    Concat3(Prefixed(scts[..i]), Fixed(|scts[i]|, 2), scts[i]);
  }

  // Accepts exactly the serializable lists; the first SCT of a bad length is named.
  method SerializeSCTList(scts: seq<seq<byte>>) returns (r: Result<seq<byte>, ListError>)
    ensures r.Ok? <==> Serializable(scts)
    ensures r.Ok? ==> |Prefixed(scts)| + 2 < Pow256(126)
                      && r.value == OctetString(Fixed(|Prefixed(scts)|, 2) + Prefixed(scts))
    ensures r.Err? && r.error.InvalidLength? ==>
      var i := r.error.index;
      i < |scts| && r.error.length == |scts[i]| && !(1 <= |scts[i]| <= 65535)
      && forall j :: 0 <= j < i ==> 1 <= |scts[j]| <= 65535
  {
    hide Fixed, OctetString, Pow256;
    if |scts| == 0 { return Err(EmptyList); }
    var elements: seq<byte> := [];
    for i := 0 to |scts|
      invariant elements == Prefixed(scts[..i])
      invariant forall j :: 0 <= j < i ==> 1 <= |scts[j]| <= 65535
    {
      var sctLen := |scts[i]|;
      if sctLen == 0 || sctLen > 65535 { return Err(InvalidLength(sctLen, i)); }
      PrefixedSnoc(scts, i);
      elements := elements + Fixed(sctLen, 2);
      elements := elements + scts[i];
    }
    assert scts[..|scts|] == scts;
    var totalLen := |elements|;
    if totalLen > 65535 { return Err(ListTooLong(totalLen)); }
    SmallEnough(totalLen + 2);
    r := Ok(OctetString(Fixed(totalLen, 2) + elements));
  }

  // ----- Reading the list back -----

  // The contents of a DER OCTET STRING that fills b.
  function ParseOctetString(b: seq<byte>): Option<seq<byte>> {
    if |b| < 2 || b[0] != 4 then None
    else if b[1] < 128 then if |b| == 2 + b[1] then Some(b[2..]) else None
    else
      var k := b[1] - 128;
      if |b| < 2 + k || |b| != 2 + k + ToNat(b[2..2 + k]) then None else Some(b[2 + k..])
  }

  function ParseElements(b: seq<byte>): Option<seq<seq<byte>>>
    decreases |b|
  {
    if b == [] then Some([])
    else if |b| < 2 then None
    else
      var n := ToNat(b[..2]);
      if n == 0 || |b| < 2 + n then None
      else
        var rest := ParseElements(b[2 + n..]);
        if rest.None? then None else Some([b[2..2 + n]] + rest.value)
  }

  function ParseSCTList(b: seq<byte>): Option<seq<seq<byte>>> {
    var content := ParseOctetString(b);
    if content.None? || |content.value| < 2 || ToNat(content.value[..2]) != |content.value| - 2 then None
    else ParseElements(content.value[2..])
  }

  lemma OctetStringParses(content: seq<byte>)
    requires |content| < Pow256(126)
    ensures ParseOctetString(OctetString(content)) == Some(content)
  {
    if |content| >= 128 {
      MinimalLength(|content|, 126);
      ToNatMinimal(|content|);
      var b, m := OctetString(content), Minimal(|content|);
      LongFormSlices([4], 128 + |m|, m, content);
      LongFormParses(b, m, content);
    }
  }

  lemma LongFormSlices(tag: seq<byte>, first: byte, length: seq<byte>, content: seq<byte>)
    requires |tag| == 1
    ensures var b := tag + ([first] + length) + content;
      |b| == 2 + |length| + |content| && b[0] == tag[0] && b[1] == first
      && b[2..2 + |length|] == length && b[2 + |length|..] == content
  {
  }

  lemma LongFormParses(b: seq<byte>, length: seq<byte>, content: seq<byte>)
    requires |length| <= 126 && |b| == 2 + |length| + |content| && b[0] == 4 && b[1] == 128 + |length|
    requires b[2..2 + |length|] == length && b[2 + |length|..] == content && ToNat(length) == |content|
    ensures ParseOctetString(b) == Some(content)
  {
  }

  lemma Concat3(a: seq<byte>, b: seq<byte>, c: seq<byte>)
    ensures a + b + c == a + (b + c)
  {
  }

  lemma {:induction false} PrefixedFront(scts: seq<seq<byte>>)
    requires scts != []
    ensures Prefixed(scts) == Element(scts[0]) + Prefixed(scts[1..])
  {
    if |scts| == 1 {
      assert Prefixed(scts[..0]) == [] && Prefixed(scts[1..]) == [];
    } else {
      var init, last := scts[..|scts| - 1], scts[|scts| - 1];
      PrefixedFront(init);
      var tail := scts[1..];
      assert init[1..] == tail[..|tail| - 1] && tail[|tail| - 1] == last;
      Concat3(Element(scts[0]), Prefixed(init[1..]), Element(last));
    }
  }

  lemma {:induction false} ElementsParse(scts: seq<seq<byte>>)
    requires forall i :: 0 <= i < |scts| ==> 1 <= |scts[i]| <= 65535
    ensures ParseElements(Prefixed(scts)) == Some(scts)
  {
    if scts != [] {
      PrefixedFront(scts);
      ElementsParse(scts[1..]);
      FirstElementParses(scts[0], Prefixed(scts[1..]));
      assert [scts[0]] + scts[1..] == scts;
    }
  }

  lemma FirstElementParses(sct: seq<byte>, rest: seq<byte>)
    requires 1 <= |sct| <= 65535 && ParseElements(rest).Some?
    ensures ParseElements(Element(sct) + rest) == Some([sct] + ParseElements(rest).value)
  {
    Small();
    ToNatFixed(|sct|, 2);
    ElementSplits(Fixed(|sct|, 2), sct, rest);
  }

  lemma ElementSplits(len: seq<byte>, sct: seq<byte>, rest: seq<byte>)
    requires |len| == 2
    ensures var b := len + sct + rest; b[..2] == len && b[2..2 + |sct|] == sct && b[2 + |sct|..] == rest
  {
  }

  // Section 3.3 of RFC 6962: reading a serialized list returns the SCTs it was made from.
  lemma SCTListRoundTrip(scts: seq<seq<byte>>)
    requires Serializable(scts)
    ensures |Prefixed(scts)| + 2 < Pow256(126)
    ensures ParseSCTList(OctetString(Fixed(|Prefixed(scts)|, 2) + Prefixed(scts))) == Some(scts)
  {
    var elements := Prefixed(scts);
    SmallEnough(|elements| + 2);
    var content := Fixed(|elements|, 2) + elements;
    OctetStringParses(content);
    Small();
    ToNatFixed(|elements|, 2);
    assert content[..2] == Fixed(|elements|, 2) && content[2..] == elements;
    ElementsParse(scts);
  }

  // The octets of a serialized list: tag 4 and the length in the shortest DER form, a 16-bit total, and before each SCT
  // its 16-bit length.
  lemma OctetStringForm(content: seq<byte>)
    requires |content| <= 65537
    ensures |content| < Pow256(126)
    ensures var n := |content|;
            var size := if n < 256 then [n] else if n < 65536 then [n / 256, n % 256]
                        else [n / 65536, n / 256 % 256, n % 256];
      OctetString(content) == if n < 128 then [4, n] + content else [4, 0x80 + |size|] + size + content
  {
    var n := |content|;
    SmallEnough(n);
    if n < 128 {
      assert [4] + DerLength(n) == [4, n];
    } else {
      MinimalForm(n);
      LongLength(n);
      hide Minimal, Pow256, DerLength;
      LeadingOctets(4, 128 + |Minimal(n)|, Minimal(n));
    }
  }

  lemma LongLength(n: nat)
    requires 128 <= n < Pow256(126)
    ensures |Minimal(n)| <= 126 && DerLength(n) == [128 + |Minimal(n)|] + Minimal(n)
  {
    MinimalLength(n, 126);
  }

  lemma LeadingOctets(tag: byte, first: byte, m: seq<byte>)
    ensures [tag] + ([first] + m) == [tag, first] + m
  {
  }

  lemma MinimalForm(n: nat)
    requires 0 < n < 0x100_0000
    ensures Minimal(n) == if n < 256 then [n] else if n < 65536 then [n / 256, n % 256]
                          else [n / 65536, n / 256 % 256, n % 256]
  {
    MinimalStep(n);
    if n >= 256 { MinimalStep(n / 256); }
    if n >= 65536 { MinimalStep(n / 65536); }
    hide Minimal;
    assert n / 256 / 256 == n / 65536;
  }

  lemma MinimalStep(n: nat)
    requires n > 0
    ensures Minimal(n) == Minimal(n / 256) + [n % 256] && (n < 256 ==> Minimal(n) == [n])
  {
  }

  lemma ListForm(scts: seq<seq<byte>>, sct: seq<byte>)
    requires |sct| <= 65535
    ensures Prefixed([]) == []
    ensures Prefixed(scts + [sct]) == Prefixed(scts) + [|sct| / 256, |sct| % 256] + sct
  {
    assert (scts + [sct])[..|scts|] == scts;
    TwoOctets(|sct|);
    Concat3(Prefixed(scts), [|sct| / 256, |sct| % 256], sct);
  }

  lemma TwoOctets(n: nat)
    requires n <= 65535
    ensures Fixed(n, 2) == [n / 256, n % 256]
  {
    assert Fixed(n, 2) == Fixed(n / 256, 1) + [n % 256];
    assert Fixed(n / 256, 1) == Fixed(n / 256 / 256, 0) + [n / 256 % 256];
  }

  // ----- Pre-certificates: pkg/ctlog/precert.go -----

  datatype Extension = Extension(id: seq<nat>, critical: bool, value: seq<byte>)

  const OID_CT_POISON: seq<nat> := [1, 3, 6, 1, 4, 1, 11129, 2, 4, 3]
  const OID_SCT_LIST: seq<nat> := [1, 3, 6, 1, 4, 1, 11129, 2, 4, 2]

  // A certificate template: the extra extensions, which these operations change, and everything else.
  class Template<F> {
    var fields: F
    var extraExtensions: seq<Extension>

    constructor (fields: F, extraExtensions: seq<Extension>)
      ensures this.fields == fields && this.extraExtensions == extraExtensions
    {
      this.fields, this.extraExtensions := fields, extraExtensions;
    }
  }

  function Poisoned(exts: seq<Extension>): seq<Extension> {
    exts + [Extension(OID_CT_POISON, true, [5, 0])]
  }

  // Sections 3.1 and 3.3 of RFC 6962.
  lemma ObjectIdentifiers()
    ensures OID_CT_POISON == [1, 3, 6, 1, 4, 1, 11129, 2, 4, 3] && OID_SCT_LIST == [1, 3, 6, 1, 4, 1, 11129, 2, 4, 2]
    ensures OID_CT_POISON != OID_SCT_LIST
  {
    assert OID_SCT_LIST[9] != OID_CT_POISON[9];
  }

  lemma PoisonedNothing()
    ensures Poisoned([]) == [Extension([1, 3, 6, 1, 4, 1, 11129, 2, 4, 3], true, [5, 0])]
  {
    assert Poisoned([]) == [Extension(OID_CT_POISON, true, [5, 0])];
  }

  // The extensions whose OID is not `id`, in order.
  function Without(exts: seq<Extension>, id: seq<nat>): seq<Extension> {
    if exts == [] then []
    else Without(exts[..|exts| - 1], id) + if exts[|exts| - 1].id == id then [] else [exts[|exts| - 1]]
  }

  function Embedded(exts: seq<Extension>, list: seq<byte>): seq<Extension> {
    if list == [] then exts else Without(exts, OID_CT_POISON) + [Extension(OID_SCT_LIST, false, list)]
  }

  // A copy with the poison appended, or null when there is no template; the template itself is not touched.
  method BuildPreCertificateTemplate<F>(tmpl: Template?<F>) returns (pre: Template?<F>)
    ensures pre == null <==> tmpl == null
    ensures pre != null ==>
      && fresh(pre) && pre.fields == tmpl.fields
      && pre.extraExtensions == tmpl.extraExtensions + [Extension([1, 3, 6, 1, 4, 1, 11129, 2, 4, 3], true, [5, 0])]
      && pre.extraExtensions == Poisoned(tmpl.extraExtensions)
  {
    if tmpl == null { return null; }
    var exts := tmpl.extraExtensions + [Extension(OID_CT_POISON, true, [5, 0])];
    pre := new Template(tmpl.fields, exts);
  }

  method EmbedSCTList<F>(tmpl: Template?<F>, serializedSCTList: seq<byte>)
    modifies tmpl
    ensures tmpl != null ==> tmpl.fields == old(tmpl.fields)
                             && tmpl.extraExtensions == Embedded(old(tmpl.extraExtensions), serializedSCTList)
    ensures tmpl != null && serializedSCTList == [] ==> tmpl.extraExtensions == old(tmpl.extraExtensions)
    ensures tmpl != null && serializedSCTList != [] ==>
      tmpl.extraExtensions == Without(old(tmpl.extraExtensions), [1, 3, 6, 1, 4, 1, 11129, 2, 4, 3])
                              + [Extension([1, 3, 6, 1, 4, 1, 11129, 2, 4, 2], false, serializedSCTList)]
  {
    if tmpl == null || |serializedSCTList| == 0 { return; }
    var filtered: seq<Extension> := [];
    for i := 0 to |tmpl.extraExtensions|
      invariant filtered == Without(tmpl.extraExtensions[..i], OID_CT_POISON)
    {
      var ext := tmpl.extraExtensions[i];
      assert tmpl.extraExtensions[..i + 1][..i] == tmpl.extraExtensions[..i];
      if ext.id != OID_CT_POISON {
        filtered := filtered + [ext];
      }
    }
    assert tmpl.extraExtensions[..|tmpl.extraExtensions|] == tmpl.extraExtensions;
    tmpl.extraExtensions := filtered + [Extension(OID_SCT_LIST, false, serializedSCTList)];
  }

  lemma {:induction false} WithoutMembers(exts: seq<Extension>, id: seq<nat>)
    ensures forall e :: e in Without(exts, id) <==> e in exts && e.id != id
  {
    if exts != [] {
      WithoutMembers(exts[..|exts| - 1], id);
      assert exts == exts[..|exts| - 1] + [exts[|exts| - 1]];
    }
  }

  // Filtering is the identity exactly when there is nothing to remove.
  lemma WithoutIsIdentityIff(exts: seq<Extension>, id: seq<nat>)
    ensures Without(exts, id) == exts <==> forall e :: e in exts ==> e.id != id
  {
    WithoutMembers(exts, id);
    if forall e :: e in exts ==> e.id != id { WithoutKeepsAll(exts, id); }
  }

  lemma {:induction false} WithoutKeepsAll(exts: seq<Extension>, id: seq<nat>)
    requires forall e :: e in exts ==> e.id != id
    ensures Without(exts, id) == exts
  {
    if exts != [] {
      WithoutKeepsAll(exts[..|exts| - 1], id);
      assert exts[|exts| - 1] in exts;
    }
  }

  lemma WithoutSnoc(exts: seq<Extension>, e: Extension, id: seq<nat>)
    ensures Without(exts + [e], id) == if e.id == id then Without(exts, id) else Without(exts, id) + [e]
  {
    assert (exts + [e])[..|exts|] == exts;
  }

  // Building the pre-certificate first makes no difference to the final extensions exactly when there is a list
  // to embed; embedding then leaves no poison and ends with the list.
  lemma EmbedAfterBuildIff(exts: seq<Extension>, list: seq<byte>)
    ensures Embedded(Poisoned(exts), list) == Embedded(exts, list) <==> list != []
    ensures list != [] ==> forall e :: e in Embedded(exts, list) ==> e.id != OID_CT_POISON
  {
    WithoutSnoc(exts, Extension(OID_CT_POISON, true, [5, 0]), OID_CT_POISON);
    WithoutMembers(exts, OID_CT_POISON);
    assert OID_SCT_LIST[9] != OID_CT_POISON[9];
  }

  // Section 3.1 of RFC 6962: the pre-certificate less its poison and the final certificate less its SCT list have
  // the same extensions exactly when the template carried no SCT list of its own.
  lemma PreCertificateMatchesFinalIff(exts: seq<Extension>, list: seq<byte>)
    requires list != []
    ensures Without(Poisoned(exts), OID_CT_POISON) == Without(Embedded(exts, list), OID_SCT_LIST)
       <==> forall e :: e in exts ==> e.id != OID_SCT_LIST
  {
    var base := Without(exts, OID_CT_POISON);
    WithoutSnoc(exts, Extension(OID_CT_POISON, true, [5, 0]), OID_CT_POISON);
    WithoutSnoc(base, Extension(OID_SCT_LIST, false, list), OID_SCT_LIST);
    WithoutMembers(exts, OID_CT_POISON);
    WithoutIsIdentityIff(base, OID_SCT_LIST);
    assert OID_SCT_LIST[9] != OID_CT_POISON[9];
  }
}

// Issuance policy (pkg/ca/policy.go) and certificate profiles (pkg/ca/profile.go).
module Policy {
  import opened Wrappers
  import opened Text

  datatype Curve = P224 | P256 | P384 | P521

  // onCurve is what Curve.IsOnCurve answers, a foreign call.
  datatype PublicKey = RSA(n: nat, e: int) | ECDSA(curve: Curve, onCurve: bool) | Ed25519(length: nat) | OtherKey

  datatype PolicyEngine = PolicyEngine(maxValidity: Time, allowWildcards: bool, allowInternalDomains: bool,
                                       minRSAKeySize: int, allowedCurves: seq<Curve>, disallowed: seq<string>,
                                       requireDNSOrIP: bool)

  const HOUR: Time := 3600
  const DAY: Time := 24 * HOUR

  const DEFAULT_POLICY := PolicyEngine(398 * DAY, true, false, 2048, [P256, P384, P521],
    ["localhost", ".local", ".internal", ".lan", ".onion", ".test", ".invalid", ".example"], true)

  datatype PolicyError = WeakRSAKey | InsecureExponent | UnsupportedKey | ForbiddenDNSName | InvalidWildcard

  function BitLen(n: nat): nat {
    if n == 0 then 0 else 1 + BitLen(n / 2)
  }

  // ----- Public keys -----

  // What the policy asks of a key.
  predicate KeyAllowed(p: PolicyEngine, key: PublicKey) {
    match key
    case RSA(n, e) => BitLen(n) >= p.minRSAKeySize && e >= 65537
    case ECDSA(curve, onCurve) => curve in p.allowedCurves && onCurve
    case Ed25519(length) => length == 32
    case OtherKey => false
  }

  method ValidatePublicKey(p: PolicyEngine, key: PublicKey) returns (err: Option<PolicyError>)
    ensures err.None? <==> KeyAllowed(p, key)
    ensures err == Some(WeakRSAKey) <==> key.RSA? && BitLen(key.n) < p.minRSAKeySize
    ensures err == Some(InsecureExponent) <==> key.RSA? && BitLen(key.n) >= p.minRSAKeySize && key.e < 65537
    ensures err.Some? && !key.RSA? ==> err == Some(UnsupportedKey)
  {
    match key
    case RSA(n, e) =>
      if BitLen(n) < p.minRSAKeySize { return Some(WeakRSAKey); }
      if e < 65537 { return Some(InsecureExponent); }
      err := None;
    case ECDSA(curve, onCurve) =>
      var curveMatch := false;
      for i := 0 to |p.allowedCurves|
        invariant !curveMatch && curve !in p.allowedCurves[..i]
      {
        if curve == p.allowedCurves[i] {
          curveMatch := true;
          break;
        }
      }
      assert p.allowedCurves[..|p.allowedCurves|] == p.allowedCurves;
      if !curveMatch { return Some(UnsupportedKey); }
      if !onCurve { return Some(UnsupportedKey); }
      err := None;
    case Ed25519(length) =>
      err := if length != 32 then Some(UnsupportedKey) else None;
    case OtherKey =>
      err := Some(UnsupportedKey);
  }

  // ----- DNS names -----

  predicate IsInternalDomainSuffix(suffix: string) {
    suffix in ["localhost", ".local", ".internal", ".lan", ".test", ".invalid", ".example"]
  }

  predicate MatchesDisallowed(p: PolicyEngine, trimmed: string) {
    exists d :: d in p.disallowed && !(p.allowInternalDomains && IsInternalDomainSuffix(d))
                && (trimmed == d || HasSuffix(trimmed, d))
  }

  // The scan of the code.
  function ValidateDNSName(p: PolicyEngine, name: string): Option<PolicyError> {
    var trimmed := TrimSpace(ToLower(name));
    if trimmed == "" then Some(ForbiddenDNSName)
    else if MatchesDisallowed(p, trimmed) then Some(ForbiddenDNSName)
    else if '*' !in trimmed then None
    else if !p.allowWildcards then Some(InvalidWildcard)
    else if !("*." <= trimmed) then Some(InvalidWildcard)
    else
      var remainder := TrimPrefix(trimmed, "*.");
      if remainder == "" || '.' !in remainder then Some(InvalidWildcard)
      else if '*' in remainder then Some(InvalidWildcard)
      else None
  }

  // The labels of a name: its parts between dots.
  function Labels(s: string): (l: seq<string>)
    ensures |l| >= 1
  {
    if s == "" then [""]
    else
      var rest := Labels(s[1..]);
      if s[0] == '.' then [""] + rest else [[s[0]] + rest[0]] + rest[1..]
  }

  // The rule on labels: a wildcard is the whole leftmost label, and at least two labels follow it.
  predicate WildcardRule(p: PolicyEngine, labels: seq<string>)
    requires |labels| >= 1
  {
    || (forall i :: 0 <= i < |labels| ==> '*' !in labels[i])
    || (p.allowWildcards && |labels| >= 3 && labels[0] == "*" && forall i :: 1 <= i < |labels| ==> '*' !in labels[i])
  }

  lemma {:induction false} StarInLabel(s: string)
    ensures '*' in s <==> exists i :: 0 <= i < |Labels(s)| && '*' in Labels(s)[i]
  {
    if s != "" {
      var rest, l := Labels(s[1..]), Labels(s);
      StarInLabel(s[1..]);
      assert s == [s[0]] + s[1..];
      if s[0] == '.' {
        assert forall i :: 0 <= i < |rest| ==> l[i + 1] == rest[i];
        if i :| 0 <= i < |rest| && '*' in rest[i] { assert '*' in l[i + 1]; }
      } else {
        assert l[0] == [s[0]] + rest[0] && forall i :: 1 <= i < |rest| ==> l[i] == rest[i];
        if i :| 0 <= i < |rest| && '*' in rest[i] { assert '*' in l[i]; }
        if s[0] == '*' { assert '*' in l[0]; }
      }
    }
  }

  lemma {:induction false} DotMakesLabels(s: string)
    ensures '.' in s <==> |Labels(s)| >= 2
  {
    if s != "" {
      DotMakesLabels(s[1..]);
      assert s == [s[0]] + s[1..];
    }
  }

  lemma StarDotPrefix(s: string)
    ensures "*." <= s <==> |Labels(s)| >= 2 && Labels(s)[0] == "*"
    ensures "*." <= s ==> Labels(s[2..]) == Labels(s)[1..]
  {
    if s != "" {
      var rest := Labels(s[1..]);
      if s[0] == '.' {
        assert Labels(s)[0] == "";
      } else {
        assert Labels(s)[0] == [s[0]] + rest[0];
        if s[1..] != "" && s[1] == '.' {
          assert s[1..][1..] == s[2..];
          assert rest == [""] + Labels(s[2..]);
          assert Labels(s)[0] == [s[0]];
        } else if s[1..] != "" {
          assert rest[0] == [s[1]] + Labels(s[1..][1..])[0];
        }
      }
    }
  }

  // For every name, the scanning code accepts exactly the names that, trimmed and lower-cased, are not empty, match no
  // disallowed name or suffix, and satisfy the rule on labels.
  lemma DnsNameAcceptedIff(p: PolicyEngine, name: string)
    ensures var trimmed := TrimSpace(ToLower(name));
      ValidateDNSName(p, name).None?
      <==> trimmed != "" && !MatchesDisallowed(p, trimmed) && WildcardRule(p, Labels(trimmed))
  {
    var trimmed := TrimSpace(ToLower(name));
    StarInLabel(trimmed);
    StarDotPrefix(trimmed);
    if "*." <= trimmed {
      var remainder := trimmed[2..];
      DotMakesLabels(remainder);
      StarInLabel(remainder);
      assert '*' in Labels(trimmed)[0];
      assert forall i :: 1 <= i < |Labels(trimmed)| ==> Labels(trimmed)[i] == Labels(remainder)[i - 1];
      if '*' in remainder {
        var i :| 0 <= i < |Labels(remainder)| && '*' in Labels(remainder)[i];
        assert '*' in Labels(trimmed)[i + 1];
      }
    }
  }

  // Which names match a disallowed one: those that end with it, unless it is an internal suffix and these are allowed.
  lemma DisallowedMeans(p: PolicyEngine, t: string)
    ensures MatchesDisallowed(p, t)
      <==> exists pre, d ::
             d in p.disallowed && t == pre + d
             && !(p.allowInternalDomains && d in ["localhost", ".local", ".internal", ".lan", ".test", ".invalid", ".example"])
  {
    if d :| d in p.disallowed && !(p.allowInternalDomains && IsInternalDomainSuffix(d)) && (t == d || HasSuffix(t, d)) {
      assert t == t[..|t| - |d|] + d;
    }
    if pre, d :| d in p.disallowed && t == pre + d
                 && !(p.allowInternalDomains && d in ["localhost", ".local", ".internal", ".lan", ".test", ".invalid", ".example"]) {
      assert t[|t| - |d|..] == d;
      assert HasSuffix(t, d);
    }
  }

  // The letters differ in case only.
  predicate CaseVariants(x: string, y: string) {
    |x| == |y| && forall i :: 0 <= i < |x| ==>
      || x[i] == y[i]
      || ('A' <= x[i] <= 'Z' && y[i] as int == x[i] as int + 32)
      || ('A' <= y[i] <= 'Z' && x[i] as int == y[i] as int + 32)
  }

  // The policy does not look at the case of letters.
  lemma CaseIsIgnored(p: PolicyEngine, x: string, y: string)
    requires CaseVariants(x, y)
    ensures ValidateDNSName(p, x) == ValidateDNSName(p, y)
  {
    assert ToLower(x) == ToLower(y);
  }

  // ----- Profiles -----

  datatype KeyUsage = DigitalSignature | KeyEncipherment | CertSign | CRLSign
  datatype ExtKeyUsage = ServerAuth | ClientAuth | CodeSigning
  datatype ProfileType = ServerTLS | ClientAuthProfile | CodeSigningProfile | SubCA | Custom(name: string)

  datatype ProfileConfig = ProfileConfig(profileType: ProfileType, allowedMaxValidity: Time, defaultValidity: Time,
                                         keyUsage: set<KeyUsage>, extKeyUsage: seq<ExtKeyUsage>, isCA: bool,
                                         maxPathLen: int, maxPathLenZero: bool, requireSAN: bool)

  const SERVER_TLS := ProfileConfig(ServerTLS, 398 * DAY, 90 * DAY, {DigitalSignature}, [ServerAuth, ClientAuth],
                                    false, 0, false, true)
  const CLIENT_AUTH := ProfileConfig(ClientAuthProfile, 730 * DAY, 365 * DAY, {DigitalSignature}, [ClientAuth],
                                     false, 0, false, false)
  const CODE_SIGNING := ProfileConfig(CodeSigningProfile, 1095 * DAY, 365 * DAY, {DigitalSignature}, [CodeSigning],
                                      false, 0, false, false)
  const SUB_CA := ProfileConfig(SubCA, 10 * 365 * DAY, 5 * 365 * DAY, {CertSign, CRLSign}, [],
                                true, 0, true, false)

  function GetProfile(name: ProfileType): Option<ProfileConfig> {
    match name
    case ServerTLS => Some(SERVER_TLS)
    case ClientAuthProfile => Some(CLIENT_AUTH)
    case CodeSigningProfile => Some(CODE_SIGNING)
    case SubCA => Some(SUB_CA)
    case Custom(_) => None
  }

  // ----- Templates and lint -----

  datatype CertTemplate = CertTemplate(serial: Option<int>, subject: string, dnsNames: seq<string>,
    ipAddresses: seq<string>, emailAddresses: seq<string>, uris: seq<string>, notBefore: Time, notAfter: Time,
    keyUsage: set<KeyUsage>, extKeyUsage: seq<ExtKeyUsage>, basicConstraintsValid: bool, isCA: bool,
    maxPathLen: int, maxPathLenZero: bool, subjectKeyId: seq<byte>, authorityKeyId: seq<byte>,
    ocspServers: seq<string>, issuingURLs: seq<string>, crlPoints: seq<string>)

  datatype LintRule = SerialNotNil | SerialPositive | Serial20Octets | ValidityChronological | BasicConstraintsValid
                    | BasicConstraintsIsCA | KeyUsageAlignment | CAKeyUsageCertSign | SANPresent | ServerTLSEKU

  datatype LintLevel = LintError | LintWarning | LintInfo
  datatype LintResult = LintResult(rule: LintRule, level: LintLevel)

  predicate HasSAN(t: CertTemplate) {
    t.dnsNames != [] || t.ipAddresses != [] || t.emailAddresses != [] || t.uris != []
  }

  // The template and key break the rule under the profile.
  predicate Violates(rule: LintRule, t: CertTemplate, key: Option<PublicKey>, profile: ProfileConfig) {
    match rule
    case SerialNotNil => t.serial.None?
    case SerialPositive => t.serial.Some? && t.serial.value <= 0
    case Serial20Octets => t.serial.Some? && BitLen(if t.serial.value < 0 then -t.serial.value else t.serial.value) > 159
    case ValidityChronological => t.notBefore >= t.notAfter
    case BasicConstraintsValid => !t.basicConstraintsValid
    case BasicConstraintsIsCA => t.isCA != profile.isCA
    case KeyUsageAlignment => key.Some? && (key.value.ECDSA? || key.value.Ed25519?) && KeyEncipherment in t.keyUsage
    case CAKeyUsageCertSign => t.isCA && CertSign !in t.keyUsage
    case SANPresent => profile.requireSAN && !HasSAN(t)
    case ServerTLSEKU => profile.profileType == ServerTLS && ServerAuth !in t.extKeyUsage
  }

  // The part of the linter that checks a rule.
  datatype Section = OfTemplate | OfUsage | OfProfile

  function SectionOf(rule: LintRule): Section {
    match rule
    case SerialNotNil | SerialPositive | Serial20Octets | ValidityChronological | BasicConstraintsValid => OfTemplate
    case BasicConstraintsIsCA | KeyUsageAlignment | CAKeyUsageCertSign => OfUsage
    case SANPresent | ServerTLSEKU => OfProfile
  }

  // The results hold one error for each rule of the section that is broken, and nothing else.
  ghost predicate Reports(results: seq<LintResult>, section: Section, t: CertTemplate, key: Option<PublicKey>,
                          profile: ProfileConfig) {
    forall r :: r in results <==> r.level == LintError && SectionOf(r.rule) == section && Violates(r.rule, t, key, profile)
  }

  method LintTemplate(t: CertTemplate, key: Option<PublicKey>, profile: ProfileConfig) returns (results: seq<LintResult>)
    ensures Reports(results, OfTemplate, t, key, profile)
  {
    results := [];
    if t.serial.None? {
      results := results + [LintResult(SerialNotNil, LintError)];
    } else {
      var n := t.serial.value;
      if n <= 0 { results := results + [LintResult(SerialPositive, LintError)]; }
      if BitLen(if n < 0 then -n else n) > 159 { results := results + [LintResult(Serial20Octets, LintError)]; }
    }
    if !(t.notBefore < t.notAfter) { results := results + [LintResult(ValidityChronological, LintError)]; }
    if !t.basicConstraintsValid { results := results + [LintResult(BasicConstraintsValid, LintError)]; }
  }

  method LintUsage(t: CertTemplate, key: Option<PublicKey>, profile: ProfileConfig) returns (results: seq<LintResult>)
    ensures Reports(results, OfUsage, t, key, profile)
  {
    results := [];
    if t.isCA != profile.isCA { results := results + [LintResult(BasicConstraintsIsCA, LintError)]; }
    if key.Some? && (key.value.ECDSA? || key.value.Ed25519?) {
      if KeyEncipherment in t.keyUsage { results := results + [LintResult(KeyUsageAlignment, LintError)]; }
    }
    if t.isCA {
      if CertSign !in t.keyUsage { results := results + [LintResult(CAKeyUsageCertSign, LintError)]; }
    }
  }

  method LintProfile(t: CertTemplate, key: Option<PublicKey>, profile: ProfileConfig) returns (results: seq<LintResult>)
    ensures Reports(results, OfProfile, t, key, profile)
  {
    results := [];
    if profile.requireSAN {
      if t.dnsNames == [] && t.ipAddresses == [] && t.emailAddresses == [] && t.uris == [] {
        results := results + [LintResult(SANPresent, LintError)];
      }
    }
    if profile.profileType == ServerTLS {
      var hasServerAuth := IncludesServerAuth(t.extKeyUsage);
      if !hasServerAuth { results := results + [LintResult(ServerTLSEKU, LintError)]; }
    }
  }

  method IncludesServerAuth(usages: seq<ExtKeyUsage>) returns (found: bool)
    ensures found <==> ServerAuth in usages
  {
    for i := 0 to |usages|
      invariant ServerAuth !in usages[..i]
    {
      if usages[i] == ServerAuth { return true; }
    }
    assert usages[..|usages|] == usages;
    found := false;
  }

  // One error for each broken rule, and nothing else.
  method LintCertificate(t: CertTemplate, key: Option<PublicKey>, profile: ProfileConfig)
    returns (results: seq<LintResult>)
    ensures forall r :: r in results <==> r.level == LintError && Violates(r.rule, t, key, profile)
    ensures LintResult(SerialNotNil, LintError) in results <==> t.serial.None?
    ensures LintResult(SerialPositive, LintError) in results <==> t.serial.Some? && t.serial.value <= 0
    ensures LintResult(Serial20Octets, LintError) in results
      <==> t.serial.Some? && BitLen(if t.serial.value < 0 then -t.serial.value else t.serial.value) > 159
    ensures LintResult(ValidityChronological, LintError) in results <==> t.notBefore >= t.notAfter
    ensures LintResult(BasicConstraintsValid, LintError) in results <==> !t.basicConstraintsValid
    ensures LintResult(BasicConstraintsIsCA, LintError) in results <==> t.isCA != profile.isCA
    ensures LintResult(KeyUsageAlignment, LintError) in results
      <==> key.Some? && (key.value.ECDSA? || key.value.Ed25519?) && KeyEncipherment in t.keyUsage
    ensures LintResult(CAKeyUsageCertSign, LintError) in results <==> t.isCA && CertSign !in t.keyUsage
    ensures LintResult(SANPresent, LintError) in results
      <==> profile.requireSAN && t.dnsNames == [] && t.ipAddresses == [] && t.emailAddresses == [] && t.uris == []
    ensures LintResult(ServerTLSEKU, LintError) in results
      <==> profile.profileType == ServerTLS && ServerAuth !in t.extKeyUsage
    ensures HasLintErrors(results) <==> !LintClean(t, key, profile)
  {
    var first := LintTemplate(t, key, profile);
    var second := LintUsage(t, key, profile);
    var third := LintProfile(t, key, profile);
    results := first + second + third;
    assert forall rule :: SectionOf(rule) in [OfTemplate, OfUsage, OfProfile];
    LintDecides(results, t, key, profile);
  }

  predicate HasLintErrors(results: seq<LintResult>) {
    exists i :: 0 <= i < |results| && results[i].level == LintError
  }

  ghost predicate LintClean(t: CertTemplate, key: Option<PublicKey>, profile: ProfileConfig) {
    forall rule :: !Violates(rule, t, key, profile)
  }

  lemma LintDecides(results: seq<LintResult>, t: CertTemplate, key: Option<PublicKey>, profile: ProfileConfig)
    requires forall r :: r in results <==> r.level == LintError && Violates(r.rule, t, key, profile)
    ensures HasLintErrors(results) <==> !LintClean(t, key, profile)
  {
    if rule :| Violates(rule, t, key, profile) {
      var found := LintResult(rule, LintError);
      assert found in results;
      var i :| 0 <= i < |results| && results[i] == found;
    }
    if i :| 0 <= i < |results| && results[i].level == LintError {
      assert results[i] in results;
    }
  }

  // The default policy's names, and the limits of the presets in seconds: no preset's default validity exceeds its limit.
  lemma Presets()
    ensures DEFAULT_POLICY.allowWildcards && !DEFAULT_POLICY.allowInternalDomains
    ensures DEFAULT_POLICY.disallowed
         == ["localhost", ".local", ".internal", ".lan", ".onion", ".test", ".invalid", ".example"]
    ensures SERVER_TLS.allowedMaxValidity == 398 * 86400 && SERVER_TLS.defaultValidity == 90 * 86400
    ensures CLIENT_AUTH.allowedMaxValidity == 730 * 86400 && CLIENT_AUTH.defaultValidity == 365 * 86400
    ensures CODE_SIGNING.allowedMaxValidity == 1095 * 86400 && CODE_SIGNING.defaultValidity == 365 * 86400
    ensures SUB_CA.allowedMaxValidity == 3650 * 86400 && SUB_CA.defaultValidity == 1825 * 86400
    ensures forall name :: GetProfile(name).Some? ==>
      var profile := GetProfile(name).value;
      && profile.profileType == name && 0 < profile.defaultValidity <= profile.allowedMaxValidity
      && profile.isCA == (name == SubCA) && profile.maxPathLenZero == (name == SubCA) && profile.maxPathLen == 0
      && profile.requireSAN == (name == ServerTLS)
      && profile.keyUsage == (if name == SubCA then {CertSign, CRLSign} else {DigitalSignature})
      && profile.extKeyUsage == (if name == ServerTLS then [ServerAuth, ClientAuth]
                                 else if name == ClientAuthProfile then [ClientAuth]
                                 else if name == CodeSigningProfile then [CodeSigning] else [])
  {
  }
}

// Certificate issuance (pkg/ca/authority.go): the checks before signing, the template, and the two signing paths.
// Parsing a request, hashing a key into an identifier and signing a template are foreign calls: their results, or
// functions giving their results, are arguments.
module Issuance {
  import opened Wrappers
  import opened Text
  import opened Policy
  import opened CtLog
  import Reserver

  // A parsed PKCS #10 request. `keyId` is what ComputeSubjectKeyID gives for its key, None for an error.
  datatype Csr = Csr(signatureOk: bool, subject: string, dnsNames: seq<string>, ipAddresses: seq<string>,
                     emailAddresses: seq<string>, uris: seq<string>, publicKey: PublicKey, keyId: Option<seq<byte>>)

  // The key identifier in the intermediate certificate, and the one computed from its key.
  datatype Authority = Authority(policy: Option<PolicyEngine>, intermediateKeyId: seq<byte>, computedKeyId: seq<byte>)

  datatype ExtensionConfig = ExtensionConfig(ocspServers: seq<string>, issuingURLs: seq<string>, crlPoints: seq<string>)

  // A request to sign; `csr` is None when the bytes do not parse, and the two override lists are empty for none.
  datatype Request = Request(serial: Option<int>, csr: Option<Csr>, profile: ProfileConfig, ext: ExtensionConfig,
                             validity: Time, dnsNames: seq<string>, ipAddresses: seq<string>)

  datatype Failure = BadSerial | MalformedCsr | NoProofOfPossession | ValidityExceeded | SanRequired | KeyRejected
                   | NameRejected(error: PolicyError) | KeyIdFailed | LintFailed(results: seq<LintResult>)
                   | SigningFailed | SubmissionFailed | SctListFailed(reason: ListError)

  // CreateCertificate: the encoded certificate for a template and its extra extensions, None for an error.
  type Create = (CertTemplate, seq<Extension>) -> Option<seq<byte>>

  // A log's answer to a pre-certificate: a packed SCT, None for an error. A nil submitter is None itself.
  type Log = seq<byte> -> Option<seq<byte>>

  // ----- What a request asks for -----

  function PolicyOf(a: Authority): PolicyEngine {
    if a.policy.Some? then a.policy.value else DEFAULT_POLICY
  }

  function Validity(req: Request): Time {
    if req.validity <= 0 then req.profile.defaultValidity else req.validity
  }

  function SanDNS(req: Request): seq<string>
    requires req.csr.Some?
  {
    if req.dnsNames != [] then req.dnsNames else req.csr.value.dnsNames
  }

  function SanIP(req: Request): seq<string>
    requires req.csr.Some?
  {
    if req.ipAddresses != [] then req.ipAddresses else req.csr.value.ipAddresses
  }

  predicate NamesAccepted(p: PolicyEngine, names: seq<string>) {
    forall i :: 0 <= i < |names| ==> ValidateDNSName(p, names[i]).None?
  }

  // Everything the authority demands before it assembles a template.
  predicate Admissible(a: Authority, req: Request) {
    && req.serial.Some? && req.serial.value > 0
    && req.csr.Some? && req.csr.value.signatureOk && req.csr.value.keyId.Some?
    && (req.profile.allowedMaxValidity > 0 ==> Validity(req) <= req.profile.allowedMaxValidity)
    && (req.profile.requireSAN ==> SanDNS(req) != [] || SanIP(req) != []
                                   || req.csr.value.emailAddresses != [] || req.csr.value.uris != [])
    && KeyAllowed(PolicyOf(a), req.csr.value.publicKey)
    && NamesAccepted(PolicyOf(a), SanDNS(req))
  }

  function FirstRejected(p: PolicyEngine, names: seq<string>): Option<PolicyError> {
    if names == [] then None
    else
      var err := ValidateDNSName(p, names[0]);
      if err.Some? then err else FirstRejected(p, names[1..])
  }

  // The first check that fails decides the error.
  function Refusal(a: Authority, req: Request): Option<Failure> {
    if req.serial.None? || req.serial.value <= 0 then Some(BadSerial)
    else if req.csr.None? then Some(MalformedCsr)
    else if !req.csr.value.signatureOk then Some(NoProofOfPossession)
    else if 0 < req.profile.allowedMaxValidity < Validity(req) then Some(ValidityExceeded)
    else if req.profile.requireSAN && SanDNS(req) == [] && SanIP(req) == []
         && req.csr.value.emailAddresses == [] && req.csr.value.uris == [] then Some(SanRequired)
    else if !KeyAllowed(PolicyOf(a), req.csr.value.publicKey) then Some(KeyRejected)
    else
      var nameError := FirstRejected(PolicyOf(a), SanDNS(req));
      if nameError.Some? then Some(NameRejected(nameError.value))
      else if req.csr.value.keyId.None? then Some(KeyIdFailed)
      else None
  }

  lemma {:induction false} FirstRejectedNone(p: PolicyEngine, names: seq<string>)
    ensures FirstRejected(p, names).None? <==> NamesAccepted(p, names)
  {
    if names != [] {
      FirstRejectedNone(p, names[1..]);
      assert names == [names[0]] + names[1..];
    }
  }

  // A request is refused exactly when it is not admissible.
  lemma AdmissibleIff(a: Authority, req: Request)
    ensures Refusal(a, req).None? <==> Admissible(a, req)
    ensures Refusal(a, req).Some? ==> !Refusal(a, req).value.LintFailed? && !Refusal(a, req).value.SigningFailed?
  {
    if req.csr.Some? { FirstRejectedNone(PolicyOf(a), SanDNS(req)); }
  }

  function AlignedUsage(usage: set<KeyUsage>, key: PublicKey): set<KeyUsage> {
    if (key.ECDSA? || key.Ed25519?) && DigitalSignature in usage then usage - {KeyEncipherment} else usage
  }

  // The template of a request that passed the checks; t1 and t2 are the two readings of the clock.
  function TemplateFor(a: Authority, req: Request, t1: Time, t2: Time): CertTemplate
    requires req.csr.Some? && req.csr.value.keyId.Some?
  {
    var csr, profile := req.csr.value, req.profile;
    CertTemplate(req.serial, csr.subject, SanDNS(req), SanIP(req), csr.emailAddresses, csr.uris,
                 t1 - 300, t2 + Validity(req), AlignedUsage(profile.keyUsage, csr.publicKey), profile.extKeyUsage,
                 true, profile.isCA, profile.maxPathLen, profile.maxPathLenZero, csr.keyId.value,
                 if a.intermediateKeyId == [] then a.computedKeyId else a.intermediateKeyId,
                 req.ext.ocspServers, req.ext.issuingURLs, req.ext.crlPoints)
  }

  // What a certificate must hold, field by field: what the request asks for, what the profile sets, who the issuer is.
  // And what it may not be issued without.
  ghost predicate IsWhatWasAsked(a: Authority, req: Request, t1: Time, t2: Time, t: CertTemplate) {
    var csr, profile, ext := req.csr, req.profile, req.ext;
    && csr.Some? && csr.value.signatureOk && req.serial.Some? && req.serial.value > 0
    && t.serial == req.serial
    && t.subject == csr.value.subject
    && t.dnsNames == (if req.dnsNames != [] then req.dnsNames else csr.value.dnsNames)
    && t.ipAddresses == (if req.ipAddresses != [] then req.ipAddresses else csr.value.ipAddresses)
    && t.emailAddresses == csr.value.emailAddresses
    && t.uris == csr.value.uris
    && t.notBefore == t1 - 300
    && t.notAfter == t2 + (if req.validity > 0 then req.validity else profile.defaultValidity)
    && (forall u :: u in t.keyUsage <==> u in profile.keyUsage && !(u == KeyEncipherment && EncryptsNothing(csr.value, profile)))
    && t.extKeyUsage == profile.extKeyUsage
    && t.basicConstraintsValid && t.isCA == profile.isCA
    && t.maxPathLen == profile.maxPathLen && t.maxPathLenZero == profile.maxPathLenZero
    && Some(t.subjectKeyId) == csr.value.keyId
    && t.authorityKeyId == (if a.intermediateKeyId != [] then a.intermediateKeyId else a.computedKeyId)
    && t.ocspServers == ext.ocspServers
    && t.issuingURLs == ext.issuingURLs
    && t.crlPoints == ext.crlPoints
    && (profile.allowedMaxValidity > 0 ==> t.notAfter <= t2 + profile.allowedMaxValidity)
    && (profile.requireSAN ==> t.dnsNames != [] || t.ipAddresses != [] || t.emailAddresses != [] || t.uris != [])
    && KeyAllowed(if a.policy.Some? then a.policy.value else DEFAULT_POLICY, csr.value.publicKey)
    && forall i :: 0 <= i < |t.dnsNames| ==>
         ValidateDNSName(if a.policy.Some? then a.policy.value else DEFAULT_POLICY, t.dnsNames[i]).None?
  }

  // An elliptic-curve key that signs.
  predicate EncryptsNothing(csr: Csr, profile: ProfileConfig) {
    (csr.publicKey.ECDSA? || csr.publicKey.Ed25519?) && DigitalSignature in profile.keyUsage
  }

  lemma TemplateIsWhatWasAsked(a: Authority, req: Request, t1: Time, t2: Time)
    requires Refusal(a, req).None?
    ensures IsWhatWasAsked(a, req, t1, t2, TemplateFor(a, req, t1, t2))
  {
    AdmissibleIff(a, req);
    hide KeyAllowed, ValidateDNSName, Refusal;
  }

  // That template breaks no lint rule.
  ghost predicate Clean(a: Authority, req: Request, t1: Time, t2: Time)
    requires req.csr.Some? && req.csr.value.keyId.Some?
  {
    LintClean(TemplateFor(a, req, t1, t2), Some(req.csr.value.publicKey), req.profile)
  }

  // ----- The two signing paths -----

  function Signed(made: Option<seq<byte>>): Result<seq<byte>, Failure> {
    if made.None? then Err(SigningFailed) else Ok(made.value)
  }

  method ValidateNames(p: PolicyEngine, names: seq<string>) returns (err: Option<PolicyError>)
    ensures err == FirstRejected(p, names)
  {
    for i := 0 to |names|
      invariant FirstRejected(p, names) == FirstRejected(p, names[i..])
    {
      err := ValidateDNSName(p, names[i]);
      assert names[i..][1..] == names[i + 1..];
      if err.Some? { return; }
    }
    err := None;
  }

  // Pre-issuance linting: an error exactly when the template breaks a rule.
  method Lint(tmpl: CertTemplate, key: PublicKey, profile: ProfileConfig) returns (failure: Option<Failure>)
    ensures failure.None? <==> LintClean(tmpl, Some(key), profile)
    ensures failure.Some? ==> failure.value.LintFailed?
  {
    var lintResults := LintCertificate(tmpl, Some(key), profile);
    failure := if HasLintErrors(lintResults) then Some(LintFailed(lintResults)) else None;
  }

  // The checks of SignCertificateWithProfile, up to the key identifier.
  method CheckForProfile(a: Authority, req: Request) returns (failure: Option<Failure>)
    ensures failure == Refusal(a, req)
  {
    hide KeyAllowed, FirstRejected;
    if req.serial.None? || req.serial.value <= 0 { return Some(BadSerial); }
    if req.csr.None? { return Some(MalformedCsr); }
    var csr, profile := req.csr.value, req.profile;
    if !csr.signatureOk { return Some(NoProofOfPossession); }
    var policy := if a.policy.None? then DEFAULT_POLICY else a.policy.value;

    var validity := req.validity;
    if validity <= 0 { validity := profile.defaultValidity; }
    if profile.allowedMaxValidity > 0 && validity > profile.allowedMaxValidity { return Some(ValidityExceeded); }

    var sanDNS := csr.dnsNames;
    if |req.dnsNames| > 0 { sanDNS := req.dnsNames; }
    var sanIP := csr.ipAddresses;
    if |req.ipAddresses| > 0 { sanIP := req.ipAddresses; }
    if profile.requireSAN {
      if |sanDNS| == 0 && |sanIP| == 0 && |csr.emailAddresses| == 0 && |csr.uris| == 0 { return Some(SanRequired); }
    }

    var keyError := ValidatePublicKey(policy, csr.publicKey);
    if keyError.Some? { return Some(KeyRejected); }
    var nameError := ValidateNames(policy, sanDNS);
    if nameError.Some? { return Some(NameRejected(nameError.value)); }
    failure := if csr.keyId.None? then Some(KeyIdFailed) else None;
  }

  method SignCertificateWithProfile(a: Authority, req: Request, t1: Time, t2: Time, create: Create)
    returns (r: Result<seq<byte>, Failure>)
    ensures Refusal(a, req).Some? ==> r == Err(Refusal(a, req).value)
    ensures Refusal(a, req).None? ==>
      && (r.Err? && r.error.LintFailed? <==> !Clean(a, req, t1, t2))
      && (Clean(a, req, t1, t2) ==> r == Signed(create(TemplateFor(a, req, t1, t2), [])))
    ensures r.Ok? ==> exists t :: create(t, []) == Some(r.value) && IsWhatWasAsked(a, req, t1, t2, t)
  {
    AdmissibleIff(a, req);
    hide Refusal, LintClean, KeyAllowed, NamesAccepted, Signed, IsWhatWasAsked;
    var failure := CheckForProfile(a, req);
    if failure.Some? { return Err(failure.value); }
    var csr, profile := req.csr.value, req.profile;

    var validity := req.validity;
    if validity <= 0 { validity := profile.defaultValidity; }
    var sanDNS := csr.dnsNames;
    if |req.dnsNames| > 0 { sanDNS := req.dnsNames; }
    var sanIP := csr.ipAddresses;
    if |req.ipAddresses| > 0 { sanIP := req.ipAddresses; }

    var akid := a.intermediateKeyId;
    if |akid| == 0 { akid := a.computedKeyId; }

    var keyUsage := profile.keyUsage;
    if csr.publicKey.ECDSA? || csr.publicKey.Ed25519? {
      if DigitalSignature in keyUsage { keyUsage := keyUsage - {KeyEncipherment}; }
    }

    var tmpl := CertTemplate(req.serial, csr.subject, sanDNS, sanIP, csr.emailAddresses, csr.uris, t1 - 300,
                             t2 + validity, keyUsage, profile.extKeyUsage, true, profile.isCA, profile.maxPathLen,
                             profile.maxPathLenZero, csr.keyId.value, akid,
                             req.ext.ocspServers, req.ext.issuingURLs, req.ext.crlPoints);
    assert tmpl == TemplateFor(a, req, t1, t2);
    TemplateIsWhatWasAsked(a, req, t1, t2);
    var lintFailure := Lint(tmpl, csr.publicKey, profile);
    if lintFailure.Some? { return Err(lintFailure.value); }
    r := SignOnce(tmpl, create);
  }

  // CreateCertificate on a template without extra extensions.
  method SignOnce(tmpl: CertTemplate, create: Create) returns (r: Result<seq<byte>, Failure>)
    ensures r == Signed(create(tmpl, []))
    ensures if r.Ok? then create(tmpl, []) == Some(r.value) else r.error == SigningFailed
  {
    r := Signed(create(tmpl, []));
  }

  // The SCTs the logs answer with, in order, nil submitters skipped; None once a log fails.
  function CollectedScts(logs: seq<Option<Log>>, pre: seq<byte>): Option<seq<seq<byte>>> {
    if logs == [] then Some([])
    else
      var before, last := CollectedScts(logs[..|logs| - 1], pre), logs[|logs| - 1];
      if before.None? || last.None? then before
      else
        var answer := last.value(pre);
        if answer.None? then None else Some(before.value + [answer.value])
  }

  method CollectScts(logs: seq<Option<Log>>, pre: seq<byte>) returns (scts: Option<seq<seq<byte>>>)
    ensures scts == CollectedScts(logs, pre)
  {
    var collected: seq<seq<byte>> := [];
    for i := 0 to |logs|
      invariant CollectedScts(logs[..i], pre) == Some(collected)
    {
      assert logs[..i + 1][..i] == logs[..i];
      if logs[i].None? { continue; }
      var sct := logs[i].value(pre);
      if sct.None? {
        FailureIsFinal(logs, pre, i + 1);
        return None;
      }
      collected := collected + [sct.value];
    }
    assert logs[..|logs|] == logs;
    scts := Some(collected);
  }

  lemma {:induction false} FailureIsFinal(logs: seq<Option<Log>>, pre: seq<byte>, i: nat)
    requires i <= |logs| && CollectedScts(logs[..i], pre).None?
    ensures CollectedScts(logs, pre).None?
  {
    if i == |logs| {
      assert logs[..i] == logs;
    } else {
      assert logs[..|logs| - 1][..i] == logs[..i];
      FailureIsFinal(logs[..|logs| - 1], pre, i);
    }
  }

  // The extra extensions of the final certificate.
  function FinalExtensions(scts: seq<seq<byte>>): seq<Extension>
    requires scts == [] || Serializable(scts)
  {
    if scts == [] then []
    else
      SCTListRoundTrip(scts);
      [Extension(OID_SCT_LIST, false, OctetString(BigEndian.Fixed(|Prefixed(scts)|, 2) + Prefixed(scts)))]
  }

  // The certificate that signing with transparency logs comes to once the checks are passed: the logs see the
  // poisoned template signed, and their answers go into the final one.
  function CtResult(t: CertTemplate, logs: seq<Option<Log>>, create: Create): Option<seq<byte>> {
    var pre := create(t, Poisoned([]));
    if pre.None? then None
    else
      var scts := CollectedScts(logs, pre.value);
      if scts.None? || (scts.value != [] && !Serializable(scts.value)) then None
      else create(t, FinalExtensions(scts.value))
  }

  // The checks of SignCertificateWithCT, up to the key identifier.
  method CheckForCT(a: Authority, req: Request) returns (failure: Option<Failure>)
    requires req.ipAddresses == []
    ensures failure == Refusal(a, req)
  {
    hide KeyAllowed, FirstRejected;
    if req.serial.None? || req.serial.value <= 0 { return Some(BadSerial); }
    if req.csr.None? { return Some(MalformedCsr); }
    var csr, profile := req.csr.value, req.profile;
    if !csr.signatureOk { return Some(NoProofOfPossession); }
    var policy := if a.policy.None? then DEFAULT_POLICY else a.policy.value;

    var validity := req.validity;
    if validity <= 0 { validity := profile.defaultValidity; }
    if profile.allowedMaxValidity > 0 && validity > profile.allowedMaxValidity { return Some(ValidityExceeded); }

    var sanDNS := csr.dnsNames;
    if |req.dnsNames| > 0 { sanDNS := req.dnsNames; }
    if profile.requireSAN && |sanDNS| == 0 && |csr.ipAddresses| == 0 && |csr.emailAddresses| == 0 && |csr.uris| == 0 {
      return Some(SanRequired);
    }

    var keyError := ValidatePublicKey(policy, csr.publicKey);
    if keyError.Some? { return Some(KeyRejected); }
    var nameError := ValidateNames(policy, sanDNS);
    if nameError.Some? { return Some(NameRejected(nameError.value)); }
    failure := if csr.keyId.None? then Some(KeyIdFailed) else None;
  }

  method SignCertificateWithCT(a: Authority, req: Request, logs: seq<Option<Log>>, t1: Time, t2: Time, create: Create)
    returns (r: Result<seq<byte>, Failure>)
    requires req.ipAddresses == []
    ensures Refusal(a, req).Some? ==> r == Err(Refusal(a, req).value)
    ensures Refusal(a, req).None? ==>
      && (r.Err? && r.error.LintFailed? <==> !Clean(a, req, t1, t2))
      && (Clean(a, req, t1, t2) ==>
           var final := CtResult(TemplateFor(a, req, t1, t2), logs, create);
           if final.Some? then r == Ok(final.value) else r.Err?)
    ensures r.Ok? ==> exists t, exts :: create(t, exts) == Some(r.value) && IsWhatWasAsked(a, req, t1, t2, t)
  {
    AdmissibleIff(a, req);
    hide Refusal, LintClean, KeyAllowed, NamesAccepted, IsWhatWasAsked;
    var failure := CheckForCT(a, req);
    if failure.Some? { return Err(failure.value); }
    var csr, profile := req.csr.value, req.profile;

    var validity := req.validity;
    if validity <= 0 { validity := profile.defaultValidity; }
    var sanDNS := csr.dnsNames;
    if |req.dnsNames| > 0 { sanDNS := req.dnsNames; }

    var akid := a.intermediateKeyId;
    if |akid| == 0 { akid := a.computedKeyId; }

    var keyUsage := profile.keyUsage;
    if csr.publicKey.ECDSA? || csr.publicKey.Ed25519? {
      if DigitalSignature in keyUsage { keyUsage := keyUsage - {KeyEncipherment}; }
    }

    var tmpl := CertTemplate(req.serial, csr.subject, sanDNS, csr.ipAddresses, csr.emailAddresses, csr.uris, t1 - 300,
                             t2 + validity, keyUsage, profile.extKeyUsage, true, profile.isCA, profile.maxPathLen,
                             profile.maxPathLenZero, csr.keyId.value, akid,
                             req.ext.ocspServers, req.ext.issuingURLs, req.ext.crlPoints);
    assert tmpl == TemplateFor(a, req, t1, t2);
    TemplateIsWhatWasAsked(a, req, t1, t2);
    var lintFailure := Lint(tmpl, csr.publicKey, profile);
    if lintFailure.Some? { return Err(lintFailure.value); }
    r := SignWithLogs(tmpl, logs, create);
  }

  // The rest of SignCertificateWithCT, after the lint.
  method SignWithLogs(fields: CertTemplate, logs: seq<Option<Log>>, create: Create)
    returns (r: Result<seq<byte>, Failure>)
    ensures var final := CtResult(fields, logs, create);
      if final.Some? then r == Ok(final.value) else r.Err? && !r.error.LintFailed?
  {
    var tmpl := new Template(fields, []);
    var preTmpl := BuildPreCertificateTemplate(tmpl);
    var pre := create(preTmpl.fields, preTmpl.extraExtensions);
    if pre.None? { return Err(SigningFailed); }

    var collected := CollectScts(logs, pre.value);
    if collected.None? { return Err(SubmissionFailed); }
    var scts := collected.value;

    if |scts| > 0 {
      var list := SerializeSCTList(scts);
      if list.Err? { return Err(SctListFailed(list.error)); }
      EmbedSCTList(tmpl, list.value);
    }
    assert |scts| == 0 || Serializable(scts);
    assert tmpl.extraExtensions == FinalExtensions(scts);
    r := Signed(create(tmpl.fields, tmpl.extraExtensions));
  }

  // ----- When the lint can fail -----

  lemma {:induction false} BitLenIff(n: nat, bits: nat)
    ensures BitLen(n) <= bits <==> n < Reserver.Pow2(bits)
  {
    if n > 0 && bits > 0 { BitLenIff(n / 2, bits - 1); }
  }

  // The profile asks for nothing that the lint forbids for the key.
  predicate ProfileConsistent(profile: ProfileConfig, key: PublicKey) {
    && ((key.ECDSA? || key.Ed25519?) && KeyEncipherment in profile.keyUsage ==> DigitalSignature in profile.keyUsage)
    && (profile.isCA ==> CertSign in profile.keyUsage)
    && (profile.profileType == ServerTLS ==> ServerAuth in profile.extKeyUsage)
  }

  // For every profile, the lint of an admissible request fails exactly on a serial that is too wide, a validity that
  // ends before it begins, or a profile that asks for what the lint forbids.
  lemma CleanIff(a: Authority, req: Request, t1: Time, t2: Time)
    requires Admissible(a, req)
    ensures Clean(a, req, t1, t2)
      <==> && req.serial.value < Reserver.Pow2(159)
           && t1 - 300 < t2 + Validity(req)
           && ProfileConsistent(req.profile, req.csr.value.publicKey)
  {
    hide Violates, LintClean, NamesAccepted, KeyAllowed, BitLen;
    var t, key, profile := TemplateFor(a, req, t1, t2), req.csr.value.publicKey, req.profile;
    BitLenIff(req.serial.value, 159);
    LintCleanIff(t, key, profile);
    UsageAligned(profile.keyUsage, key);
  }

  lemma UsageAligned(usage: set<KeyUsage>, key: PublicKey)
    ensures CertSign in AlignedUsage(usage, key) <==> CertSign in usage
    ensures (key.ECDSA? || key.Ed25519?) ==>
      (KeyEncipherment in AlignedUsage(usage, key) <==> KeyEncipherment in usage && DigitalSignature !in usage)
  {
  }

  // The rules that the checks before assembly do not already settle.
  lemma LintCleanIff(t: CertTemplate, key: PublicKey, profile: ProfileConfig)
    requires t.serial.Some? && t.serial.value > 0 && t.basicConstraintsValid && t.isCA == profile.isCA
    requires profile.requireSAN ==> HasSAN(t)
    ensures LintClean(t, Some(key), profile)
      <==> && BitLen(t.serial.value) <= 159 && t.notBefore < t.notAfter
           && !((key.ECDSA? || key.Ed25519?) && KeyEncipherment in t.keyUsage)
           && (t.isCA ==> CertSign in t.keyUsage)
           && (profile.profileType == ServerTLS ==> ServerAuth in t.extKeyUsage)
  {
    var k := Some(key);
    assert Violates(Serial20Octets, t, k, profile) <==> BitLen(t.serial.value) > 159;
    assert Violates(ValidityChronological, t, k, profile) <==> t.notBefore >= t.notAfter;
    assert Violates(KeyUsageAlignment, t, k, profile)
      <==> (key.ECDSA? || key.Ed25519?) && KeyEncipherment in t.keyUsage;
    assert Violates(CAKeyUsageCertSign, t, k, profile) <==> t.isCA && CertSign !in t.keyUsage;
    assert Violates(ServerTLSEKU, t, k, profile)
      <==> profile.profileType == ServerTLS && ServerAuth !in t.extKeyUsage;
  }

  lemma PresetConsistent(name: ProfileType, key: PublicKey)
    requires GetProfile(name).Some?
    ensures var profile := GetProfile(name).value;
      ProfileConsistent(profile, key) && profile.defaultValidity > 0
  {
    assert ServerAuth == SERVER_TLS.extKeyUsage[0];
  }

  // With a preset profile, a generated serial and a clock that does not run backwards, the lint never fails.
  lemma PresetNeverFailsLint(a: Authority, req: Request, name: ProfileType, bits: nat, t1: Time, t2: Time)
    requires Admissible(a, req) && GetProfile(name) == Some(req.profile)
    requires bits <= Reserver.MAX_SERIAL_BITS && req.serial.value < Reserver.Pow2(bits) && t1 <= t2
    ensures Clean(a, req, t1, t2)
  {
    hide NamesAccepted, KeyAllowed, GetProfile, ProfileConsistent, Clean, Reserver.Pow2;
    PresetConsistent(name, req.csr.value.publicKey);
    Reserver.Pow2Monotone(bits, 159);
    CleanIff(a, req, t1, t2);
  }

  // Section 3.3 of RFC 6962: what the logs answered can be read back, in order, from the final certificate's one extra
  // extension; section 3.1: without it the final certificate has the pre-certificate's extensions less the poison.
  lemma FinalCarriesScts(scts: seq<seq<byte>>)
    requires Serializable(scts)
    ensures var final := FinalExtensions(scts);
      && |final| == 1 && final[0].id == OID_SCT_LIST && OID_SCT_LIST == [1, 3, 6, 1, 4, 1, 11129, 2, 4, 2]
      && !final[0].critical && ParseSCTList(final[0].value) == Some(scts)
      && Without(final, OID_SCT_LIST) == Without(Poisoned([]), OID_CT_POISON)
  {
    SCTListRoundTrip(scts);
    var list := FinalExtensions(scts)[0].value;
    assert FinalExtensions(scts) == Embedded([], list);
    PreCertificateMatchesFinalIff([], list);
  }

  // The answers collected: those of the logs that are not nil, in order, as long as each of them answers.
  lemma CollectedLaw(logs: seq<Option<Log>>, log: Option<Log>, pre: seq<byte>)
    ensures CollectedScts([], pre) == Some([])
    ensures CollectedScts(logs + [None], pre) == CollectedScts(logs, pre)
    ensures log.Some? ==>
      CollectedScts(logs + [log], pre)
      == if CollectedScts(logs, pre).None? || log.value(pre).None? then None
         else Some(CollectedScts(logs, pre).value + [log.value(pre).value])
  {
    assert (logs + [log])[..|logs|] == logs && (logs + [None])[..|logs|] == logs;
  }

  // What is signed with logs: first the template with the critical poison alone, for the logs to see; then, when every
  // log answered, the template with the list of their answers alone, or with nothing when there was none.
  lemma SignedWithLogs(t: CertTemplate, logs: seq<Option<Log>>, create: Create)
    requires CtResult(t, logs, create).Some?
    ensures var pre := create(t, [Extension([1, 3, 6, 1, 4, 1, 11129, 2, 4, 3], true, [5, 0])]);
      && pre.Some? && CollectedScts(logs, pre.value).Some?
      && var scts := CollectedScts(logs, pre.value).value;
         if scts == [] then create(t, []) == CtResult(t, logs, create)
         else exists list ::
           create(t, [Extension(OID_SCT_LIST, false, list)]) == CtResult(t, logs, create) && ParseSCTList(list) == Some(scts)
  {
    PoisonedNothing();
    var pre := create(t, Poisoned([]));
    var scts := CollectedScts(logs, pre.value).value;
    hide Poisoned, CollectedScts;
    if scts != [] {
      FinalCarriesScts(scts);
      var final := FinalExtensions(scts);
      hide FinalExtensions, ParseSCTList, Serializable;
      assert final == [Extension(OID_SCT_LIST, false, final[0].value)];
    }
  }

  // The keys that a policy allows: RSA moduli of at least the least size with an exponent of at least 65537, curves on
  // the list with the point on the curve, and Ed25519 keys of 32 octets.
  lemma KeyPolicy(p: PolicyEngine, key: PublicKey)
    requires p.minRSAKeySize > 0
    ensures KeyAllowed(p, key) <==>
      || (key.RSA? && key.n >= Reserver.Pow2(p.minRSAKeySize - 1) && key.e >= 65537)
      || (key.ECDSA? && key.curve in p.allowedCurves && key.onCurve)
      || (key.Ed25519? && key.length == 32)
    ensures DEFAULT_POLICY.minRSAKeySize == 2048 && DEFAULT_POLICY.allowedCurves == [P256, P384, P521]
  {
    if key.RSA? { BitLenIff(key.n, p.minRSAKeySize - 1); }
    hide BitLen, Reserver.Pow2;
  }
}

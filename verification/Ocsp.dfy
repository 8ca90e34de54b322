// The certificate status decision of the OCSP responder (pkg/protocols/ocsp/responder.go), and its agreement with
// the certificate revocation lists of the same store.
module Ocsp {
  import opened Wrappers
  import opened Text
  import opened Serials
  import opened StoreSpec
  import opened MemoryStore
  import Crl
  import StoreHistory

  datatype CertStatus = Good | Revoked | Unknown

  datatype Answer = Answer(status: CertStatus, revTime: Time, reason: int) | StorageError

  // The answer assembled from the responder's two reads, GetCertificate and (for a revoked certificate) GetRevocation.
  function Decide(certificate: Output, revocation: Output): Answer {
    if certificate == Failed(NotFound) then Answer(Unknown, ZERO_TIME, 0)
    else if !certificate.Found? then StorageError
    else if !certificate.cert.revoked then Answer(Good, ZERO_TIME, 0)
    else if revocation.FoundRevocation? then Answer(Revoked, revocation.rev.revokedAt, revocation.rev.reason)
    else Answer(Revoked, ZERO_TIME, 0)
  }

  function SerialHex(serialNumber: int): string {
    NormalizeSerial(Text16(serialNumber))
  }

  // The answer when the store is `s` at the first read and `s'` at the second.
  function AnswerAcross(s: State, s': State, serialNumber: int): Answer {
    Decide(GetCertificate(s, SerialHex(serialNumber)), LookupRevocation(s', SerialHex(serialNumber)))
  }

  method Status(store: MemoryStorage, serialNumber: int) returns (answer: Answer)
    requires store.Valid()
    ensures answer == AnswerAcross(store.View(), store.View(), serialNumber)
  {
    var status := Good;
    var revTime: Time := ZERO_TIME;
    var reason := 0;
    var serialHex := NormalizeSerial(Text16(serialNumber));
    var err, cert := store.GetCertificate(serialHex);
    if err == Some(NotFound) {
      status := Unknown;
    } else if cert == null {
      return StorageError;
    } else if cert.revoked {
      status := Revoked;
      var revRec := store.GetRevocation(serialHex);
      if revRec.FoundRevocation? {
        revTime := revRec.rev.revokedAt;
        reason := revRec.rev.reason;
      }
    } else {
      status := Good;
    }
    answer := Answer(status, revTime, reason);
  }

  // ----- Stores filled the way the issuers fill them -----

  // Every stored certificate has a canonical serial, and is flagged only together with a revocation record.
  ghost predicate Issued(s: State) {
    && Inv(s)
    && forall k :: k in s.certs ==> Canonical(k) && (s.certs[k].revoked ==> k in s.revocations)
  }

  // The saves that ACME and EST perform: a formatted serial, not revoked.
  ghost predicate IssuerOp(op: Op) {
    op.Save? && op.cert.Some? ==> Canonical(op.cert.value.serial) && !op.cert.value.revoked
  }

  lemma IssuerStepKeeps(s: State, op: Op, s': State, out: Output)
    requires Issued(s) && IssuerOp(op) && Next(s, op, s', out)
    ensures Issued(s')
  {
    StepKeepsInv(s, op, s', out);
    if op.Save? && op.cert.Some? {
      var n := CanonicalParses(op.cert.value.serial);
    }
  }

  lemma {:induction false} IssuerRunIssued(states: seq<State>, ops: seq<Op>, outs: seq<Output>, i: nat)
    requires Run(states, ops, outs) && Issued(states[0]) && i <= |ops|
    requires forall j :: 0 <= j < |ops| ==> IssuerOp(ops[j])
    ensures Issued(states[i])
  {
    if i > 0 {
      IssuerRunIssued(states, ops, outs, i - 1);
      IssuerStepKeeps(states[i - 1], ops[i - 1], states[i], outs[i - 1]);
    }
  }

  // ----- Agreement with the CRL -----

  lemma LookupByNumber(s: State, n: int)
    ensures SerialHex(n) == Text16(n)
    ensures GetCertificate(s, SerialHex(n))
         == if Text16(n) in s.certs then Found(s.certs[Text16(n)].(serial := Text16(n))) else Failed(NotFound)
    ensures LookupRevocation(s, SerialHex(n))
         == if Text16(n) in s.revocations then FoundRevocation(s.revocations[Text16(n)]) else Failed(NotFound)
  {
    NormalizeFixesFormatted(n);
  }

  // The number under which a CRL lists a revocation.
  function NumberOf(r: Revocation): int
    requires Crl.Parses(r)
  {
    Crl.EntryOf(r).serial
  }

  ghost predicate AllParse(s: State) {
    forall k :: k in s.revocations ==> Crl.Parses(s.revocations[k])
  }

  predicate Listed(entries: seq<Crl.Entry>, n: int) {
    exists i :: 0 <= i < |entries| && entries[i].serial == n
  }

  // OCSP and the CRL say the same about n: Revoked with a time and a reason exactly when the CRL lists n with them, and
  // it lists n at most once; Good exactly when n's certificate is stored and not listed; Unknown exactly when it is not
  // stored.
  ghost predicate ViewsAgree(s: State, entries: seq<Crl.Entry>, n: int) {
    var answer := AnswerAcross(s, s, n);
    && (forall at, reason :: answer == Answer(Revoked, at, reason) <==> Crl.Entry(n, at, reason) in entries)
    && (answer == Answer(Good, ZERO_TIME, 0) <==> Text16(n) in s.certs && !Listed(entries, n))
    && (answer == Answer(Unknown, ZERO_TIME, 0) <==> Text16(n) !in s.certs)
    && answer != StorageError
    && (forall i, j :: 0 <= i < j < |entries| ==> !(entries[i].serial == n && entries[j].serial == n))
  }

  // Every revoked serial is the text of its own number.
  ghost predicate RevokedCanonically(s: State)
    requires AllParse(s)
  {
    forall k :: k in s.revocations ==> k == Text16(NumberOf(s.revocations[k]))
  }

  // Every flagged certificate that OCSP can find has a revocation record.
  ghost predicate FlagsRecorded(s: State) {
    forall n :: Text16(n) in s.certs && s.certs[Text16(n)].revoked ==> Text16(n) in s.revocations
  }

  // The entries of a CRL are those of the recorded revocations, and equal numbers in two places are two records.
  lemma EntriesAreRecords(s: State, l: seq<Revocation>, entries: seq<Crl.Entry>)
    requires Inv(s) && AllParse(s) && IsListing(s.revocations, l) && Crl.Lists(entries, l)
    ensures forall i :: 0 <= i < |entries| ==>
      l[i].serial in s.revocations && s.revocations[l[i].serial] == l[i] && entries[i] == Crl.EntryOf(l[i])
    ensures forall k :: k in s.revocations ==>
      exists i :: 0 <= i < |entries| && entries[i] == Crl.EntryOf(s.revocations[k]) && l[i] == s.revocations[k]
    ensures forall i, j :: 0 <= i < j < |entries| ==> l[i].serial != l[j].serial
  {
    ListingEntries(s, l);
    forall i | 0 <= i < |entries| ensures l[i].serial in s.revocations && s.revocations[l[i].serial] == l[i] {
      assert l[i] in l;
    }
    forall k | k in s.revocations ensures
      exists i :: 0 <= i < |entries| && entries[i] == Crl.EntryOf(s.revocations[k]) && l[i] == s.revocations[k]
    {
      assert s.revocations[k] in l;
      var i :| 0 <= i < |l| && l[i] == s.revocations[k];
      assert entries[i] == Crl.EntryOf(l[i]);
    }
  }

  // The answer and the entry of a number with a record of its own, when records are filed canonically.
  lemma CanonicalEntries(s: State, l: seq<Revocation>, entries: seq<Crl.Entry>, n: int)
    requires Inv(s) && AllParse(s) && RevokedCanonically(s) && IsListing(s.revocations, l) && Crl.Lists(entries, l)
    ensures forall i :: 0 <= i < |entries| && entries[i].serial == n ==>
      Text16(n) in s.revocations && l[i] == s.revocations[Text16(n)]
    ensures Text16(n) in s.revocations ==>
      NumberOf(s.revocations[Text16(n)]) == n && Crl.EntryOf(s.revocations[Text16(n)]) in entries
    ensures forall i, j :: 0 <= i < j < |entries| ==> !(entries[i].serial == n && entries[j].serial == n)
  {
    hide Crl.Parses, Text16, NormalizeSerial, SetString16;
    EntriesAreRecords(s, l, entries);
    if Text16(n) in s.revocations {
      Text16Injective(NumberOf(s.revocations[Text16(n)]), n);
    }
  }

  lemma AgreeIfFiled(s: State, l: seq<Revocation>, entries: seq<Crl.Entry>, n: int)
    requires Inv(s) && AllParse(s) && RevokedCanonically(s) && FlagsRecorded(s)
    requires IsListing(s.revocations, l) && Crl.Lists(entries, l)
    ensures ViewsAgree(s, entries, n)
  {
    hide Text16, NormalizeSerial, SetString16, RevokedCanonically;
    LookupByNumber(s, n);
    CanonicalEntries(s, l, entries, n);
    var answer := AnswerAcross(s, s, n);
    if Text16(n) in s.revocations {
      var rev := s.revocations[Text16(n)];
      assert answer == Answer(Revoked, rev.revokedAt, rev.reason);
      var i :| 0 <= i < |entries| && entries[i] == Crl.EntryOf(rev);
      assert entries[i].serial == n;
      forall at, reason | Crl.Entry(n, at, reason) in entries ensures at == rev.revokedAt && reason == rev.reason {
        var j :| 0 <= j < |entries| && entries[j] == Crl.Entry(n, at, reason);
        assert i == j;
      }
    } else {
      assert forall i :: 0 <= i < |entries| ==> entries[i].serial != n;
    }
  }

  // Each record carries the time of its revocation.
  ghost predicate Stamped(s: State) {
    forall k :: k in s.revocations ==> s.revocations[k].revokedAt != ZERO_TIME
  }

  lemma AgreeOnlyIfFiledUnderNumber(s: State, l: seq<Revocation>, entries: seq<Crl.Entry>, k: string)
    requires Inv(s) && AllParse(s) && Stamped(s) && IsListing(s.revocations, l) && Crl.Lists(entries, l)
    requires k in s.revocations && ViewsAgree(s, entries, NumberOf(s.revocations[k]))
    ensures k == Text16(NumberOf(s.revocations[k]))
  {
    hide Text16, NormalizeSerial, SetString16;
    EntriesAreRecords(s, l, entries);
    var r := s.revocations[k];
    var n := NumberOf(r);
    LookupByNumber(s, n);
    assert Crl.Entry(n, r.revokedAt, r.reason) in entries;
    assert AnswerAcross(s, s, n) == Answer(Revoked, r.revokedAt, r.reason);
    assert Text16(n) in s.revocations;
    OwnNumber(s, n);
    var i :| 0 <= i < |entries| && entries[i] == Crl.EntryOf(r) && l[i] == r;
    var own := s.revocations[Text16(n)];
    var j :| 0 <= j < |entries| && entries[j] == Crl.EntryOf(own) && l[j] == own;
    assert i == j;
  }

  // A record filed under the text of n is listed as n.
  lemma OwnNumber(s: State, n: int)
    requires Inv(s) && AllParse(s) && Text16(n) in s.revocations
    ensures NumberOf(s.revocations[Text16(n)]) == n
  {
    NormalizeFixesFormatted(n);
    SetStringInvertsText(n);
  }

  lemma AgreeOnlyIfRecorded(s: State, l: seq<Revocation>, entries: seq<Crl.Entry>, n: int)
    requires Inv(s) && AllParse(s) && Stamped(s) && IsListing(s.revocations, l) && Crl.Lists(entries, l)
    requires Text16(n) in s.certs && s.certs[Text16(n)].revoked && ViewsAgree(s, entries, n)
    ensures Text16(n) in s.revocations
  {
    hide Text16, NormalizeSerial, SetString16;
    LookupByNumber(s, n);
    EntriesAreRecords(s, l, entries);
    assert forall i :: 0 <= i < |entries| ==> entries[i].revokedAt != ZERO_TIME;
    assert Crl.Entry(n, ZERO_TIME, 0) !in entries;
  }

  // For a store whose revoked serials are hexadecimal and whose records are stamped: OCSP and the CRL agree on every
  // number exactly when every revoked serial is the text of its number and every flagged certificate that OCSP can find
  // has its record.
  lemma ViewsAgreeIff(s: State, l: seq<Revocation>, entries: seq<Crl.Entry>)
    requires Inv(s) && AllParse(s) && Stamped(s) && IsListing(s.revocations, l) && Crl.Lists(entries, l)
    ensures (forall n :: ViewsAgree(s, entries, n)) <==> RevokedCanonically(s) && FlagsRecorded(s)
  {
    hide Text16, ViewsAgree;
    if RevokedCanonically(s) && FlagsRecorded(s) {
      forall n ensures ViewsAgree(s, entries, n) { AgreeIfFiled(s, l, entries, n); }
    } else if forall n :: ViewsAgree(s, entries, n) {
      forall k | k in s.revocations ensures k == Text16(NumberOf(s.revocations[k])) {
        AgreeOnlyIfFiledUnderNumber(s, l, entries, k);
      }
      forall n | Text16(n) in s.certs && s.certs[Text16(n)].revoked ensures Text16(n) in s.revocations {
        AgreeOnlyIfRecorded(s, l, entries, n);
      }
    }
  }

  // Revocations made while the clock shows any time but the zero one are stamped.
  lemma StampedKept(s: State, op: Op, s': State, out: Output)
    requires Stamped(s) && Next(s, op, s', out) && (op.Revoke? ==> op.now != ZERO_TIME)
    ensures Stamped(s')
  {
  }

  // Issued stores are of that form.
  lemma IssuedIsFiled(s: State)
    requires Issued(s)
    ensures AllParse(s) && RevokedCanonically(s) && FlagsRecorded(s)
  {
    forall k | k in s.revocations
      ensures Crl.Parses(s.revocations[k]) && k == Text16(NumberOf(s.revocations[k]))
    {
      var n := CanonicalParses(k);
    }
  }

  // So in every issued store the two views of one state agree on every number. Generating that CRL cannot fail on a
  // serial.
  lemma OcspAgreesWithCrl(s: State, l: seq<Revocation>, entries: seq<Crl.Entry>, n: int)
    requires Issued(s) && IsListing(s.revocations, l) && Crl.Lists(entries, l)
    ensures ViewsAgree(s, entries, n)
    ensures AllParse(s)
  {
    IssuedIsFiled(s);
    AgreeIfFiled(s, l, entries, n);
  }

  // The two reads need no lock: when operations run in between, the answer is still the one of the state at the
  // first read, with the revocation record attached if there was one.
  lemma TwoReadsAreAtomic(states: seq<State>, ops: seq<Op>, outs: seq<Output>, i: nat, j: nat, n: int)
    requires Run(states, ops, outs) && i <= j <= |ops|
    ensures AnswerAcross(states[i], states[j], n) == AnswerAcross(states[i], states[i], n)
    ensures Text16(n) in states[i].revocations ==>
      && Text16(n) in states[j].revocations
      && AnswerAcross(states[i], states[j], n)
         == Answer(Revoked, states[j].revocations[Text16(n)].revokedAt, states[j].revocations[Text16(n)].reason)
  {
    RunExtends(states, ops, outs, i, j);
    LookupByNumber(states[i], n);
    LookupByNumber(states[j], n);
    var key := Text16(n);
    if key in states[i].certs && states[i].certs[key].revoked && key !in states[i].revocations {
      NeverRecorded(states, ops, outs, i, j, key);
    }
  }

  // A certificate flagged without a record never gets one: revoking it fails.
  lemma {:induction false} NeverRecorded(states: seq<State>, ops: seq<Op>, outs: seq<Output>, i: nat, j: nat, key: string)
    requires Run(states, ops, outs) && i <= j <= |ops|
    requires key in states[i].certs && states[i].certs[key].revoked && key !in states[i].revocations
    ensures key in states[j].certs && states[j].certs[key].revoked && key !in states[j].revocations
  {
    if i < j {
      NeverRecorded(states, ops, outs, i, j - 1, key);
      RunExtends(states, ops, outs, j - 1, j);
    }
  }

  // Both conditions of ViewsAgreeIff are needed. A certificate saved with its flag already set is Revoked for OCSP,
  // with no time or reason, and no CRL lists it.
  lemma FlagWithoutRecordDisagrees()
    ensures var cert := Cert("1", "", "", 0, 0, None, None, true);
            var s := SaveCertificate(EMPTY, Some(cert), 0).0;
            Inv(s) && AnswerAcross(s, s, 1) == Answer(Revoked, ZERO_TIME, 0) && IsListing(s.revocations, [])
            && !ViewsAgree(s, [], 1)
  {
    NormalizeFixesFormatted(1);
    LookupByNumber(SaveCertificate(EMPTY, Some(Cert("1", "", "", 0, 0, None, None, true)), 0).0, 1);
  }

  // A certificate saved and revoked under "01" is listed as number 1, which OCSP does not know.
  lemma LeadingZeroDisagrees(at: Time, reason: int)
    requires at != ZERO_TIME
    ensures var saved := SaveCertificate(EMPTY, Some(Cert("01", "", "", 0, 0, None, None, false)), 0).0;
            var s := RevokeCertificate(saved, "01", reason, at, 0).0;
            && Inv(s) && IsListing(s.revocations, [Revocation("01", at, reason)])
            && Crl.Lists([Crl.Entry(1, at, reason)], [Revocation("01", at, reason)])
            && AnswerAcross(s, s, 1) == Answer(Unknown, ZERO_TIME, 0)
            && !ViewsAgree(s, [Crl.Entry(1, at, reason)], 1)
  {
    ZeroOne();
    var saved := SaveCertificate(EMPTY, Some(Cert("01", "", "", 0, 0, None, None, false)), 0).0;
    var s := RevokeCertificate(saved, "01", reason, at, 0).0;
    assert s.revocations == map["01" := Revocation("01", at, reason)];
    assert s.certs.Keys == {"01"};
    LookupByNumber(s, 1);
  }

  lemma ZeroOne()
    ensures NormalizeSerial("01") == "01" && SetString16("01") == Some(1) && Text16(1) == "1"
  {
    TrimKeeps("01");
    assert "01"[1] == '1';
    assert ToLower("01") == "01";
    assert "01"[..1] == "0" && "0"[..0] == "";
    assert DigitsValue("") == 0;
    assert DigitsValue("0") == 0;
  }

  // The answer in terms of the calls made before, over every run from an empty store: Unknown for a number never saved;
  // Revoked with the time and reason of the successful revocation; Revoked without them for a certificate saved flagged;
  // Good otherwise.
  lemma AnswersByHistory(states: seq<State>, ops: seq<Op>, outs: seq<Output>, i: nat, n: int)
    requires Run(states, ops, outs) && states[0] == EMPTY && i <= |ops|
    ensures var save, revoke := StoreHistory.LastSave(ops[..i], outs[..i], Text16(n)),
                                StoreHistory.LastRevoke(ops[..i], outs[..i], Text16(n));
      AnswerAcross(states[i], states[i], n)
      == if save.None? then Answer(Unknown, ZERO_TIME, 0)
         else if revoke.Some? then
           Answer(Revoked, if revoke.value.at == ZERO_TIME then revoke.value.now else revoke.value.at, revoke.value.reason)
         else if save.value.cert.value.revoked then Answer(Revoked, ZERO_TIME, 0)
         else Answer(Good, ZERO_TIME, 0)
  {
    StoreHistory.StoreReflects(states, ops, outs, i, Text16(n));
    RunExtends(states, ops, outs, i, i);
    LookupByNumber(states[i], n);
    hide Text16, SerialHex, StoreHistory.LastSave, StoreHistory.LastRevoke, StoreHistory.Reserved;
  }
}

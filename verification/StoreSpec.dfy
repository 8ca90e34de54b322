// The certificate store as a mathematical state, and the meaning of every Storage operation on it as the
// in-memory implementation performs them (pkg/storage/storage.go, pkg/storage/memory.go).
module StoreSpec {
  import opened Wrappers
  import opened Text
  import opened Serials

  type Blob = Option<seq<byte>>  // a Go []byte: None is nil

  datatype Cert = Cert(serial: string, subject: string, issuer: string, notBefore: Time, notAfter: Time,
                       rawDER: Blob, pem: Blob, revoked: bool)

  datatype Revocation = Revocation(serial: string, revokedAt: Time, reason: int)

  datatype State = State(certs: map<string, Cert>, revocations: map<string, Revocation>, serials: map<string, Time>)

  datatype Error = NotFound | AlreadyExists | AlreadyRevoked | InvalidInput | DatabaseFailure

  // `now` is what time.Now() returns inside the call.
  datatype Op =
    | Save(cert: Option<Cert>, now: Time)
    | Get(serial: string)
    | Revoke(serial: string, reason: int, at: Time, now: Time)
    | GetRevocation(serial: string)
    | ListRevoked
    | Reserve(serial: string, now: Time)

  datatype Output =
    | Done
    | Found(cert: Cert)
    | FoundRevocation(rev: Revocation)
    | Listing(revs: seq<Revocation>)
    | Failed(error: Error)

  const EMPTY := State(map[], map[], map[])

  // ----- The operations -----

  function SaveCertificate(s: State, cert: Option<Cert>, now: Time): (State, Output) {
    if cert.None? then (s, Failed(InvalidInput))
    else
      var key := NormalizeSerial(cert.value.serial);
      if key == "" then (s, Failed(InvalidInput))
      else if key in s.certs then (s, Failed(AlreadyExists))
      else
        var serials := if key in s.serials then s.serials else s.serials[key := now];
        (s.(certs := s.certs[key := cert.value.(serial := key)], serials := serials), Done)
  }

  function GetCertificate(s: State, serial: string): Output {
    var key := NormalizeSerial(serial);
    if key == "" then Failed(InvalidInput)
    else if key in s.certs then Found(s.certs[key].(serial := key)) else Failed(NotFound)
  }

  function RevokeCertificate(s: State, serial: string, reason: int, at: Time, now: Time): (State, Output) {
    var key := NormalizeSerial(serial);
    if key == "" then (s, Failed(InvalidInput))
    else if key !in s.certs then (s, Failed(NotFound))
    else if s.certs[key].revoked || key in s.revocations then (s, Failed(AlreadyRevoked))
    else
      var rev := Revocation(key, if at == ZERO_TIME then now else at, reason);
      (s.(certs := s.certs[key := s.certs[key].(revoked := true)], revocations := s.revocations[key := rev]), Done)
  }

  function LookupRevocation(s: State, serial: string): Output {
    var key := NormalizeSerial(serial);
    if key == "" then Failed(InvalidInput)
    else if key in s.revocations then FoundRevocation(s.revocations[key]) else Failed(NotFound)
  }

  function ReserveSerial(s: State, serial: string, now: Time): (State, Output) {
    var key := NormalizeSerial(serial);
    if key == "" then (s, Failed(InvalidInput))
    else if key in s.serials || key in s.certs then (s, Failed(AlreadyExists))
    else (s.(serials := s.serials[key := now]), Done)
  }

  // The order of sort.Slice in ListRevoked.
  predicate Before(a: Revocation, b: Revocation) {
    a.revokedAt < b.revokedAt || (a.revokedAt == b.revokedAt && Less(a.serial, b.serial))
  }

  // l holds every recorded revocation, strictly ordered by (time, serial).
  ghost predicate IsListing(revs: map<string, Revocation>, l: seq<Revocation>) {
    && (forall i, j :: 0 <= i < j < |l| ==> Before(l[i], l[j]))
    && (forall r :: r in l <==> r in revs.Values)
  }

  // One operation of the in-memory store.
  ghost predicate Next(s: State, op: Op, s': State, out: Output) {
    match op
    case Save(cert, now) => (s', out) == SaveCertificate(s, cert, now)
    case Get(serial) => s' == s && out == GetCertificate(s, serial)
    case Revoke(serial, reason, at, now) => (s', out) == RevokeCertificate(s, serial, reason, at, now)
    case GetRevocation(serial) => s' == s && out == LookupRevocation(s, serial)
    case ListRevoked => s' == s && out.Listing? && IsListing(s.revocations, out.revs)
    case Reserve(serial, now) => (s', out) == ReserveSerial(s, serial, now)
  }

  // ----- What every operation keeps -----

  ghost predicate Inv(s: State) {
    && s.certs.Keys <= s.serials.Keys
    && (forall k :: k in s.certs ==> s.certs[k].serial == k)
    && (forall k :: k in s.revocations ==>
          k in s.certs && s.certs[k].revoked && s.revocations[k].serial == k)
  }

  // Records are only added; a stored certificate changes only by becoming revoked; a revocation never changes.
  ghost predicate Extends(s: State, s': State) {
    && s.serials.Keys <= s'.serials.Keys
    && (forall k :: k in s.certs ==>
          k in s'.certs && s'.certs[k] == s.certs[k].(revoked := s'.certs[k].revoked)
          && (s.certs[k].revoked ==> s'.certs[k].revoked))
    && (forall k :: k in s.revocations ==> k in s'.revocations && s'.revocations[k] == s.revocations[k])
  }

  lemma SaveKeepsInv(s: State, cert: Option<Cert>, now: Time)
    requires Inv(s)
    ensures Inv(SaveCertificate(s, cert, now).0) && Extends(s, SaveCertificate(s, cert, now).0)
  {
  }

  lemma RevokeKeepsInv(s: State, serial: string, reason: int, at: Time, now: Time)
    requires Inv(s)
    ensures Inv(RevokeCertificate(s, serial, reason, at, now).0)
    ensures Extends(s, RevokeCertificate(s, serial, reason, at, now).0)
  {
  }

  lemma ReserveKeepsInv(s: State, serial: string, now: Time)
    requires Inv(s)
    ensures Inv(ReserveSerial(s, serial, now).0) && Extends(s, ReserveSerial(s, serial, now).0)
  {
  }

  lemma StepKeepsInv(s: State, op: Op, s': State, out: Output)
    requires Inv(s) && Next(s, op, s', out)
    ensures Inv(s') && Extends(s, s')
  {
    match op
    case Save(cert, now) => SaveKeepsInv(s, cert, now);
    case Revoke(serial, reason, at, now) => RevokeKeepsInv(s, serial, reason, at, now);
    case Reserve(serial, now) => ReserveKeepsInv(s, serial, now);
    case _ =>
  }

  // A run of the store: states[i] -ops[i]-> states[i+1].
  ghost predicate Run(states: seq<State>, ops: seq<Op>, outs: seq<Output>) {
    && |states| == |ops| + 1 && |outs| == |ops| && Inv(states[0])
    && forall i :: 0 <= i < |ops| ==> Next(states[i], ops[i], states[i + 1], outs[i])
  }

  // Over any run the store only grows, between any two of its points.
  lemma {:induction false} RunExtends(states: seq<State>, ops: seq<Op>, outs: seq<Output>, i: nat, j: nat)
    requires Run(states, ops, outs) && i <= j <= |ops|
    ensures Inv(states[i]) && Inv(states[j]) && Extends(states[i], states[j])
    decreases j
  {
    if j > 0 {
      RunExtends(states, ops, outs, if i < j then i else j - 1, j - 1);
      StepKeepsInv(states[j - 1], ops[j - 1], states[j], outs[j - 1]);
    }
  }

  // ----- Listings -----

  // Insertion into an ordered listing.
  function Insert(r: Revocation, l: seq<Revocation>): seq<Revocation> {
    if l == [] || Before(r, l[0]) then [r] + l else [l[0]] + Insert(r, l[1..])
  }

  lemma BeforeTotal(a: Revocation, b: Revocation, c: Revocation)
    ensures a.serial != b.serial ==> Before(a, b) || Before(b, a)
    ensures !(Before(a, b) && Before(b, a)) && !Before(a, a)
    ensures Before(a, b) && Before(b, c) ==> Before(a, c)
  {
    LessIsStrictTotal(a.serial, b.serial);
    LessIsStrictTotal(a.serial, a.serial);
    if Less(a.serial, b.serial) && Less(b.serial, c.serial) { LessTransitive(a.serial, b.serial, c.serial); }
  }

  ghost predicate Ordered(l: seq<Revocation>) {
    forall i, j :: 0 <= i < j < |l| ==> Before(l[i], l[j])
  }

  lemma {:induction false} InsertOrdered(r: Revocation, l: seq<Revocation>)
    requires Ordered(l) && forall x :: x in l ==> x.serial != r.serial
    ensures Ordered(Insert(r, l))
    ensures forall x :: x in Insert(r, l) <==> x == r || x in l
  {
    if l != [] && !Before(r, l[0]) {
      InsertOrdered(r, l[1..]);
      BeforeTotal(r, l[0], r);
      assert l == [l[0]] + l[1..];
      forall x | x in Insert(r, l[1..]) ensures Before(l[0], x) {}
    } else if l != [] {
      forall x | x in l ensures Before(r, x) { BeforeTotal(r, l[0], x); }
    }
  }

  // An ordered listing is determined by its elements: ListRevoked is a function of the store.
  lemma {:induction false} OrderedUnique(a: seq<Revocation>, b: seq<Revocation>)
    requires Ordered(a) && Ordered(b) && forall r :: r in a <==> r in b
    ensures a == b
  {
    assert |a| > 0 ==> a[0] in b;
    assert |b| > 0 ==> b[0] in a;
    if a != [] {
      if a[0] != b[0] { BeforeTotal(a[0], b[0], a[0]); }
      forall r | r in a[1..] ensures r in b[1..] { BeforeTotal(a[0], a[0], a[0]); assert r in b; }
      forall r | r in b[1..] ensures r in a[1..] { BeforeTotal(a[0], a[0], a[0]); assert r in a; }
      OrderedUnique(a[1..], b[1..]);
    }
  }

  lemma ListingUnique(s: State, out: Output, out': Output)
    requires Next(s, ListRevoked, s, out) && Next(s, ListRevoked, s, out')
    ensures out == out'
  {
    OrderedUnique(out.revs, out'.revs);
  }

  // Every store has its listing.
  lemma {:induction false} ListingExists(revs: map<string, Revocation>) returns (l: seq<Revocation>)
    requires forall k :: k in revs ==> revs[k].serial == k
    ensures IsListing(revs, l)
  {
    if revs == map[] {
      l := [];
    } else {
      var k :| k in revs;
      var rest := revs - {k};
      l := ListingExists(rest);
      assert forall x :: x in l ==> x.serial != k;
      InsertOrdered(revs[k], l);
      l := Insert(revs[k], l);
      forall r ensures r in l <==> r in revs.Values {
        if r in revs.Values { var j :| j in revs && revs[j] == r; if j != k { assert rest[j] == r; } }
      }
    }
  }

  // A listing names each revoked serial exactly once.
  lemma ListingEntries(s: State, l: seq<Revocation>)
    requires Inv(s) && IsListing(s.revocations, l)
    ensures forall r :: r in l <==> r.serial in s.revocations && s.revocations[r.serial] == r
    ensures forall i, j :: 0 <= i < j < |l| ==> l[i].serial != l[j].serial
  {
    forall i, j | 0 <= i < j < |l| ensures l[i].serial != l[j].serial {
      assert l[i] in l && l[j] in l;
      BeforeTotal(l[i], l[j], l[i]);
    }
  }
}

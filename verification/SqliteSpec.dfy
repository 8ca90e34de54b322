// The SQLite-backed store (pkg/storage/sqlite.go): three tables with a primary key each, and the proof that
// it refines the in-memory store.
module SqliteSpec {
  import opened Wrappers
  import opened Text
  import opened Serials
  import opened StoreSpec

  datatype CertRow = CertRow(subject: string, issuer: string, notBefore: Time, notAfter: Time,
                             rawDER: seq<byte>, pem: seq<byte>, revoked: int)

  datatype RevocationRow = RevocationRow(revokedAt: Time, reason: int)

  // Each table maps its primary key, the serial, to the other columns.
  datatype Tables = Tables(certificates: map<string, CertRow>, revocations: map<string, RevocationRow>,
                           serials: map<string, Time>)

  const NO_ROWS := Tables(map[], map[], map[])

  function RecordOf(key: string, row: CertRow): Cert {
    Cert(key, row.subject, row.issuer, row.notBefore, row.notAfter, Some(row.rawDER), Some(row.pem), row.revoked == 1)
  }

  // ----- The operations -----

  // A transaction: the duplicate check, the insert (raw_der and pem are NOT NULL), INSERT OR IGNORE of the serial.
  function Save(t: Tables, cert: Option<Cert>, now: Time): (Tables, Output) {
    if cert.None? then (t, Failed(InvalidInput))
    else
      var c := cert.value;
      var key := NormalizeSerial(c.serial);
      if key == "" then (t, Failed(InvalidInput))
      else if key in t.certificates then (t, Failed(AlreadyExists))
      else if c.rawDER.None? || c.pem.None? then (t, Failed(DatabaseFailure))
      else
        var row := CertRow(c.subject, c.issuer, c.notBefore, c.notAfter, c.rawDER.value, c.pem.value,
                           if c.revoked then 1 else 0);
        (t.(certificates := t.certificates[key := row],
            serials := if key in t.serials then t.serials else t.serials[key := now]), Done)
  }

  function Get(t: Tables, serial: string): Output {
    var key := NormalizeSerial(serial);
    if key == "" then Failed(InvalidInput)
    else if key in t.certificates then Found(RecordOf(key, t.certificates[key])) else Failed(NotFound)
  }

  // Only the revoked column is tested; the primary key of revocations rejects a second insert.
  function Revoke(t: Tables, serial: string, reason: int, at: Time, now: Time): (Tables, Output) {
    var key := NormalizeSerial(serial);
    if key == "" then (t, Failed(InvalidInput))
    else if key !in t.certificates then (t, Failed(NotFound))
    else if t.certificates[key].revoked == 1 then (t, Failed(AlreadyRevoked))
    else if key in t.revocations then (t, Failed(DatabaseFailure))
    else
      var row := RevocationRow(if at == ZERO_TIME then now else at, reason);
      (t.(certificates := t.certificates[key := t.certificates[key].(revoked := 1)],
          revocations := t.revocations[key := row]), Done)
  }

  function LookupRevocation(t: Tables, serial: string): Output {
    var key := NormalizeSerial(serial);
    if key == "" then Failed(InvalidInput)
    else if key in t.revocations then
      FoundRevocation(Revocation(key, t.revocations[key].revokedAt, t.revocations[key].reason))
    else Failed(NotFound)
  }

  // Only the serials table is tested.
  function Reserve(t: Tables, serial: string, now: Time): (Tables, Output) {
    var key := NormalizeSerial(serial);
    if key == "" then (t, Failed(InvalidInput))
    else if key in t.serials then (t, Failed(AlreadyExists))
    else (t.(serials := t.serials[key := now]), Done)
  }

  // SELECT ... ORDER BY revoked_at: one record a row, ordered by time, ties in any order.
  ghost predicate IsQueryResult(rows: map<string, RevocationRow>, l: seq<Revocation>) {
    && (forall i, j :: 0 <= i < j < |l| ==> l[i].revokedAt <= l[j].revokedAt && l[i].serial != l[j].serial)
    && (forall r :: r in l <==> r.serial in rows && rows[r.serial] == RevocationRow(r.revokedAt, r.reason))
  }

  ghost predicate Next(t: Tables, op: Op, t': Tables, out: Output) {
    match op
    case Save(cert, now) => (t', out) == Save(t, cert, now)
    case Get(serial) => t' == t && out == Get(t, serial)
    case Revoke(serial, reason, at, now) => (t', out) == Revoke(t, serial, reason, at, now)
    case GetRevocation(serial) => t' == t && out == LookupRevocation(t, serial)
    case ListRevoked => t' == t && out.Listing? && IsQueryResult(t.revocations, out.revs)
    case Reserve(serial, now) => (t', out) == Reserve(t, serial, now)
  }

  // ----- Refinement -----

  // What the tables say, as a state of the in-memory store.
  function Abs(t: Tables): State {
    State(map k | k in t.certificates :: RecordOf(k, t.certificates[k]),
          map k | k in t.revocations :: Revocation(k, t.revocations[k].revokedAt, t.revocations[k].reason),
          t.serials)
  }

  // A save of a record whose blobs are present.
  predicate BlobsPresent(op: Op) {
    op.Save? && op.cert.Some? ==> op.cert.value.rawDER.Some? && op.cert.value.pem.Some?
  }

  // The two stores answer alike: the same value or error class, and for listings the same records, ordered by
  // time in both and by (time, serial) in memory.
  ghost predicate Agree(memory: Output, sqlite: Output) {
    if memory.Listing? then
      && sqlite.Listing?
      && multiset(memory.revs) == multiset(sqlite.revs)
      && (forall i, j :: 0 <= i < j < |memory.revs| ==> Before(memory.revs[i], memory.revs[j]))
      && (forall i, j :: 0 <= i < j < |sqlite.revs| ==> sqlite.revs[i].revokedAt <= sqlite.revs[j].revokedAt)
    else memory == sqlite
  }

  lemma {:induction false} DistinctMultiplicity(a: seq<Revocation>, r: Revocation)
    requires forall i, j :: 0 <= i < j < |a| ==> a[i].serial != a[j].serial
    ensures multiset(a)[r] == if r in a then 1 else 0
  {
    if a != [] {
      DistinctMultiplicity(a[1..], r);
      assert a == [a[0]] + a[1..];
    }
  }

  lemma ListingsAgree(t: Tables, memory: Output, sqlite: Output)
    requires Inv(Abs(t))
    requires StoreSpec.Next(Abs(t), ListRevoked, Abs(t), memory) && Next(t, ListRevoked, t, sqlite)
    ensures Agree(memory, sqlite)
  {
    var a, b := memory.revs, sqlite.revs;
    ListingEntries(Abs(t), a);
    forall r: Revocation ensures multiset(a)[r] == multiset(b)[r] {
      DistinctMultiplicity(a, r);
      DistinctMultiplicity(b, r);
    }
  }

  lemma SaveRefines(t: Tables, cert: Option<Cert>, now: Time)
    requires cert.Some? ==> cert.value.rawDER.Some? && cert.value.pem.Some?
    ensures SaveCertificate(Abs(t), cert, now) == (Abs(Save(t, cert, now).0), Save(t, cert, now).1)
  {
    var t' := Save(t, cert, now).0;
    var s' := SaveCertificate(Abs(t), cert, now).0;
    assert Abs(t').certs == s'.certs;
    assert Abs(t').revocations == s'.revocations;
  }

  lemma RevokeRefines(t: Tables, serial: string, reason: int, at: Time, now: Time)
    requires Inv(Abs(t))
    ensures RevokeCertificate(Abs(t), serial, reason, at, now)
            == (Abs(Revoke(t, serial, reason, at, now).0), Revoke(t, serial, reason, at, now).1)
  {
    var t' := Revoke(t, serial, reason, at, now).0;
    var s' := RevokeCertificate(Abs(t), serial, reason, at, now).0;
    var key := NormalizeSerial(serial);
    if key in t.revocations { assert Abs(t).certs[key].revoked; }
    if t' != t {
      assert Abs(t').certs == s'.certs;
      assert Abs(t').revocations == s'.revocations;
    }
  }

  lemma ReserveRefines(t: Tables, serial: string, now: Time)
    requires Inv(Abs(t))
    ensures ReserveSerial(Abs(t), serial, now) == (Abs(Reserve(t, serial, now).0), Reserve(t, serial, now).1)
  {
    assert NormalizeSerial(serial) in Abs(t).certs ==> NormalizeSerial(serial) in Abs(t).serials;
  }

  // One step: from tables whose abstraction satisfies the store invariant, whatever SQLite does is what the
  // in-memory store does, with agreeing answers.
  lemma StepRefines(t: Tables, op: Op, t': Tables, sqlite: Output, s': State, memory: Output)
    requires Inv(Abs(t)) && BlobsPresent(op)
    requires Next(t, op, t', sqlite) && StoreSpec.Next(Abs(t), op, s', memory)
    ensures s' == Abs(t') && Agree(memory, sqlite)
  {
    match op
    case Save(cert, now) => SaveRefines(t, cert, now);
    case Revoke(serial, reason, at, now) => RevokeRefines(t, serial, reason, at, now);
    case Reserve(serial, now) => ReserveRefines(t, serial, now);
    case ListRevoked => ListingsAgree(t, memory, sqlite);
    case Get(serial) =>
    case GetRevocation(serial) =>
  }

  ghost predicate Run(tables: seq<Tables>, ops: seq<Op>, outs: seq<Output>) {
    && |tables| == |ops| + 1 && |outs| == |ops| && tables[0] == NO_ROWS
    && forall i :: 0 <= i < |ops| ==> Next(tables[i], ops[i], tables[i + 1], outs[i])
  }

  // A save that fails before its blobs matter.
  predicate RefusedEarly(s: State, op: Op) {
    op.Save? && op.cert.Some?
    && (NormalizeSerial(op.cert.value.serial) == "" || NormalizeSerial(op.cert.value.serial) in s.certs)
  }

  // One step of both stores on the same contents: they answer alike exactly when the blobs are present or the save is
  // refused before they matter, and then they end with the same contents.
  lemma StepAgreesIff(t: Tables, op: Op, t': Tables, sqlite: Output, s': State, memory: Output)
    requires Inv(Abs(t)) && Next(t, op, t', sqlite) && StoreSpec.Next(Abs(t), op, s', memory)
    ensures Agree(memory, sqlite) <==> BlobsPresent(op) || RefusedEarly(Abs(t), op)
    ensures Agree(memory, sqlite) ==> s' == Abs(t')
  {
    if BlobsPresent(op) {
      StepRefines(t, op, t', sqlite, s', memory);
    } else {
      SaveAgreesIff(t, op.cert.value, op.now);
    }
  }

  // Without its blobs a record is refused by SQLite alone: the two saves agree exactly when the blobs are present
  // or the call fails before the insert.
  lemma SaveAgreesIff(t: Tables, cert: Cert, now: Time)
    requires Inv(Abs(t))
    ensures SaveCertificate(Abs(t), Some(cert), now).1 == Save(t, Some(cert), now).1
       <==> (cert.rawDER.Some? && cert.pem.Some?)
            || NormalizeSerial(cert.serial) == "" || NormalizeSerial(cert.serial) in t.certificates
    ensures !(cert.rawDER.Some? && cert.pem.Some?) ==>
      Save(t, Some(cert), now).0 == t
      && (SaveCertificate(Abs(t), Some(cert), now).1 == Save(t, Some(cert), now).1 ==>
            SaveCertificate(Abs(t), Some(cert), now).0 == Abs(t))
  {
    assert Abs(t).certs.Keys == t.certificates.Keys;
  }

  // As long as the answers agree, both stores hold the same records.
  lemma {:induction false} SameContents(tables: seq<Tables>, states: seq<State>, ops: seq<Op>,
                                        sqlite: seq<Output>, memory: seq<Output>, i: nat)
    requires Run(tables, ops, sqlite) && StoreSpec.Run(states, ops, memory) && states[0] == EMPTY
    requires i <= |ops| && forall j :: 0 <= j < i ==> Agree(memory[j], sqlite[j])
    ensures states[i] == Abs(tables[i])
  {
    if i == 0 {
      assert Abs(NO_ROWS) == EMPTY;
    } else {
      hide Next, StoreSpec.Next, Agree, Abs, Inv, Extends;
      SameContents(tables, states, ops, sqlite, memory, i - 1);
      RunExtends(states, ops, memory, i - 1, i - 1);
      StepAgreesIff(tables[i - 1], ops[i - 1], tables[i], sqlite[i - 1], states[i], memory[i - 1]);
    }
  }

  // A step of the two runs whose earlier answers agree.
  lemma StepOfRunsAgreesIff(tables: seq<Tables>, states: seq<State>, ops: seq<Op>,
                            sqlite: seq<Output>, memory: seq<Output>, i: nat)
    requires Run(tables, ops, sqlite) && StoreSpec.Run(states, ops, memory) && states[0] == EMPTY
    requires i < |ops| && forall j :: 0 <= j < i ==> Agree(memory[j], sqlite[j])
    ensures Agree(memory[i], sqlite[i]) <==> BlobsPresent(ops[i]) || RefusedEarly(states[i], ops[i])
  {
    hide Next, StoreSpec.Next, Agree, Abs, Inv, Extends;
    SameContents(tables, states, ops, sqlite, memory, i);
    RunExtends(states, ops, memory, i, i);
    StepAgreesIff(tables[i], ops[i], tables[i + 1], sqlite[i], states[i + 1], memory[i]);
  }

  lemma {:induction false} AgreeUpTo(tables: seq<Tables>, states: seq<State>, ops: seq<Op>,
                                     sqlite: seq<Output>, memory: seq<Output>, n: nat)
    requires Run(tables, ops, sqlite) && StoreSpec.Run(states, ops, memory) && states[0] == EMPTY
    requires n <= |ops| && forall i :: 0 <= i < n ==> BlobsPresent(ops[i]) || RefusedEarly(states[i], ops[i])
    ensures forall i :: 0 <= i < n ==> Agree(memory[i], sqlite[i])
  {
    hide Next, StoreSpec.Next, Agree, BlobsPresent, RefusedEarly;
    if n > 0 {
      AgreeUpTo(tables, states, ops, sqlite, memory, n - 1);
      StepOfRunsAgreesIff(tables, states, ops, sqlite, memory, n - 1);
    }
  }

  // For every sequence of operations started on two empty stores: every pair of answers agrees exactly when each save
  // has its blobs or is refused before they matter, and then the stores hold the same records after every operation.
  lemma RunsAgreeIff(tables: seq<Tables>, states: seq<State>, ops: seq<Op>, sqlite: seq<Output>, memory: seq<Output>)
    requires Run(tables, ops, sqlite) && StoreSpec.Run(states, ops, memory) && states[0] == EMPTY
    ensures (forall i :: 0 <= i < |ops| ==> Agree(memory[i], sqlite[i]))
       <==> forall i :: 0 <= i < |ops| ==> BlobsPresent(ops[i]) || RefusedEarly(states[i], ops[i])
    ensures (forall i :: 0 <= i < |ops| ==> Agree(memory[i], sqlite[i])) ==>
      forall i :: 0 <= i <= |ops| ==> states[i] == Abs(tables[i])
  {
    hide Next, StoreSpec.Next, Agree, BlobsPresent, RefusedEarly, Abs;
    var n := |ops|;
    if forall i :: 0 <= i < n ==> Agree(memory[i], sqlite[i]) {
      forall i | 0 <= i < n ensures BlobsPresent(ops[i]) || RefusedEarly(states[i], ops[i]) {
        StepOfRunsAgreesIff(tables, states, ops, sqlite, memory, i);
      }
      forall i | 0 <= i <= n ensures states[i] == Abs(tables[i]) {
        SameContents(tables, states, ops, sqlite, memory, i);
      }
    } else if forall i :: 0 <= i < n ==> BlobsPresent(ops[i]) || RefusedEarly(states[i], ops[i]) {
      AgreeUpTo(tables, states, ops, sqlite, memory, n);
    }
  }
}

// The SQLite-backed store as an object whose tables are updated by each call (pkg/storage/sqlite.go).
module SqliteStore {
  import opened Wrappers
  import opened Text
  import opened Serials
  import opened StoreSpec
  import opened SqliteSpec

  class SQLiteStorage {
    var certificates: map<string, CertRow>
    var revocations: map<string, RevocationRow>
    var serials: map<string, Time>

    ghost function View(): Tables
      reads this
    {
      Tables(certificates, revocations, serials)
    }

    constructor ()
      ensures View() == NO_ROWS
    {
      certificates, revocations, serials := map[], map[], map[];
    }

    method SaveCertificate(cert: Option<Cert>, now: Time) returns (out: Output)
      modifies this
      ensures SqliteSpec.Next(old(View()), Op.Save(cert, now), View(), out)
    {
      if cert.None? { return Failed(InvalidInput); }
      var c := cert.value;
      var serial := NormalizeSerial(c.serial);
      if serial == "" { return Failed(InvalidInput); }
      if serial in certificates { return Failed(AlreadyExists); }
      var revokedInt := 0;
      if c.revoked { revokedInt := 1; }
      if c.rawDER.None? || c.pem.None? { return Failed(DatabaseFailure); }
      certificates := certificates[serial := CertRow(c.subject, c.issuer, c.notBefore, c.notAfter,
                                                     c.rawDER.value, c.pem.value, revokedInt)];
      if serial !in serials { serials := serials[serial := now]; }
      out := Done;
    }

    method GetCertificate(serial: string) returns (out: Output)
      ensures SqliteSpec.Next(View(), Op.Get(serial), View(), out)
    {
      var normSerial := NormalizeSerial(serial);
      if normSerial == "" { return Failed(InvalidInput); }
      if normSerial !in certificates { return Failed(NotFound); }
      out := Found(RecordOf(normSerial, certificates[normSerial]));
    }

    // The update of the flag is rolled back when the insert of the revocation fails.
    method RevokeCertificate(serial: string, reason: int, at: Time, now: Time) returns (out: Output)
      modifies this
      ensures SqliteSpec.Next(old(View()), Op.Revoke(serial, reason, at, now), View(), out)
    {
      var normSerial := NormalizeSerial(serial);
      if normSerial == "" { return Failed(InvalidInput); }
      var revokedAt := at;
      if revokedAt == ZERO_TIME { revokedAt := now; }
      if normSerial !in certificates { return Failed(NotFound); }
      if certificates[normSerial].revoked == 1 { return Failed(AlreadyRevoked); }
      var before := certificates;
      certificates := certificates[normSerial := certificates[normSerial].(revoked := 1)];
      if normSerial in revocations {
        certificates := before;
        return Failed(DatabaseFailure);
      }
      revocations := revocations[normSerial := RevocationRow(revokedAt, reason)];
      out := Done;
    }

    method GetRevocation(serial: string) returns (out: Output)
      ensures SqliteSpec.Next(View(), Op.GetRevocation(serial), View(), out)
    {
      var normSerial := NormalizeSerial(serial);
      if normSerial == "" { return Failed(InvalidInput); }
      if normSerial !in revocations { return Failed(NotFound); }
      out := FoundRevocation(Revocation(normSerial, revocations[normSerial].revokedAt, revocations[normSerial].reason));
    }

    // `rows` is the result set of the query, in whatever order the engine delivers it.
    method ListRevoked(rows: seq<(string, Time, int)>) returns (out: Output)
      requires IsQueryResult(revocations, seq(|rows|, i requires 0 <= i < |rows| =>
                                                 Revocation(rows[i].0, rows[i].1, rows[i].2)))
      ensures SqliteSpec.Next(View(), Op.ListRevoked, View(), out)
    {
      var records: seq<Revocation> := [];
      for i := 0 to |rows|
        invariant |records| == i
        invariant forall j :: 0 <= j < i ==> records[j] == Revocation(rows[j].0, rows[j].1, rows[j].2)
      {
        records := records + [Revocation(rows[i].0, rows[i].1, rows[i].2)];
      }
      assert records == seq(|rows|, i requires 0 <= i < |rows| => Revocation(rows[i].0, rows[i].1, rows[i].2));
      out := Listing(records);
    }

    method ReserveSerial(serial: string, now: Time) returns (out: Output)
      modifies this`serials
      ensures SqliteSpec.Next(old(View()), Op.Reserve(serial, now), View(), out)
    {
      var normSerial := NormalizeSerial(serial);
      if normSerial == "" { return Failed(InvalidInput); }
      if normSerial in serials { return Failed(AlreadyExists); }
      serials := serials[normSerial := now];
      out := Done;
    }
  }
}

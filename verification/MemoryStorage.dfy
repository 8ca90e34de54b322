// The in-memory store as an object (pkg/storage/memory.go). Certificate records live on the heap, as behind Go
// pointers: SaveCertificate and GetCertificate copy the record and both byte slices, and RevokeCertificate
// flips the flag of the stored record in place.
module MemoryStore {
  import opened Wrappers
  import opened Text
  import opened Serials
  import opened StoreSpec

  ghost function BlobOf(a: array?<byte>): Blob
    reads a
  {
    if a == null then None else Some(a[..])
  }

  class CertificateRecord {
    var serial: string
    var subject: string
    var issuer: string
    var notBefore: Time
    var notAfter: Time
    var rawDER: array?<byte>
    var pem: array?<byte>
    var revoked: bool

    ghost function Value(): (v: Cert)
      reads this, rawDER, pem
    {
      Cert(serial, subject, issuer, notBefore, notAfter, BlobOf(rawDER), BlobOf(pem), revoked)
    }

    ghost predicate Within(repr: set<object>)
      reads this`rawDER, this`pem
    {
      this in repr && (rawDER != null ==> rawDER in repr) && (pem != null ==> pem in repr)
    }

    // The record with this value, filed under its own serial.
    ghost predicate Holds(key: string, value: Cert)
      reads this, rawDER, pem
    {
      serial == key && Value() == value
    }

    // cloneCertificate: a copy that shares no memory with src, filed under normSerial.
    constructor Clone(src: CertificateRecord, normSerial: string)
      ensures Value() == src.Value().(serial := normSerial)
      ensures rawDER != null ==> fresh(rawDER)
      ensures pem != null ==> fresh(pem)
    {
      serial, subject, issuer := normSerial, src.subject, src.issuer;
      notBefore, notAfter, revoked := src.notBefore, src.notAfter, src.revoked;
      var rawCopy := CopyBytes(src.rawDER);
      var pemCopy := CopyBytes(src.pem);
      rawDER, pem := rawCopy, pemCopy;
    }

    method MarkRevoked()
      modifies this`revoked
      ensures Value() == old(Value()).(revoked := true)
    {
      revoked := true;
    }
  }

  // make and copy; nil stays nil.
  method CopyBytes(src: array?<byte>) returns (dst: array?<byte>)
    ensures dst != null ==> fresh(dst)
    ensures BlobOf(dst) == BlobOf(src)
  {
    if src == null { return null; }
    dst := new byte[src.Length];
    forall i | 0 <= i < src.Length { dst[i] := src[i]; }
    assert dst[..] == src[..];
  }

  function Bytes(a: array?<byte>): set<object> {
    if a == null then {} else {a as object}
  }

  class MemoryStorage {
    var certificates: map<string, CertificateRecord>
    var revocations: map<string, Revocation>
    var serials: map<string, Time>
    ghost var contents: map<string, Cert>  // the values of the stored records
    ghost var Repr: set<object>

    // Every stored record and its bytes belong to the store, and the record is filed under its own serial, so no
    // two keys share a record.
    ghost predicate Valid()
      reads this, Repr
    {
      && this in Repr
      && (forall k :: k in contents ==> k in certificates)
      && forall k :: k in certificates ==> k in contents && certificates[k] in Repr && certificates[k].Within(Repr)
                                           && certificates[k].Holds(k, contents[k])
    }

    ghost function View(): State
      reads this
    {
      State(contents, revocations, serials)
    }

    constructor ()
      ensures Valid() && fresh(Repr) && View() == EMPTY
    {
      certificates, revocations, serials := map[], map[], map[];
      contents, Repr := map[], {this};
    }

    method SaveCertificate(cert: CertificateRecord?, now: Time) returns (out: Output)
      requires Valid()
      modifies this
      ensures Valid() && fresh(Repr - old(Repr))
      ensures (View(), out)
           == StoreSpec.SaveCertificate(old(View()), if cert == null then None else Some(old(cert.Value())), now)
    {
      hide NormalizeSerial;
      if cert == null { return Failed(InvalidInput); }
      var normSerial := NormalizeSerial(cert.serial);
      if normSerial == "" { return Failed(InvalidInput); }
      if normSerial in certificates { return Failed(AlreadyExists); }
      var copy := new CertificateRecord.Clone(cert, normSerial);
      File(normSerial, copy, now);
      out := Done;
    }

    // Record the serial if it was not reserved, and enter the copy in the map.
    method File(key: string, copy: CertificateRecord, now: Time)
      requires Valid() && key !in certificates && copy !in Repr && copy.serial == key
      modifies this
      ensures Valid() && Repr == old(Repr) + {copy} + Bytes(copy.rawDER) + Bytes(copy.pem)
      ensures View() == old(State(View().certs[key := copy.Value()], View().revocations,
                                  if key in serials then serials else serials[key := now]))
    {
      if key !in serials {
        serials := serials[key := now];
      }
      certificates := certificates[key := copy];
      Repr := Repr + {copy} + Bytes(copy.rawDER) + Bytes(copy.pem);
      contents := contents[key := copy.Value()];
      forall k | k in certificates ensures certificates[k].Within(Repr) && certificates[k].Holds(k, contents[k]) {}
    }

    // The record returned shares no memory with the store.
    method GetCertificate(serial: string) returns (err: Option<Error>, cert: CertificateRecord?)
      requires Valid()
      ensures cert == null ==> err.Some? && StoreSpec.GetCertificate(View(), serial) == Failed(err.value)
      ensures cert != null ==> err.None? && StoreSpec.GetCertificate(View(), serial) == Found(cert.Value())
      ensures cert != null ==> fresh(cert) && (cert.rawDER != null ==> fresh(cert.rawDER))
                               && (cert.pem != null ==> fresh(cert.pem))
    {
      var normSerial := NormalizeSerial(serial);
      if normSerial == "" { return Some(InvalidInput), null; }
      if normSerial !in certificates { return Some(NotFound), null; }
      assert View().certs[normSerial] == certificates[normSerial].Value();
      cert := new CertificateRecord.Clone(certificates[normSerial], normSerial);
      err := None;
    }

    method RevokeCertificate(serial: string, reason: int, at: Time, now: Time) returns (out: Output)
      requires Valid()
      modifies Repr
      ensures Valid() && Repr == old(Repr)
      ensures (View(), out) == StoreSpec.RevokeCertificate(old(View()), serial, reason, at, now)
    {
      var normSerial := NormalizeSerial(serial);
      if normSerial == "" { return Failed(InvalidInput); }
      if normSerial !in certificates { return Failed(NotFound); }
      var cert := certificates[normSerial];
      assert View().certs[normSerial] == cert.Value();
      if cert.revoked { return Failed(AlreadyRevoked); }
      if normSerial in revocations { return Failed(AlreadyRevoked); }
      var revokedAt := if at == ZERO_TIME then now else at;
      Mark(normSerial, cert, Revocation(normSerial, revokedAt, reason));
      out := Done;
    }

    // Set the flag of one stored record through its pointer. No other record is the same object, as each is filed under
    // its own serial.
    method Flag(key: string, cert: CertificateRecord)
      requires Valid() && key in certificates && cert == certificates[key]
      modifies cert`revoked
      ensures cert.Holds(key, contents[key].(revoked := true))
      ensures forall k :: k in certificates && k != key ==> certificates[k].Holds(k, contents[k])
    {
      forall k | k in certificates && k != key ensures certificates[k] != cert {
        assert certificates[k].Holds(k, contents[k]) && cert.Holds(key, contents[key]);
      }
      cert.MarkRevoked();
    }

    // Flag the record and file the revocation.
    method Mark(key: string, cert: CertificateRecord, rev: Revocation)
      requires Valid() && key in certificates && cert == certificates[key]
      modifies this`revocations, this`contents, cert`revoked
      ensures Valid() && Repr == old(Repr)
      ensures View() == old(State(View().certs[key := View().certs[key].(revoked := true)],
                                  revocations[key := rev], serials))
    {
      Flag(key, cert);
      revocations, contents := revocations[key := rev], contents[key := contents[key].(revoked := true)];
      forall k | k in certificates ensures certificates[k].Within(Repr) && certificates[k].Holds(k, contents[k]) {}
    }

    method GetRevocation(serial: string) returns (out: Output)
      requires Valid()
      ensures out == LookupRevocation(View(), serial)
    {
      var normSerial := NormalizeSerial(serial);
      if normSerial == "" { return Failed(InvalidInput); }
      if normSerial !in revocations { return Failed(NotFound); }
      out := FoundRevocation(revocations[normSerial]);
    }

    // Collect the records in map order, then sort them by (time, serial).
    method ListRevoked() returns (out: Output)
      requires Valid() && Inv(View())
      ensures StoreSpec.Next(View(), StoreSpec.ListRevoked, View(), out)
    {
      assert forall k :: k in View().revocations ==> View().revocations[k].serial == k;
      hide Inv, IsListing, Valid;
      var result: seq<Revocation> := [];
      var left := revocations.Keys;
      while left != {}
        invariant left <= revocations.Keys
        invariant forall k :: k in revocations && k !in left ==> revocations[k] in result
        invariant forall i :: 0 <= i < |result| ==>
          result[i].serial in revocations && result[i].serial !in left && revocations[result[i].serial] == result[i]
        invariant forall i, j :: 0 <= i < j < |result| ==> result[i].serial != result[j].serial
        decreases left
      {
        var k :| k in left;
        result := result + [revocations[k]];
        left := left - {k};
      }
      CollectedListing(revocations, result);
      out := Listing(Sort(result));
    }

    method ReserveSerial(serial: string, now: Time) returns (out: Output)
      requires Valid()
      modifies this`serials
      ensures Valid()
      ensures (View(), out) == StoreSpec.ReserveSerial(old(View()), serial, now)
    {
      var normSerial := NormalizeSerial(serial);
      if normSerial == "" { return Failed(InvalidInput); }
      if normSerial in serials { return Failed(AlreadyExists); }
      if normSerial in certificates { return Failed(AlreadyExists); }
      serials := serials[normSerial := now];
      out := Done;
    }
  }

  // sort.Slice with the comparison of ListRevoked.
  function Sort(l: seq<Revocation>): seq<Revocation> {
    if l == [] then [] else Insert(l[0], Sort(l[1..]))
  }

  lemma CollectedListing(revs: map<string, Revocation>, l: seq<Revocation>)
    requires forall k :: k in revs ==> revs[k] in l
    requires forall i :: 0 <= i < |l| ==> l[i].serial in revs && revs[l[i].serial] == l[i]
    requires forall i, j :: 0 <= i < j < |l| ==> l[i].serial != l[j].serial
    ensures IsListing(revs, Sort(l))
  {
    SortedListing(l);
  }

  lemma {:induction false} SortedListing(l: seq<Revocation>)
    requires forall i, j :: 0 <= i < j < |l| ==> l[i].serial != l[j].serial
    ensures Ordered(Sort(l)) && forall r :: r in Sort(l) <==> r in l
  {
    if l != [] {
      SortedListing(l[1..]);
      assert l == [l[0]] + l[1..];
      forall x | x in Sort(l[1..]) ensures x.serial != l[0].serial { assert x in l[1..]; }
      InsertOrdered(l[0], Sort(l[1..]));
    }
  }
}

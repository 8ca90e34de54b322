// What the store answers in terms of the calls made before: a save is found again, a revocation is looked up again,
// a duplicate is refused, whatever spelling of the serial each call uses.
module StoreHistory {
  import opened Wrappers
  import opened Text
  import opened Serials
  import opened StoreSpec
  import SqliteSpec

  // ----- Successful calls of a history -----

  predicate SavesUnder(op: Op, out: Output, key: string) {
    op.Save? && op.cert.Some? && NormalizeSerial(op.cert.value.serial) == key && out == Done
  }

  predicate RevokesUnder(op: Op, out: Output, key: string) {
    op.Revoke? && NormalizeSerial(op.serial) == key && out == Done
  }

  predicate ReservesUnder(op: Op, out: Output, key: string) {
    op.Reserve? && NormalizeSerial(op.serial) == key && out == Done
  }

  // The last successful save, revocation and reservation of a key among the calls made.
  function LastSave(ops: seq<Op>, outs: seq<Output>, key: string): (op: Option<Op>)
    requires |ops| == |outs|
    ensures op.Some? ==> op.value.Save? && op.value.cert.Some? && op.value in ops
  {
    if ops == [] then None
    else
      var n := |ops| - 1;
      if SavesUnder(ops[n], outs[n], key) then Some(ops[n]) else LastSave(ops[..n], outs[..n], key)
  }

  function LastRevoke(ops: seq<Op>, outs: seq<Output>, key: string): (op: Option<Op>)
    requires |ops| == |outs|
    ensures op.Some? ==> op.value.Revoke? && op.value in ops
  {
    if ops == [] then None
    else
      var n := |ops| - 1;
      if RevokesUnder(ops[n], outs[n], key) then Some(ops[n]) else LastRevoke(ops[..n], outs[..n], key)
  }

  predicate Reserved(ops: seq<Op>, outs: seq<Output>, key: string)
    requires |ops| == |outs|
  {
    ops != [] && var n := |ops| - 1;
                 ReservesUnder(ops[n], outs[n], key) || Reserved(ops[..n], outs[..n], key)
  }

  // ----- The store after a history -----

  predicate Successes(save: Option<Op>, revoke: Option<Op>) {
    (save.Some? ==> save.value.Save? && save.value.cert.Some?) && (revoke.Some? ==> revoke.value.Revoke?)
  }

  predicate Reflects(s: State, save: Option<Op>, revoke: Option<Op>, reserved: bool, key: string)
    requires Successes(save, revoke)
  {
    && (key in s.certs <==> save.Some?)
    && (save.Some? ==>
          var cert := save.value.cert.value;
          s.certs[key] == cert.(serial := key, revoked := cert.revoked || revoke.Some?))
    && (key in s.revocations <==> revoke.Some?)
    && (revoke.Some? ==>
          var op := revoke.value;
          s.revocations[key] == Revocation(key, if op.at == ZERO_TIME then op.now else op.at, op.reason))
    && (key in s.serials <==> save.Some? || reserved)
  }

  lemma StepReflected(s: State, op: Op, s': State, out: Output, save: Option<Op>, revoke: Option<Op>, reserved: bool,
                      key: string)
    requires Successes(save, revoke)
    requires Inv(s) && Next(s, op, s', out) && Reflects(s, save, revoke, reserved, key)
    ensures Reflects(s', if SavesUnder(op, out, key) then Some(op) else save,
                     if RevokesUnder(op, out, key) then Some(op) else revoke,
                     reserved || ReservesUnder(op, out, key), key)
  {
    hide NormalizeSerial, IsListing;
  }

  // After any history from an empty store.
  lemma {:induction false} StoreReflects(states: seq<State>, ops: seq<Op>, outs: seq<Output>, i: nat, key: string)
    requires Run(states, ops, outs) && states[0] == EMPTY && i <= |ops|
    ensures Reflects(states[i], LastSave(ops[..i], outs[..i], key), LastRevoke(ops[..i], outs[..i], key),
                     Reserved(ops[..i], outs[..i], key), key)
  {
    if i > 0 {
      hide Next, Reflects, Inv, Extends, SavesUnder, RevokesUnder, ReservesUnder;
      StoreReflects(states, ops, outs, i - 1, key);
      RunExtends(states, ops, outs, i - 1, i - 1);
      assert ops[..i][..i - 1] == ops[..i - 1] && outs[..i][..i - 1] == outs[..i - 1];
      StepReflected(states[i - 1], ops[i - 1], states[i], outs[i - 1],
                    LastSave(ops[..i - 1], outs[..i - 1], key), LastRevoke(ops[..i - 1], outs[..i - 1], key),
                    Reserved(ops[..i - 1], outs[..i - 1], key), key);
    }
  }

  // ----- The laws, over every run from an empty store -----

  // A lookup finds a certificate exactly when a save under a spelling with the same normal form succeeded before, and
  // finds the record saved, flagged exactly when it was saved so or revoked since.
  lemma GetAnswers(states: seq<State>, ops: seq<Op>, outs: seq<Output>, i: nat)
    requires Run(states, ops, outs) && states[0] == EMPTY && i < |ops| && ops[i].Get?
    ensures var key := NormalizeSerial(ops[i].serial);
            var save, revoke := LastSave(ops[..i], outs[..i], key), LastRevoke(ops[..i], outs[..i], key);
      outs[i] == if key == "" then Failed(InvalidInput)
                 else if save.None? then Failed(NotFound)
                 else Found(save.value.cert.value.(serial := key,
                                                   revoked := save.value.cert.value.revoked || revoke.Some?))
  {
    hide NormalizeSerial, LastSave, LastRevoke, Reserved;
    assert Next(states[i], ops[i], states[i + 1], outs[i]);
    StoreReflects(states, ops, outs, i, NormalizeSerial(ops[i].serial));
  }

  // A save succeeds exactly when none under the same normal form did before.
  lemma SaveAnswers(states: seq<State>, ops: seq<Op>, outs: seq<Output>, i: nat)
    requires Run(states, ops, outs) && states[0] == EMPTY && i < |ops| && ops[i].Save?
    ensures outs[i] == if ops[i].cert.None? || NormalizeSerial(ops[i].cert.value.serial) == "" then Failed(InvalidInput)
                       else if LastSave(ops[..i], outs[..i], NormalizeSerial(ops[i].cert.value.serial)).Some?
                       then Failed(AlreadyExists) else Done
  {
    hide NormalizeSerial, LastSave, LastRevoke, Reserved;
    assert Next(states[i], ops[i], states[i + 1], outs[i]);
    if ops[i].cert.Some? { StoreReflects(states, ops, outs, i, NormalizeSerial(ops[i].cert.value.serial)); }
  }

  // A revocation succeeds exactly once for each saved certificate that was not saved as revoked.
  lemma RevokeAnswers(states: seq<State>, ops: seq<Op>, outs: seq<Output>, i: nat)
    requires Run(states, ops, outs) && states[0] == EMPTY && i < |ops| && ops[i].Revoke?
    ensures var key := NormalizeSerial(ops[i].serial);
            var save, revoke := LastSave(ops[..i], outs[..i], key), LastRevoke(ops[..i], outs[..i], key);
      outs[i] == if key == "" then Failed(InvalidInput)
                 else if save.None? then Failed(NotFound)
                 else if save.value.cert.value.revoked || revoke.Some? then Failed(AlreadyRevoked)
                 else Done
  {
    hide NormalizeSerial, LastSave, LastRevoke, Reserved;
    assert Next(states[i], ops[i], states[i + 1], outs[i]);
    StoreReflects(states, ops, outs, i, NormalizeSerial(ops[i].serial));
  }

  // A revocation is looked up exactly as it was made: its reason, and its time or the clock's when it gave none.
  lemma LookupAnswers(states: seq<State>, ops: seq<Op>, outs: seq<Output>, i: nat)
    requires Run(states, ops, outs) && states[0] == EMPTY && i < |ops| && ops[i].GetRevocation?
    ensures var key := NormalizeSerial(ops[i].serial);
            var revoke := LastRevoke(ops[..i], outs[..i], key);
      outs[i] == if key == "" then Failed(InvalidInput)
                 else if revoke.None? then Failed(NotFound)
                 else FoundRevocation(Revocation(key, if revoke.value.at == ZERO_TIME then revoke.value.now
                                                      else revoke.value.at, revoke.value.reason))
  {
    hide NormalizeSerial, LastSave, LastRevoke, Reserved;
    assert Next(states[i], ops[i], states[i + 1], outs[i]);
    StoreReflects(states, ops, outs, i, NormalizeSerial(ops[i].serial));
  }

  // A serial is reserved exactly when it was neither saved nor reserved before.
  lemma ReserveAnswers(states: seq<State>, ops: seq<Op>, outs: seq<Output>, i: nat)
    requires Run(states, ops, outs) && states[0] == EMPTY && i < |ops| && ops[i].Reserve?
    ensures var key := NormalizeSerial(ops[i].serial);
      outs[i] == if key == "" then Failed(InvalidInput)
                 else if LastSave(ops[..i], outs[..i], key).Some? || Reserved(ops[..i], outs[..i], key)
                 then Failed(AlreadyExists) else Done
  {
    hide NormalizeSerial, LastSave, LastRevoke, Reserved;
    assert Next(states[i], ops[i], states[i + 1], outs[i]);
    StoreReflects(states, ops, outs, i, NormalizeSerial(ops[i].serial));
  }

  // The listing holds exactly the revocations made, each as it was made, the earliest first and those of one time in the
  // order of their serials.
  lemma ListingAnswers(states: seq<State>, ops: seq<Op>, outs: seq<Output>, i: nat, r: Revocation)
    requires Run(states, ops, outs) && states[0] == EMPTY && i < |ops| && ops[i].ListRevoked?
    ensures outs[i].Listing?
    ensures forall j, k :: 0 <= j < k < |outs[i].revs| ==>
      || outs[i].revs[j].revokedAt < outs[i].revs[k].revokedAt
      || (outs[i].revs[j].revokedAt == outs[i].revs[k].revokedAt && Less(outs[i].revs[j].serial, outs[i].revs[k].serial))
    ensures var revoke := LastRevoke(ops[..i], outs[..i], r.serial);
      r in outs[i].revs <==> revoke.Some? && r.reason == revoke.value.reason
                             && r.revokedAt == if revoke.value.at == ZERO_TIME then revoke.value.now else revoke.value.at
  {
    hide NormalizeSerial, LastSave, LastRevoke, Reserved;
    assert Next(states[i], ops[i], states[i + 1], outs[i]);
    StoreReflects(states, ops, outs, i, r.serial);
    RunExtends(states, ops, outs, i, i);
    ListingEntries(states[i], outs[i].revs);
  }

  // ----- Spellings -----

  // In either store, a record saved under one spelling of a number is refused as a duplicate, found and revoked under
  // any other, and its revocation is looked up under any third.
  lemma SpellingsShareRecord(s: State, cert: Cert, n: nat, y: string, z: string, reason: int, at: Time, now: Time)
    requires Spells(cert.serial, n) && Spells(y, n) && Spells(z, n) && !cert.revoked && at != ZERO_TIME
    requires Inv(s) && SaveCertificate(s, Some(cert), now).1 == Done
    ensures var saved := SaveCertificate(s, Some(cert), now).0;
            var (revoked, out) := RevokeCertificate(saved, y, reason, at, now);
      && SaveCertificate(saved, Some(cert.(serial := y)), now) == (saved, Failed(AlreadyExists))
      && GetCertificate(saved, y) == Found(cert.(serial := Text16(n)))
      && out == Done
      && LookupRevocation(revoked, z) == FoundRevocation(Revocation(Text16(n), at, reason))
      && GetCertificate(revoked, z) == Found(cert.(serial := Text16(n), revoked := true))
      && RevokeCertificate(revoked, z, reason, at, now) == (revoked, Failed(AlreadyRevoked))
  {
    SpellingIsNormalized(cert.serial, n);
    SpellingIsNormalized(y, n);
    SpellingIsNormalized(z, n);
    NormalizeFixesFormatted(n);
    hide NormalizeSerial, Text16, Spells;
  }

  lemma SpellingsShareRow(t: SqliteSpec.Tables, cert: Cert, n: nat, y: string, z: string, reason: int, at: Time, now: Time)
    requires Spells(cert.serial, n) && Spells(y, n) && Spells(z, n) && !cert.revoked && at != ZERO_TIME
    requires Inv(SqliteSpec.Abs(t)) && SqliteSpec.Save(t, Some(cert), now).1 == Done
    ensures var saved := SqliteSpec.Save(t, Some(cert), now).0;
            var (revoked, out) := SqliteSpec.Revoke(saved, y, reason, at, now);
      && SqliteSpec.Save(saved, Some(cert.(serial := y)), now) == (saved, Failed(AlreadyExists))
      && SqliteSpec.Get(saved, y) == Found(cert.(serial := Text16(n)))
      && out == Done
      && SqliteSpec.LookupRevocation(revoked, z) == FoundRevocation(Revocation(Text16(n), at, reason))
      && SqliteSpec.Get(revoked, z) == Found(cert.(serial := Text16(n), revoked := true))
      && SqliteSpec.Revoke(revoked, z, reason, at, now) == (revoked, Failed(AlreadyRevoked))
  {
    SpellingIsNormalized(cert.serial, n);
    SpellingIsNormalized(y, n);
    SpellingIsNormalized(z, n);
    NormalizeFixesFormatted(n);
    hide NormalizeSerial, Text16, Spells;
    RowIsNew(t, cert, Text16(n), now);
    SavedRow(t, cert, y, Text16(n), now);
    RevokedRow(SqliteSpec.Save(t, Some(cert), now).0, y, z, Text16(n), reason, at, now);
    hide SqliteSpec.Abs, Inv, SqliteSpec.Save, SqliteSpec.Revoke, SqliteSpec.Get, SqliteSpec.LookupRevocation;
  }

  lemma SavedRow(t: SqliteSpec.Tables, cert: Cert, y: string, key: string, now: Time)
    requires NormalizeSerial(cert.serial) == key && NormalizeSerial(y) == key && key != "" && !cert.revoked
    requires SqliteSpec.Save(t, Some(cert), now).1 == Done
    ensures var saved := SqliteSpec.Save(t, Some(cert), now).0;
      && SqliteSpec.Save(saved, Some(cert.(serial := y)), now) == (saved, Failed(AlreadyExists))
      && SqliteSpec.Get(saved, y) == Found(cert.(serial := key))
      && key in saved.certificates && saved.certificates[key].revoked == 0
      && SqliteSpec.RecordOf(key, saved.certificates[key]) == cert.(serial := key)
      && saved.revocations == t.revocations
  {
    hide NormalizeSerial;
  }

  lemma RevokedRow(t: SqliteSpec.Tables, y: string, z: string, key: string, reason: int, at: Time, now: Time)
    requires NormalizeSerial(z) == key && NormalizeSerial(y) == key && key != "" && at != ZERO_TIME
    requires key in t.certificates && t.certificates[key].revoked == 0 && key !in t.revocations
    ensures var (revoked, out) := SqliteSpec.Revoke(t, y, reason, at, now);
      && out == Done
      && SqliteSpec.LookupRevocation(revoked, z) == FoundRevocation(Revocation(key, at, reason))
      && SqliteSpec.Get(revoked, z) == Found(SqliteSpec.RecordOf(key, t.certificates[key]).(revoked := true))
      && SqliteSpec.Revoke(revoked, z, reason, at, now) == (revoked, Failed(AlreadyRevoked))
  {
    hide NormalizeSerial;
  }

  lemma RowIsNew(t: SqliteSpec.Tables, cert: Cert, key: string, now: Time)
    requires Inv(SqliteSpec.Abs(t)) && NormalizeSerial(cert.serial) == key && SqliteSpec.Save(t, Some(cert), now).1 == Done
    ensures key != "" && key !in t.certificates && key !in t.revocations
  {
    hide NormalizeSerial;
    assert key in t.revocations ==> key in SqliteSpec.Abs(t).revocations;
    assert key in SqliteSpec.Abs(t).certs ==> key in t.certificates;
  }
}

// Reserving serials in the SQLite store while other requests run (pkg/storage/sqlite.go:252-269). ReserveSerial counts
// the rows with the serial and then inserts one, as two statements without a transaction, so other requests' statements
// may run in between. The primary key of the table decides the race.
module SqliteReserver {
  import opened Wrappers
  import opened Text
  import opened Serials
  import opened StoreSpec
  import opened SqliteSpec
  import Reserver

  // The second statement: a row with the serial already there is a database error.
  function InsertSerial(t: Tables, key: string, now: Time): (Tables, Output) {
    if key in t.serials then (t, Failed(DatabaseFailure)) else (t.(serials := t.serials[key := now]), Done)
  }

  // The call whose count sees t and whose insert, if it comes to that, sees u.
  function SplitReserve(t: Tables, u: Tables, serial: string, now: Time): (Tables, Output) {
    var key := NormalizeSerial(serial);
    if key == "" then (u, Failed(InvalidInput))
    else if key in t.serials then (u, Failed(AlreadyExists))
    else InsertSerial(u, key, now)
  }

  // The two statements act like one at the moment of the second exactly when the serial did not appear in between (or
  // disappear, which no operation makes it do). Otherwise the loser of the race gets a database error where
  // AlreadyExists would have made the caller try again.
  lemma SplitIsAtomicIff(t: Tables, u: Tables, serial: string, now: Time)
    ensures var key := NormalizeSerial(serial);
      && (SplitReserve(t, u, serial, now) == SqliteSpec.Reserve(u, serial, now)
          <==> key == "" || (key in t.serials <==> key in u.serials))
      && (key != "" && key !in t.serials && key in u.serials ==>
            SplitReserve(t, u, serial, now) == (u, Failed(DatabaseFailure)))
  {
  }

  // ----- Concurrent issuance -----

  // checking: requests between their count, which found nothing, and their insert.
  datatype System = System(tables: Tables, checking: map<nat, nat>, inFlight: map<nat, nat>, returned: seq<nat>,
                           saves: seq<Output>)

  datatype Action =
    | Count(request: nat, number: nat)
    | Insert(request: nat, now: Time)
    | SaveSigned(request: nat, cert: Cert, now: Time)
    | Abandon(request: nat)
    | Revoking(serial: string, reason: int, at: Time, now: Time)

  ghost predicate Step(s: System, a: Action, s': System) {
    match a
    case Count(request, serial) =>
      && request !in s.checking && request !in s.inFlight && 1 <= serial < Reserver.Pow2(Reserver.MAX_SERIAL_BITS)
      && s' == if NormalizeSerial(FormatSerial(Some(serial))) in s.tables.serials then s
               else s.(checking := s.checking[request := serial])
    case Insert(request, now) =>
      && request in s.checking
      && var serial := s.checking[request];
      && var (tables, out) := InsertSerial(s.tables, NormalizeSerial(FormatSerial(Some(serial))), now);
      && s' == if out.Done? then System(tables, s.checking - {request}, s.inFlight[request := serial],
                                        s.returned + [serial], s.saves)
               else s.(checking := s.checking - {request})
    case SaveSigned(request, cert, now) =>
      && request in s.inFlight && cert.serial == FormatSerial(Some(s.inFlight[request]))
      && cert.rawDER.Some? && cert.pem.Some?
      && var (tables, out) := SqliteSpec.Save(s.tables, Some(cert), now);
      && s' == System(tables, s.checking, s.inFlight - {request}, s.returned, s.saves + [out])
    case Abandon(request) =>
      request in s.inFlight && s' == s.(inFlight := s.inFlight - {request})
    case Revoking(serial, reason, at, now) =>
      s' == s.(tables := SqliteSpec.Revoke(s.tables, serial, reason, at, now).0)
  }

  // The same system on a store that reserves in one step.
  function Atomic(s: System): Reserver.System {
    Reserver.System(Abs(s.tables), s.inFlight, s.returned, s.saves)
  }

  ghost predicate Checked(s: System) {
    && (forall q :: q in s.checking ==> 1 <= s.checking[q] < Reserver.Pow2(Reserver.MAX_SERIAL_BITS))
    && (forall q :: q in s.checking ==> q !in s.inFlight)
  }

  lemma InsertRefines(s: System, a: Action, s': System)
    requires a.Insert? && Step(s, a, s') && Reserver.SystemInv(Atomic(s)) && Checked(s)
    ensures Atomic(s') == Atomic(s)
            || Reserver.Step(Atomic(s), Reserver.Reserved(a.request, s.checking[a.request], a.now), Atomic(s'))
  {
    hide NormalizeSerial, FormatSerial, Reserver.Pow2, Reserver.ReturnedInv, Reserver.InFlightInv, Inv, Abs, ReserveSerial;
    var serial := s.checking[a.request];
    var text := FormatSerial(Some(serial));
    FormattedIsKey(serial);
    ReserveRefines(s.tables, text, a.now);
  }

  lemma FormattedIsKey(serial: nat)
    ensures NormalizeSerial(FormatSerial(Some(serial))) != ""
  {
    NormalizeFixesFormatted(serial);
  }

  lemma SaveRefinesStep(s: System, a: Action, s': System)
    requires a.SaveSigned? && Step(s, a, s')
    ensures Reserver.Step(Atomic(s), Reserver.SaveSigned(a.request, a.cert, a.now), Atomic(s'))
  {
    hide NormalizeSerial, FormatSerial, Abs, SaveCertificate, SqliteSpec.Save;
    SaveRefines(s.tables, Some(a.cert), a.now);
  }

  lemma RevokeRefinesStep(s: System, a: Action, s': System)
    requires a.Revoking? && Step(s, a, s') && Inv(Abs(s.tables))
    ensures var op := Op.Revoke(a.serial, a.reason, a.at, a.now);
      Reserver.Step(Atomic(s), Reserver.Other(op, SqliteSpec.Revoke(s.tables, a.serial, a.reason, a.at, a.now).1), Atomic(s'))
  {
    hide NormalizeSerial, Abs, RevokeCertificate, SqliteSpec.Revoke, Inv;
    RevokeRefines(s.tables, a.serial, a.reason, a.at, a.now);
  }

  lemma StepKeeps(s: System, a: Action, s': System)
    requires Step(s, a, s') && Reserver.SystemInv(Atomic(s)) && Checked(s)
    ensures Reserver.SystemInv(Atomic(s')) && Checked(s')
  {
    CheckedKept(s, a, s');
    match a
    case Count(_, _) =>
    case Insert(request, now) =>
      InsertRefines(s, a, s');
      hide Reserver.SystemInv, Reserver.Step, Step;
      if Atomic(s') != Atomic(s) {
        Reserver.SystemStepKeepsInv(Atomic(s), Reserver.Reserved(request, s.checking[request], now), Atomic(s'));
      }
    case SaveSigned(request, cert, now) =>
      SaveRefinesStep(s, a, s');
      hide Reserver.SystemInv, Reserver.Step;
      Reserver.SystemStepKeepsInv(Atomic(s), Reserver.SaveSigned(request, cert, now), Atomic(s'));
    case Abandon(request) =>
      Reserver.SystemStepKeepsInv(Atomic(s), Reserver.Abandon(request), Atomic(s'));
    case Revoking(serial, reason, at, now) =>
      RevokeRefinesStep(s, a, s');
      hide Reserver.SystemInv, Reserver.Step;
      Reserver.SystemStepKeepsInv(Atomic(s), Reserver.Other(Op.Revoke(serial, reason, at, now),
                                                           SqliteSpec.Revoke(s.tables, serial, reason, at, now).1), Atomic(s'));
  }

  lemma CheckedKept(s: System, a: Action, s': System)
    requires Step(s, a, s') && Checked(s)
    ensures Checked(s')
  {
    hide NormalizeSerial, FormatSerial, Reserver.Pow2, SqliteSpec.Save, SqliteSpec.Revoke;
  }

  ghost predicate Behavior(states: seq<System>, actions: seq<Action>) {
    && |states| == |actions| + 1
    && Inv(Abs(states[0].tables)) && states[0] == System(states[0].tables, map[], map[], [], [])
    && forall i :: 0 <= i < |actions| ==> Step(states[i], actions[i], states[i + 1])
  }

  lemma InitialInv(s: System)
    requires Inv(Abs(s.tables)) && s == System(s.tables, map[], map[], [], [])
    ensures Reserver.SystemInv(Atomic(s)) && Checked(s)
  {
    hide Abs, Inv;
  }

  lemma {:induction false} Reachable(states: seq<System>, actions: seq<Action>, i: nat)
    requires Behavior(states, actions) && i <= |actions|
    ensures Reserver.SystemInv(Atomic(states[i])) && Checked(states[i])
  {
    hide Step, Reserver.SystemInv, Checked, Atomic;
    if i == 0 {
      InitialInv(states[0]);
    } else {
      Reachable(states, actions, i - 1);
      StepKeeps(states[i - 1], actions[i - 1], states[i]);
    }
  }

  // Even with counts and inserts interleaved, over every run the serials handed out are pairwise distinct, positive and
  // at most 20 octets long, and no save of a signed certificate collides.
  lemma RacingIssuanceSafe(states: seq<System>, actions: seq<Action>, i: nat)
    requires Behavior(states, actions) && i <= |actions|
    ensures Reserver.Distinct(states[i].returned)
    ensures forall n :: n in states[i].returned ==> n > 0 && Reserver.DerOctets(n) <= 20
    ensures forall j :: 0 <= j < |states[i].saves| ==> states[i].saves[j] == Done
  {
    Reachable(states, actions, i);
    forall n | n in states[i].returned ensures Reserver.DerOctets(n) <= 20 {
      Reserver.GeneratedSerialFits(n, Reserver.MAX_SERIAL_BITS);
    }
  }

  // Two requests draw the same serial and both count before either inserts: the second insert fails.
  lemma LoserFails(serial: nat, now: Time) returns (states: seq<System>, actions: seq<Action>)
    requires 1 <= serial < Reserver.Pow2(Reserver.MAX_SERIAL_BITS)
    ensures Behavior(states, actions) && actions == [Count(1, serial), Count(2, serial), Insert(1, now), Insert(2, now)]
    ensures states[4].returned == [serial] && states[4].checking == map[]
    ensures InsertSerial(states[3].tables, NormalizeSerial(FormatSerial(Some(serial))), now).1 == Failed(DatabaseFailure)
  {
    hide NormalizeSerial, FormatSerial, Reserver.Pow2;
    var key := NormalizeSerial(FormatSerial(Some(serial)));
    var reserved := NO_ROWS.(serials := map[key := now]);
    states := [System(NO_ROWS, map[], map[], [], []),
               System(NO_ROWS, map[1 := serial], map[], [], []),
               System(NO_ROWS, map[1 := serial, 2 := serial], map[], [], []),
               System(reserved, map[2 := serial], map[1 := serial], [serial], []),
               System(reserved, map[], map[1 := serial], [serial], [])];
    actions := [Count(1, serial), Count(2, serial), Insert(1, now), Insert(2, now)];
    assert map[1 := serial, 2 := serial] - {1} == map[2 := serial];
    assert map[2 := serial] - {2} == map[];
    assert NO_ROWS.serials[key := now] == map[key := now];
    assert Step(states[0], actions[0], states[1]);
    assert Step(states[1], actions[1], states[2]);
    assert Step(states[2], actions[2], states[3]);
    assert Step(states[3], actions[3], states[4]);
  }
}

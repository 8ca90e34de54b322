// Random serial numbers and their reservation (pkg/ca/serial.go). The random source is a finite tape of draws:
// an empty tape is a failing reader.
module Reserver {
  import opened Wrappers
  import opened Text
  import opened Serials
  import opened StoreSpec
  import opened MemoryStore

  const MIN_SERIAL_BITS := 64
  const MAX_SERIAL_BITS := 159
  const MAX_RESERVATION_RETRIES := 5

  datatype SerialError = InvalidSerialBits | EntropyFailure | SerialExhaustion

  function Pow2(k: nat): (p: nat)
    ensures p >= 1
  {
    if k == 0 then 1 else 2 * Pow2(k - 1)
  }

  // The draws that GenerateSerialWithBits does not throw away.
  function Positives(tape: seq<nat>): seq<nat> {
    if tape == [] then [] else if tape[0] > 0 then [tape[0]] + Positives(tape[1..]) else Positives(tape[1..])
  }

  // Draw until a value is positive. `tape` holds the coming results of rand.Int(reader, 2^bits).
  method GenerateSerialWithBits(bits: int, tape: seq<nat>) returns (r: Result<nat, SerialError>, rest: seq<nat>)
    ensures bits < 64 || bits > 159 <==> r == Err(InvalidSerialBits)
    ensures r == Err(InvalidSerialBits) ==> rest == tape
    ensures r != Err(InvalidSerialBits) ==>
      r == (if Positives(tape) == [] then Err(EntropyFailure) else Ok(Positives(tape)[0]))
    ensures r.Ok? ==> r.value > 0 && r.value in tape && Positives(rest) == Positives(tape)[1..]
    ensures r.Ok? ==> forall x :: x in rest ==> x in tape
  {
    if bits < MIN_SERIAL_BITS || bits > MAX_SERIAL_BITS {
      return Err(InvalidSerialBits), tape;
    }
    rest := tape;
    while true
      invariant Positives(rest) == Positives(tape)
      invariant forall x :: x in rest ==> x in tape
      decreases |rest|
    {
      if rest == [] { return Err(EntropyFailure), []; }
      var serial := rest[0];
      assert forall x :: x in rest[1..] ==> x in rest;
      rest := rest[1..];
      if serial > 0 {
        return Ok(serial), rest;
      }
    }
  }

  predicate Taken(s: State, n: nat) {
    Text16(n) in s.serials || Text16(n) in s.certs
  }

  lemma ReserveFormatted(s: State, n: nat, now: Time)
    ensures ReserveSerial(s, FormatSerial(Some(n)), now)
         == if Taken(s, n) then (s, Failed(AlreadyExists))
            else (s.(serials := s.serials[Text16(n) := now]), Done)
  {
    NormalizeFixesFormatted(n);
  }

  method ReserveNumber(store: MemoryStorage, serial: nat, now: Time) returns (out: Output)
    requires store.Valid()
    modifies store`serials
    ensures store.Valid()
    ensures Taken(old(store.View()), serial) ==> out == Failed(AlreadyExists) && store.View() == old(store.View())
    ensures !Taken(old(store.View()), serial) ==>
      out == Done && store.View() == old(store.View()).(serials := old(store.serials)[Text16(serial) := now])
  {
    ReserveFormatted(store.View(), serial, now);
    var serialHex := FormatSerial(Some(serial));
    out := store.ReserveSerial(serialHex, now);
  }

  // The first k draws exist and are all taken.
  ghost predicate FirstTaken(s: State, draws: seq<nat>, k: nat) {
    k <= |draws| && forall j :: 0 <= j < k ==> Taken(s, draws[j])
  }

  // Draw and reserve, at most five times. With p the positive draws: the first p[i] not taken, i < 5, is returned
  // and reserved, and nothing else changes; otherwise the store is unchanged.
  method GenerateAndReserveSerialWithBits(store: MemoryStorage, bits: int, tape: seq<nat>, now: Time)
    returns (r: Result<nat, SerialError>)
    requires store.Valid()
    requires MIN_SERIAL_BITS <= bits <= MAX_SERIAL_BITS ==> forall x :: x in tape ==> x < Pow2(bits)
    modifies store`serials
    ensures store.Valid()
    ensures r == Err(InvalidSerialBits) <==> bits < MIN_SERIAL_BITS || bits > MAX_SERIAL_BITS
    ensures r.Err? ==> store.View() == old(store.View())
    ensures r.Ok? ==>
      && 1 <= r.value < Pow2(bits)
      && !Taken(old(store.View()), r.value)
      && store.View() == old(store.View()).(serials := old(store.serials)[Text16(r.value) := now])
    ensures r.Ok? ==> exists i :: 0 <= i < 5 && FirstTaken(old(store.View()), Positives(tape), i)
                                  && i < |Positives(tape)| && Positives(tape)[i] == r.value
    ensures r == Err(SerialExhaustion) ==> FirstTaken(old(store.View()), Positives(tape), 5)
    ensures r == Err(EntropyFailure) ==> |Positives(tape)| < 5
                                         && FirstTaken(old(store.View()), Positives(tape), |Positives(tape)|)
  {
    hide Pow2, Positives, NormalizeSerial, Text16, FormatSerial;
    var rest := tape;
    var attempt := 0;
    while attempt < MAX_RESERVATION_RETRIES
      invariant 0 <= attempt <= MAX_RESERVATION_RETRIES
      invariant attempt > 0 ==> MIN_SERIAL_BITS <= bits <= MAX_SERIAL_BITS
      invariant store.Valid() && store.View() == old(store.View())
      invariant forall x :: x in rest ==> x in tape
      invariant FirstTaken(old(store.View()), Positives(tape), attempt)
      invariant Positives(rest) == Positives(tape)[attempt..]
    {
      var serial, rest' := GenerateSerialWithBits(bits, rest);
      if serial.Err? { return serial; }
      assert serial.value == Positives(tape)[attempt];
      rest := rest';
      var out := ReserveNumber(store, serial.value, now);
      if out.Done? { return serial; }
      assert out == Failed(AlreadyExists);  // the only error a formatted serial can meet
      attempt := attempt + 1;
    }
    r := Err(SerialExhaustion);
  }

  // ----- Size on the wire -----

  // Octets of the DER INTEGER contents of n: the leading bit must be clear.
  function DerOctets(n: nat): nat {
    if n < 128 then 1 else 1 + DerOctets(n / 256)
  }

  lemma Pow2Times256(k: nat)
    ensures Pow2(k + 8) == 256 * Pow2(k)
  {
    assert Pow2(k + 2) == 4 * Pow2(k);
    assert Pow2(k + 4) == 16 * Pow2(k);
    assert Pow2(k + 6) == 64 * Pow2(k);
  }

  lemma {:induction false} DerOctetsBound(n: nat, k: nat)
    requires k > 0
    ensures DerOctets(n) <= k <==> n < Pow2(8 * k - 1)
  {
    if k == 1 {
      assert Pow2(7) == 128;
    } else {
      Pow2Times256(8 * (k - 1) - 1);
      if n >= 128 { DerOctetsBound(n / 256, k - 1); }
    }
  }

  lemma {:induction false} Pow2Monotone(a: nat, b: nat)
    requires a <= b
    ensures Pow2(a) <= Pow2(b)
  {
    if a < b { Pow2Monotone(a, b - 1); }
  }

  // A generated serial fits in the 20 octets of section 4.1.2.2 of RFC 5280; 159 bits is the widest that does.
  lemma GeneratedSerialFits(n: nat, bits: nat)
    requires n < Pow2(bits) && bits <= MAX_SERIAL_BITS
    ensures DerOctets(n) <= 20
    ensures DerOctets(Pow2(159)) == 21
  {
    Pow2Monotone(bits, 159);
    DerOctetsBound(n, 20);
    DerOctetsBound(Pow2(159), 20);
    DerOctetsBound(Pow2(159), 21);
    assert Pow2(167) >= 2 * Pow2(159) by { Pow2Monotone(160, 167); }
  }

  // ----- Concurrent issuance on one store -----
  //
  // ACME finalize and EST enrolment run concurrently on one store, each reserving a serial, signing without any
  // lock, and saving the certificate under the reserved serial (pkg/protocols/acme/server.go:698-742,
  // pkg/protocols/est/handler.go:74-114). Every store call is atomic; between them anything may happen.

  datatype System = System(store: State, inFlight: map<nat, nat>, returned: seq<nat>, saves: seq<Output>)

  datatype Action =
    | Reserved(request: nat, serial: nat, now: Time)   // a reservation that succeeded
    | SaveSigned(request: nat, cert: Cert, now: Time)  // the certificate signed for the request is saved
    | Abandon(request: nat)                            // signing failed: the serial stays reserved
    | Other(op: Op, out: Output)                       // revocations, reads and failed reservations

  ghost predicate Step(s: System, a: Action, s': System) {
    match a
    case Reserved(request, serial, now) =>
      && request !in s.inFlight && 1 <= serial < Pow2(MAX_SERIAL_BITS)
      && var (store, out) := ReserveSerial(s.store, FormatSerial(Some(serial)), now);
      && out.Done?
      && s' == System(store, s.inFlight[request := serial], s.returned + [serial], s.saves)
    case SaveSigned(request, cert, now) =>
      && request in s.inFlight && cert.serial == FormatSerial(Some(s.inFlight[request]))
      && var (store, out) := SaveCertificate(s.store, Some(cert), now);
      && s' == System(store, s.inFlight - {request}, s.returned, s.saves + [out])
    case Abandon(request) =>
      request in s.inFlight && s' == s.(inFlight := s.inFlight - {request})
    case Other(op, out) =>
      && !op.Save? && (op.Reserve? ==> out.Failed?)
      && s'.inFlight == s.inFlight && s'.returned == s.returned && s'.saves == s.saves
      && Next(s.store, op, s'.store, out)
  }

  ghost predicate Distinct(serials: seq<nat>) {
    forall i, j :: 0 <= i < j < |serials| ==> serials[i] != serials[j]
  }

  // Every serial handed out is in range and recorded in the store, and no two are equal.
  ghost predicate ReturnedInv(s: System) {
    && Distinct(s.returned)
    && forall n :: n in s.returned ==> 1 <= n < Pow2(MAX_SERIAL_BITS) && Text16(n) in s.store.serials
  }

  // A request in flight has a serial of its own, under which nothing is saved yet.
  ghost predicate InFlightInv(s: System) {
    && (forall q :: q in s.inFlight ==> s.inFlight[q] in s.returned && Text16(s.inFlight[q]) !in s.store.certs)
    && forall q, q' :: q in s.inFlight && q' in s.inFlight && q != q' ==> s.inFlight[q] != s.inFlight[q']
  }

  ghost predicate SystemInv(s: System) {
    && Inv(s.store) && ReturnedInv(s) && InFlightInv(s)
    && forall i :: 0 <= i < |s.saves| ==> s.saves[i] == Done
  }

  // A number that was not taken is new to the list and to the requests in flight.
  lemma ReservedIsNew(s: System, serial: nat, s': System, request: nat, store: State)
    requires ReturnedInv(s) && InFlightInv(s) && request !in s.inFlight
    requires !Taken(s.store, serial) && 1 <= serial < Pow2(MAX_SERIAL_BITS)
    requires store.certs == s.store.certs && store.serials.Keys == s.store.serials.Keys + {Text16(serial)}
    requires s' == System(store, s.inFlight[request := serial], s.returned + [serial], s.saves)
    ensures ReturnedInv(s') && InFlightInv(s')
  {
    hide Pow2, Text16;
    assert serial !in s.returned;
  }

  lemma ReservedKeepsInv(s: System, request: nat, serial: nat, now: Time, s': System)
    requires SystemInv(s) && Step(s, Reserved(request, serial, now), s')
    ensures SystemInv(s')
  {
    hide Pow2, Text16, NormalizeSerial, ReserveSerial, FormatSerial, ReturnedInv, InFlightInv, Inv;
    ReserveFormatted(s.store, serial, now);
    ReserveKeepsInv(s.store, FormatSerial(Some(serial)), now);
    ReservedIsNew(s, serial, s', request, s'.store);
  }

  lemma SaveFormatted(s: State, cert: Cert, n: nat, now: Time)
    requires Inv(s) && cert.serial == FormatSerial(Some(n)) && Text16(n) !in s.certs && Text16(n) in s.serials
    ensures SaveCertificate(s, Some(cert), now) == (s.(certs := s.certs[Text16(n) := cert]), Done)
  {
    NormalizeFixesFormatted(n);
  }

  lemma SaveSignedKeepsInv(s: System, request: nat, cert: Cert, now: Time, s': System)
    requires SystemInv(s) && Step(s, SaveSigned(request, cert, now), s')
    ensures SystemInv(s')
  {
    hide Pow2, Text16, NormalizeSerial, SaveCertificate, FormatSerial, Inv;
    var n := s.inFlight[request];
    SaveFormatted(s.store, cert, n, now);
    SaveKeepsInv(s.store, Some(cert), now);
    forall q | q in s'.inFlight ensures Text16(s'.inFlight[q]) !in s'.store.certs {
      Text16Injective(s.inFlight[q], n);
    }
  }

  lemma OtherKeepsInv(s: System, op: Op, out: Output, s': System)
    requires SystemInv(s) && Step(s, Other(op, out), s')
    ensures SystemInv(s')
  {
    hide Pow2, Text16, Next, Inv;
    StepKeepsInv(s.store, op, s'.store, out);
    OnlySaveAddsCerts(s.store, op, s'.store, out);
  }

  lemma OnlySaveAddsCerts(s: State, op: Op, s': State, out: Output)
    requires Next(s, op, s', out) && !op.Save?
    ensures s'.certs.Keys == s.certs.Keys
  {
  }

  ghost predicate Behavior(states: seq<System>, actions: seq<Action>) {
    && |states| == |actions| + 1
    && Inv(states[0].store) && states[0].inFlight == map[] && states[0].returned == [] && states[0].saves == []
    && forall i :: 0 <= i < |actions| ==> Step(states[i], actions[i], states[i + 1])
  }

  lemma SystemStepKeepsInv(s: System, a: Action, s': System)
    requires SystemInv(s) && Step(s, a, s')
    ensures SystemInv(s')
  {
    match a
    case Reserved(request, serial, now) => ReservedKeepsInv(s, request, serial, now, s');
    case SaveSigned(request, cert, now) => SaveSignedKeepsInv(s, request, cert, now, s');
    case Abandon(request) =>
    case Other(op, out) => OtherKeepsInv(s, op, out, s');
  }

  lemma {:induction false} ReachableInv(states: seq<System>, actions: seq<Action>, i: nat)
    requires Behavior(states, actions) && i <= |actions|
    ensures SystemInv(states[i])
  {
    if i > 0 {
      ReachableInv(states, actions, i - 1);
      SystemStepKeepsInv(states[i - 1], actions[i - 1], states[i]);
    }
  }

  // Over every interleaving started on any store: the serials handed out are pairwise distinct, positive and at
  // most 20 octets long, and no save of a signed certificate ever collides.
  lemma ConcurrentIssuanceSafe(states: seq<System>, actions: seq<Action>, i: nat)
    requires Behavior(states, actions) && i <= |actions|
    ensures Distinct(states[i].returned)
    ensures forall n :: n in states[i].returned ==> n > 0 && DerOctets(n) <= 20
    ensures forall j :: 0 <= j < |states[i].saves| ==> states[i].saves[j] == Done
  {
    ReachableInv(states, actions, i);
    forall n | n in states[i].returned ensures DerOctets(n) <= 20 {
      GeneratedSerialFits(n, MAX_SERIAL_BITS);
    }
  }
}

// Certificate revocation lists (pkg/protocols/crl/generator.go).
module Crl {
  import opened Wrappers
  import opened Text
  import opened Serials
  import opened StoreSpec
  import opened MemoryStore

  datatype Entry = Entry(serial: int, revokedAt: Time, reason: int)

  datatype RevocationList = RevocationList(number: nat, thisUpdate: Time, nextUpdate: Time, entries: seq<Entry>)

  datatype CrlError = InvalidSerial(serial: string) | SigningFailed | NotReady

  const MINUTE: Time := 60
  const DEFAULT_VALIDITY: Time := 24 * 60 * MINUTE

  // Does the revocation carry a serial that GenerateCRL can turn into a number?
  predicate Parses(r: Revocation) {
    SetString16(NormalizeSerial(r.serial)).Some?
  }

  function EntryOf(r: Revocation): Entry
    requires Parses(r)
  {
    Entry(SetString16(NormalizeSerial(r.serial)).value, r.revokedAt, r.reason)
  }

  // The entries are those of the listing, in its order.
  ghost predicate Lists(entries: seq<Entry>, l: seq<Revocation>) {
    |entries| == |l| && forall i :: 0 <= i < |l| ==> Parses(l[i]) && entries[i] == EntryOf(l[i])
  }

  method BuildEntries(records: seq<Revocation>) returns (r: Result<seq<Entry>, CrlError>)
    ensures r.Ok? ==> Lists(r.value, records)
    ensures r.Ok? ==> |r.value| == |records| && forall i :: 0 <= i < |records| ==>
      r.value[i].revokedAt == records[i].revokedAt && r.value[i].reason == records[i].reason
      && SetString16(NormalizeSerial(records[i].serial)) == Some(r.value[i].serial)
    ensures r.Err? <==> exists i :: 0 <= i < |records| && !Parses(records[i])
    ensures r.Err? ==> r.error.InvalidSerial?
  {
    var entries: seq<Entry> := [];
    for i := 0 to |records|
      invariant |entries| == i && forall j :: 0 <= j < i ==> Parses(records[j]) && entries[j] == EntryOf(records[j])
    {
      var rec := records[i];
      var serialInt := SetString16(NormalizeSerial(rec.serial));
      if serialInt.None? {
        assert !Parses(records[i]);
        return Err(InvalidSerial(rec.serial));
      }
      entries := entries + [Entry(serialInt.value, rec.revokedAt, rec.reason)];
    }
    r := Ok(entries);
  }

  lemma ListingParses(revs: map<string, Revocation>, l: seq<Revocation>)
    requires IsListing(revs, l)
    ensures (exists i :: 0 <= i < |l| && !Parses(l[i])) <==> exists k :: k in revs && !Parses(revs[k])
  {
    if k :| k in revs && !Parses(revs[k]) {
      assert revs[k] in l;
      var i :| 0 <= i < |l| && l[i] == revs[k];
    }
    if i :| 0 <= i < |l| && !Parses(l[i]) {
      assert l[i] in revs.Values;
      var k :| k in revs && revs[k] == l[i];
    }
  }

  class CRLGenerator {
    const validity: Time
    var crlNumber: nat

    constructor (validity: Time)
      ensures crlNumber == 0 && this.validity == if validity <= 0 then 86400 else validity
    {
      this.validity := if validity <= 0 then DEFAULT_VALIDITY else validity;
      crlNumber := 0;
    }

    // A CRL lists every revocation of the store under the next number. It fails before taking a number exactly when
    // some revoked serial is not hexadecimal; a signing failure uses the number up.
    method GenerateCRL(store: MemoryStorage, now: Time, signs: bool) returns (r: Result<RevocationList, CrlError>)
      requires store.Valid() && Inv(store.View())
      modifies this
      ensures r.Ok? ==> crlNumber == old(crlNumber) + 1 && r.value.number == crlNumber
      ensures r.Ok? ==> exists l :: IsListing(store.revocations, l) && Lists(r.value.entries, l)
      ensures r.Ok? ==> r.value.thisUpdate == now - 60 && r.value.nextUpdate == now + validity
      ensures (r.Err? && r.error.InvalidSerial?)
         <==> exists k :: k in store.revocations && !Parses(store.revocations[k])
      ensures r.Err? && r.error.InvalidSerial? ==> crlNumber == old(crlNumber)
      ensures r == Err(SigningFailed) <==> !signs && forall k :: k in store.revocations ==> Parses(store.revocations[k])
      ensures r == Err(SigningFailed) ==> crlNumber == old(crlNumber) + 1
      ensures r != Err(NotReady)
    {
      var listing := store.ListRevoked();
      var records := listing.revs;
      ListingParses(store.revocations, records);
      var entries := BuildEntries(records);
      if entries.Err? { return Err(entries.error); }
      crlNumber := crlNumber + 1;
      if !signs { return Err(SigningFailed); }
      r := Ok(RevocationList(crlNumber, now - MINUTE, now + validity, entries.value));
    }
  }

  class CRLService {
    const generator: CRLGenerator
    var cachedCRL: Option<RevocationList>
    var lastGenerated: Time

    ghost predicate Valid()
      reads this, generator
    {
      cachedCRL.Some? ==> cachedCRL.value.number <= generator.crlNumber
    }

    constructor (generator: CRLGenerator)
      ensures Valid() && cachedCRL == None && this.generator == generator
    {
      this.generator := generator;
      cachedCRL, lastGenerated := None, ZERO_TIME;
    }

    // Called with no other call in progress: the cache moves to a higher number, or stays on failure.
    method Regenerate(store: MemoryStorage, now: Time, signs: bool) returns (r: Result<RevocationList, CrlError>)
      requires Valid() && store.Valid() && Inv(store.View())
      modifies this, generator
      ensures Valid()
      ensures r.Ok? ==> cachedCRL == Some(r.value) && lastGenerated == now
                        && (old(cachedCRL).Some? ==> old(cachedCRL).value.number < r.value.number)
      ensures r.Ok? <==> signs && forall k :: k in store.revocations ==> Parses(store.revocations[k])
      ensures r.Err? ==> cachedCRL == old(cachedCRL) && lastGenerated == old(lastGenerated)
    {
      r := generator.GenerateCRL(store, now, signs);
      if r.Err? { return; }
      cachedCRL := Some(r.value);
      lastGenerated := now;
    }

    method LatestCRL() returns (r: Result<(RevocationList, Time), CrlError>)
      ensures r == if cachedCRL.None? then Err(NotReady) else Ok((cachedCRL.value, lastGenerated))
    {
      if cachedCRL.None? { return Err(NotReady); }
      r := Ok((cachedCRL.value, lastGenerated));
    }
  }

  // ----- Generation under every interleaving -----
  //
  // The generator's lock is held from the listing to the end of GenerateCRL; the store has its own lock, so store
  // operations run in between. Regenerate writes the cache later, under a third lock.

  datatype System = System(store: State, number: nat, generating: Option<seq<Revocation>>, issued: seq<RevocationList>,
                           unpublished: set<RevocationList>, cache: Option<RevocationList>)

  datatype Action =
    | StoreOp(op: Op, out: Output)
    | List                               // lock the generator and list the revocations
    | Fail                               // a listed serial does not parse
    | Issue(now: Time, nextUpdate: Time) // number, sign, unlock
    | SignFailure                        // number taken, no CRL returned
    | Publish(crl: RevocationList)       // write the cache

  ghost predicate Step(s: System, a: Action, s': System) {
    match a
    case StoreOp(op, out) => Next(s.store, op, s'.store, out) && s' == s.(store := s'.store)
    case List =>
      && s.generating.None? && s'.generating.Some? && s' == s.(generating := s'.generating)
      && IsListing(s.store.revocations, s'.generating.value)
    case Fail =>
      && s.generating.Some? && (exists r :: r in s.generating.value && !Parses(r))
      && s' == s.(generating := None)
    case Issue(now, nextUpdate) =>
      && s.generating.Some? && |s'.issued| == |s.issued| + 1
      && var crl := s'.issued[|s.issued|];
      && crl.number == s.number + 1 && crl.thisUpdate == now - MINUTE && crl.nextUpdate == nextUpdate
      && Lists(crl.entries, s.generating.value)
      && s' == System(s.store, s.number + 1, None, s.issued + [crl], s.unpublished + {crl}, s.cache)
    case SignFailure =>
      && s.generating.Some? && (forall r :: r in s.generating.value ==> Parses(r))
      && s' == s.(generating := None, number := s.number + 1)
    case Publish(crl) =>
      crl in s.unpublished && s' == s.(unpublished := s.unpublished - {crl}, cache := Some(crl))
  }

  // The entry is that of a revocation the store holds.
  ghost predicate Recorded(e: Entry, s: State) {
    exists k :: k in s.revocations && Parses(s.revocations[k]) && e == EntryOf(s.revocations[k])
  }

  ghost predicate SystemInv(s: System) {
    && Inv(s.store)
    && (forall i :: 0 <= i < |s.issued| ==> s.issued[i].number <= s.number)
    && (forall i, j :: 0 <= i < j < |s.issued| ==>
          s.issued[i].number < s.issued[j].number
          && forall e :: e in s.issued[i].entries ==> e in s.issued[j].entries)
    && (forall i, e :: 0 <= i < |s.issued| && e in s.issued[i].entries ==> Recorded(e, s.store))
    && (s.generating.Some? ==> ListingInv(s))
    && (forall c :: c in s.unpublished ==> c in s.issued)
    && (s.cache.Some? ==> s.cache.value in s.issued)
  }

  // The listing in progress holds the entries of every CRL issued so far.
  ghost predicate ListingInv(s: System)
    requires s.generating.Some?
  {
    && (forall i, e :: 0 <= i < |s.issued| && e in s.issued[i].entries ==> Covers(s.generating.value, e))
    && forall r :: r in s.generating.value ==> r.serial in s.store.revocations && s.store.revocations[r.serial] == r
  }

  ghost predicate Covers(l: seq<Revocation>, e: Entry) {
    exists r :: r in l && Parses(r) && e == EntryOf(r)
  }

  lemma StoreGrowthKeepsInv(s: System, store: State)
    requires SystemInv(s) && Inv(store) && Extends(s.store, store)
    ensures SystemInv(s.(store := store))
  {
    forall i, e | 0 <= i < |s.issued| && e in s.issued[i].entries ensures Recorded(e, store) {
      assert Recorded(e, s.store);
      var k :| k in s.store.revocations && Parses(s.store.revocations[k]) && e == EntryOf(s.store.revocations[k]);
      assert store.revocations[k] == s.store.revocations[k];
    }
    assert s.generating.Some? ==> ListingInv(s.(store := store));
  }

  lemma ListKeepsInv(s: System, s': System)
    requires SystemInv(s) && Step(s, List, s')
    ensures SystemInv(s')
  {
    var l := s'.generating.value;
    ListingEntries(s.store, l);
    forall i, e | 0 <= i < |s.issued| && e in s.issued[i].entries ensures Covers(l, e) {
      assert Recorded(e, s.store);
      var k :| k in s.store.revocations && Parses(s.store.revocations[k]) && e == EntryOf(s.store.revocations[k]);
      assert s.store.revocations[k] in l;
    }
  }

  // The CRL built from the listing in progress holds every entry issued before, and only recorded ones.
  lemma ListingCarriesOver(s: System, entries: seq<Entry>)
    requires SystemInv(s) && s.generating.Some? && Lists(entries, s.generating.value)
    ensures forall i, e :: 0 <= i < |s.issued| && e in s.issued[i].entries ==> e in entries
    ensures forall e :: e in entries ==> Recorded(e, s.store)
  {
    var l := s.generating.value;
    forall i, e | 0 <= i < |s.issued| && e in s.issued[i].entries ensures e in entries {
      assert Covers(l, e);
      var r :| r in l && Parses(r) && e == EntryOf(r);
      var p :| 0 <= p < |l| && l[p] == r;
      assert entries[p] == e;
    }
    forall e | e in entries ensures Recorded(e, s.store) {
      var p :| 0 <= p < |entries| && entries[p] == e;
      assert l[p] in l;
    }
  }

  lemma AppendKeepsInv(s: System, crl: RevocationList)
    requires SystemInv(s) && crl.number == s.number + 1
    requires forall i, e :: 0 <= i < |s.issued| && e in s.issued[i].entries ==> e in crl.entries
    requires forall e :: e in crl.entries ==> Recorded(e, s.store)
    ensures SystemInv(System(s.store, s.number + 1, None, s.issued + [crl], s.unpublished + {crl}, s.cache))
  {
  }

  lemma SystemStepKeepsInv(s: System, a: Action, s': System)
    requires SystemInv(s) && Step(s, a, s')
    ensures SystemInv(s')
  {
    match a
    case StoreOp(op, out) =>
      StepKeepsInv(s.store, op, s'.store, out);
      StoreGrowthKeepsInv(s, s'.store);
    case List => ListKeepsInv(s, s');
    case Issue(now, nextUpdate) =>
      ListingCarriesOver(s, s'.issued[|s.issued|].entries);
      AppendKeepsInv(s, s'.issued[|s.issued|]);
    case Fail =>
    case SignFailure =>
    case Publish(crl) =>
  }

  ghost predicate Initial(s: System) {
    Inv(s.store) && s == System(s.store, 0, None, [], {}, None)
  }

  ghost predicate Behavior(states: seq<System>, actions: seq<Action>) {
    && |states| == |actions| + 1 && Initial(states[0])
    && forall i :: 0 <= i < |actions| ==> Step(states[i], actions[i], states[i + 1])
  }

  lemma {:induction false} ReachableInv(states: seq<System>, actions: seq<Action>, i: nat)
    requires Behavior(states, actions) && i <= |actions|
    ensures SystemInv(states[i])
  {
    if i > 0 {
      ReachableInv(states, actions, i - 1);
      SystemStepKeepsInv(states[i - 1], actions[i - 1], states[i]);
    }
  }

  // Under every interleaving of store operations, generations and cache writes: CRL numbers strictly increase in
  // the order of issue (section 5.2.3 of RFC 5280), every entry of a CRL is in every CRL with a higher number, and
  // the cache only ever holds an issued CRL.
  lemma CrlsMonotone(states: seq<System>, actions: seq<Action>, n: nat, a: RevocationList, b: RevocationList)
    requires Behavior(states, actions) && n <= |actions|
    requires a in states[n].issued && b in states[n].issued
    ensures a != b ==> a.number != b.number
    ensures a.number < b.number ==> forall e :: e in a.entries ==> e in b.entries
    ensures forall i, j :: 0 <= i < j < |states[n].issued| ==> states[n].issued[i].number < states[n].issued[j].number
    ensures states[n].cache.Some? ==> states[n].cache.value in states[n].issued
  {
    ReachableInv(states, actions, n);
    var i :| 0 <= i < |states[n].issued| && states[n].issued[i] == a;
    var j :| 0 <= j < |states[n].issued| && states[n].issued[j] == b;
  }

  // The cache itself can go back: two overlapping Regenerate calls may publish in the opposite order.
  lemma CacheCanRegress() returns (states: seq<System>, actions: seq<Action>)
    ensures Behavior(states, actions)
    ensures |states| >= 2 && states[|states| - 2].cache.Some? && states[|states| - 1].cache.Some?
    ensures states[|states| - 2].cache.value.number > states[|states| - 1].cache.value.number
  {
    var first := RevocationList(1, -MINUTE, 0, []);
    var second := RevocationList(2, -MINUTE, 0, []);
    states := [System(EMPTY, 0, None, [], {}, None),
               System(EMPTY, 0, Some([]), [], {}, None),
               System(EMPTY, 1, None, [first], {first}, None),
               System(EMPTY, 1, Some([]), [first], {first}, None),
               System(EMPTY, 2, None, [first, second], {first, second}, None),
               System(EMPTY, 2, None, [first, second], {first}, Some(second)),
               System(EMPTY, 2, None, [first, second], {}, Some(first))];
    actions := [List, Issue(0, 0), List, Issue(0, 0), Publish(second), Publish(first)];
  }

  // ----- When the cache goes back -----

  predicate CachedBelow(cache: Option<RevocationList>, number: nat) {
    cache.Some? ==> cache.value.number < number
  }

  // Calls do not overlap: no generation begins while a CRL waits to be written to the cache.
  ghost predicate NoOverlap(states: seq<System>, actions: seq<Action>) {
    |states| == |actions| + 1 && forall i :: 0 <= i < |actions| && actions[i].List? ==> states[i].unpublished == {}
  }

  // At most one CRL waits, none while a generation runs, and it is newer than the cached one.
  ghost predicate OneAtATime(s: System) {
    && (s.generating.Some? ==> s.unpublished == {})
    && (forall c :: c in s.unpublished ==> s.unpublished == {c} && CachedBelow(s.cache, c.number))
  }

  ghost predicate CacheAdvances(before: Option<RevocationList>, after: Option<RevocationList>) {
    before.Some? ==> after.Some? && before.value.number <= after.value.number
  }

  lemma NoOverlapStep(s: System, a: Action, s': System)
    requires SystemInv(s) && OneAtATime(s) && Step(s, a, s') && (a.List? ==> s.unpublished == {})
    ensures OneAtATime(s') && CacheAdvances(s.cache, s'.cache)
  {
    CacheIsIssued(s);
    hide SystemInv, Lists, IsListing, Next, Parses;
  }

  lemma CacheIsIssued(s: System)
    requires SystemInv(s)
    ensures CachedBelow(s.cache, s.number + 1)
  {
  }

  lemma {:induction false} NoOverlapReachable(states: seq<System>, actions: seq<Action>, i: nat)
    requires Behavior(states, actions) && NoOverlap(states, actions) && i <= |actions|
    ensures OneAtATime(states[i])
  {
    hide Step, SystemInv;
    if i > 0 {
      NoOverlapReachable(states, actions, i - 1);
      ReachableInv(states, actions, i - 1);
      NoOverlapStep(states[i - 1], actions[i - 1], states[i]);
    }
  }

  // Without overlapping calls the number of the cached CRL never decreases, between any two points of a run.
  lemma {:induction false} CacheMonotone(states: seq<System>, actions: seq<Action>, i: nat, j: nat)
    requires Behavior(states, actions) && NoOverlap(states, actions) && i <= j <= |actions|
    ensures CacheAdvances(states[i].cache, states[j].cache)
  {
    hide Step, SystemInv, OneAtATime;
    if i < j {
      CacheMonotone(states, actions, i, j - 1);
      NoOverlapReachable(states, actions, j - 1);
      ReachableInv(states, actions, j - 1);
      NoOverlapStep(states[j - 1], actions[j - 1], states[j]);
    }
  }

  // Waiting CRLs are written to the cache one after the other.
  ghost predicate Publishes(states: seq<System>, crls: seq<RevocationList>) {
    && |states| == |crls| + 1
    && forall i :: 0 <= i < |crls| ==> Step(states[i], Publish(crls[i]), states[i + 1])
  }

  // Some such writes end with the cache going back to a lower number.
  ghost predicate CanGoBack(s: System) {
    exists states: seq<System>, crls: seq<RevocationList> ::
      Publishes(states, crls) && crls != [] && states[0] == s && GoesBack(states[|crls| - 1], states[|crls|])
  }

  predicate GoesBack(s: System, s': System) {
    s.cache.Some? && s'.cache.Some? && s'.cache.value.number < s.cache.value.number
  }

  // What is cached during the writes was cached or waiting before, and what waits was waiting.
  lemma {:induction false} PublishedFrom(states: seq<System>, crls: seq<RevocationList>, i: nat)
    requires Publishes(states, crls) && i <= |crls|
    ensures states[i].unpublished <= states[0].unpublished
    ensures states[i].cache == states[0].cache
            || (states[i].cache.Some? && states[i].cache.value in states[0].unpublished)
  {
    if i > 0 {
      PublishedFrom(states, crls, i - 1);
      assert Step(states[i - 1], Publish(crls[i - 1]), states[i]);
    }
  }

  // Exactly when the writes still to come can take the cache back: a waiting CRL is older than the cached one, or than
  // another waiting one.
  lemma CanGoBackIff(s: System)
    ensures CanGoBack(s)
      <==> exists c :: c in s.unpublished
             && ((s.cache.Some? && c.number < s.cache.value.number)
                 || exists d :: d in s.unpublished && c.number < d.number)
  {
    if CanGoBack(s) {
      var states, crls :| Publishes(states, crls) && crls != [] && states[0] == s
                          && GoesBack(states[|crls| - 1], states[|crls|]);
      var n := |crls| - 1;
      PublishedFrom(states, crls, n);
      var c := crls[n];
      assert Step(states[n], Publish(c), states[n + 1]);
      assert c in s.unpublished;
    }
    if c :| c in s.unpublished && s.cache.Some? && c.number < s.cache.value.number {
      var after := s.(unpublished := s.unpublished - {c}, cache := Some(c));
      assert Publishes([s, after], [c]);
    } else if c, d :| c in s.unpublished && d in s.unpublished && c.number < d.number {
      var mid := s.(unpublished := s.unpublished - {d}, cache := Some(d));
      var after := mid.(unpublished := mid.unpublished - {c}, cache := Some(c));
      assert Step(s, Publish(d), mid) && Step(mid, Publish(c), after);
      assert Publishes([s, mid, after], [d, c]);
    }
  }

  // ----- Serials that are not hexadecimal -----

  // One revoked serial that is not hexadecimal blocks the generator for good: no later generation succeeds.
  lemma {:induction false} UnparsableSerialBlocksForever(states: seq<System>, actions: seq<Action>, n: nat, m: nat,
                                                         k: string)
    requires Behavior(states, actions) && n <= m <= |actions| && states[n].generating.None?
    requires k in states[n].store.revocations && !Parses(states[n].store.revocations[k])
    ensures states[m].issued == states[n].issued
    ensures Blocked(states[m], states[n].store.revocations[k])
    decreases m
  {
    ReachableInv(states, actions, n);
    if m > n {
      UnparsableSerialBlocksForever(states, actions, n, m - 1, k);
      ReachableInv(states, actions, m - 1);
      BlockedStep(states[m - 1], actions[m - 1], states[m], states[n].store.revocations[k]);
    }
  }

  // Such a serial can be saved and revoked through the store, which checks only that it is not empty.
  lemma UnparsableSerialReachable() returns (states: seq<System>, actions: seq<Action>)
    ensures Behavior(states, actions) && states[0].store == EMPTY && actions != [] && actions[|actions| - 1] == Fail
    ensures var revs := states[|actions|].store.revocations; "zz" in revs && !Parses(revs["zz"])
  {
    hide NormalizeSerial, SetString16, IsListing;
    NotHexadecimal();
    var cert := Cert("zz", "", "", 0, 0, None, None, false);
    var r := Revocation("zz", 1, 0);
    var saved := SaveCertificate(EMPTY, Some(cert), 0).0;
    var revoked := RevokeCertificate(saved, "zz", 0, 1, 0).0;
    SavedAndRevoked(cert, r);
    states := [System(EMPTY, 0, None, [], {}, None), System(saved, 0, None, [], {}, None),
               System(revoked, 0, None, [], {}, None), System(revoked, 0, Some([r]), [], {}, None),
               System(revoked, 0, None, [], {}, None)];
    actions := [StoreOp(Save(Some(cert), 0), Done), StoreOp(Revoke("zz", 0, 1, 0), Done), List, Fail];
    assert r in [r] && !Parses(r);
    assert states[|actions|].store == revoked;
  }

  lemma SavedAndRevoked(cert: Cert, r: Revocation)
    requires cert == Cert("zz", "", "", 0, 0, None, None, false) && r == Revocation("zz", 1, 0)
    ensures var (saved, out) := SaveCertificate(EMPTY, Some(cert), 0);
            var (revoked, out') := RevokeCertificate(saved, "zz", 0, 1, 0);
      && out == Done && out' == Done
      && "zz" in revoked.revocations && revoked.revocations["zz"] == r && IsListing(revoked.revocations, [r])
  {
    NotHexadecimal();
    var revoked := RevokeCertificate(SaveCertificate(EMPTY, Some(cert), 0).0, "zz", 0, 1, 0).0;
    assert revoked.revocations == map["zz" := r];
  }

  lemma NotHexadecimal()
    ensures NormalizeSerial("zz") == "zz" && SetString16("zz") == None
  {
    TrimKeeps("zz");
    assert ToLower("zz") == "zz";
    assert !IsHexDigit("zz"[0]);
  }

  // r is revoked and not hexadecimal, and any listing in progress has seen it.
  ghost predicate Blocked(s: System, r: Revocation) {
    && r.serial in s.store.revocations && s.store.revocations[r.serial] == r && !Parses(r)
    && (s.generating.Some? ==> r in s.generating.value)
  }

  lemma BlockedStep(s: System, a: Action, s': System, r: Revocation)
    requires SystemInv(s) && Step(s, a, s') && Blocked(s, r)
    ensures Blocked(s', r) && s'.issued == s.issued
  {
    match a
    case StoreOp(op, out) => StepKeepsInv(s.store, op, s'.store, out);
    case List => ListingEntries(s.store, s'.generating.value);
    case _ =>
  }
}

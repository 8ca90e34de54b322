// The audit hash chain (pkg/audit/logger.go). The hash is a parameter: SHA-256 in hexadecimal in the program, any
// function from text to text here. Where the program relies on collision resistance the theorems exhibit the
// collision instead of assuming there is none.
module Audit {
  import opened Wrappers
  import opened Text

  type Hash = string -> string

  function Zeros(n: nat): string {
    if n == 0 then "" else Zeros(n - 1) + "0"
  }

  // 64 hexadecimal zeroes.
  const GENESIS_HASH := Zeros(64)

  lemma {:induction false} ZerosAre(n: nat)
    ensures |Zeros(n)| == n && forall i :: 0 <= i < n ==> Zeros(n)[i] == '0'
  {
    if n > 0 { ZerosAre(n - 1); }
  }

  lemma {:induction false} ZerosBarFree(n: nat)
    ensures '|' !in Zeros(n)
  {
    if n > 0 { ZerosBarFree(n - 1); }
  }

  // timestamp is the UTC time as RFC 3339 text with nanoseconds.
  datatype AuditEvent = AuditEvent(eventID: string, timestamp: string, action: string, actor: string, resource: string,
                                   status: string, metadata: map<string, string>, prevHash: string, hash: string)

  // ----- Canonical text -----

  function Pair(key: string, value: string): string {
    key + "=" + value
  }

  // A Go map yields "" for a missing key.
  function Lookup(meta: map<string, string>, key: string): string {
    if key in meta then meta[key] else ""
  }

  // The pairs of the keys in order, joined by '&'.
  function JoinPairs(meta: map<string, string>, keys: seq<string>): string {
    if keys == [] then ""
    else if |keys| == 1 then Pair(keys[0], Lookup(meta, keys[0]))
    else JoinPairs(meta, keys[..|keys| - 1]) + "&" + Pair(keys[|keys| - 1], Lookup(meta, keys[|keys| - 1]))
  }

  function InsertKey(k: string, l: seq<string>): seq<string> {
    if l == [] || Less(k, l[0]) then [k] + l else [l[0]] + InsertKey(k, l[1..])
  }

  // The keys in the order of sort.Strings.
  ghost function KeyList(keys: set<string>): seq<string> {
    if keys == {} then [] else var k :| k in keys; InsertKey(k, KeyList(keys - {k}))
  }

  // What canonicalMetadata returns.
  ghost function MetaText(meta: map<string, string>): string {
    JoinPairs(meta, KeyList(meta.Keys))
  }

  // The eight fields joined by '|', with the metadata already in text form.
  function CanonicalText(e: AuditEvent, meta: string): string {
    e.eventID + "|" + (e.timestamp + "|" + (e.action + "|" + (e.actor + "|" + (e.resource + "|" + (e.status + "|"
    + (meta + "|" + e.prevHash))))))
  }

  ghost function Canonical(e: AuditEvent): string {
    CanonicalText(e, MetaText(e.metadata))
  }

  ghost function EventHash(h: Hash, e: AuditEvent): string {
    h(Canonical(e))
  }

  ghost predicate Sorted(l: seq<string>) {
    forall i, j :: 0 <= i < j < |l| ==> Less(l[i], l[j])
  }

  lemma {:induction false} InsertedKey(k: string, l: seq<string>)
    requires k !in l && Sorted(l)
    ensures Sorted(InsertKey(k, l))
    ensures forall x :: x in InsertKey(k, l) <==> x == k || x in l
  {
    if l != [] {
      LessIsStrictTotal(k, l[0]);
      if Less(k, l[0]) {
        forall x | x in l ensures Less(k, x) { if x != l[0] { LessTransitive(k, l[0], x); } }
      } else {
        InsertedKey(k, l[1..]);
        assert l == [l[0]] + l[1..];
        forall x | x in InsertKey(k, l[1..]) ensures Less(l[0], x) { assert x == k || x in l[1..]; }
      }
    }
  }

  lemma {:induction false} KeyListSorted(keys: set<string>)
    ensures Sorted(KeyList(keys))
    ensures forall k :: k in KeyList(keys) <==> k in keys
    decreases keys
  {
    if keys != {} {
      var k :| k in keys && KeyList(keys) == InsertKey(k, KeyList(keys - {k}));
      KeyListSorted(keys - {k});
      InsertedKey(k, KeyList(keys - {k}));
    }
  }

  lemma {:induction false} SortedUnique(a: seq<string>, b: seq<string>)
    requires Sorted(a) && Sorted(b) && forall k :: k in a <==> k in b
    ensures a == b
  {
    assert |a| > 0 ==> a[0] in b;
    assert |b| > 0 ==> b[0] in a;
    if a != [] {
      LessIsStrictTotal(a[0], b[0]);
      LessIsStrictTotal(a[0], a[0]);
      assert a[0] == b[0];
      forall k | k in a[1..] ensures k in b[1..] { assert k in b; }
      forall k | k in b[1..] ensures k in a[1..] { assert k in a; }
      SortedUnique(a[1..], b[1..]);
    }
  }

  method SortKeys(keys: set<string>) returns (sorted: seq<string>)
    ensures sorted == KeyList(keys)
  {
    sorted := [];
    var left := keys;
    while left != {}
      invariant left <= keys && Sorted(sorted)
      invariant forall k :: k in sorted <==> k in keys && k !in left
      decreases left
    {
      var k :| k in left;
      InsertedKey(k, sorted);
      sorted := InsertKey(k, sorted);
      left := left - {k};
    }
    KeyListSorted(keys);
    SortedUnique(sorted, KeyList(keys));
  }

  // canonicalMetadata: the text depends on the map alone, not on the order of iteration.
  method CanonicalMetadata(meta: map<string, string>) returns (text: string)
    ensures text == MetaText(meta)
  {
    if |meta| == 0 {
      assert meta.Keys == {};
      return "";
    }
    var keys := SortKeys(meta.Keys);
    KeyListSorted(meta.Keys);
    var sb := "";
    for i := 0 to |keys|
      invariant sb == JoinPairs(meta, keys[..i])
    {
      JoinOneMore(meta, keys, i);
      if i > 0 { sb := sb + "&"; }
      assert keys[i] in keys;
      sb := sb + keys[i];
      sb := sb + "=";
      sb := sb + meta[keys[i]];
    }
    assert keys[..|keys|] == keys;
    text := sb;
  }

  lemma JoinOneMore(meta: map<string, string>, keys: seq<string>, i: nat)
    requires i < |keys|
    ensures JoinPairs(meta, keys[..i + 1])
         == (if i > 0 then JoinPairs(meta, keys[..i]) + "&" else "") + keys[i] + "=" + Lookup(meta, keys[i])
  {
    assert keys[..i + 1][..i] == keys[..i];
  }

  // What is hashed: the eight fields in this order, joined by bars.
  lemma HashedText(h: Hash, e: AuditEvent)
    ensures EventHash(h, e)
         == h(e.eventID + "|" + e.timestamp + "|" + e.action + "|" + e.actor + "|" + e.resource + "|" + e.status
              + "|" + MetaText(e.metadata) + "|" + e.prevHash)
  {
    FlatText(e, MetaText(e.metadata));
  }

  lemma FlatText(e: AuditEvent, meta: string)
    ensures CanonicalText(e, meta)
         == e.eventID + "|" + e.timestamp + "|" + e.action + "|" + e.actor + "|" + e.resource + "|" + e.status
            + "|" + meta + "|" + e.prevHash
  {
  }

  method ComputeEventHash(h: Hash, e: AuditEvent) returns (digest: string)
    ensures digest == EventHash(h, e)
  {
    var meta := CanonicalMetadata(e.metadata);
    digest := h(CanonicalText(e, meta));
  }

  // ----- The logger -----

  datatype Verdict = Intact | NilEvent(index: nat) | PrevHashMismatch(index: nat) | HashMismatch(index: nat)

  // The hash that event i must link to.
  function ExpectedPrev(events: seq<Option<AuditEvent>>, i: nat): string
    requires i <= |events|
  {
    if i == 0 || events[i - 1].None? then GENESIS_HASH else events[i - 1].value.hash
  }

  // Event i is present, links to its predecessor, and carries its own hash.
  ghost predicate GoodAt(h: Hash, events: seq<Option<AuditEvent>>, i: nat)
    requires i < |events|
  {
    && events[i].Some?
    && events[i].value.prevHash == ExpectedPrev(events, i)
    && events[i].value.hash == EventHash(h, events[i].value)
  }

  ghost predicate Verifies(h: Hash, events: seq<Option<AuditEvent>>) {
    forall i :: 0 <= i < |events| ==> GoodAt(h, events, i)
  }

  class ChainAuditLogger {
    const h: Hash
    var events: seq<Option<AuditEvent>>  // None stands for a nil pointer in the slice
    var lastHash: string

    // The chain as LogEvent builds it.
    ghost predicate Valid()
      reads this
    {
      Verifies(h, events) && lastHash == ExpectedPrev(events, |events|)
    }

    constructor (h: Hash)
      ensures Valid() && events == [] && this.h == h
      ensures |lastHash| == 64 && forall i :: 0 <= i < 64 ==> lastHash[i] == '0'
    {
      this.h := h;
      events := [];
      lastHash := GENESIS_HASH;
      ZerosAre(64);
    }

    // eventID and timestamp are the fresh random identifier and the clock reading.
    method LogEvent(eventID: string, timestamp: string, action: string, actor: string, resource: string, status: string,
                    metadata: map<string, string>) returns (event: AuditEvent)
      requires Valid()
      modifies this
      ensures Valid()
      ensures events == old(events) + [Some(event)]
      ensures event == AuditEvent(eventID, timestamp, action, actor, resource, status, metadata, old(lastHash), event.hash)
      ensures lastHash == event.hash
    {
      event := AuditEvent(eventID, timestamp, action, actor, resource, status, metadata, lastHash, "");
      var digest := ComputeEventHash(h, event);
      event := event.(hash := digest);
      AppendVerifies(h, events, event);
      events := events + [Some(event)];
      lastHash := event.hash;
    }

    // Whatever the events are: Intact exactly when the chain verifies; a failure names the first broken index and
    // the first of the three checks that fails there.
    method VerifyChain() returns (v: Verdict)
      ensures v == Intact <==> Verifies(h, events)
      ensures v != Intact ==> v.index < |events| && !GoodAt(h, events, v.index)
                              && forall i :: 0 <= i < v.index ==> GoodAt(h, events, i)
      ensures v.NilEvent? ==> events[v.index].None?
      ensures v.PrevHashMismatch? ==> events[v.index].Some?
                                      && events[v.index].value.prevHash != ExpectedPrev(events, v.index)
      ensures v.HashMismatch? ==> events[v.index].Some?
                                  && events[v.index].value.prevHash == ExpectedPrev(events, v.index)
                                  && events[v.index].value.hash != EventHash(h, events[v.index].value)
    {
      var expectedPrev := GENESIS_HASH;
      for i := 0 to |events|
        invariant expectedPrev == ExpectedPrev(events, i)
        invariant forall j :: 0 <= j < i ==> GoodAt(h, events, j)
      {
        if events[i].None? {
          assert !GoodAt(h, events, i);
          return NilEvent(i);
        }
        var evt := events[i].value;
        if evt.prevHash != expectedPrev {
          assert !GoodAt(h, events, i);
          return PrevHashMismatch(i);
        }
        var recomputed := ComputeEventHash(h, evt);
        if evt.hash != recomputed {
          assert !GoodAt(h, events, i);
          return HashMismatch(i);
        }
        expectedPrev := evt.hash;
      }
      v := Intact;
    }
  }

  lemma AppendVerifies(h: Hash, events: seq<Option<AuditEvent>>, e: AuditEvent)
    requires Verifies(h, events) && e.prevHash == ExpectedPrev(events, |events|) && e.hash == EventHash(h, e)
    ensures Verifies(h, events + [Some(e)])
  {
    var longer := events + [Some(e)];
    forall i | 0 <= i < |longer| ensures GoodAt(h, longer, i) {
      assert i < |events| ==> GoodAt(h, events, i);
    }
  }

  // ----- The head hash determines the chain -----

  ghost function TextAt(events: seq<Option<AuditEvent>>, i: nat): string
    requires i < |events| && events[i].Some?
  {
    Canonical(events[i].value)
  }

  // The same number of events with the same canonical text at every index.
  ghost predicate SameTexts(h: Hash, a: seq<Option<AuditEvent>>, b: seq<Option<AuditEvent>>)
    requires Verifies(h, a) && Verifies(h, b)
  {
    |a| == |b| && forall i :: 0 <= i < |a| ==> GoodAt(h, a, i) && GoodAt(h, b, i) && TextAt(a, i) == TextAt(b, i)
  }

  // Two events of the chains witness that h is not collision resistant, or one that it reaches the genesis text.
  ghost predicate Broken(h: Hash, a: seq<Option<AuditEvent>>, b: seq<Option<AuditEvent>>) {
    || (exists i, j :: 0 <= i < |a| && 0 <= j < |b| && a[i].Some? && b[j].Some?
          && TextAt(a, i) != TextAt(b, j) && h(TextAt(a, i)) == h(TextAt(b, j)))
    || (exists i :: 0 <= i < |a| && a[i].Some? && h(TextAt(a, i)) == GENESIS_HASH)
    || (exists j :: 0 <= j < |b| && b[j].Some? && h(TextAt(b, j)) == GENESIS_HASH)
  }

  // What follows the last '|' is the previous hash, when that holds no '|'.
  lemma TextFixesPrev(e: AuditEvent, f: AuditEvent)
    requires Canonical(e) == Canonical(f) && '|' !in e.prevHash && '|' !in f.prevHash
    ensures e.prevHash == f.prevHash
  {
    var m, n := MetaText(e.metadata), MetaText(f.metadata);
    var p := LastField(e, m);
    var q := LastField(f, n);
    SplitsAtLast(p, e.prevHash, q, f.prevHash);
  }

  lemma LastField(e: AuditEvent, meta: string) returns (pre: string)
    ensures CanonicalText(e, meta) == pre + "|" + e.prevHash
  {
    pre := e.eventID + "|" + (e.timestamp + "|" + (e.action + "|" + (e.actor + "|" + (e.resource + "|" + (e.status + "|"
           + meta)))));
  }

  lemma SplitsAtLast(a: string, r: string, b: string, t: string)
    requires '|' !in r && '|' !in t && a + "|" + r == b + "|" + t
    ensures a == b && r == t
  {
    var u := a + "|" + r;
    assert u[|a|] == '|' && u[|b|] == '|';
    assert forall i :: |a| < i < |u| ==> u[i] == r[i - |a| - 1];
    assert forall i :: |b| < i < |u| ==> u[i] == t[i - |b| - 1];
    assert |a| == |b|;
    assert a == u[..|a|] && b == u[..|b|];
    assert r == u[|a| + 1..] && t == u[|b| + 1..];
  }

  // The digests are hexadecimal, so they hold no '|'.
  ghost predicate BarFree(h: Hash) {
    forall s :: '|' !in h(s)
  }

  // Two verifying chains with the same head hash have the same length and the same canonical text at every index,
  // unless the hash function is broken on these very texts.
  lemma {:induction false} HeadDeterminesChain(h: Hash, a: seq<Option<AuditEvent>>, b: seq<Option<AuditEvent>>)
    requires BarFree(h) && Verifies(h, a) && Verifies(h, b)
    requires ExpectedPrev(a, |a|) == ExpectedPrev(b, |b|)
    ensures SameTexts(h, a, b) || Broken(h, a, b)
    decreases |a|
  {
    hide Canonical, Broken, TextAt;
    var m, n := |a|, |b|;
    if m == 0 && n == 0 {
    } else if m == 0 || n == 0 {
      GenesisReached(h, a, b);
    } else {
      HeadsHashAlike(h, a, b);
      if TextAt(a, m - 1) == TextAt(b, n - 1) {
        SameTextSamePrev(h, a, m - 1, b, n - 1);
        PrefixVerifies(h, a, m - 1);
        PrefixVerifies(h, b, n - 1);
        HeadDeterminesChain(h, a[..m - 1], b[..n - 1]);
        LiftToLonger(h, a, b);
      }
    }
  }

  // An empty chain and a longer one share a head only if the genesis text is a digest.
  lemma GenesisReached(h: Hash, a: seq<Option<AuditEvent>>, b: seq<Option<AuditEvent>>)
    requires Verifies(h, a) && Verifies(h, b) && ExpectedPrev(a, |a|) == ExpectedPrev(b, |b|)
    requires (a == [] || b == []) && a != b
    ensures Broken(h, a, b)
  {
    hide Canonical;
    if a == [] {
      assert GoodAt(h, b, |b| - 1);
      assert h(TextAt(b, |b| - 1)) == GENESIS_HASH;
    } else {
      assert GoodAt(h, a, |a| - 1);
      assert h(TextAt(a, |a| - 1)) == GENESIS_HASH;
    }
  }

  lemma HeadsHashAlike(h: Hash, a: seq<Option<AuditEvent>>, b: seq<Option<AuditEvent>>)
    requires Verifies(h, a) && Verifies(h, b) && ExpectedPrev(a, |a|) == ExpectedPrev(b, |b|) && a != [] && b != []
    ensures GoodAt(h, a, |a| - 1) && GoodAt(h, b, |b| - 1)
    ensures TextAt(a, |a| - 1) != TextAt(b, |b| - 1) ==> Broken(h, a, b)
  {
    hide Canonical;
    assert GoodAt(h, a, |a| - 1) && GoodAt(h, b, |b| - 1);
    assert h(TextAt(a, |a| - 1)) == h(TextAt(b, |b| - 1));
  }

  lemma SameTextSamePrev(h: Hash, a: seq<Option<AuditEvent>>, i: nat, b: seq<Option<AuditEvent>>, j: nat)
    requires BarFree(h) && Verifies(h, a) && Verifies(h, b) && i < |a| && j < |b|
    requires a[i].Some? && b[j].Some? && TextAt(a, i) == TextAt(b, j)
    ensures ExpectedPrev(a, i) == ExpectedPrev(b, j)
  {
    PrevBarFree(h, a, i);
    PrevBarFree(h, b, j);
    TextFixesPrev(a[i].value, b[j].value);
  }

  lemma PrevBarFree(h: Hash, a: seq<Option<AuditEvent>>, i: nat)
    requires BarFree(h) && Verifies(h, a) && i < |a|
    ensures GoodAt(h, a, i) && '|' !in a[i].value.prevHash
  {
    hide Canonical;
    assert GoodAt(h, a, i);
    ZerosBarFree(64);
    if i > 0 {
      assert GoodAt(h, a, i - 1);
      assert '|' !in h(TextAt(a, i - 1));
    }
  }

  lemma LiftToLonger(h: Hash, a: seq<Option<AuditEvent>>, b: seq<Option<AuditEvent>>)
    requires |a| > 0 && |b| > 0 && Verifies(h, a) && Verifies(h, b)
    requires Verifies(h, a[..|a| - 1]) && Verifies(h, b[..|b| - 1])
    requires SameTexts(h, a[..|a| - 1], b[..|b| - 1]) || Broken(h, a[..|a| - 1], b[..|b| - 1])
    requires GoodAt(h, a, |a| - 1) && GoodAt(h, b, |b| - 1) && TextAt(a, |a| - 1) == TextAt(b, |b| - 1)
    ensures SameTexts(h, a, b) || Broken(h, a, b)
  {
    hide Canonical, Broken;
    var a', b' := a[..|a| - 1], b[..|b| - 1];
    if SameTexts(h, a', b') {
      forall i | 0 <= i < |a| ensures GoodAt(h, a, i) && GoodAt(h, b, i) && TextAt(a, i) == TextAt(b, i) {
        if i < |a| - 1 { assert GoodAt(h, a', i) && GoodAt(h, b', i) && TextAt(a', i) == TextAt(b', i); }
      }
    } else {
      BrokenInPrefix(h, a, b);
    }
  }

  lemma BrokenInPrefix(h: Hash, a: seq<Option<AuditEvent>>, b: seq<Option<AuditEvent>>)
    requires |a| > 0 && |b| > 0 && Broken(h, a[..|a| - 1], b[..|b| - 1])
    ensures Broken(h, a, b)
  {
    var a', b' := a[..|a| - 1], b[..|b| - 1];
    assert forall i :: 0 <= i < |a'| && a'[i].Some? ==> TextAt(a', i) == TextAt(a, i);
    assert forall j :: 0 <= j < |b'| && b'[j].Some? ==> TextAt(b', j) == TextAt(b, j);
  }

  // Every prefix of a verifying chain verifies: dropping the newest events is not visible to VerifyChain alone. It
  // does show in the head hash, by HeadDeterminesChain.
  lemma PrefixVerifies(h: Hash, events: seq<Option<AuditEvent>>, n: nat)
    requires Verifies(h, events) && n <= |events|
    ensures Verifies(h, events[..n])
    ensures n > 0 ==> ExpectedPrev(events[..n], n) == ExpectedPrev(events, n)
  {
    forall i | 0 <= i < n ensures GoodAt(h, events[..n], i) {
      assert GoodAt(h, events, i);
    }
  }

  // Tampering with one event of a verifying chain: with a changed canonical text and the old hash it fails at that
  // index; with any other hash it fails there or at the next event, if there is one.
  lemma TamperDetected(h: Hash, events: seq<Option<AuditEvent>>, i: nat, e: AuditEvent)
    requires Verifies(h, events) && i < |events| && events[i].Some?
    requires Canonical(e) != TextAt(events, i)
    ensures var t := events[i := Some(e)];
      && (forall j :: 0 <= j < i ==> GoodAt(h, t, j))
      && (e.hash == events[i].value.hash && h(Canonical(e)) != h(TextAt(events, i)) ==> !GoodAt(h, t, i))
      && (e.hash != events[i].value.hash && i + 1 < |events| ==> !GoodAt(h, t, i + 1))
  {
    var t := events[i := Some(e)];
    assert GoodAt(h, events, i);
    forall j | 0 <= j < i ensures GoodAt(h, t, j) { assert GoodAt(h, events, j); }
    if i + 1 < |events| { assert GoodAt(h, events, i + 1); }
  }

  // Exactly which replacements of one event go unnoticed: those that keep the link back, carry their own hash, and, but
  // for the last event, have the hash of the event replaced.
  lemma ReplacementUnnoticedIff(h: Hash, events: seq<Option<AuditEvent>>, i: nat, e: AuditEvent)
    requires Verifies(h, events) && i < |events|
    ensures GoodAt(h, events, i)
    ensures Verifies(h, events[i := Some(e)])
      <==> e.prevHash == events[i].value.prevHash && e.hash == EventHash(h, e)
           && (i + 1 < |events| ==> e.hash == events[i].value.hash)
  {
    hide Canonical, EventHash;
    var t := events[i := Some(e)];
    assert GoodAt(h, events, i);
    assert GoodAt(h, t, i) <==> e.prevHash == events[i].value.prevHash && e.hash == EventHash(h, e);
    if i + 1 < |events| {
      assert GoodAt(h, events, i + 1);
      assert GoodAt(h, t, i + 1) <==> e.hash == events[i].value.hash;
    }
    forall j | 0 <= j < |events| && j != i && j != i + 1 ensures GoodAt(h, t, j) { assert GoodAt(h, events, j); }
  }

  // ----- From canonical texts back to records -----

  predicate BarFreeFields(e: AuditEvent) {
    '|' !in e.action && '|' !in e.actor && '|' !in e.resource && '|' !in e.status
  }

  // The identifier "evt_<hex>" and the RFC 3339 timestamp never hold a '|'.
  predicate GeneratedFields(e: AuditEvent) {
    '|' !in e.eventID && '|' !in e.timestamp
  }

  // No key holds '=' or '&', no value holds '&'.
  predicate PlainMetadata(meta: map<string, string>) {
    forall k :: k in meta ==> '=' !in k && '&' !in k && '&' !in meta[k]
  }

  lemma FieldsFromText(e: AuditEvent, f: AuditEvent, m: string, n: string)
    requires GeneratedFields(e) && GeneratedFields(f) && BarFreeFields(e) && BarFreeFields(f)
    requires CanonicalText(e, m) == CanonicalText(f, n) && e.prevHash == f.prevHash
    ensures e.eventID == f.eventID && e.timestamp == f.timestamp && e.action == f.action && e.actor == f.actor
    ensures e.resource == f.resource && e.status == f.status && m == n
  {
    var e7, f7 := m + "|" + e.prevHash, n + "|" + f.prevHash;
    var e6, f6 := e.status + "|" + e7, f.status + "|" + f7;
    var e5, f5 := e.resource + "|" + e6, f.resource + "|" + f6;
    var e4, f4 := e.actor + "|" + e5, f.actor + "|" + f5;
    var e3, f3 := e.action + "|" + e4, f.action + "|" + f4;
    var e2, f2 := e.timestamp + "|" + e3, f.timestamp + "|" + f3;
    SplitsAtSeparator('|', e.eventID, e2, f.eventID, f2);
    SplitsAtSeparator('|', e.timestamp, e3, f.timestamp, f3);
    SplitsAtSeparator('|', e.action, e4, f.action, f4);
    SplitsAtSeparator('|', e.actor, e5, f.actor, f5);
    SplitsAtSeparator('|', e.resource, e6, f.resource, f6);
    SplitsAtSeparator('|', e.status, e7, f.status, f7);
    var tail := |e.prevHash| + 1;
    assert m == e7[..|e7| - tail] && n == f7[..|f7| - tail];
  }

  // With plain metadata the pairs can be read off the joined text.
  lemma {:induction false} PairsFromText(a: map<string, string>, ka: seq<string>, b: map<string, string>, kb: seq<string>)
    requires PlainMetadata(a) && PlainMetadata(b)
    requires (forall k :: k in ka ==> k in a) && (forall k :: k in kb ==> k in b)
    requires JoinPairs(a, ka) == JoinPairs(b, kb)
    ensures ka == kb && forall k :: k in ka ==> a[k] == b[k]
  {
    if ka != [] && kb != [] {
      var i, j := |ka| - 1, |kb| - 1;
      var x, y := ka[i], kb[j];
      SamePair(x, a[x], y, b[y], if i == 0 then None else Some(JoinPairs(a, ka[..i])),
               if j == 0 then None else Some(JoinPairs(b, kb[..j])));
      if i > 0 {
        PairsFromText(a, ka[..i], b, kb[..j]);
      }
      assert ka == ka[..i] + [x] && kb == kb[..j] + [y];
      forall k | k in ka ensures a[k] == b[k] { assert k in ka[..i] || k == x; }
    }
  }

  function Joined(before: Option<string>, pair: string): string {
    if before.None? then pair else before.value + "&" + pair
  }

  lemma JoinedHasAmpersand(before: Option<string>, pair: string)
    requires '&' !in pair
    ensures '&' in Joined(before, pair) <==> before.Some?
  {
    if before.Some? { assert Joined(before, pair)[|before.value|] == '&'; }
  }

  lemma SamePair(k: string, v: string, l: string, w: string, before: Option<string>, before': Option<string>)
    requires '=' !in k && '&' !in k && '&' !in v && '=' !in l && '&' !in l && '&' !in w
    requires Joined(before, Pair(k, v)) == Joined(before', Pair(l, w))
    ensures k == l && v == w && before == before'
  {
    var p, q := Pair(k, v), Pair(l, w);
    assert '&' !in p && '&' !in q;
    var u := Joined(before, p);
    JoinedHasAmpersand(before, p);
    JoinedHasAmpersand(before', q);
    if before.Some? {
      assert u[|before.value|] == '&' && u[|before'.value|] == '&';
      assert forall i :: |before.value| < i < |u| ==> u[i] == p[i - |before.value| - 1];
      assert forall i :: |before'.value| < i < |u| ==> u[i] == q[i - |before'.value| - 1];
      assert |before.value| == |before'.value|;
      assert before.value == u[..|before.value|] && before'.value == u[..|before'.value|];
      assert p == u[|before.value| + 1..] && q == u[|before'.value| + 1..];
    }
    SplitsAtSeparator('=', k, v, l, w);
  }

  // Two generated events whose caller-supplied fields avoid '|' and whose metadata is plain, with the same previous
  // hash, are the same record as soon as their canonical texts agree.
  lemma TextDeterminesRecord(e: AuditEvent, f: AuditEvent)
    requires GeneratedFields(e) && GeneratedFields(f) && BarFreeFields(e) && BarFreeFields(f)
    requires PlainMetadata(e.metadata) && PlainMetadata(f.metadata)
    requires Canonical(e) == Canonical(f) && e.prevHash == f.prevHash
    ensures e.(hash := f.hash) == f
  {
    FieldsFromText(e, f, MetaText(e.metadata), MetaText(f.metadata));
    KeyListSorted(e.metadata.Keys);
    KeyListSorted(f.metadata.Keys);
    PairsFromText(e.metadata, KeyList(e.metadata.Keys), f.metadata, KeyList(f.metadata.Keys));
    assert e.metadata.Keys == f.metadata.Keys;
    forall k | k in e.metadata ensures e.metadata[k] == f.metadata[k] { assert k in KeyList(e.metadata.Keys); }
    assert e.metadata == f.metadata;
  }

  // The head hash determines the records themselves when the fields avoid the separators.
  lemma HeadDeterminesRecords(h: Hash, a: seq<Option<AuditEvent>>, b: seq<Option<AuditEvent>>)
    requires BarFree(h) && Verifies(h, a) && Verifies(h, b) && ExpectedPrev(a, |a|) == ExpectedPrev(b, |b|)
    requires forall i :: 0 <= i < |a| && a[i].Some? ==>
      GeneratedFields(a[i].value) && BarFreeFields(a[i].value) && PlainMetadata(a[i].value.metadata)
    requires forall i :: 0 <= i < |b| && b[i].Some? ==>
      GeneratedFields(b[i].value) && BarFreeFields(b[i].value) && PlainMetadata(b[i].value.metadata)
    ensures a == b || Broken(h, a, b)
  {
    HeadDeterminesChain(h, a, b);
    if SameTexts(h, a, b) {
      forall i | 0 <= i < |a| ensures a[i] == b[i] {
        PrevBarFree(h, a, i);
        PrevBarFree(h, b, i);
        assert TextAt(a, i) == TextAt(b, i);
        TextFixesPrev(a[i].value, b[i].value);
        TextDeterminesRecord(a[i].value, b[i].value);
      }
    }
  }

  // ----- The condition on '|' is exact -----

  function WithFields(e: AuditEvent, action: string, actor: string, resource: string, status: string): AuditEvent {
    e.(action := action, actor := actor, resource := resource, status := status)
  }

  function FourFields(action: string, actor: string, resource: string, status: string): string {
    action + "|" + (actor + "|" + (resource + "|" + status))
  }

  function Bars(s: string): nat {
    if s == "" then 0 else (if s[0] == '|' then 1 else 0) + Bars(s[1..])
  }

  lemma {:induction false} BarsAdd(s: string, t: string)
    ensures Bars(s + t) == Bars(s) + Bars(t)
  {
    if s == "" {
      assert s + t == t;
    } else {
      BarsAdd(s[1..], t);
      assert (s + t)[1..] == s[1..] + t;
    }
  }

  lemma {:induction false} BarsZeroIff(s: string)
    ensures Bars(s) == 0 <==> '|' !in s
  {
    if s != "" { BarsZeroIff(s[1..]); }
  }

  lemma BarsOfFour(action: string, actor: string, resource: string, status: string)
    ensures Bars(FourFields(action, actor, resource, status))
         == Bars(action) + Bars(actor) + Bars(resource) + Bars(status) + 3
  {
    assert Bars("|") == 1;
    BarsAdd(resource + "|", status); BarsAdd(resource, "|");
    BarsAdd(actor + "|", resource + "|" + status); BarsAdd(actor, "|");
    assert resource + "|" + status == resource + "|" + status;
    BarsAdd(action + "|", actor + "|" + (resource + "|" + status)); BarsAdd(action, "|");
  }

  // With the other parts fixed, the canonical text says exactly what the joined four fields say.
  lemma TextOfFields(e: AuditEvent, action: string, actor: string, resource: string, status: string)
    ensures Canonical(WithFields(e, action, actor, resource, status)) == Canonical(e)
       <==> FourFields(action, actor, resource, status) == FourFields(e.action, e.actor, e.resource, e.status)
  {
    var f := WithFields(e, action, actor, resource, status);
    var m := MetaText(e.metadata);
    var pre, post := e.eventID + "|" + (e.timestamp + "|"), "|" + (m + "|" + e.prevHash);
    TextAround(e, m, pre, post);
    TextAround(f, m, pre, post);
    Cancel(pre, FourFields(action, actor, resource, status), FourFields(e.action, e.actor, e.resource, e.status), post);
  }

  lemma TextAround(e: AuditEvent, m: string, pre: string, post: string)
    requires pre == e.eventID + "|" + (e.timestamp + "|") && post == "|" + (m + "|" + e.prevHash)
    ensures CanonicalText(e, m) == pre + FourFields(e.action, e.actor, e.resource, e.status) + post
  {
  }

  lemma Cancel(pre: string, x: string, y: string, post: string)
    ensures pre + x + post == pre + y + post <==> x == y
  {
    var u, v := pre + x + post, pre + y + post;
    if u == v {
      assert |x| == |y|;
      assert x == u[|pre|..|pre| + |x|] && y == v[|pre|..|pre| + |y|];
    }
  }

  lemma BarFreeFieldsSplit(e: AuditEvent, action: string, actor: string, resource: string, status: string)
    requires BarFreeFields(e)
    requires FourFields(action, actor, resource, status) == FourFields(e.action, e.actor, e.resource, e.status)
    ensures action == e.action && actor == e.actor && resource == e.resource && status == e.status
  {
    BarsOfFour(action, actor, resource, status);
    BarsOfFour(e.action, e.actor, e.resource, e.status);
    BarsZeroIff(action); BarsZeroIff(actor); BarsZeroIff(resource); BarsZeroIff(status);
    BarsZeroIff(e.action); BarsZeroIff(e.actor); BarsZeroIff(e.resource); BarsZeroIff(e.status);
    SplitsAtSeparator('|', action, actor + "|" + (resource + "|" + status),
                      e.action, e.actor + "|" + (e.resource + "|" + e.status));
    SplitsAtSeparator('|', actor, resource + "|" + status, e.actor, e.resource + "|" + e.status);
    SplitsAtSeparator('|', resource, status, e.resource, e.status);
  }

  lemma CutAtBar(s: string) returns (x: string, y: string)
    requires '|' in s
    ensures s == x + "|" + y && |x| < |s|
  {
    var i :| 0 <= i < |s| && s[i] == '|';
    x, y := s[..i], s[i + 1..];
  }

  // A field with a '|' can hand part of itself to its neighbour.
  lemma AmbiguousFields(e: AuditEvent) returns (action: string, actor: string, resource: string, status: string)
    requires !BarFreeFields(e)
    ensures FourFields(action, actor, resource, status) == FourFields(e.action, e.actor, e.resource, e.status)
    ensures !(action == e.action && actor == e.actor && resource == e.resource && status == e.status)
  {
    action, actor, resource, status := e.action, e.actor, e.resource, e.status;
    if '|' in e.action {
      var x, y := CutAtBar(e.action);
      action, actor := x, y + "|" + e.actor;
    } else if '|' in e.actor {
      var x, y := CutAtBar(e.actor);
      actor, resource := x, y + "|" + e.resource;
    } else if '|' in e.resource {
      var x, y := CutAtBar(e.resource);
      resource, status := x, y + "|" + e.status;
    } else {
      var x, y := CutAtBar(e.status);
      resource, status := e.resource + "|" + x, y;
    }
  }

  // The four caller-supplied fields of an event are the only ones with its canonical text, the other parts being
  // equal, exactly when none of them holds a '|'.
  lemma FieldsDeterminedIff(e: AuditEvent)
    ensures BarFreeFields(e)
       <==> forall action, actor, resource, status ::
              Canonical(WithFields(e, action, actor, resource, status)) == Canonical(e)
              ==> WithFields(e, action, actor, resource, status) == e
  {
    if BarFreeFields(e) {
      forall action, actor, resource, status
        | Canonical(WithFields(e, action, actor, resource, status)) == Canonical(e)
        ensures WithFields(e, action, actor, resource, status) == e
      {
        TextOfFields(e, action, actor, resource, status);
        BarFreeFieldsSplit(e, action, actor, resource, status);
      }
    } else {
      var action, actor, resource, status := AmbiguousFields(e);
      TextOfFields(e, action, actor, resource, status);
    }
  }

  // ----- When the text of a map determines the map -----

  lemma SingleText(k: string, v: string)
    ensures MetaText(map[k := v]) == Pair(k, v)
  {
    var one := map[k := v];
    KeyListSorted(one.Keys);
    assert Sorted([k]);
    SortedUnique(KeyList(one.Keys), [k]);
  }

  // The text of some pairs is the first key, an '=' and the rest; with two pairs or more the rest holds another '='.
  lemma {:induction false} TextSplits(meta: map<string, string>, keys: seq<string>) returns (rest: string)
    requires keys != []
    ensures JoinPairs(meta, keys) == Pair(keys[0], rest)
    ensures |keys| == 1 ==> rest == Lookup(meta, keys[0])
    ensures |keys| > 1 ==> '=' in rest
  {
    var n := |keys| - 1;
    if n == 0 {
      rest := Lookup(meta, keys[0]);
    } else {
      var init := TextSplits(meta, keys[..n]);
      var last := Pair(keys[n], Lookup(meta, keys[n]));
      rest := init + "&" + last;
      assert rest[|init| + 1 + |keys[n]|] == '=';
    }
  }

  lemma KeysOfMap(meta: map<string, string>)
    ensures var keys := KeyList(meta.Keys);
      && (keys == [] <==> meta == map[])
      && (|keys| == 1 ==> meta.Keys == {keys[0]})
      && (forall k :: k in keys <==> k in meta)
      && Sorted(keys)
  {
    KeyListSorted(meta.Keys);
    var keys := KeyList(meta.Keys);
    if meta != map[] {
      var k :| k in meta;
      assert k in keys;
    }
    if keys != [] { assert keys[0] in meta; }
  }

  lemma EmptyTextIff(meta: map<string, string>)
    ensures MetaText(meta) == "" <==> meta == map[]
  {
    KeysOfMap(meta);
    if meta != map[] { var rest := TextSplits(meta, KeyList(meta.Keys)); }
  }

  // Any other map than those of MetadataDeterminedIff has a twin with its text.
  lemma MapTwin(meta: map<string, string>) returns (twin: map<string, string>)
    requires meta != map[] && !(exists k, v :: meta == map[k := v] && '=' !in k && '=' !in v)
    ensures twin != meta && MetaText(twin) == MetaText(meta)
  {
    KeysOfMap(meta);
    var keys := KeyList(meta.Keys);
    var k, v := keys[0], Lookup(meta, keys[0]);
    var rest := TextSplits(meta, keys);
    if |keys| > 1 {
      twin := map[k := rest];
      SingleText(k, rest);
      assert Less(keys[0], keys[1]);
      LessIsStrictTotal(keys[0], keys[0]);
      assert keys[1] in meta && keys[1] !in twin;
    } else {
      assert meta == map[k := v] by { assert meta.Keys == {k}; }
      SingleText(k, v);
      twin := SingleTwin(k, v);
    }
  }

  // A '=' in the key can go to the value, and one in the value to the key.
  lemma SingleTwin(k: string, v: string) returns (twin: map<string, string>)
    requires '=' in k || '=' in v
    ensures twin != map[k := v] && MetaText(twin) == Pair(k, v)
  {
    var s := if '=' in k then k else v;
    var i :| 0 <= i < |s| && s[i] == '=';
    var a, b := s[..i], s[i + 1..];
    assert s == a + "=" + b;
    var k', v' := if '=' in k then a else k + "=" + a, if '=' in k then b + "=" + v else b;
    assert Pair(k', v') == Pair(k, v);
    twin := map[k' := v'];
    SingleText(k', v');
    assert |k'| != |k|;
    assert k' in twin && k' !in map[k := v];
  }

  lemma SingleDetermined(k: string, v: string, other: map<string, string>)
    requires '=' !in k && '=' !in v && MetaText(other) == Pair(k, v)
    ensures other == map[k := v]
  {
    KeysOfMap(other);
    var keys := KeyList(other.Keys);
    assert Pair(k, v)[|k|] == '=';
    var rest := TextSplits(other, keys);
    var l := keys[0];
    assert Pair(l, rest)[|l|] == '=';
    assert forall i :: 0 <= i < |Pair(k, v)| && i != |k| ==> Pair(k, v)[i] != '=';
    assert |l| == |k|;
    assert l == Pair(l, rest)[..|l|] && k == Pair(k, v)[..|k|];
    assert rest == Pair(l, rest)[|l| + 1..] && v == Pair(k, v)[|k| + 1..];
    assert other.Keys == {k};
  }

  // Exactly which metadata its text determines: none at all, or one pair with no '=' in its key or value. Any other
  // map, plain or not, shares its text with a different one.
  lemma MetadataDeterminedIff(meta: map<string, string>)
    ensures (forall other :: MetaText(other) == MetaText(meta) ==> other == meta)
       <==> meta == map[] || exists k, v :: meta == map[k := v] && '=' !in k && '=' !in v
  {
    if meta == map[] {
      forall other | MetaText(other) == MetaText(meta) ensures other == meta {
        EmptyTextIff(other);
        EmptyTextIff(meta);
      }
    } else if k, v :| meta == map[k := v] && '=' !in k && '=' !in v {
      SingleText(k, v);
      forall other | MetaText(other) == MetaText(meta) ensures other == meta {
        SingleDetermined(k, v, other);
      }
    } else {
      var twin := MapTwin(meta);
    }
  }

  // The text of sorted pairs, read from the front.
  lemma {:induction false} JoinedInOrder(meta: map<string, string>, keys: seq<string>)
    ensures |keys| == 1 ==> JoinPairs(meta, keys) == keys[0] + "=" + Lookup(meta, keys[0])
    ensures |keys| > 1 ==>
      JoinPairs(meta, keys) == keys[0] + "=" + Lookup(meta, keys[0]) + "&" + JoinPairs(meta, keys[1..])
  {
    if |keys| > 1 {
      var n := |keys| - 1;
      var last := Pair(keys[n], Lookup(meta, keys[n]));
      JoinedInOrder(meta, keys[..n]);
      var tail := keys[1..];
      if |keys| > 2 {
        assert keys[..n][1..] == tail[..|tail| - 1];
        assert JoinPairs(meta, tail) == JoinPairs(meta, tail[..|tail| - 1]) + "&" + last;
      } else {
        assert JoinPairs(meta, tail) == last;
      }
    }
  }

  // Sorted keys, "key=value" each, joined by '&'.
  lemma MetaTextIs(meta: map<string, string>, keys: seq<string>)
    requires Sorted(keys) && forall k :: k in keys <==> k in meta
    ensures MetaText(meta) == JoinPairs(meta, keys)
    ensures keys == [] ==> MetaText(meta) == ""
    ensures |keys| == 1 ==> MetaText(meta) == keys[0] + "=" + meta[keys[0]]
    ensures |keys| > 1 ==> keys[0] in meta && MetaText(meta) == keys[0] + "=" + meta[keys[0]] + "&" + JoinPairs(meta, keys[1..])
  {
    KeyListSorted(meta.Keys);
    SortedUnique(KeyList(meta.Keys), keys);
    JoinedInOrder(meta, keys);
    if keys != [] { assert keys[0] in keys; }
  }

  lemma PairsText(k: string, v: string, l: string, w: string)
    requires Less(k, l)
    ensures MetaText(map[k := v, l := w]) == Pair(k, v) + "&" + Pair(l, w)
  {
    var two := map[k := v, l := w];
    LessIsStrictTotal(k, l);
    KeyListSorted(two.Keys);
    SortedUnique(KeyList(two.Keys), [k, l]);
    assert [k, l][..1] == [k];
    assert JoinPairs(two, [k]) == Pair(k, v);
  }

  // In particular two plain pairs read like one pair whose value holds '&' and '='.
  lemma MetadataAmbiguous(k: string, v: string, l: string, w: string)
    requires Less(k, l)
    ensures map[k := v + "&" + Pair(l, w)] != map[k := v, l := w]
    ensures MetaText(map[k := v + "&" + Pair(l, w)]) == MetaText(map[k := v, l := w])
  {
    hide MetaText;
    LessIsStrictTotal(k, l);
    SingleText(k, v + "&" + Pair(l, w));
    PairsText(k, v, l, w);
    assert l in map[k := v, l := w] && l !in map[k := v + "&" + Pair(l, w)];
    assert Pair(k, v + "&" + Pair(l, w)) == Pair(k, v) + "&" + Pair(l, w);
  }

  // ----- When the canonical text determines the record -----

  // The part of the canonical text that callers supply.
  function Body(e: AuditEvent, meta: string): string {
    FourFields(e.action, e.actor, e.resource, e.status) + ("|" + meta)
  }

  lemma TextOfBody(e: AuditEvent, m: string)
    ensures CanonicalText(e, m) == (e.eventID + "|" + (e.timestamp + "|")) + Body(e, m) + ("|" + e.prevHash)
  {
    TextAround(e, m, e.eventID + "|" + (e.timestamp + "|"), "|" + (m + "|" + e.prevHash));
  }

  lemma BodyFromText(e: AuditEvent, f: AuditEvent, m: string, n: string)
    requires GeneratedFields(e) && GeneratedFields(f) && e.prevHash == f.prevHash
    ensures CanonicalText(e, m) == CanonicalText(f, n)
       <==> e.eventID == f.eventID && e.timestamp == f.timestamp && Body(e, m) == Body(f, n)
  {
    hide Body;
    TextOfBody(e, m);
    TextOfBody(f, n);
    var x, y := Body(e, m) + ("|" + e.prevHash), Body(f, n) + ("|" + f.prevHash);
    Regroup(e.eventID, e.timestamp, Body(e, m), "|" + e.prevHash);
    Regroup(f.eventID, f.timestamp, Body(f, n), "|" + f.prevHash);
    if CanonicalText(e, m) == CanonicalText(f, n) {
      SplitsAtSeparator('|', e.eventID, e.timestamp + "|" + x, f.eventID, f.timestamp + "|" + y);
      SplitsAtSeparator('|', e.timestamp, x, f.timestamp, y);
      Cancel("", Body(e, m), Body(f, n), "|" + e.prevHash);
      assert "" + Body(e, m) == Body(e, m) && "" + Body(f, n) == Body(f, n);
    }
  }

  lemma Regroup(a: string, b: string, c: string, d: string)
    ensures (a + "|" + (b + "|")) + c + d == a + "|" + (b + "|" + (c + d))
  {
  }

  // With bar-free fields in e, the fields of f are those of e, unless f's metadata text is what follows a '|' in e's.
  lemma BodiesAlign(e: AuditEvent, f: AuditEvent, m: string, n: string)
    requires BarFreeFields(e) && Body(e, m) == Body(f, n)
    ensures m == n || (|n| < |m| && m[|m| - |n| - 1] == '|' && m[|m| - |n|..] == n)
    ensures m == n ==> f == e.(eventID := f.eventID, timestamp := f.timestamp, metadata := f.metadata,
                               prevHash := f.prevHash, hash := f.hash)
  {
    var u, v := FourFields(e.action, e.actor, e.resource, e.status), FourFields(f.action, f.actor, f.resource, f.status);
    hide FourFields;
    SplitsFromRight(u, m, v, n);
    if |m| < |n| {
      BarsOfFour(e.action, e.actor, e.resource, e.status);
      BarsOfFour(f.action, f.actor, f.resource, f.status);
      BarsZeroIff(e.action); BarsZeroIff(e.actor); BarsZeroIff(e.resource); BarsZeroIff(e.status);
      var x := u[|v| + 1..];
      assert u == v + ("|" + x);
      BarsAdd(v, "|" + x);
      BarsAfterBar(x);
      assert false;
    } else if m == n {
      BarFreeFieldsSplit(e, f.action, f.actor, f.resource, f.status);
    }
  }

  lemma BarsAfterBar(x: string)
    ensures Bars("|" + x) == 1 + Bars(x)
  {
    assert ("|" + x)[1..] == x;
  }

  lemma SplitsFromRight(u: string, m: string, v: string, n: string)
    requires u + ("|" + m) == v + ("|" + n)
    ensures |m| == |n| ==> u == v && m == n
    ensures |n| < |m| ==> m[|m| - |n| - 1] == '|' && m[|m| - |n|..] == n
    ensures |m| < |n| ==> |v| < |u| && u[|v|] == '|' && u[..|v|] == v
  {
    var w, w' := u + ("|" + m), v + ("|" + n);
    assert w[..|u|] == u && w[|u| + 1..] == m && w[|u|] == '|';
    assert w'[..|v|] == v && w'[|v| + 1..] == n && w'[|v|] == '|';
    if |n| < |m| {
      assert |u| < |v|;
      assert m[|v| - |u| - 1] == w[|v|];
      assert m[|v| - |u|..] == w[|v| + 1..];
    }
    if |m| < |n| { assert u[..|v|] == w[..|v|]; }
  }

  // Metadata that its text determines, and whose text no other field can absorb.
  predicate PinnedMetadata(meta: map<string, string>) {
    meta == map[] || exists k :: k in meta && meta == map[k := meta[k]] && '=' !in k && '=' !in meta[k]
                                 && '|' !in k && !HasSuffix(meta[k], "|")
  }

  // A record that the logger could have made with the same previous hash and canonical text as e.
  ghost predicate Alike(e: AuditEvent, f: AuditEvent) {
    GeneratedFields(f) && f.prevHash == e.prevHash && f.hash == e.hash && Canonical(f) == Canonical(e)
  }

  lemma TextHasEquals(meta: map<string, string>)
    ensures MetaText(meta) == "" || '=' in MetaText(meta)
  {
    KeysOfMap(meta);
    if meta != map[] {
      var keys := KeyList(meta.Keys);
      var rest := TextSplits(meta, keys);
      assert Pair(keys[0], rest)[|keys[0]|] == '=';
    }
  }

  lemma PinnedRecord(e: AuditEvent, f: AuditEvent)
    requires GeneratedFields(e) && BarFreeFields(e) && PinnedMetadata(e.metadata) && Alike(e, f)
    ensures f == e
  {
    var m, n := MetaText(e.metadata), MetaText(f.metadata);
    hide MetaText, PinnedMetadata, BarFreeFields, GeneratedFields, CanonicalText, Body;
    BodyFromText(e, f, m, n);
    BodiesAlign(e, f, m, n);
    TextHasEquals(f.metadata);
    PinnedTail(e.metadata, n);
    PinnedIsDetermined(e.metadata, f.metadata);
  }

  lemma PinnedIsDetermined(meta: map<string, string>, other: map<string, string>)
    requires PinnedMetadata(meta) && MetaText(other) == MetaText(meta)
    ensures other == meta
  {
    MetadataDeterminedIff(meta);
  }

  // No metadata text follows a '|' in the text of pinned metadata.
  lemma PinnedTail(meta: map<string, string>, n: string)
    requires PinnedMetadata(meta) && (n == "" || '=' in n)
    ensures var m := MetaText(meta); !(|n| < |m| && m[|m| - |n| - 1] == '|' && m[|m| - |n|..] == n)
  {
    EmptyTextIff(meta);
    if meta != map[] {
      var k :| k in meta && meta == map[k := meta[k]] && '=' !in k && '=' !in meta[k]
               && '|' !in k && !HasSuffix(meta[k], "|");
      var v := meta[k];
      SingleText(k, v);
      var m := Pair(k, v);
      if |n| < |m| && m[|m| - |n| - 1] == '|' && m[|m| - |n|..] == n {
        NotInPair(k, v, n);
      }
    }
  }

  // What follows a '|' in the pair lies in its value, so it is not empty and holds no '='.
  lemma NotInPair(k: string, v: string, n: string)
    requires '=' !in v && '|' !in k && !HasSuffix(v, "|")
    requires |n| < |Pair(k, v)| && Pair(k, v)[|Pair(k, v)| - |n| - 1] == '|' && Pair(k, v)[|Pair(k, v)| - |n|..] == n
    ensures n != "" && '=' !in n
  {
    var p := Pair(k, v);
    var i := |p| - |n| - 1;
    assert i > |k|;
    assert n == v[i - |k|..];
    assert v[|v| - 1..] == [v[|v| - 1]];
  }

  // Anything else has a twin.
  lemma RecordTwin(e: AuditEvent) returns (twin: AuditEvent)
    requires GeneratedFields(e) && !(BarFreeFields(e) && PinnedMetadata(e.metadata))
    ensures twin != e && Alike(e, twin)
  {
    if !BarFreeFields(e) {
      var action, actor, resource, status := AmbiguousFields(e);
      TextOfFields(e, action, actor, resource, status);
      twin := WithFields(e, action, actor, resource, status);
    } else if k, v :| e.metadata == map[k := v] && '=' !in k && '=' !in v {
      assert e.metadata[k] == v;
      twin := AbsorbedTwin(e, k, v);
    } else {
      var meta := MapTwin(e.metadata);
      twin := e.(metadata := meta);
    }
  }

  // The status can absorb the text up to a '|' in the key, or up to one at the end of the value.
  lemma AbsorbedTwin(e: AuditEvent, k: string, v: string) returns (twin: AuditEvent)
    requires GeneratedFields(e) && e.metadata == map[k := v] && ('|' in k || HasSuffix(v, "|"))
    ensures twin != e && Alike(e, twin)
  {
    var x, meta;
    SingleText(k, v);
    if '|' in k {
      var a, b := CutAtBar(k);
      x, meta := a, map[b := v];
      SingleText(b, v);
      assert Pair(k, v) == a + ("|" + Pair(b, v));
    } else {
      x, meta := Pair(k, v[..|v| - 1]), map[];
      EmptyTextIff(meta);
      assert v == v[..|v| - 1] + "|";
      assert Pair(k, v) == x + ("|" + "");
    }
    twin := e.(status := e.status + "|" + x, metadata := meta);
    BodyAbsorbs(e, x, MetaText(meta));
    BodyFromText(e, twin, MetaText(e.metadata), MetaText(meta));
    assert |twin.status| > |e.status|;
  }

  lemma BodyAbsorbs(e: AuditEvent, x: string, n: string)
    ensures Body(e, x + ("|" + n)) == Body(e.(status := e.status + "|" + x), n)
  {
  }

  // Exactly which records their canonical text determines, the previous hash being given: those with no '|' in the
  // caller's four fields and with no metadata, or one pair without '=' whose key has no '|' and whose value does not
  // end with one.
  lemma RecordDeterminedIff(e: AuditEvent)
    requires GeneratedFields(e)
    ensures (forall f :: Alike(e, f) ==> f == e) <==> BarFreeFields(e) && PinnedMetadata(e.metadata)
  {
    if BarFreeFields(e) && PinnedMetadata(e.metadata) {
      forall f | Alike(e, f) ensures f == e { PinnedRecord(e, f); }
    } else {
      var twin := RecordTwin(e);
    }
  }

  // ----- When the head hash determines the chain -----

  ghost predicate AllGenerated(events: seq<Option<AuditEvent>>) {
    forall i :: 0 <= i < |events| && events[i].Some? ==> GeneratedFields(events[i].value)
  }

  ghost predicate AllPinned(events: seq<Option<AuditEvent>>) {
    forall i :: 0 <= i < |events| && events[i].Some? ==>
      BarFreeFields(events[i].value) && PinnedMetadata(events[i].value.metadata)
  }

  // Another chain that the logger could have made with the same head hash.
  ghost predicate SameHead(h: Hash, a: seq<Option<AuditEvent>>, b: seq<Option<AuditEvent>>) {
    Verifies(h, b) && AllGenerated(b) && ExpectedPrev(a, |a|) == ExpectedPrev(b, |b|)
  }

  lemma PinnedChain(h: Hash, a: seq<Option<AuditEvent>>, b: seq<Option<AuditEvent>>)
    requires BarFree(h) && Verifies(h, a) && AllGenerated(a) && AllPinned(a) && SameHead(h, a, b)
    ensures b == a || Broken(h, a, b)
  {
    HeadDeterminesChain(h, a, b);
    if SameTexts(h, a, b) {
      hide Canonical, Broken, BarFreeFields, PinnedMetadata, GeneratedFields;
      forall i | 0 <= i < |a| ensures b[i] == a[i] {
        assert GoodAt(h, a, i) && GoodAt(h, b, i) && TextAt(a, i) == TextAt(b, i);
        SameTextSamePrev(h, a, i, b, i);
        PinnedRecord(a[i].value, b[i].value);
      }
    }
  }

  // A record with a twin gives the chain a twin.
  lemma TwinChain(h: Hash, a: seq<Option<AuditEvent>>, i: nat) returns (b: seq<Option<AuditEvent>>)
    requires Verifies(h, a) && AllGenerated(a) && i < |a| && a[i].Some?
    requires !(BarFreeFields(a[i].value) && PinnedMetadata(a[i].value.metadata))
    ensures SameHead(h, a, b) && b != a
    ensures Broken(h, a, b) ==> Broken(h, a, a)
  {
    var twin := RecordTwin(a[i].value);
    b := a[i := Some(twin)];
    assert GoodAt(h, a, i);
    ReplacementUnnoticedIff(h, a, i, twin);
    hide Canonical;
    assert forall j :: 0 <= j < |b| && b[j].Some? ==> a[j].Some? && TextAt(b, j) == TextAt(a, j);
  }

  // Exactly which chains their head hash determines, for a hash that is not broken on the chain itself: those all of
  // whose records are determined by their canonical texts.
  lemma ChainDeterminedIff(h: Hash, a: seq<Option<AuditEvent>>)
    requires BarFree(h) && Verifies(h, a) && AllGenerated(a) && !Broken(h, a, a)
    ensures (forall b :: SameHead(h, a, b) ==> b == a || Broken(h, a, b)) <==> AllPinned(a)
  {
    hide Broken, SameHead, BarFreeFields, PinnedMetadata;
    if AllPinned(a) {
      forall b | SameHead(h, a, b) ensures b == a || Broken(h, a, b) { PinnedChain(h, a, b); }
    } else {
      var i :| 0 <= i < |a| && a[i].Some? && !(BarFreeFields(a[i].value) && PinnedMetadata(a[i].value.metadata));
      var b := TwinChain(h, a, i);
    }
  }
}

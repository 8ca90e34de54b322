// Anti-replay nonces (pkg/protocols/acme/nonce.go).
module Nonces {
  import opened Wrappers
  import opened Text
  import opened Base64

  const DEFAULT_TTL: Time := 15 * 60

  type Table = map<string, Time>  // nonce to expiry

  // ----- One call -----

  function Consume(t: Table, nonce: string, now: Time): (Table, bool) {
    if nonce == "" || nonce !in t then (t, false) else (t - {nonce}, now < t[nonce])
  }

  function Clean(t: Table, now: Time): Table {
    map n | n in t && !(now > t[n]) :: t[n]
  }

  class NonceManager {
    var nonces: Table
    const ttl: Time

    constructor (ttl: Time)
      ensures nonces == map[] && this.ttl == if ttl <= 0 then 900 else ttl
    {
      this.ttl := if ttl <= 0 then DEFAULT_TTL else ttl;
      nonces := map[];
    }

    // buf is what the random reader delivered.
    method GenerateNonce(buf: seq<byte>, now: Time) returns (nonce: string)
      requires |buf| == 16
      modifies this
      ensures nonce == Encode(RAW_URL, buf) && nonce != ""
      ensures nonces == old(nonces)[nonce := now + ttl]
    {
      nonce := Encode(RAW_URL, buf);
      nonces := nonces[nonce := now + ttl];
    }

    method ValidateAndConsumeNonce(nonce: string, now: Time) returns (ok: bool)
      modifies this
      ensures (nonces, ok) == Consume(old(nonces), nonce, now)
    {
      if nonce == "" { return false; }
      if nonce !in nonces { return false; }
      var expiry := nonces[nonce];
      nonces := nonces - {nonce};
      ok := now < expiry;
    }

    method Cleanup(now: Time)
      modifies this
      ensures nonces == Clean(old(nonces), now)
    {
      var left := nonces.Keys;
      while left != {}
        invariant left <= nonces.Keys <= old(nonces).Keys
        invariant forall n :: n in nonces ==> nonces[n] == old(nonces)[n]
        invariant forall n :: n in old(nonces) && n !in left ==> (n in nonces <==> !(now > old(nonces)[n]))
        decreases left
      {
        var n :| n in left;
        left := left - {n};
        if now > nonces[n] {
          nonces := nonces - {n};
        }
      }
    }
  }

  // ----- Runs -----

  datatype Op = Generate(nonce: string, now: Time) | Validate(nonce: string, now: Time) | Cleanup(now: Time)

  // Calls under one lock, on a clock that does not go back.
  ghost predicate Monotone(ops: seq<Op>) {
    forall i, j :: 0 <= i < j < |ops| ==> ops[i].now <= ops[j].now
  }

  function Apply(t: Table, op: Op, ttl: Time): Table {
    match op
    case Generate(nonce, now) => t[nonce := now + ttl]
    case Validate(nonce, now) => Consume(t, nonce, now).0
    case Cleanup(now) => Clean(t, now)
  }

  function After(ops: seq<Op>, ttl: Time): Table {
    if ops == [] then map[] else Apply(After(ops[..|ops| - 1], ttl), ops[|ops| - 1], ttl)
  }

  // The answer of a validation made after ops.
  predicate Accepted(ops: seq<Op>, nonce: string, now: Time, ttl: Time) {
    Consume(After(ops, ttl), nonce, now).1
  }

  // When the last call that names the nonce generated it: at what time. None after a validation, or no call.
  function LastIssue(ops: seq<Op>, nonce: string): Option<Time> {
    if ops == [] then None
    else
      var op := ops[|ops| - 1];
      if op.Generate? && op.nonce == nonce then Some(op.now)
      else if op.Validate? && op.nonce == nonce then None
      else LastIssue(ops[..|ops| - 1], nonce)
  }

  // The table holds a nonce only with the expiry of its last issue; an issue it has lost has expired.
  lemma {:induction false} TableTracksLastIssue(ops: seq<Op>, nonce: string, ttl: Time)
    requires Monotone(ops) && nonce != ""
    ensures var t := After(ops, ttl);
            var issue := LastIssue(ops, nonce);
      && (nonce in t ==> issue.Some? && t[nonce] == issue.value + ttl)
      && (issue.Some? && nonce !in t ==> ops != [] && issue.value + ttl < ops[|ops| - 1].now)
  {
    if ops != [] {
      var init, op := ops[..|ops| - 1], ops[|ops| - 1];
      TableTracksLastIssue(init, nonce, ttl);
      if init != [] { assert ops[|init| - 1].now <= op.now; }
    }
  }

  // Exactly which validations succeed: the last call naming the nonce issued it, less than a lifetime ago. So an issued
  // nonce is accepted at most once, only before its expiry, and certainly if it is presented once in time.
  lemma AcceptedIff(ops: seq<Op>, nonce: string, now: Time, ttl: Time)
    requires Monotone(ops + [Validate(nonce, now)])
    ensures Accepted(ops, nonce, now, ttl)
       <==> nonce != "" && LastIssue(ops, nonce).Some? && now < LastIssue(ops, nonce).value + ttl
  {
    var all := ops + [Validate(nonce, now)];
    assert Monotone(ops) by { assert forall i :: 0 <= i < |ops| ==> all[i] == ops[i]; }
    if nonce != "" {
      TableTracksLastIssue(ops, nonce, ttl);
      if ops != [] { assert all[|ops| - 1].now <= all[|ops|].now; }
    }
  }

  // ----- Cleanup is invisible -----

  function WithoutCleanups(ops: seq<Op>): seq<Op> {
    if ops == [] then []
    else WithoutCleanups(ops[..|ops| - 1]) + if ops[|ops| - 1].Cleanup? then [] else [ops[|ops| - 1]]
  }

  lemma {:induction false} CleanupsDoNotTouch(ops: seq<Op>, nonce: string)
    ensures LastIssue(WithoutCleanups(ops), nonce) == LastIssue(ops, nonce)
  {
    if ops != [] {
      CleanupsDoNotTouch(ops[..|ops| - 1], nonce);
      var w := WithoutCleanups(ops);
      if ops[|ops| - 1].Cleanup? {
        assert w == WithoutCleanups(ops[..|ops| - 1]);
      } else {
        assert w[..|w| - 1] == WithoutCleanups(ops[..|ops| - 1]);
      }
    }
  }

  lemma {:induction false} StaysMonotone(ops: seq<Op>)
    requires Monotone(ops)
    ensures Monotone(WithoutCleanups(ops))
    ensures forall i :: 0 <= i < |WithoutCleanups(ops)| ==> WithoutCleanups(ops)[i] in ops
  {
    if ops != [] {
      var init, op := ops[..|ops| - 1], ops[|ops| - 1];
      StaysMonotone(init);
      forall x | x in init ensures x.now <= op.now { }
    }
  }

  // Inserting or removing Cleanup calls anywhere in a run changes no validation answer.
  lemma CleanupInvisible(ops: seq<Op>, nonce: string, now: Time, ttl: Time)
    requires Monotone(ops + [Validate(nonce, now)])
    ensures Accepted(ops, nonce, now, ttl) == Accepted(WithoutCleanups(ops), nonce, now, ttl)
  {
    var v := Validate(nonce, now);
    AcceptedIff(ops, nonce, now, ttl);
    CleanupsDoNotTouch(ops, nonce);
    StaysMonotone(ops + [v]);
    assert (ops + [v])[..|ops|] == ops;
    assert WithoutCleanups(ops + [v]) == WithoutCleanups(ops) + [v];
    AcceptedIff(WithoutCleanups(ops), nonce, now, ttl);
  }

  // ----- Accounting -----

  function Issues(ops: seq<Op>): nat {
    if ops == [] then 0 else Issues(ops[..|ops| - 1]) + if ops[|ops| - 1].Generate? then 1 else 0
  }

  function Acceptances(ops: seq<Op>, ttl: Time): nat {
    if ops == [] then 0
    else
      var init, op := ops[..|ops| - 1], ops[|ops| - 1];
      Acceptances(init, ttl) + if op.Validate? && Accepted(init, op.nonce, op.now, ttl) then 1 else 0
  }

  lemma CleanShrinks(t: Table, now: Time)
    ensures |Clean(t, now)| <= |t|
  {
    assert Clean(t, now).Keys <= t.Keys;
    SubsetSize(Clean(t, now).Keys, t.Keys);
  }

  lemma {:induction false} SubsetSize(a: set<string>, b: set<string>)
    requires a <= b
    ensures |a| <= |b|
    decreases a
  {
    if a != {} {
      var x :| x in a;
      SubsetSize(a - {x}, b - {x});
    }
  }

  // Accepted requests and live nonces together never exceed the nonces issued.
  lemma {:induction false} AcceptedPlusLiveBounded(ops: seq<Op>, ttl: Time)
    ensures Acceptances(ops, ttl) + |After(ops, ttl)| <= Issues(ops)
  {
    if ops != [] {
      var init, op := ops[..|ops| - 1], ops[|ops| - 1];
      AcceptedPlusLiveBounded(init, ttl);
      var t := After(init, ttl);
      match op
      case Generate(nonce, now) => assert t[nonce := now + ttl].Keys == t.Keys + {nonce};
      case Validate(nonce, now) => if nonce in t { assert (t - {nonce}).Keys == t.Keys - {nonce}; }
      case Cleanup(now) => CleanShrinks(t, now);
    }
  }
}

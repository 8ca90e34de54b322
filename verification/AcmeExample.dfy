// A run of the ACME server that issues two certificates for one order.
module AcmeExample {
  import opened Wrappers
  import opened Text
  import opened AcmeSpec
  import opened Acme
  import Reserver
  import Serials
  import Policy
  import Issuance

  // The default policy, a signer that always succeeds, and no base URL.
  function ExampleEnv(): Env {
    Env("", false, Issuance.Authority(None, [], []), (t, exts) => Some([]), s => s)
  }

  const NAME := Identifier("dns", "a")
  const CSR := Issuance.Csr(true, "", [], [], [], [], Policy.Ed25519(32), Some([]))
  const IDS := Ids("z", "c", "t")

  lemma NameAccepted()
    ensures Policy.ValidateDNSName(Policy.DEFAULT_POLICY, "a").None?
  {
    assert ToLower("a") == "a";
    Serials.TrimKeeps("a");
    var p := Policy.DEFAULT_POLICY;
    forall d | d in p.disallowed ensures |d| > 1 {
      assert |p.disallowed| == 8;
    }
    assert !Policy.MatchesDisallowed(p, "a");
    assert '*' !in "a";
  }

  lemma NamesOfOrder()
    ensures DnsNames([NAME]) == ["a"]
  {
    assert [NAME][..0] == [];
    assert DnsNames([]) == [];
  }

  lemma RequestAdmissible(serial: nat)
    requires serial > 0
    ensures Issuance.Admissible(ExampleEnv().authority, SigningRequest([NAME], Some(CSR), serial))
  {
    hide Policy.ValidateDNSName;
    NamesOfOrder();
    NameAccepted();
    assert 30 * Policy.DAY <= Policy.SERVER_TLS.allowedMaxValidity;
  }

  lemma LeafSigned(serial: nat)
    requires 0 < serial <= 2
    ensures SignLeaf(ExampleEnv(), [NAME], Some(CSR), serial, 0, 0).Some?
  {
    var env, req := ExampleEnv(), SigningRequest([NAME], Some(CSR), serial);
    RequestAdmissible(serial);
    Issuance.AdmissibleIff(env.authority, req);
    assert Policy.GetProfile(Policy.ServerTLS) == Some(req.profile);
    assert serial < Reserver.Pow2(64) by { assert Reserver.Pow2(2) == 4; Reserver.Pow2Monotone(2, 64); }
    hide Issuance.Admissible, Issuance.Refusal, Issuance.Clean, Reserver.Pow2, Policy.GetProfile;
    Issuance.PresetNeverFailsLint(env.authority, req, Policy.ServerTLS, 64, 0, 0);
  }

  function Ordered(): State {
    NewOrder(ExampleEnv(), EMPTY, "", [NAME], "o", [IDS], 0).0
  }

  lemma OrderedShape()
    ensures var st := Ordered();
      && "o" in st.orders && st.orders["o"].status == Pending && st.orders["o"].identifiers == [NAME]
      && st.orders["o"].authorizations == [AuthzUrl("", "z")]
      && "c" in st.challenges && st.challenges["c"] == ChallengeRef("z", 0) && st.challenges.Keys == {"c"}
      && "z" in st.authzs && |st.authzs["z"].challenges| == 1 && st.authzs["z"].challenges[0].status == Pending
      && st.orderOf == map["z" := "o"] && st.certificates == map[]
  {
    hide AuthzUrl, ChallengeUrl, FinalizeUrl, AccountOf;
    assert [NAME][..0] == [] && [IDS][..0] == [];
    var st, account := Ordered(), AccountOf("", "");
    var start := AddAuthzs(ExampleEnv(), EMPTY, account, "o", [], [], 0);
    assert start == EMPTY;
    var added := AddAuthzs(ExampleEnv(), EMPTY, account, "o", [NAME], [IDS], 0);
    assert added == AddAuthz(ExampleEnv(), start, account, "o", NAME, IDS, 0);
    assert st.challenges == added.challenges && st.orderOf == added.orderOf && st.certificates == added.certificates;
  }

  function Answered(): State
    requires RefsResolve(Ordered())
  {
    HandleChallenge(ExampleEnv(), Ordered(), "c", true, 0).0
  }

  lemma AnsweredShape()
    ensures RefsResolve(Ordered())
    ensures var st := Answered();
      && "o" in st.orders && st.orders["o"].status == Ready && st.orders["o"].identifiers == [NAME]
      && AllValid("", st.authzs, st.orders["o"].authorizations) && st.certificates == map[]
  {
    hide AuthzUrl, AuthzId, NewOrder;
    OrderedShape();
    UrlsInvert("", "z");
  }

  // One finalize of an order whose authorizations are valid: three steps that end with the order valid.
  lemma Finalized(st: State, serial: nat, certId: string, leaf: Leaf)
    requires "o" in st.orders && st.orders["o"].identifiers == [NAME] && certId !in st.certificates
    requires AllValid("", st.authzs, st.orders["o"].authorizations)
    requires SignLeaf(ExampleEnv(), [NAME], Some(CSR), serial, 0, 0) == Some(leaf)
    ensures var env := ExampleEnv();
            var st' := FinalizeCommit(env, st, "o", certId, leaf);
      && Step(env, System(st, map[]), BeginFinalize(0, "o"), System(st, map[0 := Checked("o")]))
      && Step(env, System(st, map[0 := Checked("o")]), Sign(0, Some(CSR), serial, 0, 0),
              System(st, map[0 := Signed("o", serial, leaf)]))
      && Step(env, System(st, map[0 := Signed("o", serial, leaf)]), Commit(0, certId), System(st', map[]))
  {
    hide SignLeaf, AllValid;
    assert map[0 := Checked("o")][0 := Signed("o", serial, leaf)] == map[0 := Signed("o", serial, leaf)];
    assert map[0 := Signed("o", serial, leaf)] - {0} == map[];
  }

  lemma OrderedAndAnswered()
    ensures RefsResolve(Ordered())
    ensures var env := ExampleEnv();
      && Step(env, System(EMPTY, map[]), CallNewOrder("", [NAME], "o", [IDS], 0), System(Ordered(), map[]))
      && Step(env, System(Ordered(), map[]), CallChallenge("c", true, 0), System(Answered(), map[]))
  {
    hide NewOrder, HandleChallenge;
    AnsweredShape();
  }

  lemma Committed(st: State, certId: string, leaf: Leaf)
    requires "o" in st.orders
    ensures var st' := FinalizeCommit(ExampleEnv(), st, "o", certId, leaf);
      && "o" in st'.orders && st'.orders["o"].status == Valid && st'.orders["o"].certificateUrl == CertUrl("", certId)
      && st'.orders["o"].identifiers == st.orders["o"].identifiers && st'.authzs == st.authzs
      && st'.orders["o"].authorizations == st.orders["o"].authorizations
      && st'.certificates.Keys == st.certificates.Keys + {certId}
  {
    hide CertUrl;
  }

  // From an empty server: an order is made, its challenge answered, the order finalized, and finalized again. After the
  // first commit it is valid with its certificate; after the second it names another one, and both are stored.
  lemma SecondFinalize() returns (env: Env, states: seq<System>, actions: seq<Action>)
    ensures Run(env, states, actions) && |actions| == 8
    ensures var st := states[5].server;
      && "o" in st.orders && st.orders["o"].status == Valid && st.orders["o"].certificateUrl == CertUrl(env.base, "k1")
    ensures var st := states[8].server;
      && "o" in st.orders && st.orders["o"].status == Valid && st.orders["o"].certificateUrl == CertUrl(env.base, "k2")
      && st.certificates.Keys == {"k1", "k2"}
  {
    hide Step, SignLeaf, AllValid, CertUrl, RefsResolve, Answered, Ordered, FinalizeCommit;
    env := ExampleEnv();
    LeafSigned(1);
    LeafSigned(2);
    OrderedAndAnswered();
    AnsweredShape();
    var leaf := SignLeaf(env, [NAME], Some(CSR), 1, 0, 0).value;
    var leaf' := SignLeaf(env, [NAME], Some(CSR), 2, 0, 0).value;
    var answered := Answered();
    var first := FinalizeCommit(env, answered, "o", "k1", leaf);
    Committed(answered, "k1", leaf);
    var second := FinalizeCommit(env, first, "o", "k2", leaf');
    Committed(first, "k2", leaf');
    Finalized(answered, 1, "k1", leaf);
    Finalized(first, 2, "k2", leaf');
    states := [System(EMPTY, map[]), System(Ordered(), map[]), System(answered, map[]),
               System(answered, map[0 := Checked("o")]), System(answered, map[0 := Signed("o", 1, leaf)]),
               System(first, map[]),
               System(first, map[0 := Checked("o")]), System(first, map[0 := Signed("o", 2, leaf')]), System(second, map[])];
    actions := [CallNewOrder("", [NAME], "o", [IDS], 0), CallChallenge("c", true, 0),
                BeginFinalize(0, "o"), Sign(0, Some(CSR), 1, 0, 0), Commit(0, "k1"),
                BeginFinalize(0, "o"), Sign(0, Some(CSR), 2, 0, 0), Commit(0, "k2")];
  }
}

// The handlers of pkg/protocols/acme/server.go between taking and releasing the server's lock, and the part of finalize
// that runs without it.
module AcmeServer {
  import opened Wrappers
  import opened Text
  import opened AcmeSpec
  import Base64
  import Jwk
  import Policy
  import Issuance
  import Reserver

  class Server {
    const env: Env
    var accounts: map<string, Account>
    var accountsByThumb: map<string, Account>
    var orders: map<string, Order>
    var authorizations: map<string, Authorization>
    var challenges: map<string, ChallengeRef>
    var certificates: map<string, Leaf>
    var orderAuthzMap: map<string, string>

    ghost function View(): State
      reads this
    {
      State(accounts, accountsByThumb, orders, authorizations, challenges, certificates, orderAuthzMap)
    }

    constructor (env: Env)
      ensures this.env == env && View() == EMPTY
    {
      this.env := env;
      accounts, accountsByThumb, orders, authorizations := map[], map[], map[], map[];
      challenges, certificates, orderAuthzMap := map[], map[], map[];
    }

    method NewAccount(key: Jwk.PublicKey, contact: seq<string>, terms: bool, onlyExisting: bool, id: string, now: Time)
      returns (r: Result<Account, Problem>)
      modifies this
      ensures (View(), r) == AcmeSpec.NewAccount(env, old(View()), key, contact, terms, onlyExisting, id, now)
    {
      var thumbprint := Jwk.Thumbprint(key, env.sha);
      if thumbprint.Err? { return Err(ServerInternal); }
      if thumbprint.value in accountsByThumb { return Ok(accountsByThumb[thumbprint.value]); }
      if onlyExisting { return Err(AccountDoesNotExist); }
      var account := Account(id, key, thumbprint.value, contact, terms, now);
      accounts := accounts[id := account];
      accountsByThumb := accountsByThumb[thumbprint.value := account];
      r := Ok(account);
    }

    // orderId and ids are the random IDs drawn.
    method NewOrder(kid: string, idents: seq<Identifier>, orderId: string, ids: seq<Ids>, now: Time)
      returns (r: Result<Order, Problem>)
      requires |ids| == |idents|
      modifies this
      ensures (View(), r) == AcmeSpec.NewOrder(env, old(View()), kid, idents, orderId, ids, now)
    {
      if |idents| == 0 { return Err(Malformed); }
      var accountId := TrimPrefix(kid, env.base + "/acme/acct/");
      var authzUrls: seq<string> := [];
      for i := 0 to |idents|
        invariant View() == AddAuthzs(env, old(View()), accountId, orderId, idents[..i], ids[..i], now)
        invariant |authzUrls| == i && forall j :: 0 <= j < i ==> authzUrls[j] == AuthzUrl(env.base, ids[j].authz)
      {
        assert idents[..i + 1][..i] == idents[..i] && ids[..i + 1][..i] == ids[..i];
        var id := ids[i];
        var chal := Challenge(ChallengeUrl(env.base, id.chal), id.token, Pending, ZERO_TIME);
        var authz := Authorization(id.authz, accountId, Pending, idents[i], [chal], now + 24 * Policy.HOUR);
        authorizations := authorizations[id.authz := authz];
        challenges := challenges[id.chal := ChallengeRef(id.authz, 0)];
        orderAuthzMap := orderAuthzMap[id.authz := orderId];
        authzUrls := authzUrls + [AuthzUrl(env.base, id.authz)];
      }
      assert idents[..|idents|] == idents && ids[..|ids|] == ids;
      assert authzUrls == AuthzUrls(env.base, ids);
      var order := Order(orderId, accountId, Pending, idents, authzUrls, FinalizeUrl(env.base, orderId), "",
                         now + 24 * Policy.HOUR);
      orders := orders[orderId := order];
      r := Ok(order);
    }

    method AllAuthorizationsValid(urls: seq<string>) returns (allValid: bool)
      ensures allValid == AllValid(env.base, authorizations, urls)
    {
      for i := 0 to |urls|
        invariant AllValid(env.base, authorizations, urls[..i])
      {
        var authzId := TrimPrefix(urls[i], env.base + "/acme/authz/");
        if authzId !in authorizations || authorizations[authzId].status != Valid {
          assert AuthzId(env.base, urls[i]) == authzId && urls[i] in urls;
          return false;
        }
      }
      assert urls[..|urls|] == urls;
      allValid := true;
    }

    method GetOrder(orderId: string) returns (r: Result<Order, Problem>)
      modifies this`orders
      ensures (View(), r) == AcmeSpec.GetOrder(env, old(View()), orderId)
    {
      if orderId !in orders { return Err(Malformed); }
      var order := orders[orderId];
      if order.status == Pending {
        var allValid := AllAuthorizationsValid(order.authorizations);
        if allValid {
          order := order.(status := Ready);
          orders := orders[orderId := order];
        }
      }
      r := Ok(order);
    }

    method HandleChallenge(chalId: string, post: bool, now: Time) returns (r: Result<Challenge, Problem>)
      requires RefsResolve(View())
      modifies this`orders, this`authorizations
      ensures (View(), r) == AcmeSpec.HandleChallenge(env, old(View()), chalId, post, now)
    {
      if chalId !in challenges { return Err(Malformed); }
      var ref := challenges[chalId];
      var authz := authorizations[ref.authzId];
      var chal := authz.challenges[ref.index];
      if post && (env.skip || chal.status == Pending) {
        chal := chal.(status := Valid, validated := now);
        authz := authz.(challenges := authz.challenges[ref.index := chal], status := Valid);
        authorizations := authorizations[ref.authzId := authz];
        if ref.authzId in orderAuthzMap {
          var orderId := orderAuthzMap[ref.authzId];
          if orderId in orders && orders[orderId].status == Pending {
            var allValid := AllAuthorizationsValid(orders[orderId].authorizations);
            if allValid { orders := orders[orderId := orders[orderId].(status := Ready)]; }
          }
        }
      }
      r := Ok(chal);
    }

    // Finalize, first locked section.
    method FinalizeCheck(orderId: string) returns (problem: Option<Problem>)
      ensures problem == AcmeSpec.FinalizeCheck(env, View(), orderId)
      ensures problem == Some(Malformed) <==> orderId !in orders
      ensures problem == Some(OrderNotReady) <==>
        orderId in orders
        && exists url :: url in orders[orderId].authorizations
             && !(AuthzId(env.base, url) in authorizations && authorizations[AuthzId(env.base, url)].status == Valid)
    {
      if orderId !in orders { return Some(Malformed); }
      var allValid := AllAuthorizationsValid(orders[orderId].authorizations);
      problem := if allValid then None else Some(OrderNotReady);
    }

    // Finalize, second locked section.
    method FinalizeCommit(orderId: string, certId: string, leaf: Leaf)
      requires orderId in orders
      modifies this`certificates, this`orders
      ensures View() == AcmeSpec.FinalizeCommit(env, old(View()), orderId, certId, leaf)
      ensures certificates == old(certificates)[certId := leaf]
      ensures orders == old(orders)[orderId := old(orders)[orderId].(status := Valid,
                                                                    certificateUrl := env.base + "/acme/cert/" + certId)]
    {
      certificates := certificates[certId := leaf];
      var order := orders[orderId].(status := Valid);
      orders := orders[orderId := order.(certificateUrl := CertUrl(env.base, certId))];
    }
  }

  // base64url, then plain base64.
  function DecodeCsr(text: string): Option<seq<byte>> {
    var der := Base64.Decode(Base64.RAW_URL, text);
    if der.None? then Base64.Decode(Base64.STD, text) else der
  }

  // Finalize, between the locked sections. `identifiers` are those of the order, which never change; `parse` is the
  // parser of PKCS #10 and `reserved` what reserving a serial comes to, once the request has decoded.
  method FinalizeSign(env: Env, identifiers: seq<Identifier>, csrText: string,
                      parse: seq<byte> -> Option<Issuance.Csr>, reserved: Result<nat, Reserver.SerialError>,
                      t1: Time, t2: Time)
    returns (r: Result<Leaf, Problem>)
    ensures r == Err(Malformed) <==> csrText == "" || DecodeCsr(csrText).None?
    ensures csrText != "" && DecodeCsr(csrText).Some? && reserved.Err? ==> r == Err(ServerInternal)
    ensures csrText != "" && DecodeCsr(csrText).Some? && reserved.Ok? ==>
      var leaf := SignLeaf(env, identifiers, parse(DecodeCsr(csrText).value), reserved.value, t1, t2);
      r == if leaf.None? then Err(ServerInternal) else Ok(leaf.value)
    ensures r.Ok? ==>
      && reserved.Ok? && r.value.template.serial == Some(reserved.value)
      && r.value.template.notAfter == t2 + 30 * 86400
      && Policy.ServerAuth in r.value.template.extKeyUsage
      && env.create(r.value.template, []) == Some(r.value.der)
  {
    hide Issuance.Refusal, Issuance.Clean, Base64.Decode;
    if csrText == "" { return Err(Malformed); }
    var csrDER := Base64.Decode(Base64.RAW_URL, csrText);
    if csrDER.None? {
      csrDER := Base64.Decode(Base64.STD, csrText);
      if csrDER.None? { return Err(Malformed); }
    }
    var dnsNames: seq<string> := [];
    for i := 0 to |identifiers|
      invariant dnsNames == DnsNames(identifiers[..i])
    {
      assert identifiers[..i + 1][..i] == identifiers[..i];
      if identifiers[i].kind == "dns" { dnsNames := dnsNames + [identifiers[i].value]; }
    }
    assert identifiers[..|identifiers|] == identifiers;
    if reserved.Err? { return Err(ServerInternal); }
    var serial := reserved.value;
    var req := Issuance.Request(Some(serial), parse(csrDER.value), Policy.SERVER_TLS,
                                Issuance.ExtensionConfig([], [], []), 30 * Policy.DAY, dnsNames, []);
    var signed := Issuance.SignCertificateWithProfile(env.authority, req, t1, t2, env.create);
    if signed.Err? { return Err(ServerInternal); }
    Issuance.AdmissibleIff(env.authority, req);
    r := Ok(Leaf(Issuance.TemplateFor(env.authority, req, t1, t2), signed.value));
  }
}

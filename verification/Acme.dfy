// Runs of the ACME server: handlers interleave at their locked sections, and a finalize holds no lock while it signs.
module Acme {
  import opened Wrappers
  import opened Text
  import opened AcmeSpec
  import Jwk
  import Policy
  import Issuance
  import Reserver

  // A finalize request between its two locked sections.
  datatype Flight = Checked(orderId: string) | Signed(orderId: string, serial: nat, leaf: Leaf)

  datatype System = System(server: State, flights: map<nat, Flight>)

  datatype Action =
    | CallNewAccount(key: Jwk.PublicKey, contact: seq<string>, terms: bool, onlyExisting: bool, id: string, now: Time)
    | CallNewOrder(kid: string, idents: seq<Identifier>, orderId: string, ids: seq<Ids>, now: Time)
    | CallGetOrder(orderId: string)
    | CallChallenge(chalId: string, post: bool, now: Time)
    | BeginFinalize(flight: nat, orderId: string)
    | Sign(flight: nat, csr: Option<Issuance.Csr>, serial: nat, t1: Time, t2: Time)
    | Commit(flight: nat, certId: string)
    | Abandon(flight: nat)

  // Random IDs do not repeat.
  ghost predicate FreshIds(st: State, orderId: string, ids: seq<Ids>) {
    && orderId !in st.orders
    && (forall i :: 0 <= i < |ids| ==> ids[i].authz !in st.authzs && ids[i].chal !in st.challenges)
    && forall i, j :: 0 <= i < j < |ids| ==> ids[i].authz != ids[j].authz && ids[i].chal != ids[j].chal
  }

  ghost predicate Step(env: Env, s: System, a: Action, s': System) {
    var st := s.server;
    match a
    case CallNewAccount(key, contact, terms, only, id, now) =>
      id !in st.accounts && s' == s.(server := NewAccount(env, st, key, contact, terms, only, id, now).0)
    case CallNewOrder(kid, idents, orderId, ids, now) =>
      |ids| == |idents| && FreshIds(st, orderId, ids)
      && s' == s.(server := NewOrder(env, st, kid, idents, orderId, ids, now).0)
    case CallGetOrder(orderId) =>
      s' == s.(server := GetOrder(env, st, orderId).0)
    case CallChallenge(chalId, post, now) =>
      RefsResolve(st) && s' == s.(server := HandleChallenge(env, st, chalId, post, now).0)
    case BeginFinalize(f, orderId) =>
      f !in s.flights
      && s' == if FinalizeCheck(env, st, orderId).Some? then s else s.(flights := s.flights[f := Checked(orderId)])
    case Sign(f, csr, serial, t1, t2) =>
      f in s.flights && s.flights[f].Checked? && s.flights[f].orderId in st.orders
      && var orderId := s.flights[f].orderId;
         var leaf := SignLeaf(env, st.orders[orderId].identifiers, csr, serial, t1, t2);
         s' == s.(flights := if leaf.None? then s.flights - {f} else s.flights[f := Signed(orderId, serial, leaf.value)])
    case Commit(f, certId) =>
      f in s.flights && s.flights[f].Signed? && s.flights[f].orderId in st.orders && certId !in st.certificates
      && s' == System(FinalizeCommit(env, st, s.flights[f].orderId, certId, s.flights[f].leaf), s.flights - {f})
    case Abandon(f) =>
      s' == s.(flights := s.flights - {f})
  }

  // ----- The invariant -----

  // The leaf was signed for these names: its DNS names are exactly they, when there are any, and the policy accepts
  // each of its names.
  ghost predicate IssuedFor(env: Env, names: seq<string>, leaf: Leaf) {
    && env.create(leaf.template, []) == Some(leaf.der)
    && (names != [] ==> leaf.template.dnsNames == names)
    && Issuance.NamesAccepted(Issuance.PolicyOf(env.authority), leaf.template.dnsNames)
  }

  ghost predicate Certified(env: Env, certificates: map<string, Leaf>, order: Order) {
    var certId := CertId(env.base, order.certificateUrl);
    && order.certificateUrl == CertUrl(env.base, certId)
    && certId in certificates
    && IssuedFor(env, DnsNames(order.identifiers), certificates[certId])
  }

  ghost predicate Owned(base: string, st: State, id: string, url: string) {
    && AuthzId(base, url) in st.authzs
    && AuthzId(base, url) in st.orderOf && st.orderOf[AuthzId(base, url)] == id
  }

  ghost predicate OrderOk(env: Env, st: State, id: string)
    requires id in st.orders
  {
    var order := st.orders[id];
    && (forall url :: url in order.authorizations ==> Owned(env.base, st, id, url))
    && (order.status == Pending <==> !AllValid(env.base, st.authzs, order.authorizations))
    && (order.status == Valid ==> Certified(env, st.certificates, order))
  }

  ghost predicate OrdersOk(env: Env, st: State) {
    forall id :: id in st.orders ==> OrderOk(env, st, id)
  }

  ghost predicate FlightOk(env: Env, st: State, flight: Flight) {
    && flight.orderId in st.orders
    && AllValid(env.base, st.authzs, st.orders[flight.orderId].authorizations)
    && (flight.Signed? ==> IssuedFor(env, DnsNames(st.orders[flight.orderId].identifiers), flight.leaf))
  }

  ghost predicate FlightsOk(env: Env, s: System) {
    forall f :: f in s.flights ==> FlightOk(env, s.server, s.flights[f])
  }

  ghost predicate AccountsOk(env: Env, st: State) {
    forall t :: t in st.byThumb ==>
      && Jwk.Thumbprint(st.byThumb[t].key, env.sha) == Ok(t)
      && st.byThumb[t].thumbprint == t
      && st.byThumb[t].id in st.accounts && st.accounts[st.byThumb[t].id] == st.byThumb[t]
  }

  ghost predicate Inv(env: Env, s: System) {
    OrdersOk(env, s.server) && RefsResolve(s.server) && FlightsOk(env, s) && AccountsOk(env, s.server)
  }

  // ----- What never goes back -----

  function Rank(status: Status): nat {
    match status case Pending => 0 case Ready => 1 case Valid => 2
  }

  ghost predicate OrderAdvances(o: Order, o': Order) {
    o'.identifiers == o.identifiers && o'.authorizations == o.authorizations && Rank(o.status) <= Rank(o'.status)
  }

  ghost predicate AuthzsAdvance(z: map<string, Authorization>, z': map<string, Authorization>) {
    forall id :: id in z ==>
      id in z' && z'[id].identifier == z[id].identifier && Rank(z[id].status) <= Rank(z'[id].status)
  }

  ghost predicate OrdersAdvance(o: map<string, Order>, o': map<string, Order>) {
    forall id :: id in o ==> id in o' && OrderAdvances(o[id], o'[id])
  }

  ghost predicate Extends<V(!new)>(m: map<string, V>, m': map<string, V>) {
    forall k :: k in m ==> k in m' && m'[k] == m[k]
  }

  // Orders and authorizations only move forward; accounts and certificates are only added.
  ghost predicate Advances(st: State, st': State) {
    && OrdersAdvance(st.orders, st'.orders) && AuthzsAdvance(st.authzs, st'.authzs)
    && Extends(st.certificates, st'.certificates)
    && Extends(st.accounts, st'.accounts) && Extends(st.byThumb, st'.byThumb)
  }

  // One order moves forward, or a new one appears.
  lemma OneOrder(o: map<string, Order>, id: string, order: Order)
    requires id in o ==> OrderAdvances(o[id], order)
    ensures OrdersAdvance(o, o) && OrdersAdvance(o, o[id := order])
  {
  }

  lemma OneAuthz(z: map<string, Authorization>, id: string, authz: Authorization)
    requires id in z ==> authz.identifier == z[id].identifier && Rank(z[id].status) <= Rank(authz.status)
    ensures AuthzsAdvance(z, z) && AuthzsAdvance(z, z[id := authz])
  {
  }

  lemma OneMore<V(!new)>(m: map<string, V>, k: string, v: V)
    ensures Extends(m, m)
    ensures k !in m ==> Extends(m, m[k := v])
  {
  }

  lemma NothingMoves(st: State)
    ensures Advances(st, st)
  {
    forall id | id in st.orders ensures OrderAdvances(st.orders[id], st.orders[id]) {}
  }

  lemma AllValidStays(base: string, z: map<string, Authorization>, z': map<string, Authorization>, urls: seq<string>)
    requires AuthzsAdvance(z, z') && AllValid(base, z, urls)
    ensures AllValid(base, z', urls)
  {
    hide AuthzId;
  }

  lemma FlightStays(env: Env, st: State, st': State, flight: Flight)
    requires Advances(st, st') && FlightOk(env, st, flight)
    ensures FlightOk(env, st', flight)
  {
    hide AllValid, IssuedFor;
    AllValidStays(env.base, st.authzs, st'.authzs, st.orders[flight.orderId].authorizations);
  }

  // ----- Each action keeps the invariant -----

  lemma NewAccountKeeps(env: Env, st: State, key: Jwk.PublicKey, contact: seq<string>, terms: bool, only: bool,
                        id: string, now: Time)
    requires AccountsOk(env, st) && id !in st.accounts
    ensures var (st', r) := NewAccount(env, st, key, contact, terms, only, id, now);
      && AccountsOk(env, st') && Advances(st, st')
      && st'.orders == st.orders && st'.authzs == st.authzs && st'.orderOf == st.orderOf
      && st'.certificates == st.certificates && st'.challenges == st.challenges
      && (r.Ok? ==> var t := Jwk.Thumbprint(key, env.sha);
                    t.Ok? && t.value in st'.byThumb && st'.byThumb[t.value] == r.value)
  {
    hide Jwk.Thumbprint, Extends, OrdersAdvance, AuthzsAdvance, AccountsOk;
    NothingMoves(st);
    var thumb := Jwk.Thumbprint(key, env.sha);
    if thumb.Ok? && thumb.value !in st.byThumb && !only {
      var account := Account(id, key, thumb.value, contact, terms, now);
      OneMore(st.accounts, id, account);
      OneMore(st.byThumb, thumb.value, account);
      AccountAdded(env, st, account);
    }
  }

  lemma AccountAdded(env: Env, st: State, account: Account)
    requires AccountsOk(env, st) && account.id !in st.accounts
    requires Jwk.Thumbprint(account.key, env.sha) == Ok(account.thumbprint)
    ensures AccountsOk(env, st.(accounts := st.accounts[account.id := account],
                                byThumb := st.byThumb[account.thumbprint := account]))
  {
    hide Jwk.Thumbprint;
  }

  function NewIds(ids: seq<Ids>): set<string> {
    set i | 0 <= i < |ids| :: ids[i].authz
  }

  // The authorization maps after adding some authorizations to those of st.
  ghost predicate Added(st: State, out: State, orderId: string, ids: seq<Ids>) {
    && out.authzs.Keys == st.authzs.Keys + NewIds(ids)
    && Extends(st.authzs, out.authzs)
    && (forall id :: id in st.authzs && id in st.orderOf ==> id in out.orderOf && out.orderOf[id] == st.orderOf[id])
    && (forall id :: id in NewIds(ids) ==>
          id in out.authzs && out.authzs[id].status == Pending && id in out.orderOf && out.orderOf[id] == orderId)
  }

  lemma NewIdsSnoc(ids: seq<Ids>)
    requires ids != [] && forall i, j :: 0 <= i < j < |ids| ==> ids[i].authz != ids[j].authz
    ensures NewIds(ids) == NewIds(ids[..|ids| - 1]) + {ids[|ids| - 1].authz}
    ensures ids[|ids| - 1].authz !in NewIds(ids[..|ids| - 1])
  {
    var n := |ids| - 1;
    forall id | id in NewIds(ids[..n]) ensures id in NewIds(ids) {
      var i :| 0 <= i < n && ids[..n][i].authz == id;
      assert ids[i].authz == id;
    }
    forall id | id in NewIds(ids) && id != ids[n].authz ensures id in NewIds(ids[..n]) {
      var i :| 0 <= i < |ids| && ids[i].authz == id;
      assert ids[..n][i].authz == id;
    }
  }

  lemma AddedOne(env: Env, st: State, mid: State, account: string, orderId: string, ident: Identifier,
                 ids: seq<Ids>, now: Time)
    requires ids != [] && FreshIds(st, orderId, ids) && Added(st, mid, orderId, ids[..|ids| - 1]) && RefsResolve(mid)
    ensures var out := AddAuthz(env, mid, account, orderId, ident, ids[|ids| - 1], now);
      Added(st, out, orderId, ids) && RefsResolve(out)
  {
    hide ChallengeUrl, NewIds, RefsResolve;
    var last := ids[|ids| - 1];
    NewIdsSnoc(ids);
    AddedRefs(mid, AddAuthz(env, mid, account, orderId, ident, last, now), last);
  }

  lemma AddedRefs(mid: State, out: State, last: Ids)
    requires RefsResolve(mid) && last.authz !in mid.authzs && last.authz in out.authzs
    requires out.challenges == mid.challenges[last.chal := ChallengeRef(last.authz, 0)]
    requires out.authzs == mid.authzs[last.authz := out.authzs[last.authz]] && |out.authzs[last.authz].challenges| == 1
    ensures RefsResolve(out)
  {
  }

  lemma {:induction false} AddAuthzsShape(env: Env, st: State, account: string, orderId: string,
                                          idents: seq<Identifier>, ids: seq<Ids>, now: Time)
    requires |ids| == |idents| && FreshIds(st, orderId, ids) && RefsResolve(st)
    ensures var out := AddAuthzs(env, st, account, orderId, idents, ids, now);
      && out.orders == st.orders && out.certificates == st.certificates
      && out.accounts == st.accounts && out.byThumb == st.byThumb
      && RefsResolve(out) && Added(st, out, orderId, ids)
  {
    if idents != [] {
      hide RefsResolve, Added, ChallengeUrl;
      var n := |idents| - 1;
      AddAuthzsShape(env, st, account, orderId, idents[..n], ids[..n], now);
      AddedOne(env, st, AddAuthzs(env, st, account, orderId, idents[..n], ids[..n], now), account, orderId, idents[n],
               ids, now);
    }
  }

  lemma UntouchedOrder(env: Env, st: State, st': State, id: string)
    requires id in st.orders && id in st'.orders && st'.orders[id] == st.orders[id] && OrderOk(env, st, id)
    requires forall url :: url in st.orders[id].authorizations ==>
      && Owned(env.base, st', id, url)
      && st'.authzs[AuthzId(env.base, url)].status == st.authzs[AuthzId(env.base, url)].status
    requires Extends(st.certificates, st'.certificates)
    ensures OrderOk(env, st', id)
  {
    hide AuthzId, CertId, CertUrl, IssuedFor, DnsNames;
  }

  lemma NewOrderKeeps(env: Env, st: State, kid: string, idents: seq<Identifier>, orderId: string, ids: seq<Ids>, now: Time)
    requires |ids| == |idents| && FreshIds(st, orderId, ids) && RefsResolve(st) && OrdersOk(env, st)
    ensures var st' := NewOrder(env, st, kid, idents, orderId, ids, now).0;
      OrdersOk(env, st') && RefsResolve(st') && Advances(st, st') && st'.byThumb == st.byThumb && st'.accounts == st.accounts
  {
    hide AuthzUrls, AddAuthzs, AccountOf, FinalizeUrl, OrdersOk, OrdersAdvance, AuthzsAdvance, Extends, Added;
    NothingMoves(st);
    if idents != [] {
      AddAuthzsShape(env, st, AccountOf(env.base, kid), orderId, idents, ids, now);
      var added := AddAuthzs(env, st, AccountOf(env.base, kid), orderId, idents, ids, now);
      var order := NewOrder(env, st, kid, idents, orderId, ids, now).1.value;
      AddedAdvances(st, added, orderId, ids);
      OneOrder(st.orders, orderId, order);
      OrderAdded(env, st, added, orderId, ids, order);
    }
  }

  lemma AddedAdvances(st: State, out: State, orderId: string, ids: seq<Ids>)
    requires Added(st, out, orderId, ids)
    ensures AuthzsAdvance(st.authzs, out.authzs)
  {
    hide NewIds;
  }

  lemma NewIdsContains(ids: seq<Ids>, i: nat)
    requires i < |ids|
    ensures ids[i].authz in NewIds(ids)
  {
  }

  lemma OrderAdded(env: Env, st: State, added: State, orderId: string, ids: seq<Ids>, order: Order)
    requires FreshIds(st, orderId, ids) && OrdersOk(env, st) && Added(st, added, orderId, ids) && ids != []
    requires added.orders == st.orders && added.certificates == st.certificates
    requires order.status == Pending && order.authorizations == AuthzUrls(env.base, ids)
    ensures OrdersOk(env, added.(orders := added.orders[orderId := order]))
  {
    hide AuthzId, AuthzUrl, Certified, NewIds;
    var st' := added.(orders := added.orders[orderId := order]);
    forall id | id in st.orders ensures OrderOk(env, st', id) {
      assert OrderOk(env, st, id);
      UntouchedOrder(env, st, st', id);
    }
    forall i | 0 <= i < |ids| ensures AuthzId(env.base, AuthzUrl(env.base, ids[i].authz)) in NewIds(ids) {
      UrlsInvert(env.base, ids[i].authz);
      NewIdsContains(ids, i);
    }
    var urls := order.authorizations;
    assert urls[0] in urls && !AllValid(env.base, st'.authzs, urls);
    assert OrderOk(env, st', orderId);
  }

  // When the order is pending exactly while an authorization is missing, looking again changes nothing.
  lemma ReevaluateIdle(env: Env, st: State, id: string)
    requires OrdersOk(env, st)
    ensures Reevaluate(env.base, st, id) == st
  {
  }

  lemma ReevaluateOwner(env: Env, st: State, id: string)
    requires id in st.orders
    requires forall url :: url in st.orders[id].authorizations ==> Owned(env.base, st, id, url)
    requires AllValid(env.base, st.authzs, st.orders[id].authorizations) || st.orders[id].status == Pending
    requires st.orders[id].status == Valid ==> Certified(env, st.certificates, st.orders[id])
    ensures OrderOk(env, Reevaluate(env.base, st, id), id)
  {
    hide AuthzId, Certified;
  }

  lemma ChallengeKeeps(env: Env, st: State, id: string, post: bool, now: Time)
    requires RefsResolve(st) && OrdersOk(env, st)
    ensures var st' := HandleChallenge(env, st, id, post, now).0;
      OrdersOk(env, st') && RefsResolve(st') && Advances(st, st') && st'.byThumb == st.byThumb && st'.accounts == st.accounts
  {
    hide AuthzId, OrdersOk, OrdersAdvance, AuthzsAdvance, Extends;
    NothingMoves(st);
    var st' := HandleChallenge(env, st, id, post, now).0;
    if st' != st {
      var ref := st.challenges[id];
      var authz := MarkValid(st.authzs[ref.authzId], ref.index, now);
      var marked := st.(authzs := st.authzs[ref.authzId := authz]);
      MarkedOrders(env, st, marked, ref.authzId, now, ref.index);
      OneAuthz(st.authzs, ref.authzId, authz);
      if ref.authzId in st.orderOf { ReevaluateAdvances(env.base, marked, st.orderOf[ref.authzId]); }
    }
  }

  lemma ReevaluateAdvances(base: string, st: State, id: string)
    ensures var st' := Reevaluate(base, st, id);
      OrdersAdvance(st.orders, st'.orders) && st' == st.(orders := st'.orders)
  {
    if id in st.orders && st.orders[id].status == Pending {
      OneOrder(st.orders, id, st.orders[id].(status := Ready));
    }
    NothingMoves(st);
  }

  // One authorization becomes valid: only the order that owns it has to be looked at again.
  lemma MarkedOrders(env: Env, st: State, marked: State, authzId: string, now: Time, index: nat)
    requires OrdersOk(env, st) && authzId in st.authzs && index < |st.authzs[authzId].challenges|
    requires marked == st.(authzs := st.authzs[authzId := MarkValid(st.authzs[authzId], index, now)])
    ensures OrdersOk(env, if authzId in st.orderOf then Reevaluate(env.base, marked, st.orderOf[authzId]) else marked)
  {
    hide AuthzId, Certified;
    var owner := if authzId in st.orderOf then Some(st.orderOf[authzId]) else None;
    var st' := if owner.Some? then Reevaluate(env.base, marked, owner.value) else marked;
    assert AuthzsAdvance(st.authzs, marked.authzs);
    forall id | id in st'.orders ensures OrderOk(env, st', id) {
      var urls := st.orders[id].authorizations;
      assert OrderOk(env, st, id);
      if owner == Some(id) {
        if AllValid(env.base, st.authzs, urls) { AllValidStays(env.base, st.authzs, marked.authzs, urls); }
        ReevaluateOwner(env, marked, id);
      } else {
        UntouchedOrder(env, st, st', id);
      }
    }
  }

  lemma CommitKeeps(env: Env, st: State, id: string, serial: nat, certId: string, leaf: Leaf)
    requires OrdersOk(env, st) && RefsResolve(st) && FlightOk(env, st, Signed(id, serial, leaf)) && certId !in st.certificates
    ensures var st' := FinalizeCommit(env, st, id, certId, leaf);
      OrdersOk(env, st') && RefsResolve(st') && Advances(st, st') && st'.byThumb == st.byThumb && st'.accounts == st.accounts
  {
    hide AuthzId, CertId, CertUrl, IssuedFor, DnsNames, OrdersAdvance, AuthzsAdvance, Extends;
    NothingMoves(st);
    var st' := FinalizeCommit(env, st, id, certId, leaf);
    UrlsInvert(env.base, certId);
    OneMore(st.certificates, certId, leaf);
    OneOrder(st.orders, id, st'.orders[id]);
    assert st'.certificates[certId] == leaf;
    assert Certified(env, st'.certificates, st'.orders[id]);
    forall o | o in st'.orders ensures OrderOk(env, st', o) {
      assert OrderOk(env, st, o);
      if o != id { UntouchedOrder(env, st, st', o); }
    }
  }

  // What the authority signs for an order is issued for the names of the order.
  lemma SignedIsIssuedFor(env: Env, idents: seq<Identifier>, csr: Option<Issuance.Csr>, serial: nat, t1: Time, t2: Time)
    requires SignLeaf(env, idents, csr, serial, t1, t2).Some?
    ensures IssuedFor(env, DnsNames(idents), SignLeaf(env, idents, csr, serial, t1, t2).value)
  {
    Issuance.AdmissibleIff(env.authority, SigningRequest(idents, csr, serial));
  }

  lemma ServerKeeps(env: Env, s: System, a: Action, s': System)
    requires Inv(env, s) && Step(env, s, a, s')
    ensures Advances(s.server, s'.server)
    ensures OrdersOk(env, s'.server) && RefsResolve(s'.server) && AccountsOk(env, s'.server)
  {
    hide OrdersOk, AccountsOk, RefsResolve, FlightOk, NewAccount, NewOrder, HandleChallenge, SignLeaf, FinalizeCommit;
    var st := s.server;
    match a
    case CallNewAccount(key, contact, terms, only, id, now) =>
      NewAccountKeeps(env, st, key, contact, terms, only, id, now);
      SameOrders(env, st, s'.server);
    case CallNewOrder(kid, idents, orderId, ids, now) =>
      NewOrderKeeps(env, st, kid, idents, orderId, ids, now);
      SameAccounts(env, st, s'.server);
    case CallGetOrder(orderId) =>
      ReevaluateIdle(env, st, orderId);
    case CallChallenge(chalId, post, now) =>
      ChallengeKeeps(env, st, chalId, post, now);
      SameAccounts(env, st, s'.server);
    case Commit(f, certId) =>
      CommitKeeps(env, st, s.flights[f].orderId, s.flights[f].serial, certId, s.flights[f].leaf);
      SameAccounts(env, st, s'.server);
    case _ =>
  }

  lemma SameOrders(env: Env, st: State, st': State)
    requires st'.orders == st.orders && st'.authzs == st.authzs && st'.orderOf == st.orderOf
    requires st'.certificates == st.certificates && st'.challenges == st.challenges
    requires OrdersOk(env, st) && RefsResolve(st)
    ensures OrdersOk(env, st') && RefsResolve(st')
  {
    hide AllValid, Certified, AuthzId;
    forall id | id in st'.orders ensures OrderOk(env, st', id) {
      assert OrderOk(env, st, id);
    }
  }

  lemma SameAccounts(env: Env, st: State, st': State)
    requires AccountsOk(env, st) && st'.byThumb == st.byThumb && st'.accounts == st.accounts
    ensures AccountsOk(env, st')
  {
    hide Jwk.Thumbprint;
  }

  lemma FlightsKeep(env: Env, s: System, a: Action, s': System)
    requires Inv(env, s) && Step(env, s, a, s') && Advances(s.server, s'.server)
    ensures FlightsOk(env, s')
  {
    hide NewAccount, NewOrder, HandleChallenge, GetOrder, SignLeaf, FinalizeCommit, Advances, AllValid, IssuedFor, DnsNames;
    forall f | f in s'.flights ensures FlightOk(env, s'.server, s'.flights[f]) {
      if f in s.flights && s'.flights[f] == s.flights[f] {
        FlightStays(env, s.server, s'.server, s.flights[f]);
      } else if a.Sign? {
        SignedIsIssuedFor(env, s.server.orders[s.flights[f].orderId].identifiers, a.csr, a.serial, a.t1, a.t2);
      }
    }
  }

  lemma StepKeepsInv(env: Env, s: System, a: Action, s': System)
    requires Inv(env, s) && Step(env, s, a, s')
    ensures Inv(env, s') && Advances(s.server, s'.server)
  {
    hide Step, Advances, OrdersOk, RefsResolve, FlightsOk, AccountsOk;
    ServerKeeps(env, s, a, s');
    FlightsKeep(env, s, a, s');
  }

  // ----- What each handler answers and files -----

  // What one identifier of a new order brings: its authorization with one challenge, the way from the challenge to it,
  // and the way from it to the order.
  ghost predicate FiledFor(base: string, st: State, account: string, orderId: string, ident: Identifier, ids: Ids,
                           now: Time) {
    && ids.authz in st.authzs
    && st.authzs[ids.authz] == Authorization(ids.authz, account, Pending, ident,
                                             [Challenge(base + "/acme/challenge/" + ids.chal, ids.token, Pending, ZERO_TIME)],
                                             now + 86400)
    && ids.chal in st.challenges && st.challenges[ids.chal] == ChallengeRef(ids.authz, 0)
    && ids.authz in st.orderOf && st.orderOf[ids.authz] == orderId
  }

  lemma FiledOne(env: Env, st: State, account: string, orderId: string, ident: Identifier, ids: Ids, now: Time)
    ensures FiledFor(env.base, AddAuthz(env, st, account, orderId, ident, ids, now), account, orderId, ident, ids, now)
  {
  }

  lemma FiledStays(env: Env, st: State, account: string, orderId: string, ident: Identifier, ids: Ids, now: Time,
                   ident': Identifier, ids': Ids)
    requires FiledFor(env.base, st, account, orderId, ident, ids, now) && ids.authz != ids'.authz && ids.chal != ids'.chal
    ensures FiledFor(env.base, AddAuthz(env, st, account, orderId, ident', ids', now), account, orderId, ident, ids, now)
  {
  }

  lemma {:induction false} AuthzsFiled(env: Env, st: State, account: string, orderId: string, idents: seq<Identifier>,
                                       ids: seq<Ids>, now: Time, i: nat)
    requires |ids| == |idents| && i < |ids|
    requires forall k, m :: 0 <= k < m < |ids| ==> ids[k].authz != ids[m].authz && ids[k].chal != ids[m].chal
    ensures FiledFor(env.base, AddAuthzs(env, st, account, orderId, idents, ids, now), account, orderId, idents[i], ids[i], now)
  {
    hide FiledFor, AddAuthz;
    var n := |idents| - 1;
    var before := AddAuthzs(env, st, account, orderId, idents[..n], ids[..n], now);
    if i < n {
      AuthzsFiled(env, st, account, orderId, idents[..n], ids[..n], now, i);
      FiledStays(env, before, account, orderId, idents[i], ids[i], now, idents[n], ids[n]);
    } else {
      FiledOne(env, before, account, orderId, idents[n], ids[n], now);
    }
  }

  // newOrder answers with, and files, a pending order whose identifiers are the request's, in order, each with its own
  // authorization; it is refused exactly when it names none, and then changes nothing.
  lemma NewOrderAnswers(env: Env, st: State, kid: string, idents: seq<Identifier>, orderId: string, ids: seq<Ids>, now: Time)
    requires |ids| == |idents| && FreshIds(st, orderId, ids)
    ensures var (st', r) := NewOrder(env, st, kid, idents, orderId, ids, now);
      && (idents == [] ==> st' == st && r == Err(Malformed))
      && (idents != [] ==>
           && r.Ok? && orderId in st'.orders && st'.orders[orderId] == r.value
           && r.value.id == orderId && r.value.status == Pending && r.value.identifiers == idents
           && r.value.accountId == TrimPrefix(kid, env.base + "/acme/acct/")
           && r.value.finalizeUrl == env.base + "/acme/order/" + orderId + "/finalize"
           && r.value.certificateUrl == "" && r.value.expires == now + 86400
           && |r.value.authorizations| == |idents|
           && (forall i :: 0 <= i < |ids| ==> r.value.authorizations[i] == env.base + "/acme/authz/" + ids[i].authz)
           && forall i :: 0 <= i < |ids| ==>
                FiledFor(env.base, st', r.value.accountId, orderId, idents[i], ids[i], now))
  {
    if idents != [] {
      hide FiledFor, AddAuthzs;
      var account := TrimPrefix(kid, env.base + "/acme/acct/");
      var added := AddAuthzs(env, st, account, orderId, idents, ids, now);
      var st' := NewOrder(env, st, kid, idents, orderId, ids, now).0;
      forall i | 0 <= i < |ids| ensures FiledFor(env.base, st', account, orderId, idents[i], ids[i], now) {
        AuthzsFiled(env, st, account, orderId, idents, ids, now, i);
        FiledInOrder(env.base, added, st', account, orderId, idents[i], ids[i], now);
      }
    }
  }

  lemma FiledInOrder(base: string, st: State, st': State, account: string, orderId: string, ident: Identifier, ids: Ids, now: Time)
    requires FiledFor(base, st, account, orderId, ident, ids, now) && st' == st.(orders := st'.orders)
    ensures FiledFor(base, st', account, orderId, ident, ids, now)
  {
  }

  // newAccount: an account the key has is returned; else onlyReturnExisting is refused; else an account with just this
  // contact and consent is made, under both of its keys.
  lemma NewAccountAnswers(env: Env, st: State, key: Jwk.PublicKey, contact: seq<string>, terms: bool, only: bool,
                          id: string, now: Time)
    ensures var (st', r) := NewAccount(env, st, key, contact, terms, only, id, now);
            var t := Jwk.Thumbprint(key, env.sha);
      && (t.Err? ==> st' == st && r == Err(ServerInternal))
      && (t.Ok? && t.value in st.byThumb ==> st' == st && r == Ok(st.byThumb[t.value]))
      && (t.Ok? && t.value !in st.byThumb && only ==> st' == st && r == Err(AccountDoesNotExist))
      && (t.Ok? && t.value !in st.byThumb && !only ==>
           && r.Ok? && r.value.id == id && r.value.key == key && r.value.thumbprint == t.value
           && r.value.contact == contact && r.value.termsAgreed == terms && r.value.createdAt == now
           && id in st'.accounts && st'.accounts[id] == r.value
           && t.value in st'.byThumb && st'.byThumb[t.value] == r.value
           && st'.orders == st.orders && st'.authzs == st.authzs && st'.certificates == st.certificates)
  {
    hide Jwk.Thumbprint;
  }

  // A challenge request answers with the challenge as it now stands; only a POST, and only when validation is skipped or
  // the challenge was pending, validates it, at the time of the request.
  lemma ChallengeAnswers(env: Env, st: State, id: string, post: bool, now: Time)
    requires RefsResolve(st)
    ensures var (st', r) := HandleChallenge(env, st, id, post, now);
      && (id !in st.challenges ==> st' == st && r == Err(Malformed))
      && (id in st.challenges ==>
           var ref := st.challenges[id];
           var before := st.authzs[ref.authzId].challenges[ref.index];
           && r.Ok? && r.value.url == before.url && r.value.token == before.token
           && ref.authzId in st'.authzs && ref.index < |st'.authzs[ref.authzId].challenges|
           && st'.authzs[ref.authzId].challenges[ref.index] == r.value
           && (if post && (env.skip || before.status == Pending)
               then r.value.status == Valid && r.value.validated == now && st'.authzs[ref.authzId].status == Valid
               else r.value == before && st' == st))
  {
    hide AllValid;
  }

  // ----- The authorizations of an order are for its identifiers -----

  ghost predicate MatchedOrder(base: string, st: State, order: Order) {
    && |order.authorizations| == |order.identifiers|
    && forall i :: 0 <= i < |order.authorizations| ==>
         && AuthzId(base, order.authorizations[i]) in st.authzs
         && st.authzs[AuthzId(base, order.authorizations[i])].identifier == order.identifiers[i]
  }

  ghost predicate Matched(base: string, st: State) {
    forall id :: id in st.orders ==> MatchedOrder(base, st, st.orders[id])
  }

  lemma MatchStays(base: string, st: State, st': State, order: Order, order': Order)
    requires MatchedOrder(base, st, order) && AuthzsAdvance(st.authzs, st'.authzs) && OrderAdvances(order, order')
    ensures MatchedOrder(base, st', order')
  {
    hide AuthzId;
  }

  lemma NewOrderMatches(env: Env, st: State, kid: string, idents: seq<Identifier>, orderId: string, ids: seq<Ids>, now: Time)
    requires |ids| == |idents| && FreshIds(st, orderId, ids) && idents != []
    ensures var (st', r) := NewOrder(env, st, kid, idents, orderId, ids, now);
      r.Ok? && MatchedOrder(env.base, st', r.value) && st'.orders == st.orders[orderId := r.value]
  {
    NewOrderAnswers(env, st, kid, idents, orderId, ids, now);
    AddAuthzsOrders(env, st, AccountOf(env.base, kid), orderId, idents, ids, now);
    hide AddAuthzs, AuthzId;
    var st' := NewOrder(env, st, kid, idents, orderId, ids, now).0;
    forall i | 0 <= i < |ids|
      ensures AuthzId(env.base, st'.orders[orderId].authorizations[i]) == ids[i].authz
      ensures ids[i].authz in st'.authzs && st'.authzs[ids[i].authz].identifier == idents[i]
    {
      UrlsInvert(env.base, ids[i].authz);
      assert FiledFor(env.base, st', st'.orders[orderId].accountId, orderId, idents[i], ids[i], now);
    }
  }

  lemma {:induction false} AddAuthzsOrders(env: Env, st: State, account: string, orderId: string, idents: seq<Identifier>,
                                           ids: seq<Ids>, now: Time)
    requires |ids| == |idents|
    ensures AddAuthzs(env, st, account, orderId, idents, ids, now).orders == st.orders
  {
    if idents != [] {
      var n := |idents| - 1;
      AddAuthzsOrders(env, st, account, orderId, idents[..n], ids[..n], now);
    }
  }

  // Only newOrder makes orders.
  lemma NoOtherOrders(env: Env, s: System, a: Action, s': System)
    requires Step(env, s, a, s') && !(a.CallNewOrder? && a.idents != [])
    ensures s'.server.orders.Keys == s.server.orders.Keys
  {
    hide AllValid, SignLeaf, Jwk.Thumbprint, RefsResolve, AddAuthzs;
  }

  lemma StepKeepsMatched(env: Env, s: System, a: Action, s': System)
    requires Step(env, s, a, s') && Matched(env.base, s.server) && Advances(s.server, s'.server)
    ensures Matched(env.base, s'.server)
  {
    var st, st' := s.server, s'.server;
    if a.CallNewOrder? && a.idents != [] {
      NewOrderMatches(env, st, a.kid, a.idents, a.orderId, a.ids, a.now);
      hide NewOrder, MatchedOrder, AuthzsAdvance, Extends;
      forall id | id in st'.orders ensures MatchedOrder(env.base, st', st'.orders[id]) {
        if id != a.orderId { MatchStays(env.base, st, st', st.orders[id], st'.orders[id]); }
      }
    } else {
      NoOtherOrders(env, s, a, s');
      hide Step, MatchedOrder, AuthzsAdvance, Extends;
      forall id | id in st'.orders ensures MatchedOrder(env.base, st', st'.orders[id]) {
        MatchStays(env.base, st, st', st.orders[id], st'.orders[id]);
      }
    }
  }

  // ----- Whole runs -----

  ghost predicate Run(env: Env, states: seq<System>, actions: seq<Action>) {
    && |states| == |actions| + 1
    && states[0] == System(EMPTY, map[])
    && forall i :: 0 <= i < |actions| ==> Step(env, states[i], actions[i], states[i + 1])
  }

  lemma {:induction false} Reachable(env: Env, states: seq<System>, actions: seq<Action>, i: nat)
    requires Run(env, states, actions) && i < |states|
    ensures Inv(env, states[i])
  {
    if i > 0 {
      Reachable(env, states, actions, i - 1);
      StepKeepsInv(env, states[i - 1], actions[i - 1], states[i]);
    }
  }

  lemma AdvancesTransitive(a: State, b: State, c: State)
    requires Advances(a, b) && Advances(b, c)
    ensures Advances(a, c)
  {
    hide Rank;
    forall id | id in a.orders ensures id in c.orders && OrderAdvances(a.orders[id], c.orders[id]) {
      assert OrderAdvances(a.orders[id], b.orders[id]) && OrderAdvances(b.orders[id], c.orders[id]);
    }
  }

  // Section 7.1.6 of RFC 8555: over any part of any run, statuses only move pending, ready, valid; the identifiers and
  // authorizations of an order never change; accounts and certificates are never replaced.
  lemma {:induction false} StatusesAdvance(env: Env, states: seq<System>, actions: seq<Action>, i: nat, j: nat)
    requires Run(env, states, actions) && i <= j < |states|
    ensures Advances(states[i].server, states[j].server)
  {
    hide Step, Inv;
    if i < j {
      StatusesAdvance(env, states, actions, i, j - 1);
      Reachable(env, states, actions, j - 1);
      StepKeepsInv(env, states[j - 1], actions[j - 1], states[j]);
      AdvancesTransitive(states[i].server, states[j - 1].server, states[j].server);
    }
  }

  // In every reachable state each order has one authorization for each identifier, in order and for that identifier; by
  // StatusesAdvance neither ever changes.
  lemma AuthorizationsMatch(env: Env, states: seq<System>, actions: seq<Action>, i: nat)
    requires Run(env, states, actions) && i < |states|
    ensures forall id :: id in states[i].server.orders ==>
      var st := states[i].server; var order := st.orders[id];
      && |order.authorizations| == |order.identifiers|
      && forall k :: 0 <= k < |order.authorizations| ==>
           && AuthzId(env.base, order.authorizations[k]) in st.authzs
           && st.authzs[AuthzId(env.base, order.authorizations[k])].identifier == order.identifiers[k]
  {
    RunMatched(env, states, actions, i);
    hide AuthzId;
  }

  lemma {:induction false} RunMatched(env: Env, states: seq<System>, actions: seq<Action>, i: nat)
    requires Run(env, states, actions) && i < |states|
    ensures Matched(env.base, states[i].server)
  {
    if i > 0 {
      hide Step, Matched, Inv, Advances;
      RunMatched(env, states, actions, i - 1);
      Reachable(env, states, actions, i - 1);
      StepKeepsInv(env, states[i - 1], actions[i - 1], states[i]);
      StepKeepsMatched(env, states[i - 1], actions[i - 1], states[i]);
    }
  }

  // In every reachable state an order is pending exactly when one of its authorizations is not valid.
  lemma PendingIff(env: Env, states: seq<System>, actions: seq<Action>, i: nat, id: string)
    requires Run(env, states, actions) && i < |states| && id in states[i].server.orders
    ensures var st := states[i].server; var order := st.orders[id];
      order.status == Pending <==>
      exists url :: url in order.authorizations
        && !(AuthzId(env.base, url) in st.authzs && st.authzs[AuthzId(env.base, url)].status == Valid)
  {
    Reachable(env, states, actions, i);
    assert OrderOk(env, states[i].server, id);
  }

  // The re-evaluation on fetching an order never changes anything.
  lemma FetchChangesNothing(env: Env, states: seq<System>, actions: seq<Action>, i: nat, id: string)
    requires Run(env, states, actions) && i < |states|
    ensures var st := states[i].server;
      GetOrder(env, st, id) == (st, if id in st.orders then Ok(st.orders[id]) else Err(Malformed))
  {
    Reachable(env, states, actions, i);
    ReevaluateIdle(env, states[i].server, id);
  }

  // A finalize that has been checked can always commit: the window without the lock invalidates nothing it relied on.
  lemma WindowIsSafe(env: Env, states: seq<System>, actions: seq<Action>, i: nat, f: nat)
    requires Run(env, states, actions) && i < |states| && f in states[i].flights
    ensures FinalizeCheck(env, states[i].server, states[i].flights[f].orderId).None?
  {
    hide AllValid;
    Reachable(env, states, actions, i);
    assert FlightOk(env, states[i].server, states[i].flights[f]);
  }

  // Section 7.4 of RFC 8555 finalizes only orders that are ready. The code finalizes exactly those that are not pending,
  // a valid one again; that commit replaces the certificate URL, and keeps the first certificate.
  lemma FinalizesUnlessPending(env: Env, states: seq<System>, actions: seq<Action>, i: nat, id: string, certId: string,
                               leaf: Leaf)
    requires Run(env, states, actions) && i < |states| && id in states[i].server.orders
    ensures var st := states[i].server;
      && (FinalizeCheck(env, st, id).None? <==> st.orders[id].status != Pending)
      && (st.orders[id].status == Valid && certId !in st.certificates ==>
           var st' := FinalizeCommit(env, st, id, certId, leaf);
           && st'.orders[id].certificateUrl != st.orders[id].certificateUrl
           && CertId(env.base, st.orders[id].certificateUrl) in st'.certificates)
  {
    hide AllValid, IssuedFor;
    Reachable(env, states, actions, i);
    assert OrderOk(env, states[i].server, id);
    UrlsInvert(env.base, certId);
  }

  // ----- Challenges -----

  // An authorization has one challenge, and their statuses move together, from pending to valid.
  ghost predicate Tracked(authz: Authorization) {
    |authz.challenges| == 1 && authz.challenges[0].status == authz.status && authz.status != Ready
  }

  ghost predicate Tracks(z: map<string, Authorization>) {
    forall id :: id in z ==> Tracked(z[id])
  }

  lemma {:induction false} AddAuthzsTracks(env: Env, st: State, account: string, orderId: string,
                                           idents: seq<Identifier>, ids: seq<Ids>, now: Time)
    requires |ids| == |idents| && Tracks(st.authzs)
    ensures Tracks(AddAuthzs(env, st, account, orderId, idents, ids, now).authzs)
  {
    if idents != [] {
      var n := |idents| - 1;
      AddAuthzsTracks(env, st, account, orderId, idents[..n], ids[..n], now);
    }
  }

  lemma ChallengeTracks(env: Env, st: State, id: string, post: bool, now: Time)
    requires RefsResolve(st) && Tracks(st.authzs)
    ensures Tracks(HandleChallenge(env, st, id, post, now).0.authzs)
  {
    hide AllValid;
  }

  lemma StepTracks(env: Env, s: System, a: Action, s': System)
    requires Tracks(s.server.authzs) && Step(env, s, a, s')
    ensures Tracks(s'.server.authzs)
  {
    hide AddAuthzs, AuthzUrls, AllValid, SignLeaf, HandleChallenge, Tracks, RefsResolve, Jwk.Thumbprint;
    if a.CallNewOrder? {
      AddAuthzsTracks(env, s.server, AccountOf(env.base, a.kid), a.orderId, a.idents, a.ids, a.now);
    } else if a.CallChallenge? {
      ChallengeTracks(env, s.server, a.chalId, a.post, a.now);
    }
  }

  lemma {:induction false} RunTracks(env: Env, states: seq<System>, actions: seq<Action>, i: nat)
    requires Run(env, states, actions) && i < |states|
    ensures Tracks(states[i].server.authzs)
  {
    if i > 0 {
      hide Step, Tracks;
      RunTracks(env, states, actions, i - 1);
      StepTracks(env, states[i - 1], actions[i - 1], states[i]);
    }
  }

  // The step is a POST to a challenge of the authorization.
  predicate PostsTo(s: System, a: Action, authzId: string) {
    a.CallChallenge? && a.post && a.chalId in s.server.challenges && s.server.challenges[a.chalId].authzId == authzId
  }

  lemma PostMarks(env: Env, st: State, id: string, now: Time)
    requires RefsResolve(st) && Tracks(st.authzs) && id in st.challenges
    ensures IsValid(HandleChallenge(env, st, id, true, now).0, st.challenges[id].authzId)
  {
    hide AllValid;
    assert Tracked(st.authzs[st.challenges[id].authzId]);
  }

  // After a POST to a known challenge, at any point of a run, its authorization is valid, whether or not it was before.
  lemma PostValidates(env: Env, states: seq<System>, actions: seq<Action>, i: nat, authzId: string)
    requires Run(env, states, actions) && i < |actions| && PostsTo(states[i], actions[i], authzId)
    ensures IsValid(states[i + 1].server, authzId)
  {
    hide HandleChallenge, IsValid, Tracks, RefsResolve;
    RunTracks(env, states, actions, i);
    ServerRefs(env, states, actions, i);
    PostMarks(env, states[i].server, actions[i].chalId, actions[i].now);
  }

  lemma ServerRefs(env: Env, states: seq<System>, actions: seq<Action>, i: nat)
    requires Run(env, states, actions) && i < |states|
    ensures RefsResolve(states[i].server)
  {
    Reachable(env, states, actions, i);
  }

  ghost predicate IsValid(st: State, authzId: string) {
    authzId in st.authzs && st.authzs[authzId].status == Valid
  }

  // No other step makes an authorization valid.
  lemma OnlyPostValidates(env: Env, s: System, a: Action, s': System, authzId: string)
    requires Step(env, s, a, s') && IsValid(s'.server, authzId) && RefsResolve(s.server)
    ensures IsValid(s.server, authzId) || PostsTo(s, a, authzId)
  {
    hide AuthzUrls, AllValid, SignLeaf, Jwk.Thumbprint, AddAuthzs;
    if a.CallNewOrder? {
      AddAuthzsShape(env, s.server, AccountOf(env.base, a.kid), a.orderId, a.idents, a.ids, a.now);
    }
  }

  lemma {:induction false} ValidOnlyAfterPost(env: Env, states: seq<System>, actions: seq<Action>, i: nat,
                                              authzId: string) returns (k: nat)
    requires Run(env, states, actions) && i < |states| && IsValid(states[i].server, authzId)
    ensures k < i && PostsTo(states[k], actions[k], authzId)
  {
    hide Step, RefsResolve;
    ServerRefs(env, states, actions, if i > 0 then i - 1 else 0);
    OnlyPostValidates(env, states[i - 1], actions[i - 1], states[i], authzId);
    k := i - 1;
    if !PostsTo(states[k], actions[k], authzId) {
      k := ValidOnlyAfterPost(env, states, actions, i - 1, authzId);
    }
  }

  // No order is ready or valid, and no certificate is signed for it, before each of its authorizations has had its
  // challenge answered by a POST.
  lemma NotPendingOnlyAfterPosts(env: Env, states: seq<System>, actions: seq<Action>, i: nat, id: string, url: string)
    returns (k: nat)
    requires Run(env, states, actions) && i < |states|
    requires id in states[i].server.orders && states[i].server.orders[id].status != Pending
    requires url in states[i].server.orders[id].authorizations
    ensures k < i && PostsTo(states[k], actions[k], AuthzId(env.base, url))
  {
    hide AuthzId, Certified;
    Reachable(env, states, actions, i);
    assert OrderOk(env, states[i].server, id);
    k := ValidOnlyAfterPost(env, states, actions, i, AuthzId(env.base, url));
  }

  // ----- What a valid order vouches for -----

  // The names an order asks for: the values of its identifiers of kind "dns", in order.
  lemma DnsNamesLaw(idents: seq<Identifier>, ident: Identifier)
    ensures DnsNames([]) == []
    ensures DnsNames(idents + [ident]) == DnsNames(idents) + if ident.kind == "dns" then [ident.value] else []
  {
    assert (idents + [ident])[..|idents|] == idents;
  }

  lemma {:induction false} NameOfIdentifier(idents: seq<Identifier>, name: string) returns (k: nat)
    requires name in DnsNames(idents)
    ensures k < |idents| && idents[k] == Identifier("dns", name)
  {
    var n := |idents| - 1;
    if idents[n] == Identifier("dns", name) {
      k := n;
    } else {
      k := NameOfIdentifier(idents[..n], name);
    }
  }

  // The name is that of an identifier of the order whose authorization is valid, is for that identifier, and had its
  // challenge answered by a POST before moment j of the run.
  ghost predicate Vouched(env: Env, states: seq<System>, actions: seq<Action>, j: nat, order: Order, name: string)
    requires j < |states| == |actions| + 1
  {
    exists k: nat, p: nat ::
      && k < |order.identifiers| && k < |order.authorizations| && order.identifiers[k] == Identifier("dns", name)
      && IsValid(states[j].server, AuthzId(env.base, order.authorizations[k]))
      && states[j].server.authzs[AuthzId(env.base, order.authorizations[k])].identifier == order.identifiers[k]
      && p < j && PostsTo(states[p], actions[p], AuthzId(env.base, order.authorizations[k]))
  }

  lemma NameIsVouched(env: Env, states: seq<System>, actions: seq<Action>, j: nat, id: string, name: string)
    requires Run(env, states, actions) && j < |states|
    requires id in states[j].server.orders && states[j].server.orders[id].status == Valid
    requires name in DnsNames(states[j].server.orders[id].identifiers)
    ensures Vouched(env, states, actions, j, states[j].server.orders[id], name)
  {
    var st := states[j].server;
    var order := st.orders[id];
    hide AuthzId, Certified, DnsNames, PostsTo, Step;
    var k := NameOfIdentifier(order.identifiers, name);
    AuthorizationsMatch(env, states, actions, j);
    Reachable(env, states, actions, j);
    assert OrderOk(env, st, id);
    assert order.authorizations[k] in order.authorizations;
    var p := ValidOnlyAfterPost(env, states, actions, j, AuthzId(env.base, order.authorizations[k]));
  }

  // An order valid at some moment of a run has, at that and every later moment, all its authorizations valid and a
  // certificate URL that names a stored certificate for exactly its DNS names, when it has any; and each of those is
  // vouched for.
  lemma ValidOrderIsCertified(env: Env, states: seq<System>, actions: seq<Action>, i: nat, j: nat, id: string)
    requires Run(env, states, actions) && i <= j < |states|
    requires id in states[i].server.orders && states[i].server.orders[id].status == Valid
    ensures id in states[j].server.orders
    ensures var st := states[j].server; var order := st.orders[id];
      && order.status == Valid && order.identifiers == states[i].server.orders[id].identifiers
      && AllValid(env.base, st.authzs, order.authorizations)
      && Certified(env, st.certificates, order)
      && (DnsNames(order.identifiers) != [] ==>
           forall name :: name in st.certificates[CertId(env.base, order.certificateUrl)].template.dnsNames ==>
             Vouched(env, states, actions, j, order, name))
  {
    StatusesAdvance(env, states, actions, i, j);
    Reachable(env, states, actions, j);
    assert OrderAdvances(states[i].server.orders[id], states[j].server.orders[id]);
    assert OrderOk(env, states[j].server, id);
    var st := states[j].server;
    var order := st.orders[id];
    hide AllValid, AuthzId, Vouched, DnsNames, Step;
    if DnsNames(order.identifiers) != [] {
      forall name | name in DnsNames(order.identifiers) ensures Vouched(env, states, actions, j, order, name) {
        NameIsVouched(env, states, actions, j, id, name);
      }
    }
  }

  // ----- Serials -----

  // The serials reserved for the requests that came to be signed, in that order.
  function SerialsUsed(actions: seq<Action>): seq<nat> {
    if actions == [] then []
    else
      var n := |actions| - 1;
      SerialsUsed(actions[..n]) + if actions[n].Sign? then [actions[n].serial] else []
  }

  // Signed and stored certificates carry the serials used, each its own.
  ghost predicate SerialsOk(s: System, used: seq<nat>) {
    && (forall f :: f in s.flights && s.flights[f].Signed? ==>
          s.flights[f].leaf.template.serial == Some(s.flights[f].serial) && s.flights[f].serial in used)
    && (forall c :: c in s.server.certificates ==>
          var serial := s.server.certificates[c].template.serial;
          serial.Some? && serial.value >= 0 && serial.value in used)
    && (forall f, g :: f in s.flights && g in s.flights && f != g && s.flights[f].Signed? && s.flights[g].Signed? ==>
          s.flights[f].serial != s.flights[g].serial)
    && (forall f, c :: f in s.flights && s.flights[f].Signed? && c in s.server.certificates ==>
          s.server.certificates[c].template.serial != Some(s.flights[f].serial))
    && (forall c, d :: c in s.server.certificates && d in s.server.certificates && c != d ==>
          s.server.certificates[c].template.serial != s.server.certificates[d].template.serial)
  }

  lemma LeafCarriesSerial(env: Env, idents: seq<Identifier>, csr: Option<Issuance.Csr>, serial: nat, t1: Time, t2: Time)
    requires SignLeaf(env, idents, csr, serial, t1, t2).Some?
    ensures SignLeaf(env, idents, csr, serial, t1, t2).value.template.serial == Some(serial)
  {
    Issuance.AdmissibleIff(env.authority, SigningRequest(idents, csr, serial));
  }

  // No other step changes the certificates or the signed requests.
  lemma SerialsUntouched(env: Env, s: System, a: Action, s': System, used: seq<nat>)
    requires Step(env, s, a, s') && SerialsOk(s, used) && !a.Sign? && !a.Commit?
    ensures SerialsOk(s', used)
  {
    CertificatesUntouched(env, s, a, s');
    FlightsOnlyLose(env, s, a, s');
    hide Step;
  }

  lemma CertificatesUntouched(env: Env, s: System, a: Action, s': System)
    requires Step(env, s, a, s') && !a.Commit?
    ensures s'.server.certificates == s.server.certificates
  {
    hide AllValid, SignLeaf, Jwk.Thumbprint, RefsResolve, AddAuthzs;
    if a.CallNewOrder? {
      AddAuthzsCertificates(env, s.server, AccountOf(env.base, a.kid), a.orderId, a.idents, a.ids, a.now);
    }
  }

  lemma {:induction false} AddAuthzsCertificates(env: Env, st: State, account: string, orderId: string,
                                                 idents: seq<Identifier>, ids: seq<Ids>, now: Time)
    requires |ids| == |idents|
    ensures AddAuthzs(env, st, account, orderId, idents, ids, now).certificates == st.certificates
  {
    if idents != [] {
      var n := |idents| - 1;
      AddAuthzsCertificates(env, st, account, orderId, idents[..n], ids[..n], now);
    }
  }

  lemma FlightsOnlyLose(env: Env, s: System, a: Action, s': System)
    requires Step(env, s, a, s') && !a.Sign? && !a.Commit?
    ensures forall f :: f in s'.flights && s'.flights[f].Signed? ==> f in s.flights && s'.flights[f] == s.flights[f]
  {
    hide NewAccount, NewOrder, HandleChallenge, GetOrder, FinalizeCheck, RefsResolve;
  }

  lemma SignKeepsSerials(env: Env, s: System, a: Action, s': System, used: seq<nat>)
    requires Step(env, s, a, s') && SerialsOk(s, used) && a.Sign? && a.serial !in used
    ensures SerialsOk(s', used + [a.serial])
  {
    hide SignLeaf, DnsNames;
    var orderId := s.flights[a.flight].orderId;
    var idents := s.server.orders[orderId].identifiers;
    if SignLeaf(env, idents, a.csr, a.serial, a.t1, a.t2).Some? {
      LeafCarriesSerial(env, idents, a.csr, a.serial, a.t1, a.t2);
    }
    assert forall x :: x in used + [a.serial] <==> x in used || x == a.serial;
  }

  lemma CommitKeepsSerials(env: Env, s: System, a: Action, s': System, used: seq<nat>)
    requires Step(env, s, a, s') && SerialsOk(s, used) && a.Commit?
    ensures SerialsOk(s', used)
  {
    hide CertUrl;
  }

  lemma DistinctSnoc(used: seq<nat>, serial: nat)
    requires Reserver.Distinct(used + [serial])
    ensures Reserver.Distinct(used) && serial !in used
  {
    var all := used + [serial];
    assert forall i :: 0 <= i < |used| ==> all[i] == used[i];
    assert all[|used|] == serial;
  }

  lemma {:induction false} DistinctPrefix(actions: seq<Action>, i: nat)
    requires i <= |actions| && Reserver.Distinct(SerialsUsed(actions))
    ensures Reserver.Distinct(SerialsUsed(actions[..i]))
    decreases |actions|
  {
    if i < |actions| {
      var n := |actions| - 1;
      if actions[n].Sign? {
        DistinctSnoc(SerialsUsed(actions[..n]), actions[n].serial);
      } else {
        assert SerialsUsed(actions[..n]) + [] == SerialsUsed(actions[..n]);
      }
      assert actions[..n][..i] == actions[..i];
      DistinctPrefix(actions[..n], i);
    } else {
      assert actions[..i] == actions;
    }
  }

  lemma {:induction false} RunSerials(env: Env, states: seq<System>, actions: seq<Action>, i: nat)
    requires Run(env, states, actions) && i <= |actions| && Reserver.Distinct(SerialsUsed(actions[..i]))
    ensures SerialsOk(states[i], SerialsUsed(actions[..i]))
  {
    if i > 0 {
      var a, used := actions[i - 1], SerialsUsed(actions[..i - 1]);
      assert actions[..i][..i - 1] == actions[..i - 1];
      DistinctPrefix(actions[..i], i - 1);
      RunSerials(env, states, actions, i - 1);
      hide Step, SerialsOk;
      if a.Sign? {
        DistinctSnoc(used, a.serial);
        SignKeepsSerials(env, states[i - 1], a, states[i], used);
      } else {
        assert used + [] == used;
        if a.Commit? {
          CommitKeepsSerials(env, states[i - 1], a, states[i], used);
        } else {
          SerialsUntouched(env, states[i - 1], a, states[i], used);
        }
      }
    }
  }

  // When the serials reserved are distinct, as Reserver.ConcurrentIssuanceSafe has them, then at every moment of a run
  // each signed certificate carries the serial reserved for its request, each stored one carries one of the serials
  // reserved, and no two certificates, signed or stored, carry the same.
  lemma CertificatesCarryTheirSerials(env: Env, states: seq<System>, actions: seq<Action>, i: nat)
    requires Run(env, states, actions) && i <= |actions| && Reserver.Distinct(SerialsUsed(actions))
    ensures forall f :: f in states[i].flights && states[i].flights[f].Signed? ==>
      states[i].flights[f].leaf.template.serial == Some(states[i].flights[f].serial)
    ensures forall c :: c in states[i].server.certificates ==>
      var serial := states[i].server.certificates[c].template.serial;
      serial.Some? && serial.value >= 0 && serial.value in SerialsUsed(actions[..i])
    ensures forall c, d :: c in states[i].server.certificates && d in states[i].server.certificates && c != d ==>
      states[i].server.certificates[c].template.serial != states[i].server.certificates[d].template.serial
  {
    DistinctPrefix(actions, i);
    RunSerials(env, states, actions, i);
  }

  // ----- Accounts -----

  // What the newAccount call at step i answers.
  function Answer(env: Env, s: System, a: Action): Result<Account, Problem>
    requires a.CallNewAccount?
  {
    NewAccount(env, s.server, a.key, a.contact, a.terms, a.onlyExisting, a.id, a.now).1
  }

  lemma AnswerIsRecorded(env: Env, s: System, a: Action, s': System)
    requires Inv(env, s) && a.CallNewAccount? && Step(env, s, a, s') && Answer(env, s, a).Ok?
    ensures var account, t := Answer(env, s, a).value, Jwk.Thumbprint(a.key, env.sha);
      && t.Ok? && t.value in s'.server.byThumb && s'.server.byThumb[t.value] == account
      && account.thumbprint == t.value
      && account.id in s'.server.accounts && s'.server.accounts[account.id] == account
  {
    hide Jwk.Thumbprint, NewAccount, OrdersOk, RefsResolve, FlightsOk;
    NewAccountKeeps(env, s.server, a.key, a.contact, a.terms, a.onlyExisting, a.id, a.now);
  }

  // The keys are equal but perhaps for the sign of an RSA exponent, which a thumbprint does not show.
  predicate SameUpToSign(k: Jwk.PublicKey, l: Jwk.PublicKey) {
    k == l || (k.RSA? && l.RSA? && k.n == l.n && Jwk.Abs(k.e) == Jwk.Abs(l.e))
  }

  // Two newAccount calls anywhere in a run that both succeed answer with the same account exactly when their keys are
  // equal, up to the sign of an RSA exponent, unless the keys are a collision of the hash.
  lemma SameAccountIffSameKey(env: Env, states: seq<System>, actions: seq<Action>, i: nat, j: nat)
    requires Run(env, states, actions) && i <= j < |actions|
    requires actions[i].CallNewAccount? && Jwk.WellTyped(actions[i].key) && Answer(env, states[i], actions[i]).Ok?
    requires actions[j].CallNewAccount? && Jwk.WellTyped(actions[j].key) && Answer(env, states[j], actions[j]).Ok?
    ensures var a, b := Answer(env, states[i], actions[i]).value, Answer(env, states[j], actions[j]).value;
            var k, l := actions[i].key, actions[j].key;
      && (SameUpToSign(k, l) ==> a == b)
      && (a.id == b.id ==> SameUpToSign(k, l) || Jwk.ShaCollides(env.sha, k, l))
  {
    var k, l := actions[i].key, actions[j].key;
    AnsweredKey(env, states[i], actions[i]);
    AnsweredKey(env, states[j], actions[j]);
    ThumbprintsEqualIff(env, k, l);
    hide Step, Inv, Answer, SameUpToSign, Jwk.ToJWK, Jwk.WellTyped, Jwk.Thumbprint, Jwk.ShaCollides;
    Reachable(env, states, actions, i);
    Reachable(env, states, actions, j);
    AnswerIsRecorded(env, states[i], actions[i], states[i + 1]);
    AnswerIsRecorded(env, states[j], actions[j], states[j + 1]);
    StatusesAdvance(env, states, actions, i + 1, j + 1);
  }

  lemma AnsweredKey(env: Env, s: System, a: Action)
    requires a.CallNewAccount? && Answer(env, s, a).Ok?
    ensures Jwk.ToJWK(a.key).Ok?
  {
  }

  lemma ThumbprintsEqualIff(env: Env, k: Jwk.PublicKey, l: Jwk.PublicKey)
    requires Jwk.WellTyped(k) && Jwk.WellTyped(l) && Jwk.ToJWK(k).Ok? && Jwk.ToJWK(l).Ok?
    ensures SameUpToSign(k, l) ==> Jwk.Thumbprint(k, env.sha) == Jwk.Thumbprint(l, env.sha)
    ensures Jwk.Thumbprint(k, env.sha) == Jwk.Thumbprint(l, env.sha) ==> SameUpToSign(k, l) || Jwk.ShaCollides(env.sha, k, l)
  {
    Jwk.CanonicalJsonInjective(k, l);
    hide Jwk.ToJWK, Jwk.CanonicalJson, Jwk.WellTyped;
  }

  // What makes an account, and that nothing changes one.
  lemma AccountStep(env: Env, s: System, a: Action, s': System, t: string)
    requires Step(env, s, a, s') && t in s'.server.byThumb
    ensures if t in s.server.byThumb then s'.server.byThumb[t] == s.server.byThumb[t]
            else a.CallNewAccount? && !a.onlyExisting
                 && s'.server.byThumb[t] == Account(a.id, a.key, t, a.contact, a.terms, a.now)
  {
    hide AllValid, SignLeaf, Jwk.Thumbprint, RefsResolve, AddAuthzs;
    if a.CallNewOrder? {
      AddAuthzsAccounts(env, s.server, AccountOf(env.base, a.kid), a.orderId, a.idents, a.ids, a.now);
    }
  }

  lemma {:induction false} AddAuthzsAccounts(env: Env, st: State, account: string, orderId: string,
                                             idents: seq<Identifier>, ids: seq<Ids>, now: Time)
    requires |ids| == |idents|
    ensures AddAuthzs(env, st, account, orderId, idents, ids, now).byThumb == st.byThumb
  {
    if idents != [] {
      var n := |idents| - 1;
      AddAuthzsAccounts(env, st, account, orderId, idents[..n], ids[..n], now);
    }
  }

  // Every account of a run was made by one earlier call, with that call's key, contact and consent, and not by one that
  // asked for existing accounts only.
  lemma {:induction false} AccountMadeBy(env: Env, states: seq<System>, actions: seq<Action>, i: nat, t: string)
    returns (k: nat)
    requires Run(env, states, actions) && i < |states| && t in states[i].server.byThumb
    ensures k < i && actions[k].CallNewAccount? && !actions[k].onlyExisting
    ensures states[i].server.byThumb[t]
         == Account(actions[k].id, actions[k].key, t, actions[k].contact, actions[k].terms, actions[k].now)
  {
    hide Step;
    assert i > 0;
    AccountStep(env, states[i - 1], actions[i - 1], states[i], t);
    if t in states[i - 1].server.byThumb {
      k := AccountMadeBy(env, states, actions, i - 1, t);
    } else {
      k := i - 1;
    }
  }
}

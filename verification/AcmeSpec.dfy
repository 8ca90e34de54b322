// The state of the ACME server (pkg/protocols/acme/server.go) and what each locked section of a handler does to it.
module AcmeSpec {
  import opened Wrappers
  import opened Text
  import Jwk
  import Policy
  import Issuance

  datatype Status = Pending | Ready | Valid

  datatype Problem = Malformed | AccountDoesNotExist | OrderNotReady | ServerInternal

  datatype Identifier = Identifier(kind: string, value: string)

  datatype Account = Account(id: string, key: Jwk.PublicKey, thumbprint: string, contact: seq<string>,
                             termsAgreed: bool, createdAt: Time)

  datatype Challenge = Challenge(url: string, token: string, status: Status, validated: Time)

  datatype Authorization = Authorization(id: string, accountId: string, status: Status, identifier: Identifier,
                                         challenges: seq<Challenge>, expires: Time)

  datatype Order = Order(id: string, accountId: string, status: Status, identifiers: seq<Identifier>,
                         authorizations: seq<string>, finalizeUrl: string, certificateUrl: string, expires: Time)

  datatype ChallengeRef = ChallengeRef(authzId: string, index: nat)

  // The leaf of a stored chain: its encoding, and the template that was signed into it.
  datatype Leaf = Leaf(template: Policy.CertTemplate, der: seq<byte>)

  // The maps of the server. Orders, authorizations and accounts are kept as values under their IDs.
  datatype State = State(accounts: map<string, Account>, byThumb: map<string, Account>, orders: map<string, Order>,
                         authzs: map<string, Authorization>, challenges: map<string, ChallengeRef>,
                         certificates: map<string, Leaf>, orderOf: map<string, string>)

  const EMPTY := State(map[], map[], map[], map[], map[], map[], map[])

  // What a server is built from: its base URL, whether it skips validation, its authority, and the two foreign
  // functions it calls: signing, and SHA-256 followed by base64url.
  datatype Env = Env(base: string, skip: bool, authority: Issuance.Authority, create: Issuance.Create,
                     sha: string -> string)

  // ----- URLs -----

  function AuthzUrl(base: string, id: string): string { (base + "/acme/authz/") + id }
  function AuthzId(base: string, url: string): string { TrimPrefix(url, base + "/acme/authz/") }
  function CertUrl(base: string, id: string): string { (base + "/acme/cert/") + id }
  function CertId(base: string, url: string): string { TrimPrefix(url, base + "/acme/cert/") }
  function ChallengeUrl(base: string, id: string): string { (base + "/acme/challenge/") + id }
  function FinalizeUrl(base: string, id: string): string { ((base + "/acme/order/") + id) + "/finalize" }

  lemma UrlsInvert(base: string, id: string)
    ensures AuthzId(base, AuthzUrl(base, id)) == id && CertId(base, CertUrl(base, id)) == id
  {
    TrimPrefixUndoesConcat(base + "/acme/authz/", id);
    TrimPrefixUndoesConcat(base + "/acme/cert/", id);
  }

  // ----- Accounts -----

  // `id` is the fresh random ID for a new account.
  function NewAccount(env: Env, st: State, key: Jwk.PublicKey, contact: seq<string>, terms: bool, onlyExisting: bool,
                      id: string, now: Time): (State, Result<Account, Problem>) {
    var thumb := Jwk.Thumbprint(key, env.sha);
    if thumb.Err? then (st, Err(ServerInternal))
    else if thumb.value in st.byThumb then (st, Ok(st.byThumb[thumb.value]))
    else if onlyExisting then (st, Err(AccountDoesNotExist))
    else
      var account := Account(id, key, thumb.value, contact, terms, now);
      (st.(accounts := st.accounts[id := account], byThumb := st.byThumb[thumb.value := account]), Ok(account))
  }

  // ----- Orders -----

  // The fresh random IDs drawn for one identifier.
  datatype Ids = Ids(authz: string, chal: string, token: string)

  function AddAuthz(env: Env, st: State, account: string, orderId: string, ident: Identifier, ids: Ids, now: Time): State {
    var chal := Challenge(ChallengeUrl(env.base, ids.chal), ids.token, Pending, ZERO_TIME);
    var authz := Authorization(ids.authz, account, Pending, ident, [chal], now + 24 * Policy.HOUR);
    st.(authzs := st.authzs[ids.authz := authz],
        challenges := st.challenges[ids.chal := ChallengeRef(ids.authz, 0)],
        orderOf := st.orderOf[ids.authz := orderId])
  }

  function AddAuthzs(env: Env, st: State, account: string, orderId: string, idents: seq<Identifier>, ids: seq<Ids>,
                     now: Time): State
    requires |ids| == |idents|
  {
    if idents == [] then st
    else
      var n := |idents| - 1;
      AddAuthz(env, AddAuthzs(env, st, account, orderId, idents[..n], ids[..n], now), account, orderId, idents[n],
               ids[n], now)
  }

  function AuthzUrls(base: string, ids: seq<Ids>): (urls: seq<string>)
    ensures |urls| == |ids| && forall i :: 0 <= i < |ids| ==> urls[i] == AuthzUrl(base, ids[i].authz)
  {
    seq(|ids|, i requires 0 <= i < |ids| => AuthzUrl(base, ids[i].authz))
  }

  function AccountOf(base: string, kid: string): string {
    TrimPrefix(kid, base + "/acme/acct/")
  }

  function NewOrder(env: Env, st: State, kid: string, idents: seq<Identifier>, orderId: string, ids: seq<Ids>, now: Time)
    : (State, Result<Order, Problem>)
    requires |ids| == |idents|
  {
    if idents == [] then (st, Err(Malformed))
    else
      var account := AccountOf(env.base, kid);
      var order := Order(orderId, account, Pending, idents, AuthzUrls(env.base, ids), FinalizeUrl(env.base, orderId),
                         "", now + 24 * Policy.HOUR);
      var added := AddAuthzs(env, st, account, orderId, idents, ids, now);
      (added.(orders := added.orders[orderId := order]), Ok(order))
  }

  predicate AllValid(base: string, authzs: map<string, Authorization>, urls: seq<string>) {
    forall url :: url in urls ==> AuthzId(base, url) in authzs && authzs[AuthzId(base, url)].status == Valid
  }

  // A pending order whose authorizations are all valid becomes ready.
  function Reevaluate(base: string, st: State, id: string): State {
    if id in st.orders && st.orders[id].status == Pending && AllValid(base, st.authzs, st.orders[id].authorizations)
    then st.(orders := st.orders[id := st.orders[id].(status := Ready)])
    else st
  }

  function GetOrder(env: Env, st: State, id: string): (State, Result<Order, Problem>) {
    if id !in st.orders then (st, Err(Malformed))
    else (Reevaluate(env.base, st, id), Ok(Reevaluate(env.base, st, id).orders[id]))
  }

  // ----- Challenges -----

  // Every challenge belongs to a stored authorization.
  predicate RefsResolve(st: State) {
    forall c :: c in st.challenges ==>
      && st.challenges[c].authzId in st.authzs
      && st.challenges[c].index < |st.authzs[st.challenges[c].authzId].challenges|
  }

  function MarkValid(authz: Authorization, index: nat, now: Time): Authorization
    requires index < |authz.challenges|
  {
    authz.(status := Valid,
           challenges := authz.challenges[index := authz.challenges[index].(status := Valid, validated := now)])
  }

  // `post` tells POST from GET.
  function HandleChallenge(env: Env, st: State, id: string, post: bool, now: Time): (State, Result<Challenge, Problem>)
    requires RefsResolve(st)
  {
    if id !in st.challenges then (st, Err(Malformed))
    else
      var ref := st.challenges[id];
      var authz := st.authzs[ref.authzId];
      if post && (env.skip || authz.challenges[ref.index].status == Pending) then
        var marked := MarkValid(authz, ref.index, now);
        var st' := st.(authzs := st.authzs[ref.authzId := marked]);
        (if ref.authzId in st.orderOf then Reevaluate(env.base, st', st.orderOf[ref.authzId]) else st',
         Ok(marked.challenges[ref.index]))
      else (st, Ok(authz.challenges[ref.index]))
  }

  // ----- Finalize -----

  // The first locked section: the authorizations are tested, the status of the order is not.
  function FinalizeCheck(env: Env, st: State, id: string): Option<Problem> {
    if id !in st.orders then Some(Malformed)
    else if !AllValid(env.base, st.authzs, st.orders[id].authorizations) then Some(OrderNotReady)
    else None
  }

  function DnsNames(idents: seq<Identifier>): seq<string> {
    if idents == [] then []
    else DnsNames(idents[..|idents| - 1])
         + if idents[|idents| - 1].kind == "dns" then [idents[|idents| - 1].value] else []
  }

  // What finalize asks the authority for.
  function SigningRequest(idents: seq<Identifier>, csr: Option<Issuance.Csr>, serial: int): Issuance.Request {
    Issuance.Request(Some(serial), csr, Policy.SERVER_TLS, Issuance.ExtensionConfig([], [], []), 30 * Policy.DAY,
                     DnsNames(idents), [])
  }

  // The certificate that the unlocked part signs, or None when the authority refuses.
  ghost function SignLeaf(env: Env, idents: seq<Identifier>, csr: Option<Issuance.Csr>, serial: int, t1: Time, t2: Time)
    : Option<Leaf>
  {
    var req := SigningRequest(idents, csr, serial);
    if Issuance.Refusal(env.authority, req).Some? || !Issuance.Clean(env.authority, req, t1, t2) then None
    else
      var template := Issuance.TemplateFor(env.authority, req, t1, t2);
      var der := env.create(template, []);
      if der.None? then None else Some(Leaf(template, der.value))
  }

  // The second locked section.
  function FinalizeCommit(env: Env, st: State, id: string, certId: string, leaf: Leaf): State
    requires id in st.orders
  {
    st.(certificates := st.certificates[certId := leaf],
        orders := st.orders[id := st.orders[id].(status := Valid, certificateUrl := CertUrl(env.base, certId))])
  }
}

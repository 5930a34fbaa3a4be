/**
 * Client authentication (ClientRepository): the lookup of a usable client by
 * its public identifier and the boolean decision of validateClient. The client
 * table and the client_grant_type table are in-memory values; the password-hash
 * check behind secretVerify is a function passed in by the caller.
 */
module ClientRepository {
  import opened Wrappers

  /** One row of the client table; identifier is the public client id. */
  datatype Client = Client(
    id: int,
    identifier: string,
    active: bool,
    deleted: bool,
    confidential: bool)

  /** One row of the client_grant_type table. */
  datatype ClientGrantType = ClientGrantType(clientId: int, grantType: string)

  /** The two tables the repository reads. */
  datatype Store = Store(clients: seq<Client>, grantTypes: set<ClientGrantType>)

  /** The filter of getClientEntity: active(), notDeleted() and the identifier condition. */
  predicate Usable(c: Client, identifier: string)
  {
    c.active && !c.deleted && c.identifier == identifier
  }

  /**
   * getClientEntity: the first row of the table that passes the filter (one()
   * takes the first row of the query), or None when no row does.
   */
  function GetClientEntity(clients: seq<Client>, identifier: string): (r: Option<Client>)
    ensures r.Some? ==> r.value in clients && Usable(r.value, identifier)
    ensures r.None? <==> forall c :: c in clients ==> !Usable(c, identifier)
  {
    if clients == [] then None
    else if Usable(clients[0], identifier) then Some(clients[0])
    else GetClientEntity(clients[1..], identifier)
  }

  /** The row returned is the first one that passes the filter. */
  lemma {:induction false} GetClientEntityIsFirst(clients: seq<Client>, identifier: string, k: nat)
    requires k < |clients| && Usable(clients[k], identifier)
    requires forall j :: 0 <= j < k ==> !Usable(clients[j], identifier)
    ensures GetClientEntity(clients, identifier) == Some(clients[k])
  {
    if k > 0 {
      assert !Usable(clients[0], identifier);
      GetClientEntityIsFirst(clients[1..], identifier, k - 1);
    }
  }

  /**
   * getClientGrantTypes()->andWhere(['grant_type' => $grantType])->exists().
   * A null grant type becomes the condition "grant_type IS NULL", which no
   * stored row satisfies.
   */
  function PermitsGrantType(store: Store, client: Client, grantType: Option<string>): (p: bool)
    ensures p <==> exists row :: row in store.grantTypes && row.clientId == client.id && grantType == Some(row.grantType)
  {
    grantType.Some? && ClientGrantType(client.id, grantType.value) in store.grantTypes
  }

  /**
   * validateClient: false when no usable client has the identifier or the grant
   * type is not permitted; otherwise secretVerify for a confidential client and
   * true for a public one. The secret may be null (None).
   */
  function ValidateClient(
    store: Store,
    secretVerify: (Client, Option<string>) -> bool,
    identifier: string,
    secret: Option<string>,
    grantType: Option<string>): (ok: bool)
    ensures ok ==> exists c :: c in store.clients && Usable(c, identifier) && PermitsGrantType(store, c, grantType)
  {
    var client := GetClientEntity(store.clients, identifier);
    if client.None? || !PermitsGrantType(store, client.value, grantType) then false
    else if client.value.confidential then secretVerify(client.value, secret)
    else true
  }

  /** An identifier no usable client carries is refused, whatever secret and grant type are given. */
  lemma UnknownClientRefused(
    store: Store, secretVerify: (Client, Option<string>) -> bool,
    identifier: string, secret: Option<string>, grantType: Option<string>)
    requires forall c :: c in store.clients ==> !Usable(c, identifier)
    ensures !ValidateClient(store, secretVerify, identifier, secret, grantType)
  {
  }

  /** A grant type the looked-up client does not have is refused, whatever the secret. */
  lemma UnpermittedGrantTypeRefused(
    store: Store, secretVerify: (Client, Option<string>) -> bool,
    identifier: string, secret: Option<string>, grantType: Option<string>)
    requires GetClientEntity(store.clients, identifier).Some?
    requires !PermitsGrantType(store, GetClientEntity(store.clients, identifier).value, grantType)
    ensures !ValidateClient(store, secretVerify, identifier, secret, grantType)
  {
  }

  /**
   * Once the client is found and permits the grant type: a confidential
   * client's result is secretVerify of the given secret; a public client is
   * accepted, and the secret is never inspected (any two verifiers agree).
   */
  lemma DecisionForFoundClient(
    store: Store, secretVerify: (Client, Option<string>) -> bool,
    otherVerify: (Client, Option<string>) -> bool,
    identifier: string, secret: Option<string>, grantType: Option<string>)
    requires GetClientEntity(store.clients, identifier).Some?
    requires PermitsGrantType(store, GetClientEntity(store.clients, identifier).value, grantType)
    ensures var c := GetClientEntity(store.clients, identifier).value;
      && (c.confidential ==> ValidateClient(store, secretVerify, identifier, secret, grantType) == secretVerify(c, secret))
      && (!c.confidential ==>
            ValidateClient(store, secretVerify, identifier, secret, grantType) &&
            ValidateClient(store, otherVerify, identifier, None, grantType))
  {
  }

  /**
   * The whole decision as one statement: validateClient accepts exactly when
   * some usable client has the identifier, the first such client permits the
   * grant type, and it is public or its secret verifies.
   */
  lemma ValidateClientIff(
    store: Store, secretVerify: (Client, Option<string>) -> bool,
    identifier: string, secret: Option<string>, grantType: Option<string>)
    ensures ValidateClient(store, secretVerify, identifier, secret, grantType) <==>
      exists k :: 0 <= k < |store.clients| && Usable(store.clients[k], identifier) &&
        (forall j :: 0 <= j < k ==> !Usable(store.clients[j], identifier)) &&
        PermitsGrantType(store, store.clients[k], grantType) &&
        (store.clients[k].confidential ==> secretVerify(store.clients[k], secret))
  {
    if exists k :: 0 <= k < |store.clients| && Usable(store.clients[k], identifier) {
      var k := FirstUsable(store.clients, identifier);
      GetClientEntityIsFirst(store.clients, identifier, k);
      forall k' | 0 <= k' < |store.clients| && Usable(store.clients[k'], identifier) &&
        (forall j :: 0 <= j < k' ==> !Usable(store.clients[j], identifier))
        ensures k' == k
      {
      }
    } else {
      forall c | c in store.clients ensures !Usable(c, identifier) {
        var k :| 0 <= k < |store.clients| && store.clients[k] == c;
      }
    }
  }

  /** The index of the first usable row, when there is one (a proof helper). */
  lemma FirstUsable(clients: seq<Client>, identifier: string) returns (k: nat)
    requires exists i :: 0 <= i < |clients| && Usable(clients[i], identifier)
    ensures k < |clients| && Usable(clients[k], identifier)
    ensures forall j :: 0 <= j < k ==> !Usable(clients[j], identifier)
  {
    k := 0;
    while !Usable(clients[k], identifier)
      invariant k < |clients|
      invariant forall j :: 0 <= j < k ==> !Usable(clients[j], identifier)
      decreases |clients| - k
    {
      k := k + 1;
    }
  }
}

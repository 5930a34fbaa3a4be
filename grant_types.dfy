/**
 * The grant types a client may be allowed to use (the ClientGrantType record):
 * the five constants, the keys of the options map, and the validation rules a
 * (client_id, grant_type) row must satisfy before it is saved.
 */
module ClientGrantTypes {
  import opened Wrappers

  /** The five grant types of OAuth 2.0 (RFC 6749 sections 4.1 to 4.4 and 6). */
  datatype GrantType = AuthorizationCode | ClientCredentials | Implicit | Password | RefreshToken

  const AllGrantTypes: set<GrantType> :=
    {AuthorizationCode, ClientCredentials, Implicit, Password, RefreshToken}

  /** The string constant the record stores for each grant type. */
  function Name(g: GrantType): string
  {
    match g
    case AuthorizationCode => "authorization_code"
    case ClientCredentials => "client_credentials"
    case Implicit => "implicit"
    case Password => "password"
    case RefreshToken => "refresh_token"
  }

  /** Reads a stored grant_type string back; None for any other string. */
  function FromName(s: string): (r: Option<GrantType>)
    ensures r.Some? ==> Name(r.value) == s
  {
    if s == "authorization_code" then Some(AuthorizationCode)
    else if s == "client_credentials" then Some(ClientCredentials)
    else if s == "implicit" then Some(Implicit)
    else if s == "password" then Some(Password)
    else if s == "refresh_token" then Some(RefreshToken)
    else None
  }

  /** The keys of grantTypeOptions(): the five constants (the labels are not modelled). */
  function OptionKeys(): set<string>
  {
    set g | g in AllGrantTypes :: Name(g)
  }

  /** The five constants are pairwise distinct: Name is injective. */
  lemma NamesDistinct(g: GrantType, h: GrantType)
    ensures Name(g) == Name(h) <==> g == h
  {
    if g != h {
      assert Name(g)[0] != Name(h)[0] || |Name(g)| != |Name(h)|;
    }
  }

  /** Reading back a stored constant gives the same grant type. */
  lemma FromNameOfName(g: GrantType)
    ensures FromName(Name(g)) == Some(g)
  {
    NamesDistinct(g, AuthorizationCode);
    NamesDistinct(g, ClientCredentials);
    NamesDistinct(g, Implicit);
    NamesDistinct(g, Password);
  }

  /** A string is a key of grantTypeOptions() exactly when it names a grant type. */
  lemma OptionKeysAreTheConstants(s: string)
    ensures s in OptionKeys() <==> FromName(s).Some?
    ensures |OptionKeys()| == 5
  {
    if s in OptionKeys() {
      var g :| g in AllGrantTypes && Name(g) == s;
      FromNameOfName(g);
    }
    assert OptionKeys() == {"authorization_code", "client_credentials", "implicit", "password", "refresh_token"};
  }

  /** A client_grant_type row as submitted: either attribute may be missing. */
  datatype GrantTypeRow = GrantTypeRow(clientId: Option<int>, grantType: Option<string>)

  /** The attributes that validation can flag. */
  datatype Attribute = ClientIdAttribute | GrantTypeAttribute

  /**
   * The attributes validate() flags, given the ids of existing clients. The
   * required rule flags a missing attribute; the exist rule and the range rule
   * skip a missing value and otherwise check membership.
   */
  function Errors(row: GrantTypeRow, clientIds: set<int>): (errs: set<Attribute>)
    ensures ClientIdAttribute in errs <==> row.clientId.None? || row.clientId.value !in clientIds
    ensures GrantTypeAttribute in errs <==> row.grantType.None? || FromName(row.grantType.value).None?
  {
    var requiredClient := if row.clientId.None? then {ClientIdAttribute} else {};
    var requiredGrant := if row.grantType.None? then {GrantTypeAttribute} else {};
    var exists_ := if row.clientId.Some? && row.clientId.value !in clientIds then {ClientIdAttribute} else {};
    var range := if row.grantType.Some? && row.grantType.value !in OptionKeys() then {GrantTypeAttribute} else {};
    OptionKeysAreTheConstants(if row.grantType.Some? then row.grantType.value else "");
    requiredClient + requiredGrant + exists_ + range
  }

  /**
   * validate(): true when no rule flags an attribute, that is, when the
   * client exists and the grant type is one of the five constants.
   */
  function Validate(row: GrantTypeRow, clientIds: set<int>): (ok: bool)
    ensures ok <==>
      && row.clientId.Some? && row.clientId.value in clientIds
      && row.grantType.Some? && FromName(row.grantType.value).Some?
  {
    NoErrorsIff(row, clientIds);
    Errors(row, clientIds) == {}
  }

  /** The only attributes are client_id and grant_type. */
  lemma NoErrorsIff(row: GrantTypeRow, clientIds: set<int>)
    ensures Errors(row, clientIds) == {} <==>
      ClientIdAttribute !in Errors(row, clientIds) && GrantTypeAttribute !in Errors(row, clientIds)
  {
    var errs := Errors(row, clientIds);
    if errs != {} {
      var e :| e in errs;
    }
  }

  /** A row validates iff both attributes are present, the client exists and the grant type is one of the five. */
  lemma ValidateIff(row: GrantTypeRow, clientIds: set<int>)
    ensures Validate(row, clientIds) <==>
      && row.clientId.Some? && row.clientId.value in clientIds
      && row.grantType.Some? && row.grantType.value in OptionKeys()
  {
    if row.grantType.Some? {
      OptionKeysAreTheConstants(row.grantType.value);
    }
    if !Validate(row, clientIds) {
      var e :| e in Errors(row, clientIds);
    }
  }
}

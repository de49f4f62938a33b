/** The OpenID Connect providers the gateway can log in with, the names
    they are chosen by, their configuration keys, the lookup of an
    initialised client, and the scopes its authorisation URL asks for. */
module OpenId {
  import opened Wrappers
  import opened Errors

  /** `OpenIDProvider` */
  datatype Provider = W3 | IbmId | NoProvider

  /** `From<&str> for OpenIDProvider`: the name in the login route. */
  function ProviderOfName(name: string): (p: Provider)
    ensures p == W3 <==> name == "w3"
    ensures p == IbmId <==> name == "ibm"
    ensures p == NoProvider <==> name != "w3" && name != "ibm"
  {
    if name == "w3" then W3 else if name == "ibm" then IbmId else NoProvider
  }

  /** `From<OpenIDProvider> for &str`: the provider's table name in the
      `oidc` configuration. */
  function ConfigKey(p: Provider): (key: string)
    ensures p == NoProvider <==> key == ""
  {
    match p
    case W3 => "openid-w3"
    case IbmId => "openid-ibmid"
    case NoProvider => ""
  }

  /** The two real providers have distinct configuration keys, so neither
      can read the other's client settings. */
  lemma ConfigKeysDistinct(p: Provider, q: Provider)
    ensures ConfigKey(p) == ConfigKey(q) <==> p == q
  {
  }

  /** The process-wide clients. `init_once` sets both when both discoveries
      succeed and otherwise ends the process; `None` stands for a client not
      yet set. */
  datatype Clients<C> = Clients(w3: Option<C>, ibm: Option<C>)

  /** `get_openid_provider`: the initialised client of a provider, or
      `AuthorizationServerNotSupported`. */
  function GetOpenIdProvider<C>(p: Provider, clients: Clients<C>): (r: Result<C, RouteError>)
    ensures p == NoProvider ==> r == Err(AuthorizationServerNotSupported)
    ensures p == W3 ==> (r.Ok? <==> clients.w3.Some?) && (r.Ok? ==> r.value == clients.w3.value)
    ensures p == IbmId ==> (r.Ok? <==> clients.ibm.Some?) && (r.Ok? ==> r.value == clients.ibm.value)
    ensures r.Err? ==> r.error == AuthorizationServerNotSupported
  {
    var c := match p
      case W3 => clients.w3
      case IbmId => clients.ibm
      case NoProvider => None;
    match c
    case Some(v) => Ok(v)
    case None => Err(AuthorizationServerNotSupported)
  }

  /** A login route named by anything but "w3" or "ibm" is refused, whatever
      clients exist. */
  lemma UnknownNameRefused<C>(name: string, clients: Clients<C>)
    requires name != "w3" && name != "ibm"
    ensures GetOpenIdProvider(ProviderOfName(name), clients) == Err(AuthorizationServerNotSupported)
  {
  }

  /** The scopes `get_client_resources` adds to the authorisation URL, in
      order. */
  const SCOPES: seq<string> := ["openid", "email", "profile"]
}

/**
 * The access-restriction middleware: when an allow list is configured, a
 * request from an anonymous user is let through only when its client address
 * lies in one of the allowed networks and in none of the denied ones;
 * everything unparseable is denied, and a denial is a redirect to the
 * configured URL or a 403 "Access Denied". Without an allow list every request
 * goes on.
 */
module RestrictAccess {
  import opened Results
  import opened Strings
  import opened IPv4

  const REMOTE_ADDR := "REMOTE_ADDR"
  const HTTP_X_FORWARDED_FOR := "HTTP_X_FORWARDED_FOR"
  const ACCESS_DENIED := "Access Denied"

  /** What the middleware reads of a request: whether a user is attached and
      authenticated, and the request's META dictionary. */
  datatype Request = Request(authenticated: bool, meta: map<string, string>)

  /** RESTRICT_ACCESS_ALLOW, RESTRICT_ACCESS_DENY and RESTRICT_ACCESS_REDIRECT_URL;
      an absent setting is the empty sequence or the empty string. */
  datatype AccessSettings = AccessSettings(allow: seq<string>, deny: seq<string>, redirectUrl: string)

  datatype Response = Redirect(url: string) | Forbidden(body: string)

  /** The outcome of `process_request`: `None` (the request goes on), a
      response, or the KeyError raised when META has no REMOTE_ADDR. */
  datatype Decision = Proceed | Respond(response: Response) | MissingRemoteAddr

  /** `get_client_ip`: the first comma-separated field of X-Forwarded-For when
      that header is present, else REMOTE_ADDR; REMOTE_ADDR is read first, so a
      request without it raises a KeyError (`Err`) even behind a proxy. */
  function GetClientIp(meta: map<string, string>): (r: Result<string, string>)
    ensures r.Err? <==> REMOTE_ADDR !in meta
    ensures r.Ok? && HTTP_X_FORWARDED_FOR in meta ==>
              r.value == Partition(meta[HTTP_X_FORWARDED_FOR], ',').0 && ',' !in r.value
    ensures r.Ok? && HTTP_X_FORWARDED_FOR !in meta ==> r.value == meta[REMOTE_ADDR]
  {
    if REMOTE_ADDR !in meta then Err(REMOTE_ADDR)
    else if HTTP_X_FORWARDED_FOR in meta then
      SplitFirstIsPartition(meta[HTTP_X_FORWARDED_FOR], ',');
      Ok(Split(meta[HTTP_X_FORWARDED_FOR], ',')[0])
    else Ok(meta[REMOTE_ADDR])
  }

  /** `deny_request`: a redirect iff a non-empty redirect URL is configured. */
  function DenyRequest(settings: AccessSettings): (r: Response)
    ensures r.Redirect? <==> settings.redirectUrl != []
    ensures r.Redirect? ==> r.url == settings.redirectUrl
    ensures r.Forbidden? ==> r.body == ACCESS_DENIED
  {
    if settings.redirectUrl != [] then Redirect(settings.redirectUrl) else Forbidden(ACCESS_DENIED)
  }

  /** `[ipaddr.IPNetwork(n) for n in entries]`, failing if any entry fails. */
  function ParseNetworks(entries: seq<string>): (r: Option<seq<Network>>)
    ensures r.Some? <==> forall i :: 0 <= i < |entries| ==> ParseNetwork(entries[i]).Some?
    ensures r.Some? ==> |r.value| == |entries|
    ensures r.Some? ==> forall i :: 0 <= i < |entries| ==> r.value[i] == ParseNetwork(entries[i]).value
    decreases |entries|
  {
    if entries == [] then Some([])
    else
      var head := ParseNetwork(entries[0]);
      var rest := entries[1..];
      var tail := ParseNetworks(rest);
      assert forall i :: 0 < i < |entries| ==> entries[i] == rest[i - 1];
      if head.None? || tail.None? then None
      else
        var r := [head.value] + tail.value;
        assert forall i :: 0 < i < |entries| ==> r[i] == tail.value[i - 1];
        Some(r)
  }

  /** A one-entry list parses iff its entry does. */
  lemma ParseSingleEntry(s: string)
    ensures ParseNetworks([s]) == if ParseNetwork(s).Some? then Some([ParseNetwork(s).value]) else None
  {
    assert [s][1..] == [];
    assert ParseNetworks([s][1..]) == Some([]);
    var h := ParseNetwork(s);
    if h.Some? { assert [h.value] + [] == [h.value]; }
  }

  /** Some network of `nets` contains `a`. */
  predicate InSome(nets: seq<Network>, a: Address) {
    exists i :: 0 <= i < |nets| && Contains(nets[i], a)
  }

  /** The decision the middleware takes, as one expression: always one of go
      on, the denial response, or the KeyError for a missing REMOTE_ADDR. */
  function Decide(req: Request, settings: AccessSettings): (r: Decision)
    ensures r.Respond? ==> r.response == DenyRequest(settings)
    ensures r.MissingRemoteAddr? <==> !req.authenticated && settings.allow != [] && REMOTE_ADDR !in req.meta
  {
    if req.authenticated || settings.allow == [] then Proceed
    else match GetClientIp(req.meta)
      case Err(_) => MissingRemoteAddr
      case Ok(ip) =>
        var addr := ParseAddress(ip);
        var allowed := ParseNetworks(settings.allow);
        var denied := if settings.deny != [] then ParseNetworks(settings.deny) else Some([]);
        if addr.None? || allowed.None? || denied.None? then Respond(DenyRequest(settings))
        else if InSome(allowed.value, addr.value) && !InSome(denied.value, addr.value) then Proceed
        else Respond(DenyRequest(settings))
  }

  /** `process_request`: the loop over the allowed networks that, on the first
      one containing the address, scans the denied networks. */
  method ProcessRequest(req: Request, settings: AccessSettings) returns (d: Decision)
    ensures d == Decide(req, settings)
  {
    if req.authenticated {
      return Proceed;
    }
    var allow := settings.allow;
    if allow == [] {
      return Proceed;
    }
    var deny := settings.deny;
    var clientIp := GetClientIp(req.meta);
    if clientIp.Err? {
      return MissingRemoteAddr;
    }
    var requestAddr := ParseAddress(clientIp.value);
    var networksAllowed := ParseNetworks(allow);
    var networksDenied: Option<seq<Network>> := Some([]);
    if deny != [] {
      networksDenied := ParseNetworks(deny);
    }
    if requestAddr.None? || networksAllowed.None? || networksDenied.None? {
      return Respond(DenyRequest(settings));
    }
    var requestIsAllowed := ScanNetworks(requestAddr.value, networksAllowed.value,
                                         deny != [], networksDenied.value);
    if !requestIsAllowed {
      return Respond(DenyRequest(settings));
    }
    return Proceed;
  }

  /** The flag loop of `process_request`: on the first allowed network that
      contains the address, the flag is set and, when a deny list is
      configured, cleared again by the first denied network that contains it. */
  method ScanNetworks(addr: Address, allowedNets: seq<Network>, checkDeny: bool, deniedNets: seq<Network>)
    returns (requestIsAllowed: bool)
    ensures requestIsAllowed <==>
      InSome(allowedNets, addr) && !(checkDeny && InSome(deniedNets, addr))
  {
    requestIsAllowed := false;
    var i := 0;
    while i < |allowedNets|
      invariant 0 <= i <= |allowedNets|
      invariant !requestIsAllowed
      invariant forall k :: 0 <= k < i ==> !Contains(allowedNets[k], addr)
    {
      if Contains(allowedNets[i], addr) {
        requestIsAllowed := true;
        if checkDeny {
          var j := 0;
          while j < |deniedNets|
            invariant 0 <= j <= |deniedNets|
            invariant requestIsAllowed
            invariant forall k :: 0 <= k < j ==> !Contains(deniedNets[k], addr)
          {
            if Contains(deniedNets[j], addr) {
              requestIsAllowed := false;
              break;
            }
            j := j + 1;
          }
        }
        break;
      }
      i := i + 1;
    }
  }

  // What the decision means.

  /** An authenticated request is always let through. */
  lemma AuthenticatedProceeds(req: Request, settings: AccessSettings)
    requires req.authenticated
    ensures Decide(req, settings) == Proceed
  {
  }

  /** Without an allow list the feature is off: every request goes on, whatever
      the deny list says. */
  lemma DisabledProceeds(req: Request, settings: AccessSettings)
    requires settings.allow == []
    ensures Decide(req, settings) == Proceed
  {
  }

  /** An enabled check on an anonymous request with a client address. */
  predicate Checked(req: Request, settings: AccessSettings) {
    !req.authenticated && settings.allow != [] && REMOTE_ADDR in req.meta
  }

  /** The parsed client address of a checked request. */
  function ClientAddress(req: Request): Option<Address>
    requires REMOTE_ADDR in req.meta
  {
    ParseAddress(GetClientIp(req.meta).value)
  }

  /** All of the client address, the allowed and the denied entries parse. */
  predicate AllParse(req: Request, settings: AccessSettings)
    requires REMOTE_ADDR in req.meta
  {
    && ClientAddress(req).Some?
    && (forall i :: 0 <= i < |settings.allow| ==> ParseNetwork(settings.allow[i]).Some?)
    && (forall j :: 0 <= j < |settings.deny| ==> ParseNetwork(settings.deny[j]).Some?)
  }

  /** Anything that fails to parse, the client address or any entry of either
      list, denies the request. */
  lemma ParseFailureDenies(req: Request, settings: AccessSettings)
    requires Checked(req, settings)
    requires !AllParse(req, settings)
    ensures Decide(req, settings) == Respond(DenyRequest(settings))
  {
    var denied := if settings.deny != [] then ParseNetworks(settings.deny) else Some([]);
    assert settings.deny == [] ==> denied.Some?;
  }

  /** When everything parses, a request is let through iff some allowed entry's
      network contains the client address and no denied entry's network does:
      deny wins over allow. */
  lemma AllowedIff(req: Request, settings: AccessSettings)
    requires Checked(req, settings)
    requires AllParse(req, settings)
    ensures Decide(req, settings) == Proceed <==>
      (exists i :: 0 <= i < |settings.allow| &&
         Contains(ParseNetwork(settings.allow[i]).value, ClientAddress(req).value))
      && (forall j :: 0 <= j < |settings.deny| ==>
         !Contains(ParseNetwork(settings.deny[j]).value, ClientAddress(req).value))
    ensures Decide(req, settings) != Proceed ==> Decide(req, settings) == Respond(DenyRequest(settings))
  {
    var a := ClientAddress(req).value;
    var allowed := ParseNetworks(settings.allow).value;
    if settings.deny != [] {
      var denied := ParseNetworks(settings.deny).value;
      assert (exists j :: 0 <= j < |denied| && Contains(denied[j], a)) <==>
             (exists j :: 0 <= j < |settings.deny| && Contains(ParseNetwork(settings.deny[j]).value, a));
    }
    assert InSome(allowed, a) <==>
           (exists i :: 0 <= i < |settings.allow| && Contains(ParseNetwork(settings.allow[i]).value, a));
  }
}

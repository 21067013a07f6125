/**
 * The middleware's behaviour on the requests and settings of its unit tests
 * (common/djangoapps/restrict_access/test.py): an anonymous request from
 * 10.0.2.2, possibly behind a proxy, against various allow and deny lists.
 */
module RestrictAccessCases {
  import opened Results
  import opened Strings
  import opened IPv4
  import opened RestrictAccess

  /*
   * The addresses of the tests, each written as its dotted fields joined by
   * '.' (and a CIDR entry as address, '/' and prefix), so that the parse
   * lemmas of IPv4 apply field by field.
   */
  const CLIENT_IP: string := "10" + "." + "0" + "." + "2" + "." + "2"
  const NET_IP: string := "10" + "." + "0" + "." + "2" + "." + "0"
  const OTHER_IP: string := "192" + "." + "168" + "." + "4" + "." + "4"
  const PROXY_IP: string := "10.0.1.1"
  const NET_24: string := NET_IP + "/" + "24"
  const NET_32: string := NET_IP + "/" + "32"
  const CLIENT_32: string := CLIENT_IP + "/" + "32"
  const REDIRECT_URL: string := "http://code.edx.org/"

  const ANONYMOUS := Request(false, map[REMOTE_ADDR := CLIENT_IP])

  lemma Octets10022()
    ensures ParseOctet("10") == Some(10) && ParseOctet("0") == Some(0)
    ensures ParseOctet("1") == Some(1) && ParseOctet("2") == Some(2) && ParseOctet("4") == Some(4)
    ensures ParseOctet("192") == Some(192) && ParseOctet("168") == Some(168)
  {
    assert "10"[..1] == "1" && "1"[..0] == "";
    assert DecimalValue("1") == 1;
    assert DecimalValue("10") == 10;
    assert "192"[..2] == "19" && "19"[..1] == "1";
    assert DecimalValue("19") == 19;
    assert DecimalValue("192") == 192;
    assert "168"[..2] == "16" && "16"[..1] == "1";
    assert DecimalValue("16") == 16;
    assert DecimalValue("168") == 168;
  }

  lemma Prefixes()
    ensures AllDigits("24") && DecimalValue("24") == 24
    ensures AllDigits("32") && DecimalValue("32") == 32
  {
    assert "24"[..1] == "2" && "2"[..0] == "";
    assert DecimalValue("2") == 2;
    assert "32"[..1] == "3" && "3"[..0] == "";
    assert DecimalValue("3") == 3;
  }

  /** 10.0.2.2 = 167772674, 10.0.2.0 = 167772672, 192.168.4.4 = 3232236548. */
  lemma Addresses()
    ensures ParseAddress(CLIENT_IP) == Some(167772674)
    ensures ParseAddress(NET_IP) == Some(167772672)
    ensures ParseAddress(OTHER_IP) == Some(3232236548)
  {
    Octets10022();
    ParseDotted("10", "0", "2", "2");
    ParseDotted("10", "0", "2", "0");
    ParseDotted("192", "168", "4", "4");
  }

  lemma HostNetwork10022()
    ensures ParseNetwork(CLIENT_IP) == Some(Network(167772674, 32))
  {
    Addresses();
    ParseHostNetwork(CLIENT_IP);
  }

  lemma HostNetwork192()
    ensures ParseNetwork(OTHER_IP) == Some(Network(3232236548, 32))
  {
    Addresses();
    ParseHostNetwork(OTHER_IP);
  }

  lemma EmptyNetwork()
    ensures ParseNetwork("") == None
  {
  }

  lemma Network24()
    ensures ParseNetwork(NET_24) == Some(Network(167772672, 24))
  {
    Addresses();
    Prefixes();
    ParseCidrNetwork(NET_IP, "24");
  }

  lemma Network32()
    ensures ParseNetwork(NET_32) == Some(Network(167772672, 32))
  {
    Addresses();
    Prefixes();
    ParseCidrNetwork(NET_IP, "32");
  }

  lemma Host32()
    ensures ParseNetwork(CLIENT_32) == Some(Network(167772674, 32))
  {
    Addresses();
    Prefixes();
    ParseCidrNetwork(CLIENT_IP, "32");
  }

  /** 10.0.2.0/24 holds 10.0.2.2; 10.0.2.0/32 and 192.168.4.4 do not. */
  lemma Containment()
    ensures Contains(Network(167772672, 24), 167772674)
    ensures !Contains(Network(167772672, 32), 167772674)
    ensures Contains(Network(167772674, 32), 167772674)
    ensures !Contains(Network(3232236548, 32), 167772674)
  {
    Prefix24IsLastOctet(167772672, 167772674);
    Prefix32IsExact(167772672, 167772674);
    Prefix32IsExact(167772674, 167772674);
    Prefix32IsExact(3232236548, 167772674);
  }

  lemma AuthenticatedCase()
    ensures Decide(Request(true, map[REMOTE_ADDR := CLIENT_IP]),
                   AccessSettings([NET_24], [CLIENT_IP], "")) == Proceed
  {
  }

  lemma DisabledCase()
    ensures Decide(ANONYMOUS, AccessSettings([], [], "")) == Proceed
  {
  }

  lemma InvalidAllowCase()
    ensures Decide(ANONYMOUS, AccessSettings([""], [], "")) == Respond(Forbidden(ACCESS_DENIED))
  {
    EmptyNetwork();
    ParseSingleEntry("");
  }

  lemma AllowOwnAddressCase()
    ensures Decide(ANONYMOUS, AccessSettings([CLIENT_IP], [], "")) == Proceed
  {
    Addresses();
    HostNetwork10022();
    Containment();
    assert GetClientIp(ANONYMOUS.meta) == Ok(CLIENT_IP);
    ParseSingleEntry(CLIENT_IP);
    assert InSome([Network(167772674, 32)], 167772674);
  }

  lemma ProxyCase()
    ensures Decide(Request(false, map[REMOTE_ADDR := PROXY_IP, HTTP_X_FORWARDED_FOR := CLIENT_IP]),
                   AccessSettings([CLIENT_IP], [], "")) == Proceed
  {
    Addresses();
    HostNetwork10022();
    Containment();
    var meta := map[REMOTE_ADDR := PROXY_IP, HTTP_X_FORWARDED_FOR := CLIENT_IP];
    assert ',' !in CLIENT_IP;
    assert GetClientIp(meta) == Ok(CLIENT_IP);
    ParseSingleEntry(CLIENT_IP);
    assert InSome([Network(167772674, 32)], 167772674);
  }

  lemma UnknownAddressCase()
    ensures Decide(ANONYMOUS, AccessSettings([OTHER_IP], [], "")) == Respond(Forbidden(ACCESS_DENIED))
  {
    Addresses();
    HostNetwork192();
    Containment();
    assert GetClientIp(ANONYMOUS.meta) == Ok(CLIENT_IP);
    ParseSingleEntry(OTHER_IP);
    assert !InSome([Network(3232236548, 32)], 167772674);
  }

  lemma DisabledWithDenyCase()
    ensures Decide(ANONYMOUS, AccessSettings([], [CLIENT_IP], "")) == Proceed
  {
  }

  lemma AllowAndDenyCase()
    ensures Decide(ANONYMOUS, AccessSettings([CLIENT_IP], [CLIENT_IP], "")) == Respond(Forbidden(ACCESS_DENIED))
  {
    Addresses();
    HostNetwork10022();
    Containment();
    assert GetClientIp(ANONYMOUS.meta) == Ok(CLIENT_IP);
    ParseSingleEntry(CLIENT_IP);
    assert InSome([Network(167772674, 32)], 167772674);
  }

  lemma InvalidDenyCase()
    ensures Decide(ANONYMOUS, AccessSettings([CLIENT_IP], [""], "")) == Respond(Forbidden(ACCESS_DENIED))
  {
    Addresses();
    HostNetwork10022();
    EmptyNetwork();
    assert GetClientIp(ANONYMOUS.meta) == Ok(CLIENT_IP);
    ParseSingleEntry("");
  }

  lemma Network32Case()
    ensures Decide(ANONYMOUS, AccessSettings([NET_32], [], "")) == Respond(Forbidden(ACCESS_DENIED))
  {
    Addresses();
    Network32();
    Containment();
    assert GetClientIp(ANONYMOUS.meta) == Ok(CLIENT_IP);
    ParseSingleEntry(NET_32);
    assert !InSome([Network(167772672, 32)], 167772674);
  }

  lemma Network24Case()
    ensures Decide(ANONYMOUS, AccessSettings([NET_24], [], "")) == Proceed
  {
    Addresses();
    Network24();
    Containment();
    assert GetClientIp(ANONYMOUS.meta) == Ok(CLIENT_IP);
    ParseSingleEntry(NET_24);
    assert InSome([Network(167772672, 24)], 167772674);
  }

  lemma Network24WithDenyCase()
    ensures Decide(ANONYMOUS, AccessSettings([NET_24], [CLIENT_32], "")) == Respond(Forbidden(ACCESS_DENIED))
  {
    Addresses();
    Network24();
    Host32();
    Containment();
    assert GetClientIp(ANONYMOUS.meta) == Ok(CLIENT_IP);
    ParseSingleEntry(NET_24);
    ParseSingleEntry(CLIENT_32);
    assert InSome([Network(167772674, 32)], 167772674);
  }

  lemma Network24WithDenyAndRedirectCase()
    ensures Decide(ANONYMOUS, AccessSettings([NET_24], [CLIENT_32], REDIRECT_URL))
         == Respond(Redirect(REDIRECT_URL))
  {
    Addresses();
    Network24();
    Host32();
    Containment();
    assert GetClientIp(ANONYMOUS.meta) == Ok(CLIENT_IP);
    ParseSingleEntry(NET_24);
    ParseSingleEntry(CLIENT_32);
    assert InSome([Network(167772674, 32)], 167772674);
  }
}

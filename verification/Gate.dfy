/**
 The inbound gate: the registry of a service's HTTP APIs, and the director that rewrites a request before it
 is proxied or decides the error to answer it with. Header keys are written in canonical form.
 */
module Gate {
  import opened Prelude
  import opened Paths
  import opened LastWriter

  // ---- The registry --------------------------------------------------------------------------------

  datatype HttpAPIInfo = HttpAPIInfo(fullPath: string, methods: seq<string>, supportedIdentityTypes: seq<string>)

  type Registry = map<string, HttpAPIInfo>

  function PathOf(info: HttpAPIInfo): string {
    info.fullPath
  }

  function Register(m: Registry, infos: seq<HttpAPIInfo>): Registry {
    PutAll(m, infos, PathOf)
  }

  /** A lookup finds what was reported last for its path, whenever it was reported. */
  lemma {:induction false} LookupIsLastReport(m: Registry, infos: seq<HttpAPIInfo>, path: string)
    ensures var last := LastOf(infos, PathOf, path);
            Lookup(Register(m, infos), path) == if last.Some? then last else Lookup(m, path)
  {
    LookupIsLast(m, infos, PathOf, path);
  }

  function RegisterBatches(m: Registry, batches: seq<seq<HttpAPIInfo>>): Registry
    decreases |batches|
  {
    if batches == [] then m else RegisterBatches(Register(m, batches[0]), batches[1..])
  }

  /** However the reports are batched, a lookup depends only on their order. */
  lemma {:induction false} BatchingIrrelevant(m: Registry, batches: seq<seq<HttpAPIInfo>>)
    ensures RegisterBatches(m, batches) == Register(m, Flatten(batches))
    decreases |batches|
  {
    if batches != [] {
      PutAllConcat(m, batches[0], Flatten(batches[1..]), PathOf);
      BatchingIrrelevant(Register(m, batches[0]), batches[1..]);
    }
  }

  // ---- Requests ------------------------------------------------------------------------------------

  type Header = map<string, seq<string>>

  function Get(h: Header, key: string): string {
    if key in h && h[key] != [] then h[key][0] else ""
  }

  function Set(h: Header, key: string, value: string): Header {
    h[key := [value]]
  }

  const FROM_DEPLOY := "X-From-Deploy-Id"
  const FROM_SERVICE := "X-From-Service-Id"
  const TARGET_DEPLOY := "X-Target-Deploy-Id"
  const TARGET_SERVICE := "X-Target-Service-Id"
  const AUTHORIZATION := "Authorization"
  const AUTH_CLAIMS := "X-Auth-Claims"
  const IDENTITY_TYPE := "X-Identity-Type"
  const UNAUTHORIZED := "unauthorized"

  datatype Certificate = Certificate(commonName: string, organizationalUnits: seq<string>)

  /** What the JWT library makes of a token. */
  datatype Token = ParseFailure | Token(valid: bool, claimsAreMap: bool, claims: string)

  type TokenParser = (Certificate, string) -> Token

  datatype StatusError = StatusError(statusCode: int, errorCode: int)

  const MISSING_TARGET_DEPLOY := StatusError(400, 40001)
  const MISSING_TARGET_SERVICE := StatusError(400, 40002)
  const TOKEN_NOT_PARSED := StatusError(400, 40003)
  const TOKEN_INVALID := StatusError(400, 40004)
  const CLAIMS_INVALID := StatusError(400, 0)
  const SERVICE_NOT_FOUND := StatusError(404, 40401)
  const PATH_NOT_FOUND := StatusError(404, 40402)
  const METHOD_NOT_FOUND := StatusError(404, 40403)
  const IDENTITY_UNSUPPORTED := StatusError(403, 40300)

  /** Panic stands for an index out of range, which ends the handling of the request. */
  datatype Verdict = Forward | Reject(e: StatusError) | Panic

  /** What the director decides about: the registry if the handler has a service, and the request. */
  datatype Request = Request(
    registry: Option<Registry>,
    path: string,
    httpMethod: string,
    header: Header,
    peers: seq<Certificate>)

  // ---- The policy ----------------------------------------------------------------------------------

  function Api(r: Request): Option<HttpAPIInfo> {
    if r.registry.Some? then Lookup(r.registry.value, After(r.path, SLASH)) else None
  }

  /** The API that a request reaches is the one that was reported last for the rest of its path after the first
      slash. */
  lemma ReportedIsReached(r: Request, m: Registry, infos: seq<HttpAPIInfo>, i: nat, head: string)
    requires i < |infos| && forall j :: i < j < |infos| ==> infos[j].fullPath != infos[i].fullPath
    requires r.registry == Some(Register(m, infos)) && '/' !in head && r.path == head + "/" + infos[i].fullPath
    ensures Api(r) == Some(infos[i])
  {
    LastIs(infos, PathOf, i);
    LookupIsLastReport(m, infos, infos[i].fullPath);
    AfterOfSome(head, infos[i].fullPath, SLASH);
  }

  lemma UnreportedIsNotReached(r: Request, m: Registry, infos: seq<HttpAPIInfo>, head: string, path: string)
    requires forall i :: 0 <= i < |infos| ==> infos[i].fullPath != path
    requires r.registry == Some(Register(m, infos)) && '/' !in head && r.path == head + "/" + path
    ensures Api(r) == if path in m then Some(m[path]) else None
  {
    LookupIsLastReport(m, infos, path);
    AfterOfSome(head, path, SLASH);
  }

  function Authorization(r: Request): string {
    Get(r.header, AUTHORIZATION)
  }

  /** The identity type a request claims: the first word of its Authorization value, if it has one. */
  function IdentityType(r: Request): string {
    if Authorization(r) == "" then UNAUTHORIZED else Before(Authorization(r), SPACE)
  }

  /** The second word of the Authorization value. */
  function Credential(r: Request): string {
    Before(After(Authorization(r), SPACE), SPACE)
  }

  function SupportedTypes(api: HttpAPIInfo): seq<string> {
    if api.supportedIdentityTypes == [] then [UNAUTHORIZED] else api.supportedIdentityTypes
  }

  function TokenOf(r: Request, parse: TokenParser): Token
    requires r.peers != []
  {
    parse(r.peers[0], Credential(r))
  }

  predicate IdentityProven(r: Request) {
    r.peers != [] && r.peers[0].organizationalUnits != []
  }

  /** The Authorization value, if there is one, has a second word. */
  predicate AuthorizationSplits(r: Request) {
    Authorization(r) == "" || SPACE in Authorization(r)
  }

  /** When a request may pass, with no order among the conditions. */
  predicate Policy(r: Request, parse: TokenParser) {
    && IdentityProven(r)
    && Get(r.header, TARGET_DEPLOY) != "" && Get(r.header, TARGET_SERVICE) != ""
    && Api(r).Some?
    && r.httpMethod in Api(r).value.methods
    && AuthorizationSplits(r)
    && IdentityType(r) in SupportedTypes(Api(r).value)
    && (IdentityType(r) == "jwt" ==>
          TokenOf(r, parse).Token? && TokenOf(r, parse).valid && TokenOf(r, parse).claimsAreMap)
  }

  /** The conditions in the order in which they are checked, each with the verdict when it fails. A
      condition counts as met when an earlier one leaves nothing for it to be about. */
  function Checks(r: Request, parse: TokenParser): seq<(bool, Verdict)> {
    var api := Api(r);
    var token := if r.peers == [] then ParseFailure else TokenOf(r, parse);
    var jwt := IdentityType(r) == "jwt";
    [ (IdentityProven(r), Panic),
      (Get(r.header, TARGET_DEPLOY) != "", Reject(MISSING_TARGET_DEPLOY)),
      (Get(r.header, TARGET_SERVICE) != "", Reject(MISSING_TARGET_SERVICE)),
      (r.registry.Some?, Reject(SERVICE_NOT_FOUND)),
      (api.Some?, Reject(PATH_NOT_FOUND)),
      (api.Some? ==> r.httpMethod in api.value.methods, Reject(METHOD_NOT_FOUND)),
      (AuthorizationSplits(r), Panic),
      (api.Some? ==> IdentityType(r) in SupportedTypes(api.value), Reject(IDENTITY_UNSUPPORTED)),
      (jwt ==> token.Token?, Reject(TOKEN_NOT_PARSED)),
      (jwt && token.Token? ==> token.valid, Reject(TOKEN_INVALID)),
      (jwt && token.Token? ==> token.claimsAreMap, Reject(CLAIMS_INVALID)) ]
  }

  function FirstFailure(checks: seq<(bool, Verdict)>): Verdict {
    if checks == [] then Forward else if checks[0].0 then FirstFailure(checks[1..]) else checks[0].1
  }

  lemma {:induction false} FirstFailureIs(checks: seq<(bool, Verdict)>, k: nat)
    requires k <= |checks| && forall i :: 0 <= i < k ==> checks[i].0
    requires k < |checks| ==> !checks[k].0
    ensures FirstFailure(checks) == if k < |checks| then checks[k].1 else Forward
    decreases |checks|
  {
    if k > 0 {
      FirstFailureIs(checks[1..], k - 1);
    }
  }

  /** The position of the first condition that is not met, or the end. */
  function FirstUnmet(checks: seq<(bool, Verdict)>): (k: nat)
    ensures k <= |checks| && forall i :: 0 <= i < k ==> checks[i].0
    ensures k < |checks| ==> !checks[k].0
  {
    if checks == [] || !checks[0].0 then 0
    else
      var k := FirstUnmet(checks[1..]);
      assert forall i :: 1 <= i < k + 1 ==> checks[i] == checks[1..][i - 1];
      k + 1
  }

  lemma PolicyIsAllChecks(r: Request, parse: TokenParser)
    ensures var c := Checks(r, parse);
            && |c| == 11
            && (Policy(r, parse) <==> c[0].0 && c[1].0 && c[2].0 && c[3].0 && c[4].0 && c[5].0 && c[6].0
                                      && c[7].0 && c[8].0 && c[9].0 && c[10].0)
    ensures forall i :: 0 <= i < |Checks(r, parse)| ==> Checks(r, parse)[i].1 != Forward
  {
  }

  /** A request is forwarded exactly when the policy allows it. */
  lemma ForwardIffPolicy(r: Request, parse: TokenParser)
    ensures FirstFailure(Checks(r, parse)) == Forward <==> Policy(r, parse)
  {
    hide Checks, Policy;
    var c := Checks(r, parse);
    PolicyIsAllChecks(r, parse);
    var k := FirstUnmet(c);
    FirstFailureIs(c, k);
  }

  /** Every error that is answered carries an error code of its status, except for claims of another kind
      than the JWT library was asked for, which carry none. */
  lemma ErrorCodesAgree(r: Request, parse: TokenParser, e: StatusError)
    requires FirstFailure(Checks(r, parse)) == Reject(e)
    ensures e.errorCode / 100 == e.statusCode <==> e != CLAIMS_INVALID
    ensures e == CLAIMS_INVALID ==> r.peers != [] && TokenOf(r, parse).Token? && !TokenOf(r, parse).claimsAreMap
  {
    var c := Checks(r, parse);
    var k := FirstUnmet(c);
    FirstFailureIs(c, k);
  }

  // ---- The same in terms of what is sent -----------------------------------------------------------

  /** The first value under the key is not empty. */
  predicate Sent(h: Header, key: string) {
    key in h && h[key] != [] && h[key][0] != ""
  }

  /** A request with a proven identity and both target headers, for a method of a registered API. */
  predicate Targeted(r: Request) {
    && r.peers != [] && r.peers[0].organizationalUnits != []
    && Sent(r.header, "X-Target-Deploy-Id") && Sent(r.header, "X-Target-Service-Id")
    && Api(r).Some? && r.httpMethod in Api(r).value.methods
  }

  /** Without an Authorization value, a request passes if the API's list of identity types is empty or contains
      "unauthorized". */
  lemma AnonymousForwardedIff(r: Request, parse: TokenParser)
    requires !Sent(r.header, "Authorization")
    ensures FirstFailure(Checks(r, parse)) == Forward
       <==> && Targeted(r)
            && var types := Api(r).value.supportedIdentityTypes; types == [] || "unauthorized" in types
  {
    hide FirstFailure, Checks, Api;
    ForwardIffPolicy(r, parse);
  }

  lemma AuthorizationFields(r: Request, idType: string, credential: string, more: string)
    requires Get(r.header, "Authorization") == idType + " " + credential + more
    requires ' ' !in idType && ' ' !in credential && (more == "" || more[0] == ' ')
    ensures IdentityType(r) == idType && Credential(r) == credential && AuthorizationSplits(r)
  {
    var value := Get(r.header, "Authorization");
    assert value == idType + " " + (credential + more);
    AfterOfSome(idType, credential + more, SPACE);
    if more == "" {
      BeforeWhole(credential, SPACE);
      assert credential + more == credential;
    } else {
      assert credential + more == credential + " " + more[1..];
      AfterOfSome(credential, more[1..], SPACE);
    }
  }

  /** Whether a request passes whose Authorization value is an identity type, a space and a credential, with
      perhaps more behind another space: the API has to accept the type, and for jwt the credential has to parse
      with the peer's certificate as a valid token with claims. */
  lemma AuthorizedForwardedIff(r: Request, parse: TokenParser, idType: string, credential: string, more: string)
    requires Sent(r.header, "Authorization") && r.header["Authorization"][0] == idType + " " + credential + more
    requires ' ' !in idType && ' ' !in credential && (more == "" || more[0] == ' ')
    ensures FirstFailure(Checks(r, parse)) == Forward
       <==> && Targeted(r)
            && (var types := Api(r).value.supportedIdentityTypes;
                if types == [] then idType == "unauthorized" else idType in types)
            && (idType == "jwt" ==>
                  var token := parse(r.peers[0], credential); token.Token? && token.valid && token.claimsAreMap)
  {
    hide FirstFailure, Checks, Api;
    ForwardIffPolicy(r, parse);
    AuthorizationFields(r, idType, credential, more);
  }

  lemma FirstOfEleven(c: seq<(bool, Verdict)>)
    requires |c| == 11
    ensures FirstFailure(c) == if !c[0].0 then c[0].1 else if !c[1].0 then c[1].1 else if !c[2].0 then c[2].1
                               else if !c[3].0 then c[3].1 else if !c[4].0 then c[4].1 else if !c[5].0 then c[5].1
                               else if !c[6].0 then c[6].1 else if !c[7].0 then c[7].1 else if !c[8].0 then c[8].1
                               else if !c[9].0 then c[9].1 else if !c[10].0 then c[10].1 else Forward
  {
    FirstFailureIs(c, FirstUnmet(c));
  }

  /** When each error is the answer. */
  lemma RejectedIff(r: Request, parse: TokenParser)
    ensures var v := FirstFailure(Checks(r, parse));
            var proven := r.peers != [] && r.peers[0].organizationalUnits != [];
            var deploy, service := Sent(r.header, "X-Target-Deploy-Id"), Sent(r.header, "X-Target-Service-Id");
            var addressed := proven && deploy && service;
            var divided := Sent(r.header, "Authorization") ==> ' ' in r.header["Authorization"][0];
            && (v == Reject(StatusError(400, 40001)) <==> proven && !deploy)
            && (v == Reject(StatusError(400, 40002)) <==> proven && deploy && !service)
            && (v == Reject(StatusError(404, 40401)) <==> addressed && r.registry.None?)
            && (v == Reject(StatusError(404, 40402)) <==> addressed && r.registry.Some? && Api(r).None?)
            && (v == Reject(StatusError(404, 40403)) <==> addressed && Api(r).Some? && !Targeted(r))
            && (v == Panic <==> !proven || (Targeted(r) && !divided))
  {
    hide Lookup, After, Before, FirstFailure;
    FirstOfEleven(Checks(r, parse));
  }

  /** And when the identity is what fails. */
  lemma UnidentifiedIff(r: Request, parse: TokenParser)
    requires Targeted(r) && AuthorizationSplits(r)
    ensures var v := FirstFailure(Checks(r, parse));
            var supported := IdentityType(r) in SupportedTypes(Api(r).value);
            var jwt, token := supported && IdentityType(r) == "jwt", TokenOf(r, parse);
            && (v == Reject(StatusError(403, 40300)) <==> !supported)
            && (v == Reject(StatusError(400, 40003)) <==> jwt && token.ParseFailure?)
            && (v == Reject(StatusError(400, 40004)) <==> jwt && token.Token? && !token.valid)
            && (v == Reject(StatusError(400, 0)) <==> jwt && token.Token? && token.valid && !token.claimsAreMap)
  {
    hide Lookup, After, Before, FirstFailure;
    FirstOfEleven(Checks(r, parse));
  }

  // ---- The handler ---------------------------------------------------------------------------------

  class ServiceInfo {
    var ID: string
    var Host: string
    var PathRouterInfoMap: map<string, HttpAPIInfo>

    constructor (id: string, host: string)
      ensures ID == id && Host == host && PathRouterInfoMap == map[]
    {
      ID, Host, PathRouterInfoMap := id, host, map[];
    }

    method AddHttpAPIInfo(apiInfos: seq<HttpAPIInfo>)
      modifies this`PathRouterInfoMap
      ensures PathRouterInfoMap == Register(old(PathRouterInfoMap), apiInfos)
    {
      for i := 0 to |apiInfos|
        invariant PathRouterInfoMap == Register(old(PathRouterInfoMap), apiInfos[..i])
      {
        assert apiInfos[..i + 1][..i] == apiInfos[..i];
        PathRouterInfoMap := PathRouterInfoMap[apiInfos[i].fullPath := apiInfos[i]];
      }
      assert apiInfos[..|apiInfos|] == apiInfos;
    }

    method GetAPIInfoByPath(fullPath: string) returns (r: Option<HttpAPIInfo>)
      ensures r == Lookup(PathRouterInfoMap, fullPath)
    {
      if fullPath !in PathRouterInfoMap {
        return None;
      }
      r := Some(PathRouterInfoMap[fullPath]);
    }
  }

  /** The copy of the request that the proxy sends on. */
  class OutgoingRequest {
    var scheme: string
    var path: string
    var rawPath: string
    var host: string
    var urlHost: string
    var header: Header
    const httpMethod: string

    constructor (path: string, rawPath: string, httpMethod: string, header: Header)
      ensures this.path == path && this.rawPath == rawPath
      ensures this.httpMethod == httpMethod && this.header == header
    {
      this.path, this.rawPath, this.httpMethod, this.header := path, rawPath, httpMethod, header;
      scheme, host, urlHost := "", "", "";
    }
  }

  /** The request's headers with the names of the peer's certificate put in. */
  function WithNames(r: Request): Header
    requires IdentityProven(r)
  {
    var cert := r.peers[0];
    Set(Set(r.header, FROM_DEPLOY, cert.organizationalUnits[0]), FROM_SERVICE, cert.commonName)
  }

  /** The first checks, one by one. */
  lemma TargetChecks(r: Request, parse: TokenParser)
    ensures var c := Checks(r, parse);
            && |c| == 11
            && c[0].0 == IdentityProven(r)
            && c[1] == (Get(r.header, TARGET_DEPLOY) != "", Reject(MISSING_TARGET_DEPLOY))
            && c[2] == (Get(r.header, TARGET_SERVICE) != "", Reject(MISSING_TARGET_SERVICE))
            && c[3] == (r.registry.Some?, Reject(SERVICE_NOT_FOUND))
            && c[4] == (Api(r).Some?, Reject(PATH_NOT_FOUND))
            && c[5] == (Api(r).Some? ==> r.httpMethod in Api(r).value.methods, Reject(METHOD_NOT_FOUND))
  {
  }

  /** The headers of a forwarded request: the certificate's names, whatever the request said, and what the
      identity type adds. */
  function ForwardedHeader(r: Request, parse: TokenParser): Header
    requires IdentityProven(r)
  {
    var h := WithNames(r);
    if IdentityType(r) == "rpc" then h
    else if IdentityType(r) == "jwt" then
      (if TokenOf(r, parse).Token? then Set(h, AUTH_CLAIMS, TokenOf(r, parse).claims) else h)
    else Set(h, IDENTITY_TYPE, UNAUTHORIZED)
  }

  lemma HeaderKeysDiffer()
    ensures FROM_DEPLOY != TARGET_DEPLOY && FROM_DEPLOY != TARGET_SERVICE
    ensures FROM_SERVICE != TARGET_DEPLOY && FROM_SERVICE != TARGET_SERVICE
    ensures FROM_DEPLOY != FROM_SERVICE && FROM_DEPLOY != AUTH_CLAIMS && FROM_DEPLOY != IDENTITY_TYPE
    ensures FROM_SERVICE != AUTH_CLAIMS && FROM_SERVICE != IDENTITY_TYPE
  {
  }

  /** What the gate puts under a key, if anything: always the names of the certificate; the claims of the token if
      the identity type is jwt; and "unauthorized" if it is neither jwt nor rpc. */
  function GateValue(r: Request, parse: TokenParser, key: string): Option<string>
    requires IdentityProven(r)
  {
    var t := IdentityType(r);
    if key == FROM_DEPLOY then Some(r.peers[0].organizationalUnits[0])
    else if key == FROM_SERVICE then Some(r.peers[0].commonName)
    else if key == AUTH_CLAIMS && t == "jwt" && TokenOf(r, parse).Token? then Some(TokenOf(r, parse).claims)
    else if key == IDENTITY_TYPE && t != "jwt" && t != "rpc" then Some(UNAUTHORIZED)
    else None
  }

  /** Under every key goes out what the gate puts there, or else what came in: an identity type, or claims, that
      the gate has not checked included. */
  lemma ForwardedValues(r: Request, parse: TokenParser, key: string)
    requires IdentityProven(r)
    ensures Lookup(ForwardedHeader(r, parse), key)
         == if GateValue(r, parse, key).Some? then Some([GateValue(r, parse, key).value]) else Lookup(r.header, key)
  {
    hide IdentityType, TokenOf;
    HeaderKeysDiffer();
  }

  /** The same request with another value under a key. */
  function Incoming(r: Request, key: string, value: seq<string>): Request {
    r.(header := r.header[key := value])
  }

  /** What goes out under a key does not depend on what came in under it. */
  ghost predicate GatesOwn(r: Request, parse: TokenParser, key: string)
    requires IdentityProven(r)
  {
    forall value ::
      Lookup(ForwardedHeader(Incoming(r, key, value), parse), key) == Lookup(ForwardedHeader(r, parse), key)
  }

  lemma OtherKeysDecide(r: Request, parse: TokenParser, key: string, value: seq<string>)
    requires IdentityProven(r)
    ensures key != AUTHORIZATION ==> GateValue(Incoming(r, key, value), parse, key) == GateValue(r, parse, key)
    ensures key == AUTHORIZATION ==> GateValue(Incoming(r, key, value), parse, key).None?
  {
    hide Before, After;
  }

  /** Of a forwarded request, a service behind the gate can rely on the value under a key exactly if it is a name of
      the certificate, the claims of a jwt request, or the type of a request that is neither jwt nor rpc. */
  lemma GatesOwnIff(r: Request, parse: TokenParser, key: string)
    requires Policy(r, parse)
    ensures GatesOwn(r, parse, key)
       <==> || key == "X-From-Deploy-Id" || key == "X-From-Service-Id"
            || (key == "X-Auth-Claims" && IdentityType(r) == "jwt")
            || (key == "X-Identity-Type" && IdentityType(r) != "jwt" && IdentityType(r) != "rpc")
  {
    hide IdentityType, TokenOf, ForwardedHeader, Api;
    forall value
      ensures GateValue(r, parse, key).Some? ==>
                Lookup(ForwardedHeader(Incoming(r, key, value), parse), key) == Lookup(ForwardedHeader(r, parse), key)
    {
      ForwardedValues(r, parse, key);
      ForwardedValues(Incoming(r, key, value), parse, key);
      OtherKeysDecide(r, parse, key, value);
    }
    if GateValue(r, parse, key).None? {
      var value := if key in r.header then r.header[key] + [""] else [""];
      ForwardedValues(r, parse, key);
      ForwardedValues(Incoming(r, key, value), parse, key);
      OtherKeysDecide(r, parse, key, value);
    }
  }

  class ServiceRouteHandler {
    const serviceInfo: ServiceInfo?

    constructor (info: ServiceInfo?)
      ensures serviceInfo == info
    {
      serviceInfo := info;
    }

    /** What the director sees of a request and of the handler. */
    function View(req: OutgoingRequest, peers: seq<Certificate>): Request
      reads req, serviceInfo
    {
      Request(if serviceInfo == null then None else Some(serviceInfo.PathRouterInfoMap),
              req.path, req.httpMethod, req.header, peers)
    }

    /** The last part of the director: the identity that the Authorization value claims. */
    method CheckIdentity(req: OutgoingRequest, ghost r: Request, apiInfo: HttpAPIInfo, cert: Certificate,
                         authHeaderValue: string, parse: TokenParser) returns (v: Verdict)
      requires IdentityProven(r) && cert == r.peers[0] && Api(r) == Some(apiInfo) && authHeaderValue == Authorization(r)
      requires forall i :: 0 <= i < 6 ==> Checks(r, parse)[i].0
      requires req.header == WithNames(r)
      modifies req`header
      ensures v == FirstFailure(Checks(r, parse))
      ensures v == Forward ==> req.header == ForwardedHeader(r, parse)
    {
      hide FirstFailure, Split, Before, After;
      ghost var c := Checks(r, parse);
      var identityType := UNAUTHORIZED;
      var identityRawValue := "";
      if authHeaderValue != "" {
        SplitFields(authHeaderValue, SPACE);
        var parts := Split(authHeaderValue, SPACE);
        identityType := parts[0];
        if |parts| < 2 {
          FirstFailureIs(c, 6);
          return Panic;
        }
        identityRawValue := parts[1];
      }
      var supported := apiInfo.supportedIdentityTypes;
      if supported == [] {
        supported := supported + [UNAUTHORIZED];
      }
      if identityType !in supported {
        FirstFailureIs(c, 7);
        return Reject(IDENTITY_UNSUPPORTED);
      }
      if identityType == "rpc" {
        FirstFailureIs(c, 11);
        return Forward;
      } else if identityType == "jwt" {
        var token := parse(cert, identityRawValue);
        if token.ParseFailure? {
          FirstFailureIs(c, 8);
          return Reject(TOKEN_NOT_PARSED);
        }
        if !token.valid {
          FirstFailureIs(c, 9);
          return Reject(TOKEN_INVALID);
        }
        FirstFailureIs(c, if token.claimsAreMap then 11 else 10);
        v := Forward;
        if !token.claimsAreMap {
          v := Reject(CLAIMS_INVALID);
        }
        req.header := Set(req.header, AUTH_CLAIMS, token.claims);
      } else {
        FirstFailureIs(c, 11);
        req.header := Set(req.header, IDENTITY_TYPE, UNAUTHORIZED);
        v := Forward;
      }
    }

    /** The middle part of the director: the target headers, the service, and the API. */
    method CheckTarget(req: OutgoingRequest, ghost r: Request, cert: Certificate, authHeaderValue: string,
                       parse: TokenParser) returns (v: Verdict)
      requires IdentityProven(r) && cert == r.peers[0] && authHeaderValue == Authorization(r)
      requires r.registry == if serviceInfo == null then None else Some(serviceInfo.PathRouterInfoMap)
      requires req.path == After(r.path, SLASH) && req.httpMethod == r.httpMethod && req.header == WithNames(r)
      modifies req`header, req`host, req`urlHost
      ensures v == FirstFailure(Checks(r, parse))
      ensures v == Forward ==> req.header == ForwardedHeader(r, parse)
      ensures v == Forward ==> serviceInfo != null && req.host == req.urlHost == serviceInfo.Host
    {
      hide FirstFailure, Checks, After, ForwardedHeader;
      ghost var c := Checks(r, parse);
      TargetChecks(r, parse);
      HeaderKeysDiffer();
      if Get(req.header, TARGET_DEPLOY) == "" {
        FirstFailureIs(c, 1);
        return Reject(MISSING_TARGET_DEPLOY);
      }
      if Get(req.header, TARGET_SERVICE) == "" {
        FirstFailureIs(c, 2);
        return Reject(MISSING_TARGET_SERVICE);
      }
      if serviceInfo == null {
        FirstFailureIs(c, 3);
        return Reject(SERVICE_NOT_FOUND);
      }
      req.host := serviceInfo.Host;
      req.urlHost := serviceInfo.Host;
      var apiInfo := serviceInfo.GetAPIInfoByPath(req.path);
      if apiInfo.None? {
        FirstFailureIs(c, 4);
        return Reject(PATH_NOT_FOUND);
      }
      if req.httpMethod !in apiInfo.value.methods {
        FirstFailureIs(c, 5);
        return Reject(METHOD_NOT_FOUND);
      }
      v := CheckIdentity(req, r, apiInfo.value, cert, authHeaderValue, parse);
    }

    /** Rewrites the request and decides. The verdict is that of the first check that fails; the registry
        is left as it is, so handling a request changes no later verdict. */
    method Director(req: OutgoingRequest, peers: seq<Certificate>, parse: TokenParser) returns (v: Verdict)
      modifies req
      ensures v == FirstFailure(Checks(old(View(req, peers)), parse))
      ensures req.path == ApiPath(old(req.path))
      ensures req.rawPath == if old(req.rawPath) == "" then "" else ApiPath(old(req.path))
      ensures req.scheme == old(req.scheme)
      ensures v == Forward ==> req.header == ForwardedHeader(old(View(req, peers)), parse)
      ensures v == Forward ==> serviceInfo != null && req.host == req.urlHost == serviceInfo.Host
    {
      hide FirstFailure, Split, Join, Before, After;
      ghost var r := View(req, peers);
      ghost var c := Checks(r, parse);
      ApiPathIsAfterSlash(req.path);
      var authHeaderValue := Get(req.header, AUTHORIZATION);
      var apiPath := Join(Split(req.path, SLASH)[1..], SLASH);
      req.path := apiPath;
      if req.rawPath != "" {
        req.rawPath := apiPath;
      }
      if peers == [] || peers[0].organizationalUnits == [] {
        FirstFailureIs(c, 0);
        return Panic;
      }
      var cert := peers[0];
      req.header := Set(req.header, FROM_DEPLOY, cert.organizationalUnits[0]);
      req.header := Set(req.header, FROM_SERVICE, cert.commonName);
      v := CheckTarget(req, r, cert, authHeaderValue, parse);
    }
  }
}

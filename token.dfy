/**
 * The token gate of the HTTP service. Requests other than GET and POST carry
 * an `Authorization: Bearer <token>` header and name a domain through the
 * route variable `fqdn`; they reach the next handler only when the token
 * matches the token origin the backend keeps for that domain. The token is
 * the base64 text of a bcrypt hash of the origin; base64, bcrypt and the
 * backend lookup are parameters of the model.
 */
module Token {
  import opened GoStrings
  import opened Outcomes

  /** A base domain has four labels: `<cluster_id>.lb.rancher.cloud`. */
  const BaseLabels := 4

  const MethodGet := "GET"
  const MethodPost := "POST"
  const StatusForbidden := 403
  const NoFqdnMessage := "Must specific the fqdn"
  const ForbiddenMessage := "Forbidden to use"

  /** strings.TrimLeft treats "Bearer " as the set of characters B, e, a, r and space. */
  const BearerCutset := "Bearer "

  // ---------------------------------------------------------------------------
  // getBaseFqdn

  /** The base fqdn: the last four labels, or the whole name when it has fewer. */
  function BaseFqdn(fqdn: string): (r: string)
    ensures |Labels(fqdn)| < BaseLabels ==> r == fqdn
    ensures |Labels(fqdn)| >= BaseLabels ==> Labels(r) == Labels(fqdn)[|Labels(fqdn)| - BaseLabels..]
  {
    var slice := Labels(fqdn);
    if |slice| < BaseLabels then fqdn
    else
      LabelsNoDot(fqdn);
      LabelsOfJoin(slice[|slice| - BaseLabels..]);
      Join(slice[|slice| - BaseLabels..], ".")
  }

  /** A base fqdn never has more than four labels, so taking it twice changes nothing. */
  lemma BaseFqdnIdempotent(fqdn: string)
    ensures |Labels(BaseFqdn(fqdn))| <= BaseLabels
    ensures BaseFqdn(BaseFqdn(fqdn)) == BaseFqdn(fqdn)
  {
    var r := BaseFqdn(fqdn);
    if |Labels(fqdn)| >= BaseLabels {
      assert Labels(r)[|Labels(r)| - BaseLabels..] == Labels(r);
      JoinLabels(r);
    }
  }

  /** Past four labels the base fqdn is what follows the leading labels and their dot. */
  lemma BaseFqdnSuffix(fqdn: string)
    requires |Labels(fqdn)| > BaseLabels
    ensures var ls := Labels(fqdn);
      fqdn == Join(ls[..|ls| - BaseLabels], ".") + "." + BaseFqdn(fqdn)
  {
    var ls := Labels(fqdn);
    var k := |ls| - BaseLabels;
    assert ls == ls[..k] + ls[k..];
    JoinAppend(ls[..k], ls[k..], ".");
    JoinLabels(fqdn);
  }

  /** Any name in front of a four-label base maps back to that base. */
  lemma BaseFqdnOfChild(prefix: string, base: string)
    requires |Labels(base)| == BaseLabels
    ensures BaseFqdn(prefix + "." + base) == base
  {
    LabelsConcat(prefix, base);
    var ls := Labels(prefix + "." + base);
    assert ls[|ls| - BaseLabels..] == Labels(base);
    JoinLabels(base);
  }

  // ---------------------------------------------------------------------------
  // The bearer token

  /** The token of an Authorization header: every leading B, e, a, r and space is cut. */
  function BearerToken(authorization: string): (token: string)
    ensures |token| <= |authorization| && authorization[|authorization| - |token|..] == token
    ensures forall i :: 0 <= i < |authorization| - |token| ==> authorization[i] in BearerCutset
    ensures token != "" ==> token[0] !in BearerCutset
  {
    TrimLeftShape(authorization, BearerCutset);
    TrimLeft(authorization, BearerCutset)
  }

  /** A token that does not start with a cutset character comes back whole from "Bearer " + token. */
  lemma BearerTokenOf(token: string)
    requires token == "" || token[0] !in BearerCutset
    ensures BearerToken("Bearer " + token) == token
  {
    TrimLeftCutPrefix("Bearer ", token, BearerCutset);
  }

  /** A token that starts with a cutset character loses it: "Bearer abc" gives "bc". */
  lemma BearerTokenCutsLeading(token: string)
    requires token == "abc"
    ensures BearerToken("Bearer " + token) == "bc"
  {
    assert "Bearer " + token == "Bearer a" + "bc";
    TrimLeftCutPrefix("Bearer a", "bc", BearerCutset);
  }

  // ---------------------------------------------------------------------------
  // generateToken and compareToken

  /**
   * What the token functions call but the model does not see: base64 decoding,
   * the backend's GetTokenOrigin, and bcrypt's CompareHashAndPassword (true on a match).
   */
  datatype Oracles = Oracles(
    decode: string -> Option<seq<bv8>>,
    origin: string -> Option<string>,
    matches: (seq<bv8>, string) -> bool)

  datatype Error = OriginFailed | HashFailed

  /** generateToken: the base64 text of a bcrypt hash of the domain's token origin. */
  function GenerateToken(fqdn: string, env: Oracles, hash: string -> Option<seq<bv8>>, encode: seq<bv8> -> string)
    : (r: Result<string, Error>)
    ensures env.origin(fqdn).None? ==> r == Err(OriginFailed)
    ensures env.origin(fqdn).Some? && hash(env.origin(fqdn).value).None? ==> r == Err(HashFailed)
    ensures r.Ok? ==> exists h :: hash(env.origin(fqdn).value) == Some(h) && r.value == encode(h)
  {
    match env.origin(fqdn)
    case None => Err(OriginFailed)
    case Some(origin) =>
      match hash(origin)
      case None => Err(HashFailed)
      case Some(h) => Ok(encode(h))
  }

  /**
   * compareToken: false when the token is not base64, when the origin lookup
   * fails, or when the hash does not match the origin.
   */
  function CompareToken(fqdn: string, token: string, env: Oracles): (ok: bool)
    ensures env.decode(token).None? ==> !ok
    ensures env.origin(fqdn).None? ==> !ok
    ensures ok <==> env.decode(token).Some? && env.origin(fqdn).Some? &&
                    env.matches(env.decode(token).value, env.origin(fqdn).value)
  {
    match env.decode(token)
    case None => false
    case Some(h) =>
      match env.origin(fqdn)
      case None => false
      case Some(origin) => env.matches(h, origin)
  }

  /**
   * A generated token is accepted for its domain, given that base64 decoding
   * inverts encoding and that bcrypt accepts a hash against the text it was
   * made from.
   */
  lemma GeneratedTokenAccepted(fqdn: string, env: Oracles, hash: string -> Option<seq<bv8>>, encode: seq<bv8> -> string)
    requires forall h :: env.decode(encode(h)) == Some(h)
    requires forall o, h :: hash(o) == Some(h) ==> env.matches(h, o)
    requires GenerateToken(fqdn, env, hash, encode).Ok?
    ensures CompareToken(fqdn, GenerateToken(fqdn, env, hash, encode).value, env)
  {
    var o := env.origin(fqdn).value;
    var h := hash(o).value;
    assert env.decode(encode(h)) == Some(h);
  }

  // ---------------------------------------------------------------------------
  // tokenMiddleware

  /** What the middleware sees of a request: its HTTP method, its Authorization header and its route variable. */
  datatype Request = Request(verb: string, authorization: string, fqdn: Option<string>)

  /** Pass the request on, or answer it with an HTTP error. */
  datatype Decision = Next | Reject(status: int, message: string)

  /** The middleware's decision on a request. */
  function Gate(req: Request, env: Oracles): (d: Decision)
    ensures req.verb == MethodGet || req.verb == MethodPost ==> d == Next
    ensures req.verb != MethodGet && req.verb != MethodPost && req.fqdn.None? ==>
      d == Reject(StatusForbidden, NoFqdnMessage)
    ensures req.verb != MethodGet && req.verb != MethodPost && req.fqdn.Some? ==>
      (d == Next <==> CompareToken(req.fqdn.value, BearerToken(req.authorization), env)) &&
      (d != Next ==> d == Reject(StatusForbidden, ForbiddenMessage))
  {
    if req.verb != MethodGet && req.verb != MethodPost then
      var token := BearerToken(req.authorization);
      match req.fqdn
      case Some(fqdn) =>
        if !CompareToken(fqdn, token, env) then Reject(StatusForbidden, ForbiddenMessage) else Next
      case None => Reject(StatusForbidden, NoFqdnMessage)
    else
      Next
  }

  /**
   * A request sending "Bearer " and a generated token for its fqdn passes,
   * whatever its method, when the token does not start with a cutset character.
   */
  lemma GeneratedTokenPasses(req: Request, env: Oracles, hash: string -> Option<seq<bv8>>, encode: seq<bv8> -> string)
    requires forall h :: env.decode(encode(h)) == Some(h)
    requires forall o, h :: hash(o) == Some(h) ==> env.matches(h, o)
    requires req.fqdn.Some? && GenerateToken(req.fqdn.value, env, hash, encode).Ok?
    requires var t := GenerateToken(req.fqdn.value, env, hash, encode).value;
      req.authorization == "Bearer " + t && (t == "" || t[0] !in BearerCutset)
    ensures Gate(req, env) == Next
  {
    var t := GenerateToken(req.fqdn.value, env, hash, encode).value;
    BearerTokenOf(t);
    GeneratedTokenAccepted(req.fqdn.value, env, hash, encode);
  }
}

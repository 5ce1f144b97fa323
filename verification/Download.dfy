/** The fail-closed asset download: a redirect loop, a bounded chunk loop, a temporary file and one
    atomic replacement. The server, the resolver and the file system are arbitrary: a World fixes what
    each of them does at every step, and every theorem holds for all Worlds. */
module Download {
  import opened Common

  type byte = x: int | 0 <= x < 256

  type Bytes = seq<byte>

  datatype Ip = Ip(text: string)

  datatype Port = Default | Number(n: int) | Malformed

  /** What the URL parser reports; an absent host or fragment is the empty string. */
  datatype UrlParts = UrlParts(scheme: string, hostname: string, userInfo: bool, fragment: string, port: Port)

  /** Library functions the protocol calls. None is a raised ValueError or UnicodeError. */
  datatype Platform = Platform(
    split: string -> Option<UrlParts>,
    join: (string, string) -> Option<string>,
    trimHost: string -> string,
    idna: string -> Option<string>,
    trim: string -> string,
    fold: string -> string,
    parseIp: string -> Option<Ip>,
    isGlobal: Ip -> bool,
    parseInt: string -> Option<int>,
    sha256: Bytes -> string)

  datatype Response = Response(
    peer: Option<string>, status: int, location: Option<string>, contentType: Option<string>,
    contentLength: Option<string>, chunks: seq<Bytes>, broken: bool)

  /** Which operations raise: those on files, with `write` the position of the chunk whose write fails, and
      `close`, the closing of the last response and of the client, which comes after everything but the
      removal of the temporary file. */
  datatype Faults = Faults(
    create: bool, write: Option<nat>, sync: bool, replace: bool, unlink: bool, close: bool)

  /** `resolve` and `respond` are indexed by the number of lookups and requests made before. A None
      answer of `respond` is a transport error; `broken` is one in the middle of the body. */
  datatype World = World(
    symlink: bool,
    resolve: (nat, string) -> Option<seq<string>>,
    respond: (nat, string) -> Option<Response>,
    faults: Faults)

  datatype Failure =
    | EmptyHost | InvalidIdna | NoHosts | NoTypes | ByteLimit | RedirectRange | BadDigest
    | ControlCharacter | MalformedUrl | NotHttps | NoHost | UserInfo | Fragment | MalformedPort
    | WrongPort | HostNotAllowed | ResolutionFailed | InvalidIp | NonPublicIp | NoAddresses
    | NoPeer | PeerMismatch | RedirectLimit | NoLocation | MalformedLocation | HttpStatus(code: int)
    | WrongType | InvalidLength | LengthLimit | BodyLimit | DigestMismatch | SymbolicLink
    | Transport | FileSystem

  // ----- the policy -----

  datatype Policy = Policy(hosts: set<string>, types: set<string>, maxBytes: int, sha256: string, maxRedirects: int)

  predicate IsDigest(s: string) {
    |s| == 64 && forall i | 0 <= i < 64 :: '0' <= s[i] <= '9' || 'a' <= s[i] <= 'f'
  }

  lemma DigestExactly(s: string)
    ensures IsDigest(s) <==>
            |s| == 64 && forall i | 0 <= i < 64 ::
              s[i] in {'0', '1', '2', '3', '4', '5', '6', '7', '8', '9', 'a', 'b', 'c', 'd', 'e', 'f'}
  {
  }

  predicate ValidPolicy(policy: Policy) {
    && policy.hosts != {} && policy.types != {} && policy.maxBytes > 0
    && 0 <= policy.maxRedirects <= 5 && IsDigest(policy.sha256)
  }

  function NormalizeHost(p: Platform, host: string): Result<string, Failure> {
    var value := p.trimHost(host);
    if value == "" then Err(EmptyHost)
    else match p.idna(value)
      case None => Err(InvalidIdna)
      case Some(name) => Ok(p.fold(name))
  }

  /** What a normalized host is: trimmed, in its IDNA form, folded. */
  predicate HasNormalForm(p: Platform, host: string) {
    p.trimHost(host) != "" && p.idna(p.trimHost(host)).Some?
  }

  function NormalForm(p: Platform, host: string): string {
    if HasNormalForm(p, host) then p.fold(p.idna(p.trimHost(host)).value) else ""
  }

  function NormalizeHosts(p: Platform, hosts: seq<string>): Result<set<string>, Failure> {
    if hosts == [] then Ok({})
    else match NormalizeHost(p, hosts[0])
      case Err(e) => Err(e)
      case Ok(h) => match NormalizeHosts(p, hosts[1..])
        case Err(e) => Err(e)
        case Ok(hs) => Ok({h} + hs)
  }

  /** `AssetDownloadPolicy.__post_init__`: the only way to a policy, so every policy is valid. */
  function MakePolicy(p: Platform, hosts: seq<string>, types: seq<string>, maxBytes: int, sha256: string,
                      maxRedirects: int): (r: Result<Policy, Failure>)
    ensures r.Ok? ==> ValidPolicy(r.value)
    ensures r.Ok? <==> && hosts != [] && types != [] && maxBytes > 0 && 0 <= maxRedirects <= 5
                       && IsDigest(p.fold(p.trim(sha256))) && forall h | h in hosts :: HasNormalForm(p, h)
    ensures r.Ok? ==>
            && r.value.maxBytes == maxBytes && r.value.maxRedirects == maxRedirects
            && r.value.sha256 == p.fold(p.trim(sha256))
            && (forall t :: t in r.value.types <==> exists i | 0 <= i < |types| :: t == p.fold(p.trim(types[i])))
            && (forall n :: n in r.value.hosts <==> exists i | 0 <= i < |hosts| :: n == NormalForm(p, hosts[i]))
  {
    NormalizeHostsTotal(p, hosts);
    match NormalizeHosts(p, hosts)
    case Err(e) => Err(e)
    case Ok(normalized) =>
      var folded := set t | t in types :: p.fold(p.trim(t));
      var digest := p.fold(p.trim(sha256));
      if normalized == {} then Err(NoHosts)
      else if types == [] then Err(NoTypes)
      else if maxBytes <= 0 then Err(ByteLimit)
      else if maxRedirects < 0 || maxRedirects > 5 then Err(RedirectRange)
      else if !IsDigest(digest) then Err(BadDigest)
      else
        assert p.fold(p.trim(types[0])) in folded;
        assert forall i | 0 <= i < |types| :: types[i] in types;
        Ok(Policy(normalized, folded, maxBytes, digest, maxRedirects))
  }

  lemma {:induction false} NormalizeHostsTotal(p: Platform, hosts: seq<string>)
    ensures NormalizeHosts(p, hosts).Ok? <==> forall h | h in hosts :: HasNormalForm(p, h)
    ensures NormalizeHosts(p, hosts).Ok? ==> (NormalizeHosts(p, hosts).value == {} <==> hosts == [])
    ensures NormalizeHosts(p, hosts).Ok? ==>
            forall n :: n in NormalizeHosts(p, hosts).value <==>
                        exists i | 0 <= i < |hosts| :: n == NormalForm(p, hosts[i])
  {
    if hosts != [] {
      NormalizeHostsTotal(p, hosts[1..]);
      NormalizeHostExactly(p, hosts[0]);
      assert hosts == [hosts[0]] + hosts[1..];
      if NormalizeHosts(p, hosts).Ok? {
        forall n
          ensures n in NormalizeHosts(p, hosts).value <==>
                  exists i | 0 <= i < |hosts| :: n == NormalForm(p, hosts[i])
        {
          if n in NormalizeHosts(p, hosts[1..]).value {
            var i :| 0 <= i < |hosts| - 1 && n == NormalForm(p, hosts[1..][i]);
            assert hosts[i + 1] == hosts[1..][i];
          }
          if i :| 0 < i < |hosts| && n == NormalForm(p, hosts[i]) {
            assert hosts[1..][i - 1] == hosts[i];
          }
        }
      }
    }
  }

  lemma NormalizeHostExactly(p: Platform, host: string)
    ensures NormalizeHost(p, host).Ok? <==> HasNormalForm(p, host)
    ensures NormalizeHost(p, host).Ok? ==> NormalizeHost(p, host).value == NormalForm(p, host)
  {
  }

  // ----- the pure checks -----

  function BeforePercent(s: string): (r: string)
    ensures r <= s && '%' !in r && (|r| < |s| ==> s[|r|] == '%')
  {
    if s == "" || s[0] == '%' then "" else [s[0]] + BeforePercent(s[1..])
  }

  function ParseGlobalIp(p: Platform, raw: string): Result<Ip, Failure> {
    match p.parseIp(BeforePercent(raw))
    case None => Err(InvalidIp)
    case Some(ip) => if p.isGlobal(ip) then Ok(ip) else Err(NonPublicIp)
  }

  function ParseGlobalIps(p: Platform, raws: seq<string>): Result<set<Ip>, Failure> {
    if raws == [] then Ok({})
    else match ParseGlobalIp(p, raws[0])
      case Err(e) => Err(e)
      case Ok(ip) => match ParseGlobalIps(p, raws[1..])
        case Err(e) => Err(e)
        case Ok(ips) => Ok({ip} + ips)
  }

  /** The part of `validate_remote_url` before the lookup: the normalized, allowlisted host. */
  function ValidateUrl(p: Platform, policy: Policy, url: string): Result<string, Failure> {
    if exists c | c in url :: c < ' ' then Err(ControlCharacter)
    else match p.split(url)
      case None => Err(MalformedUrl)
      case Some(parts) =>
        if p.fold(parts.scheme) != "https" then Err(NotHttps)
        else if parts.hostname == "" then Err(NoHost)
        else if parts.userInfo then Err(UserInfo)
        else if parts.fragment != "" then Err(Fragment)
        else if parts.port == Malformed then Err(MalformedPort)
        else if parts.port != Default && parts.port != Number(443) then Err(WrongPort)
        else match NormalizeHost(p, parts.hostname)
          case Err(e) => Err(e)
          case Ok(host) => if host in policy.hosts then Ok(host) else Err(HostNotAllowed)
  }

  /** `validate_remote_url` at the given lookup: the addresses the host resolved to, all public. */
  function Validate(p: Platform, w: World, policy: Policy, url: string, lookup: nat): Result<set<Ip>, Failure> {
    match ValidateUrl(p, policy, url)
    case Err(e) => Err(e)
    case Ok(host) => match w.resolve(lookup, host)
      case None => Err(ResolutionFailed)
      case Some(raws) => match ParseGlobalIps(p, raws)
        case Err(e) => Err(e)
        case Ok(ips) => if ips == {} then Err(NoAddresses) else Ok(ips)
  }

  function ValidatePeer(p: Platform, response: Response, expected: set<Ip>): (r: Result<Ip, Failure>)
    ensures r.Ok? ==> r.value in expected
  {
    if response.peer == None || response.peer.value == "" then Err(NoPeer)
    else match ParseGlobalIp(p, response.peer.value)
      case Err(e) => Err(e)
      case Ok(ip) => if ip in expected then Ok(ip) else Err(PeerMismatch)
  }

  function BeforeSemicolon(s: string): (r: string)
    ensures r <= s && ';' !in r && (|r| < |s| ==> s[|r|] == ';')
  {
    if s == "" || s[0] == ';' then "" else [s[0]] + BeforeSemicolon(s[1..])
  }

  function ContentType(p: Platform, policy: Policy, response: Response): Result<string, Failure> {
    var raw := if response.contentType == None then "" else response.contentType.value;
    var mediaType := p.fold(p.trim(BeforeSemicolon(raw)));
    if mediaType in policy.types then Ok(mediaType) else Err(WrongType)
  }

  function ContentLengthFailure(p: Platform, policy: Policy, response: Response): Option<Failure> {
    match response.contentLength
    case None => None
    case Some(raw) => match p.parseInt(raw)
      case None => Some(InvalidLength)
      case Some(n) => if n < 0 || n > policy.maxBytes then Some(LengthLimit) else None
  }

  predicate IsRedirect(status: int) {
    status == 301 || status == 302 || status == 303 || status == 307 || status == 308
  }

  // ----- what the checks mean -----

  /** An https URL on the default port, without control characters, user information or fragment, whose
      normalized host is allowed. */
  predicate AllowedUrl(p: Platform, policy: Policy, url: string) {
    && (forall i | 0 <= i < |url| :: url[i] as int >= 32)
    && p.split(url).Some?
    && var parts := p.split(url).value;
       && p.fold(parts.scheme) == "https" && parts.hostname != "" && !parts.userInfo && parts.fragment == ""
       && (parts.port == Default || parts.port == Number(443))
       && HasNormalForm(p, parts.hostname) && NormalForm(p, parts.hostname) in policy.hosts
  }

  /** The text before any scope denotes a public address. */
  predicate IsPublic(p: Platform, raw: string) {
    p.parseIp(BeforePercent(raw)).Some? && p.isGlobal(p.parseIp(BeforePercent(raw)).value)
  }

  function AddressOf(p: Platform, raw: string): Ip
    requires IsPublic(p, raw)
  {
    p.parseIp(BeforePercent(raw)).value
  }

  /** The lookup returned at least one address, all are public, and these are the addresses. */
  predicate Resolved(p: Platform, w: World, host: string, lookup: nat, addresses: set<Ip>) {
    && w.resolve(lookup, host).Some?
    && var raws := w.resolve(lookup, host).value;
       raws != [] && (forall raw | raw in raws :: IsPublic(p, raw))
       && addresses == set raw | raw in raws :: AddressOf(p, raw)
  }

  predicate ValidatedAt(p: Platform, w: World, policy: Policy, url: string, lookup: nat, addresses: set<Ip>) {
    AllowedUrl(p, policy, url) && Resolved(p, w, NormalForm(p, p.split(url).value.hostname), lookup, addresses)
  }

  predicate AnsweredBy(p: Platform, response: Response, peer: Ip) {
    response.peer.Some? && response.peer.value != ""
    && IsPublic(p, response.peer.value) && AddressOf(p, response.peer.value) == peer
  }

  lemma {:induction false} AddressesExactly(p: Platform, raws: seq<string>)
    ensures ParseGlobalIps(p, raws).Ok? <==> forall raw | raw in raws :: IsPublic(p, raw)
    ensures ParseGlobalIps(p, raws).Ok? ==> ParseGlobalIps(p, raws).value == set raw | raw in raws :: AddressOf(p, raw)
  {
    if raws != [] {
      var rest := raws[1..];
      AddressesExactly(p, rest);
      AddressExactly(p, raws[0]);
      hide IsPublic, AddressOf, ParseGlobalIp;
      assert forall raw :: raw in raws <==> raw == raws[0] || raw in rest;
    }
  }

  lemma AddressExactly(p: Platform, raw: string)
    ensures ParseGlobalIp(p, raw).Ok? <==> IsPublic(p, raw)
    ensures IsPublic(p, raw) ==> ParseGlobalIp(p, raw) == Ok(AddressOf(p, raw))
  {
  }

  /** `validate_remote_url` accepts exactly the allowed URLs whose host resolves to public addresses only,
      and returns just those. */
  lemma ValidatedExactly(p: Platform, w: World, policy: Policy, url: string, lookup: nat, addresses: set<Ip>)
    ensures Validate(p, w, policy, url, lookup) == Ok(addresses) <==> ValidatedAt(p, w, policy, url, lookup, addresses)
  {
    UrlAllowedExactly(p, policy, url);
    hide AllowedUrl, ValidateUrl, IsPublic, AddressOf;
    if ValidateUrl(p, policy, url).Ok? {
      var host := ValidateUrl(p, policy, url).value;
      if w.resolve(lookup, host).Some? {
        var raws := w.resolve(lookup, host).value;
        AddressesExactly(p, raws);
        if raws != [] && ParseGlobalIps(p, raws).Ok? {
          assert AddressOf(p, raws[0]) in ParseGlobalIps(p, raws).value;
        }
      }
    }
  }

  lemma UrlAllowedExactly(p: Platform, policy: Policy, url: string)
    ensures ValidateUrl(p, policy, url).Ok? <==> AllowedUrl(p, policy, url)
    ensures AllowedUrl(p, policy, url) ==>
            ValidateUrl(p, policy, url) == Ok(NormalForm(p, p.split(url).value.hostname))
  {
    assert forall i | 0 <= i < |url| :: url[i] in url;
    if p.split(url).Some? {
      NormalizeHostExactly(p, p.split(url).value.hostname);
    }
  }

  lemma PeerExactly(p: Platform, response: Response, expected: set<Ip>)
    ensures ValidatePeer(p, response, expected).Ok? <==> exists peer | peer in expected :: AnsweredBy(p, response, peer)
    ensures ValidatePeer(p, response, expected).Ok? ==>
            AnsweredBy(p, response, ValidatePeer(p, response, expected).value)
  {
    if response.peer.Some? && response.peer.value != "" {
      AddressExactly(p, response.peer.value);
    }
  }

  // ----- what a run has to do, without the file system -----

  /** A response that passed every check made before its body is read. */
  datatype Final = Final(url: string, redirects: nat, response: Response, mediaType: string)

  /** The target of a redirect, checked at its own lookup. */
  function RedirectTarget(p: Platform, w: World, policy: Policy, url: string, redirects: nat, response: Response)
    : (r: Result<string, Failure>)
    ensures r.Ok? ==> redirects < policy.maxRedirects
  {
    if redirects >= policy.maxRedirects then Err(RedirectLimit)
    else if response.location == None || response.location.value == "" then Err(NoLocation)
    else match p.join(url, response.location.value)
      case None => Err(MalformedLocation)
      case Some(next) => match Validate(p, w, policy, next, 2 * redirects + 1)
        case Err(e) => Err(e)
        case Ok(_) => Ok(next)
  }

  /** One request: its response, once URL, addresses and peer have been checked. */
  function Exchange(p: Platform, w: World, policy: Policy, url: string, redirects: nat): Result<Response, Failure> {
    match Validate(p, w, policy, url, 2 * redirects)
    case Err(e) => Err(e)
    case Ok(addresses) => match w.respond(redirects, url)
      case None => Err(Transport)
      case Some(response) => match ValidatePeer(p, response, addresses)
        case Err(e) => Err(e)
        case Ok(_) => Ok(response)
  }

  function CheckHeaders(p: Platform, policy: Policy, response: Response): Result<string, Failure> {
    if response.status < 200 || response.status >= 300 then Err(HttpStatus(response.status))
    else match ContentType(p, policy, response)
      case Err(e) => Err(e)
      case Ok(mediaType) => match ContentLengthFailure(p, policy, response)
        case Some(e) => Err(e)
        case None => Ok(mediaType)
  }

  function Locate(p: Platform, w: World, policy: Policy, url: string, redirects: nat): Result<Final, Failure>
    requires redirects <= policy.maxRedirects
    decreases policy.maxRedirects - redirects
  {
    match Exchange(p, w, policy, url, redirects)
    case Err(e) => Err(e)
    case Ok(response) =>
      if IsRedirect(response.status) then
        match RedirectTarget(p, w, policy, url, redirects, response)
        case Err(e) => Err(e)
        case Ok(next) => Locate(p, w, policy, next, redirects + 1)
      else
        match CheckHeaders(p, policy, response)
        case Err(e) => Err(e)
        case Ok(mediaType) => Ok(Final(url, redirects, response, mediaType))
  }

  /** The first k chunks of a body, joined. */
  function Joined(chunks: seq<Bytes>, k: nat): Bytes
    requires k <= |chunks|
  {
    if k == 0 then [] else Joined(chunks, k - 1) + chunks[k - 1]
  }

  /** The first failure while chunks k, k + 1, ... are received, if any. */
  function BodyFailure(policy: Policy, faults: Faults, response: Response, k: nat): Option<Failure>
    requires k <= |response.chunks|
    decreases |response.chunks| - k
  {
    if k == |response.chunks| then
      if response.broken then Some(Transport) else if faults.sync then Some(FileSystem) else None
    else if response.chunks[k] == [] then BodyFailure(policy, faults, response, k + 1)
    else if |Joined(response.chunks, k + 1)| > policy.maxBytes then Some(BodyLimit)
    else if faults.write == Some(k) then Some(FileSystem)
    else BodyFailure(policy, faults, response, k + 1)
  }

  datatype Asset = Asset(url: string, mediaType: string, bytesWritten: nat, sha256: string, redirects: nat)

  function Body(response: Response): Bytes {
    Joined(response.chunks, |response.chunks|)
  }

  /** A complete body with the pinned digest was received and moved to the destination. */
  predicate Completed(p: Platform, w: World, policy: Policy, url: string)
    requires ValidPolicy(policy)
  {
    && !w.symlink && !w.faults.create && !w.faults.replace
    && match Locate(p, w, policy, url, 0)
       case Err(_) => false
       case Ok(f) =>
         BodyFailure(policy, w.faults, f.response, 0) == None && p.sha256(Body(f.response)) == policy.sha256
  }

  /** The result of a whole run. A failure to close replaces the original error, or the result, and a failed
      removal of the temporary file replaces both. */
  function Outcome(p: Platform, w: World, policy: Policy, url: string): Result<Asset, Failure>
    requires ValidPolicy(policy)
  {
    if w.symlink then Err(SymbolicLink)
    else match Locate(p, w, policy, url, 0)
      case Err(e) => Err(if w.faults.close then Transport else e)
      case Ok(f) =>
        if w.faults.create then Err(if w.faults.close then Transport else FileSystem)
        else
          var body := Body(f.response);
          var failure := match BodyFailure(policy, w.faults, f.response, 0)
            case Some(e) => Some(e)
            case None => if p.sha256(body) != policy.sha256 then Some(DigestMismatch)
                         else if w.faults.replace then Some(FileSystem) else None;
          match failure
          case Some(e) => Err(if w.faults.unlink then FileSystem else if w.faults.close then Transport else e)
          case None =>
            if w.faults.close then Err(Transport)
            else Ok(Asset(f.url, f.mediaType, |body|, p.sha256(body), f.redirects))
  }

  // ----- the run itself -----

  /** One response that the client went on to use. */
  datatype Use = Use(url: string, addresses: set<Ip>, peer: Ip)

  /** Request k went to a URL validated at its own lookup, and the peer that answered it is one of the
      public addresses found there. */
  predicate Justified(p: Platform, w: World, policy: Policy, uses: seq<Use>) {
    forall k | 0 <= k < |uses| ::
      && ValidatedAt(p, w, policy, uses[k].url, 2 * k, uses[k].addresses)
      && uses[k].peer in uses[k].addresses && w.respond(k, uses[k].url).Some?
      && AnsweredBy(p, w.respond(k, uses[k].url).value, uses[k].peer)
  }

  lemma NothingUsed(p: Platform, w: World, policy: Policy)
    ensures Justified(p, w, policy, [])
  {
  }

  class Client {
    var destination: Option<Bytes>
    var temporary: Option<Bytes>
    ghost var requests: seq<string>
    ghost var uses: seq<Use>
    ghost var peak: nat
    ghost var replacements: nat

    constructor (destination: Option<Bytes>)
      ensures this.destination == destination && temporary == None
      ensures requests == [] && uses == [] && peak == 0 && replacements == 0
    {
      this.destination := destination;
      temporary := None;
      requests, uses, peak, replacements := [], [], 0, 0;
    }

    /** Writing grows the temporary file; `peak` remembers the largest it has been. */
    method Append(chunk: Bytes)
      requires temporary.Some?
      modifies this`temporary, this`peak
      ensures temporary == Some(old(temporary).value + chunk)
      ensures peak == if |temporary.value| > old(peak) then |temporary.value| else old(peak)
    {
      temporary := Some(temporary.value + chunk);
      peak := if |temporary.value| > peak then |temporary.value| else peak;
    }

    /** The redirect loop. */
    method Navigate(p: Platform, w: World, policy: Policy, url: string) returns (r: Result<Final, Failure>)
      requires ValidPolicy(policy) && requests == [] && uses == []
      modifies this`requests, this`uses
      ensures r == Locate(p, w, policy, url, 0)
      ensures Justified(p, w, policy, uses)
      ensures |uses| <= |requests| <= policy.maxRedirects + 1
      ensures forall k | 0 <= k < |uses| :: uses[k].url == requests[k]
      ensures r.Ok? ==> |uses| == |requests| == r.value.redirects + 1 && uses[|uses| - 1].url == r.value.url
    {
      hide Validate, ValidatePeer, ValidatedAt, AnsweredBy, RedirectTarget, CheckHeaders;
      var currentUrl, redirects := url, 0;
      while true
        invariant 0 <= redirects <= policy.maxRedirects
        invariant |requests| == |uses| == redirects
        invariant Justified(p, w, policy, uses)
        invariant forall k | 0 <= k < |uses| :: uses[k].url == requests[k]
        invariant Locate(p, w, policy, url, 0) == Locate(p, w, policy, currentUrl, redirects)
        decreases policy.maxRedirects - redirects
      {
        var addresses := Validate(p, w, policy, currentUrl, 2 * redirects);
        if addresses.Err? {
          return Err(addresses.error);
        }
        requests := requests + [currentUrl];
        var answer := w.respond(redirects, currentUrl);
        if answer == None {
          return Err(Transport);
        }
        var response := answer.value;
        var peer := ValidatePeer(p, response, addresses.value);
        if peer.Err? {
          return Err(peer.error);
        }
        ValidatedExactly(p, w, policy, currentUrl, 2 * redirects, addresses.value);
        PeerExactly(p, response, addresses.value);
        uses := uses + [Use(currentUrl, addresses.value, peer.value)];
        if IsRedirect(response.status) {
          var next := RedirectTarget(p, w, policy, currentUrl, redirects, response);
          if next.Err? {
            return Err(next.error);
          }
          currentUrl := next.value;
          redirects := redirects + 1;
          continue;
        }
        var mediaType := CheckHeaders(p, policy, response);
        if mediaType.Err? {
          return Err(mediaType.error);
        }
        return Ok(Final(currentUrl, redirects, response, mediaType.value));
      }
    }

    /** The chunk loop: the limit is checked before anything is written. */
    method Receive(policy: Policy, faults: Faults, response: Response) returns (failure: Option<Failure>)
      requires ValidPolicy(policy) && temporary == Some([]) && peak == 0
      modifies this`temporary, this`peak
      ensures failure == BodyFailure(policy, faults, response, 0)
      ensures temporary.Some? && peak <= policy.maxBytes
      ensures failure == None ==> temporary.value == Body(response) && |Body(response)| <= policy.maxBytes
    {
      var total := 0;
      for k := 0 to |response.chunks|
        invariant temporary == Some(Joined(response.chunks, k)) && total == |Joined(response.chunks, k)|
        invariant total <= policy.maxBytes && peak <= policy.maxBytes
        invariant BodyFailure(policy, faults, response, 0) == BodyFailure(policy, faults, response, k)
      {
        var chunk := response.chunks[k];
        if chunk == [] {
          assert Joined(response.chunks, k + 1) == Joined(response.chunks, k);
          continue;
        }
        total := total + |chunk|;
        if total > policy.maxBytes {
          return Some(BodyLimit);
        }
        if faults.write == Some(k) {
          return Some(FileSystem);
        }
        Append(chunk);
      }
      return if response.broken then Some(Transport) else if faults.sync then Some(FileSystem) else None;
    }

    /** `download_asset`. */
    method DownloadAsset(p: Platform, w: World, policy: Policy, url: string) returns (r: Result<Asset, Failure>)
      requires ValidPolicy(policy)
      requires temporary == None && requests == [] && uses == [] && peak == 0 && replacements == 0
      modifies this
      ensures r == Outcome(p, w, policy, url)
      // at most max_redirects + 1 requests, so at most six
      ensures |requests| <= policy.maxRedirects + 1 <= 6
      // every response used was validated, and its peer found in that same resolution
      ensures Justified(p, w, policy, uses) && |uses| <= |requests|
      ensures forall k | 0 <= k < |uses| :: uses[k].url == requests[k]
      // the temporary file never exceeds the limit, and it stays behind exactly when it was created, was
      // not moved to the destination, and its removal failed
      ensures peak <= policy.maxBytes
      ensures temporary.Some? <==>
              && w.faults.unlink && !w.symlink && !w.faults.create
              && match Locate(p, w, policy, url, 0)
                 case Err(_) => false
                 case Ok(f) =>
                   || BodyFailure(policy, w.faults, f.response, 0).Some?
                   || p.sha256(Body(f.response)) != policy.sha256 || w.faults.replace
      ensures temporary.Some? ==> r == Err(FileSystem)
      // the destination is replaced once by the complete body with the pinned digest, or untouched; an
      // error leaves it replaced only if closing failed after that
      ensures Completed(p, w, policy, url) ==>
              && replacements == 1 && destination == Some(Body(Locate(p, w, policy, url, 0).value.response))
              && p.sha256(destination.value) == policy.sha256 && |destination.value| <= policy.maxBytes
      ensures !Completed(p, w, policy, url) ==> replacements == 0 && destination == old(destination)
      ensures r.Ok? <==> Completed(p, w, policy, url) && !w.faults.close
      ensures r.Ok? ==>
              && r.value.sha256 == policy.sha256 && r.value.bytesWritten == |destination.value|
              && |uses| == r.value.redirects + 1 && uses[|uses| - 1].url == r.value.url
    {
      NothingUsed(p, w, policy);
      hide Locate, BodyFailure, Joined, Body, IsDigest, Validate, Justified;
      if w.symlink {
        return Err(SymbolicLink);
      }
      var final := Navigate(p, w, policy, url);
      if final.Err? {
        return Err(if w.faults.close then Transport else final.error);
      }
      if w.faults.create {
        return Err(if w.faults.close then Transport else FileSystem);
      }
      temporary := Some([]);
      var failure := Receive(policy, w.faults, final.value.response);
      if failure == None {
        var body := temporary.value;
        var observed := p.sha256(body);
        if observed != policy.sha256 {
          failure := Some(DigestMismatch);
        } else if w.faults.replace {
          failure := Some(FileSystem);
        } else {
          destination, temporary, replacements := Some(body), None, replacements + 1;
          if w.faults.close {
            return Err(Transport);
          }
          return Ok(Asset(final.value.url, final.value.mediaType, |body|, observed, final.value.redirects));
        }
      }
      // the finally clause
      if w.faults.unlink {
        return Err(FileSystem);
      }
      temporary := None;
      return Err(if w.faults.close then Transport else failure.value);
    }
  }

  // ----- when a run succeeds -----

  /** The response to request k, from a validated address. */
  ghost predicate Answered(p: Platform, w: World, policy: Policy, url: string, k: nat, response: Response) {
    && w.respond(k, url) == Some(response)
    && exists addresses, peer :: peer in addresses && ValidatedAt(p, w, policy, url, 2 * k, addresses)
                                 && AnsweredBy(p, response, peer)
  }

  ghost predicate Validates(p: Platform, w: World, policy: Policy, url: string, lookup: nat) {
    exists addresses :: ValidatedAt(p, w, policy, url, lookup, addresses)
  }

  /** A redirect within the limit, to a URL validated at a lookup of its own. */
  ghost predicate LeadsTo(p: Platform, w: World, policy: Policy, url: string, k: nat, response: Response,
                          next: string) {
    && response.status in {301, 302, 303, 307, 308} && k < policy.maxRedirects
    && response.location.Some? && response.location.value != ""
    && p.join(url, response.location.value) == Some(next)
    && Validates(p, w, policy, next, 2 * k + 1)
  }

  function DeclaredType(response: Response): string {
    if response.contentType.Some? then response.contentType.value else ""
  }

  /** A success of an allowed media type whose declared length, if any, is within the limit. */
  predicate Serves(p: Platform, policy: Policy, response: Response, mediaType: string) {
    && 200 <= response.status <= 299
    && mediaType == p.fold(p.trim(BeforeSemicolon(DeclaredType(response)))) && mediaType in policy.types
    && (response.contentLength.Some? ==>
          && p.parseInt(response.contentLength.value).Some?
          && 0 <= p.parseInt(response.contentLength.value).value <= policy.maxBytes)
  }

  /** From request k on: every URL is answered, each leads to the next, and the last serves the asset. */
  ghost predicate IsChain(p: Platform, w: World, policy: Policy, urls: seq<string>, responses: seq<Response>,
                          mediaType: string, k: nat) {
    && |urls| == |responses| > 0
    && (forall i | 0 <= i < |urls| :: Answered(p, w, policy, urls[i], k + i, responses[i]))
    && (forall i | 0 <= i < |urls| - 1 :: LeadsTo(p, w, policy, urls[i], k + i, responses[i], urls[i + 1]))
    && Serves(p, policy, responses[|urls| - 1], mediaType)
  }

  lemma AnsweredExactly(p: Platform, w: World, policy: Policy, url: string, k: nat, response: Response)
    ensures Exchange(p, w, policy, url, k) == Ok(response) <==> Answered(p, w, policy, url, k, response)
  {
    hide Validate, ValidatePeer, ValidatedAt, AnsweredBy;
    forall addresses
      ensures Validate(p, w, policy, url, 2 * k) == Ok(addresses) <==> ValidatedAt(p, w, policy, url, 2 * k, addresses)
    {
      ValidatedExactly(p, w, policy, url, 2 * k, addresses);
    }
    if Validate(p, w, policy, url, 2 * k).Ok? {
      PeerExactly(p, response, Validate(p, w, policy, url, 2 * k).value);
    }
  }

  lemma ValidatesExactly(p: Platform, w: World, policy: Policy, url: string, lookup: nat)
    ensures Validate(p, w, policy, url, lookup).Ok? <==> Validates(p, w, policy, url, lookup)
  {
    hide Validate, ValidatedAt;
    if Validate(p, w, policy, url, lookup).Ok? {
      ValidatedExactly(p, w, policy, url, lookup, Validate(p, w, policy, url, lookup).value);
    }
    if addresses :| ValidatedAt(p, w, policy, url, lookup, addresses) {
      ValidatedExactly(p, w, policy, url, lookup, addresses);
    }
  }

  lemma LeadsToExactly(p: Platform, w: World, policy: Policy, url: string, k: nat, response: Response, next: string)
    ensures IsRedirect(response.status) && RedirectTarget(p, w, policy, url, k, response) == Ok(next) <==>
            LeadsTo(p, w, policy, url, k, response, next)
  {
    hide Validate, Validates;
    ValidatesExactly(p, w, policy, next, 2 * k + 1);
  }

  lemma ServesExactly(p: Platform, policy: Policy, response: Response, mediaType: string)
    ensures !IsRedirect(response.status) && CheckHeaders(p, policy, response) == Ok(mediaType) <==>
            Serves(p, policy, response, mediaType)
  {
  }

  lemma {:induction false} LocateFollowsChain(p: Platform, w: World, policy: Policy, urls: seq<string>,
                                              responses: seq<Response>, mediaType: string, k: nat)
    requires k <= policy.maxRedirects
    requires IsChain(p, w, policy, urls, responses, mediaType, k)
    ensures Locate(p, w, policy, urls[0], k) ==
            Ok(Final(urls[|urls| - 1], k + |urls| - 1, responses[|urls| - 1], mediaType))
    decreases |urls|
  {
    hide Exchange, Answered, RedirectTarget, LeadsTo, CheckHeaders, Serves, IsRedirect;
    AnsweredExactly(p, w, policy, urls[0], k, responses[0]);
    if |urls| == 1 {
      ServesExactly(p, policy, responses[0], mediaType);
    } else {
      assert LeadsTo(p, w, policy, urls[0], k + 0, responses[0], urls[0 + 1]);
      LeadsToExactly(p, w, policy, urls[0], k, responses[0], urls[1]);
      RestOfChain(p, w, policy, urls, responses, mediaType, k);
      LocateFollowsChain(p, w, policy, urls[1..], responses[1..], mediaType, k + 1);
    }
  }

  lemma RestOfChain(p: Platform, w: World, policy: Policy, urls: seq<string>, responses: seq<Response>,
                    mediaType: string, k: nat)
    requires IsChain(p, w, policy, urls, responses, mediaType, k) && |urls| > 1
    ensures IsChain(p, w, policy, urls[1..], responses[1..], mediaType, k + 1)
  {
    hide Answered, LeadsTo, Serves;
    forall i | 0 <= i < |urls| - 1 ensures Answered(p, w, policy, urls[1..][i], k + 1 + i, responses[1..][i]) {
      assert Answered(p, w, policy, urls[i + 1], k + (i + 1), responses[i + 1]);
    }
    forall i | 0 <= i < |urls| - 2
      ensures LeadsTo(p, w, policy, urls[1..][i], k + 1 + i, responses[1..][i], urls[1..][i + 1])
    {
      assert LeadsTo(p, w, policy, urls[i + 1], k + (i + 1), responses[i + 1], urls[(i + 1) + 1]);
    }
  }

  lemma {:induction false} LocateHasChain(p: Platform, w: World, policy: Policy, url: string, k: nat)
    returns (urls: seq<string>, responses: seq<Response>)
    requires k <= policy.maxRedirects
    requires Locate(p, w, policy, url, k).Ok?
    ensures IsChain(p, w, policy, urls, responses, Locate(p, w, policy, url, k).value.mediaType, k)
    ensures |urls| == |responses| > 0 && urls[0] == url
    decreases policy.maxRedirects - k
  {
    hide Exchange, Answered, RedirectTarget, LeadsTo, CheckHeaders, Serves, IsRedirect;
    var response := Exchange(p, w, policy, url, k).value;
    var mediaType := Locate(p, w, policy, url, k).value.mediaType;
    AnsweredExactly(p, w, policy, url, k, response);
    if IsRedirect(response.status) {
      var next := RedirectTarget(p, w, policy, url, k, response).value;
      LeadsToExactly(p, w, policy, url, k, response, next);
      var restUrls, restResponses := LocateHasChain(p, w, policy, next, k + 1);
      urls, responses := [url] + restUrls, [response] + restResponses;
      LongerChain(p, w, policy, url, response, restUrls, restResponses, mediaType, k);
    } else {
      ServesExactly(p, policy, response, mediaType);
      urls, responses := [url], [response];
    }
  }

  lemma LongerChain(p: Platform, w: World, policy: Policy, url: string, response: Response, urls: seq<string>,
                    responses: seq<Response>, mediaType: string, k: nat)
    requires Answered(p, w, policy, url, k, response)
    requires IsChain(p, w, policy, urls, responses, mediaType, k + 1)
    requires LeadsTo(p, w, policy, url, k, response, urls[0])
    ensures IsChain(p, w, policy, [url] + urls, [response] + responses, mediaType, k)
  {
    hide Answered, LeadsTo, Serves;
    var us, rs := [url] + urls, [response] + responses;
    forall i | 0 <= i < |us| ensures Answered(p, w, policy, us[i], k + i, rs[i]) {
      if i > 0 {
        assert Answered(p, w, policy, urls[i - 1], k + 1 + (i - 1), responses[i - 1]);
      }
    }
    forall i | 0 <= i < |us| - 1 ensures LeadsTo(p, w, policy, us[i], k + i, rs[i], us[i + 1]) {
      if i > 0 {
        assert LeadsTo(p, w, policy, urls[i - 1], k + 1 + (i - 1), responses[i - 1], urls[(i - 1) + 1]);
      }
    }
  }

  /** The bytes of chunks 0 .. k only grow. */
  lemma {:induction false} JoinedGrows(chunks: seq<Bytes>, k: nat, n: nat)
    requires k <= n <= |chunks|
    ensures |Joined(chunks, k)| <= |Joined(chunks, n)|
  {
    if k < n {
      JoinedGrows(chunks, k, n - 1);
    }
  }

  /** Receiving succeeds exactly when the whole body fits and no operation on it fails. */
  lemma {:induction false} BodyReceivedExactly(policy: Policy, faults: Faults, response: Response, k: nat)
    requires k <= |response.chunks| && |Joined(response.chunks, k)| <= policy.maxBytes
    ensures BodyFailure(policy, faults, response, k) == None <==>
            && !response.broken && !faults.sync && |Body(response)| <= policy.maxBytes
            && forall i | k <= i < |response.chunks| && response.chunks[i] != [] :: faults.write != Some(i)
    decreases |response.chunks| - k
  {
    if k < |response.chunks| {
      JoinedGrows(response.chunks, k + 1, |response.chunks|);
      if |Joined(response.chunks, k + 1)| <= policy.maxBytes {
        BodyReceivedExactly(policy, faults, response, k + 1);
      }
    }
  }

  /** A chain from the URL to a complete body within the limit with the pinned digest, every chunk of
      which is written. */
  ghost predicate Delivered(p: Platform, w: World, policy: Policy, url: string, urls: seq<string>,
                            responses: seq<Response>, mediaType: string) {
    && |urls| == |responses| > 0 && urls[0] == url && IsChain(p, w, policy, urls, responses, mediaType, 0)
    && var response := responses[|urls| - 1];
       && !response.broken && |Body(response)| <= policy.maxBytes
       && p.sha256(Body(response)) == policy.sha256
       && forall i | 0 <= i < |response.chunks| && response.chunks[i] != [] :: w.faults.write != Some(i)
  }

  /** The destination is replaced if and only if some chain from the URL ends at a complete body within
      the limit with the pinned digest and the file system cooperates; the download then succeeds if and
      only if closing the connection does. */
  lemma DownloadSucceedsExactly(p: Platform, w: World, policy: Policy, url: string)
    requires ValidPolicy(policy)
    ensures Outcome(p, w, policy, url).Ok? <==> Completed(p, w, policy, url) && !w.faults.close
    ensures Completed(p, w, policy, url) <==>
            && !w.symlink && !w.faults.create && !w.faults.sync && !w.faults.replace
            && exists urls, responses, mediaType :: Delivered(p, w, policy, url, urls, responses, mediaType)
  {
    hide Exchange, Locate, IsChain, BodyFailure;
    if Locate(p, w, policy, url, 0).Ok? {
      var f := Locate(p, w, policy, url, 0).value;
      BodyReceivedExactly(policy, w.faults, f.response, 0);
      var urls, responses := LocateHasChain(p, w, policy, url, 0);
      LocateFollowsChain(p, w, policy, urls, responses, f.mediaType, 0);
      assert Completed(p, w, policy, url) ==> Delivered(p, w, policy, url, urls, responses, f.mediaType);
    }
    forall urls, responses, mediaType | Delivered(p, w, policy, url, urls, responses, mediaType)
      ensures Locate(p, w, policy, url, 0) ==
              Ok(Final(urls[|urls| - 1], |urls| - 1, responses[|urls| - 1], mediaType))
    {
      LocateFollowsChain(p, w, policy, urls, responses, mediaType, 0);
    }
  }

  /** The reported asset is the end of the chain: its URL, the media type and size, and the number of
      redirects, with the pinned digest. */
  lemma AssetDescribed(p: Platform, w: World, policy: Policy, url: string, urls: seq<string>,
                       responses: seq<Response>, mediaType: string)
    requires ValidPolicy(policy) && Outcome(p, w, policy, url).Ok?
    requires Delivered(p, w, policy, url, urls, responses, mediaType)
    ensures Outcome(p, w, policy, url).value ==
            Asset(urls[|urls| - 1], mediaType, |Body(responses[|urls| - 1])|, policy.sha256, |urls| - 1)
  {
    LocateFollowsChain(p, w, policy, urls, responses, mediaType, 0);
    hide Locate, BodyFailure, IsChain;
  }
}

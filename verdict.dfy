/**
 * The verdict `scan` reaches for one href not seen before (main.go:148-214):
 * parse it, pick a check by scheme and shape, and run that check against
 * oracles that stand for the network, the filesystem and the URL and path
 * libraries.
 */
module Verdict {
  import opened Options
  import opened Html

  /**
   * The parts of a parsed `url.URL` the scan reads or sends: the scheme,
   * the scheme-specific part of a URL without `//` (as in `mailto:x`), the
   * user information, the host (port included), the path, the raw query
   * and the escaped fragment. `u.String()` is built from these, so the
   * HEAD target keeps all of them but the fragment.
   */
  datatype Url = Url(scheme: string, schemeSpecific: string, userinfo: string, host: string, path: string,
                     rawQuery: string, escapedFragment: string)

  /** `url.Parse`: a URL, or an error. */
  datatype ParseResult = ParseError | Parsed(url: Url)

  /** `http.DefaultClient.Do` of the HEAD request: a status code, or a transport error. */
  datatype Response = Status(code: int) | TransportError

  /** `os.Stat`: any error reads as Missing. */
  datatype FileInfo = Missing | Present(isDir: bool)

  /**
   * The outside world, as total functions:
   *   parse        url.Parse
   *   unescape     url.QueryUnescape (None on error)
   *   requestOk    whether http.NewRequestWithContext accepts the URL
   *   requestHost  `req.URL.Host` of the request built from the URL, which
   *                `u.String()` re-parsed, with an empty port dropped
   *   head         the HEAD request's response, with deadline and User-Agent
   *   stat         os.Stat
   *   join         filepath.Join of its elements
   *   dir          filepath.Dir
   */
  datatype Env = Env(
    parse: string -> ParseResult,
    unescape: string -> Option<string>,
    requestOk: Url -> bool,
    requestHost: Url -> string,
    head: Url -> Response,
    stat: string -> FileInfo,
    join: seq<string> -> string,
    dir: string -> string)

  /** Where an href was found: the document root, the document's directory, its elements. */
  datatype Ctx = Ctx(root: string, dir: string, doc: seq<Element>)

  /** Why a reference is dead; stands for the text of the error the cache stores. */
  datatype Reason =
    | Malformed          // url.Parse failed
    | BadRequest         // http.NewRequestWithContext failed
    | HttpStatus(code: int)
    | Transport          // the HEAD request itself failed
    | NotFoundInRoot
    | FragmentNotFound
    | Unclear            // "unclear how to test"

  /** A cache entry: `nil` (alive) or an error (dead). */
  datatype Outcome = Alive | Dead(reason: Reason)

  // ---------------------------------------------------------------------
  // HTTP status policy (main.go:163-179).

  /** One allow-list rule: a status code, for every host (None) or for one exact host. */
  datatype Exemption = Exemption(code: int, host: Option<string>)

  /**
   * Status codes of 400 and above that still count as alive: 403 Forbidden
   * (RFC 9110 section 15.5.4) and 405 Method Not Allowed (RFC 9110 section
   * 15.5.6) from any host, 429 Too Many Requests (RFC 6585 section 4) from
   * github.com, and the non-standard 520 from twitter.com.
   */
  const Exemptions: seq<Exemption> := [
    Exemption(403, None),
    Exemption(405, None),
    Exemption(429, Some("github.com")),
    Exemption(520, Some("twitter.com"))
  ]

  predicate Covers(x: Exemption, code: int, host: string) {
    x.code == code && (x.host.None? || x.host.value == host)
  }

  predicate Exempt(code: int, host: string) {
    exists i :: 0 <= i < |Exemptions| && Covers(Exemptions[i], code, host)
  }

  /** The allow-list table says the same as the chain of tests in main.go:164-176. */
  lemma ExemptCases(code: int, host: string)
    ensures Exempt(code, host) <==>
      code == 403 || code == 405
      || (code == 429 && host == "github.com")
      || (code == 520 && host == "twitter.com")
  {
    if code == 403 { assert Covers(Exemptions[0], code, host); }
    if code == 405 { assert Covers(Exemptions[1], code, host); }
    if code == 429 && host == "github.com" { assert Covers(Exemptions[2], code, host); }
    if code == 520 && host == "twitter.com" { assert Covers(Exemptions[3], code, host); }
  }

  /**
   * The verdict on a HEAD response, where `host` is `req.URL.Host` of the
   * request (compared exactly, a non-empty port included): alive below 400
   * or when the allow-list exempts the code; every other status and every
   * transport error is dead.
   */
  function HttpOutcome(resp: Response, host: string): (o: Outcome)
    ensures o.Alive? <==> resp.Status? && (resp.code < 400 || Exempt(resp.code, host))
    ensures resp.TransportError? ==> o == Dead(Transport)
    ensures resp.Status? && o.Dead? ==> o == Dead(HttpStatus(resp.code))
  {
    ExemptCases(if resp.Status? then resp.code else 0, host);
    match resp
    case TransportError => Dead(Transport)
    case Status(code) =>
      if code < 400 then Alive
      else if code == 403 then Alive
      else if code == 405 then Alive
      else if code == 429 && host == "github.com" then Alive
      else if code == 520 && host == "twitter.com" then Alive
      else Dead(HttpStatus(code))
  }

  // ---------------------------------------------------------------------
  // Scheme dispatch (main.go:153-214).

  /** The one check a parsed reference is given. */
  datatype Check =
    | HeadProbe(target: Url)          // http, https
    | NoCheck                         // mailto, tel
    | FileCheck(path: string)         // a non-empty path
    | FragmentCheck(fragment: string) // a non-empty escaped fragment alone
    | NoStrategy                      // nothing to test

  predicate IsWeb(u: Url) {
    u.scheme == "http" || u.scheme == "https"
  }

  predicate IsUnverified(u: Url) {
    u.scheme == "mailto" || u.scheme == "tel"
  }

  /**
   * The precedence of the if-chain: the web schemes first, then mailto and
   * tel, then a path, then a fragment. The probe goes to the URL with its
   * fragment cleared, as section 3.5 of RFC 3986 keeps fragments out of
   * requests.
   */
  function Classify(u: Url): (c: Check)
    ensures c.HeadProbe? <==> IsWeb(u)
    ensures c.HeadProbe? ==> c.target == u.(escapedFragment := "")
    ensures c.NoCheck? <==> !IsWeb(u) && IsUnverified(u)
    ensures c.FileCheck? <==> !IsWeb(u) && !IsUnverified(u) && u.path != ""
    ensures c.FileCheck? ==> c.path == u.path
    ensures c.FragmentCheck? <==> !IsWeb(u) && !IsUnverified(u) && u.path == "" && u.escapedFragment != ""
    ensures c.FragmentCheck? ==> c.fragment == u.escapedFragment
  {
    if IsWeb(u) then HeadProbe(u.(escapedFragment := ""))
    else if u.scheme == "mailto" then NoCheck
    else if u.scheme == "tel" then NoCheck
    else if u.path != "" then FileCheck(u.path)
    else if u.escapedFragment != "" then FragmentCheck(u.escapedFragment)
    else NoStrategy
  }

  /** A reference with a path and a fragment is checked as a path; the fragment is not looked at. */
  lemma PathShadowsFragment(u: Url)
    requires !IsWeb(u) && !IsUnverified(u)
    requires u.path != "" && u.escapedFragment != ""
    ensures Classify(u) == FileCheck(u.path)
  {
  }

  // ---------------------------------------------------------------------
  // Filesystem check (main.go:188-199).

  predicate StartsWithSlash(p: string) {
    |p| > 0 && p[0] == '/'
  }

  /** A path that begins with "/" is taken as it is; any other goes through filepath.Join(dir, path). */
  function ResolvePath(path: string, dir: string, env: Env): (p: string)
    ensures StartsWithSlash(path) ==> p == path
    ensures !StartsWithSlash(path) ==> p == env.join([dir, path])
  {
    if StartsWithSlash(path) then path else env.join([dir, path])
  }

  predicate IsFile(fi: FileInfo) {
    fi.Present? && !fi.isDir
  }

  /** The check passes on a file at root/path, or else on a file at root/path/index.html. */
  predicate FileFound(root: string, p: string, env: Env) {
    IsFile(env.stat(env.join([root, p]))) || IsFile(env.stat(env.join([root, p, "index.html"])))
  }

  function PathOutcome(path: string, ctx: Ctx, env: Env): (o: Outcome)
    ensures o.Alive? <==> FileFound(ctx.root, ResolvePath(path, ctx.dir, env), env)
    ensures o.Dead? ==> o.reason == NotFoundInRoot
  {
    var p := ResolvePath(path, ctx.dir, env);
    if IsFile(env.stat(env.join([ctx.root, p]))) then Alive
    else if IsFile(env.stat(env.join([ctx.root, p, "index.html"]))) then Alive
    else Dead(NotFoundInRoot)
  }

  /** A root-relative path gives the same verdict from any directory of the document root. */
  lemma RootedPathIgnoresDir(path: string, ctx: Ctx, dir: string, env: Env)
    requires StartsWithSlash(path)
    ensures PathOutcome(path, ctx, env) == PathOutcome(path, ctx.(dir := dir), env)
  {
  }

  /** A directory link is alive when the directory holds an index.html file. */
  lemma DirectoryIndexFallback(path: string, ctx: Ctx, env: Env)
    requires IsFile(env.stat(env.join([ctx.root, ResolvePath(path, ctx.dir, env), "index.html"])))
    ensures PathOutcome(path, ctx, env) == Alive
  {
  }

  // ---------------------------------------------------------------------
  // Fragment check (main.go:201-210).

  /** The `id` values the fragment may match: itself, and its unescaped form when unescaping succeeds. */
  function FragmentIds(fragment: string, env: Env): (ids: set<string>)
    ensures fragment in ids
    ensures forall id :: id in ids ==> id == fragment || env.unescape(fragment) == Some(id)
    ensures env.unescape(fragment).Some? ==> env.unescape(fragment).value in ids
  {
    match env.unescape(fragment)
    case None => {fragment}
    case Some(id) => {fragment, id}
  }

  /**
   * Alive exactly when some element of the referring document has an `id`
   * equal to the escaped fragment or to its unescaped form. Only that
   * document is looked at.
   */
  function FragmentOutcome(fragment: string, doc: seq<Element>, env: Env): (o: Outcome)
    ensures o.Alive? <==> exists j :: 0 <= j < |doc| && HasIdIn(doc[j], FragmentIds(fragment, env))
    ensures o.Dead? ==> o.reason == FragmentNotFound
  {
    if FindId(doc, FragmentIds(fragment, env)).Some? then Alive else Dead(FragmentNotFound)
  }

  // ---------------------------------------------------------------------
  // The whole verdict.

  /**
   * Run the check the dispatch picked. A response is judged against the
   * host of the built request, not the host of the parsed href.
   */
  function Perform(c: Check, ctx: Ctx, env: Env): (o: Outcome)
    ensures c.HeadProbe? && !env.requestOk(c.target) ==> o == Dead(BadRequest)
    ensures c.HeadProbe? && env.requestOk(c.target) ==> o == HttpOutcome(env.head(c.target), env.requestHost(c.target))
    ensures c.NoCheck? ==> o == Alive
    ensures c.FileCheck? ==> o == PathOutcome(c.path, ctx, env)
    ensures c.FragmentCheck? ==> o == FragmentOutcome(c.fragment, ctx.doc, env)
    ensures c.NoStrategy? ==> o == Dead(Unclear)
  {
    match c
    case HeadProbe(target) =>
      if !env.requestOk(target) then Dead(BadRequest) else HttpOutcome(env.head(target), env.requestHost(target))
    case NoCheck => Alive
    case FileCheck(path) => PathOutcome(path, ctx, env)
    case FragmentCheck(fragment) => FragmentOutcome(fragment, ctx.doc, env)
    case NoStrategy => Dead(Unclear)
  }

  /**
   * The outcome `scan` stores for a new href. An href that fails to parse,
   * or whose request cannot be built, is recorded dead and nothing else is
   * done with it.
   */
  function Verify(href: string, ctx: Ctx, env: Env): (o: Outcome)
    ensures env.parse(href).ParseError? ==> o == Dead(Malformed)
    ensures env.parse(href).Parsed? ==>
      o == Perform(Classify(env.parse(href).url), ctx, env)
  {
    match env.parse(href)
    case ParseError => Dead(Malformed)
    case Parsed(u) => Perform(Classify(u), ctx, env)
  }

  /** mailto: and tel: references are alive whatever they say and wherever they appear. */
  lemma UnverifiedSchemesAlive(href: string, ctx: Ctx, env: Env)
    requires env.parse(href).Parsed? && IsUnverified(env.parse(href).url)
    ensures Verify(href, ctx, env) == Alive
  {
  }

  /** An http(s) reference is dead exactly when the request cannot be made or the response is refused. */
  lemma {:induction false} WebVerdict(href: string, ctx: Ctx, env: Env)
    requires env.parse(href).Parsed? && IsWeb(env.parse(href).url)
    ensures var target := env.parse(href).url.(escapedFragment := "");
            var host := env.requestHost(target);
            Verify(href, ctx, env).Alive? <==>
              env.requestOk(target) && env.head(target).Status?
              && (env.head(target).code < 400
                  || env.head(target).code in {403, 405}
                  || (env.head(target).code == 429 && host == "github.com")
                  || (env.head(target).code == 520 && host == "twitter.com"))
  {
    var target := env.parse(href).url.(escapedFragment := "");
    if env.head(target).Status? {
      ExemptCases(env.head(target).code, env.requestHost(target));
    }
  }

  /**
   * The allow-list looks at the request's host, whatever the href spelled:
   * `https://github.com:/x` parses to host "github.com:", but its request
   * goes to "github.com", so a 429 from there is alive.
   */
  lemma {:induction false} ExemptionUsesRequestHost(href: string, ctx: Ctx, env: Env)
    requires env.parse(href).Parsed? && IsWeb(env.parse(href).url)
    requires var target := env.parse(href).url.(escapedFragment := "");
      env.requestOk(target) && env.head(target) == Status(429) && env.requestHost(target) == "github.com"
    ensures Verify(href, ctx, env) == Alive
  {
    ExemptCases(429, "github.com");
  }

  // ---------------------------------------------------------------------
  // The two error paths as main.go:148-160 writes them.

  /** What happens to the scan after one href: an entry is recorded, or the process panics. */
  datatype Progress = Recorded(outcome: Outcome) | NilDereference

  /**
   * main.go as written: after a `url.Parse` error the code stores an entry
   * but does not `continue`, so it reads `u.Scheme` through a nil `u`; after
   * an `http.NewRequestWithContext` error it likewise goes on to
   * `req.Header.Set` on a nil `req`. Both end the process with a panic.
   */
  function VerifyAsWritten(href: string, ctx: Ctx, env: Env): (p: Progress)
    ensures p.NilDereference? <==>
      env.parse(href).ParseError?
      || (IsWeb(env.parse(href).url) && !env.requestOk(env.parse(href).url.(escapedFragment := "")))
  {
    match env.parse(href)
    case ParseError => NilDereference
    case Parsed(u) =>
      if IsWeb(u) && !env.requestOk(u.(escapedFragment := "")) then NilDereference
      else Recorded(Verify(href, ctx, env))
  }

  /** On an href url.Parse rejects, the code as written panics where Verify records it dead. */
  lemma MalformedHrefPanics(href: string, ctx: Ctx, env: Env)
    requires env.parse(href).ParseError?
    ensures VerifyAsWritten(href, ctx, env) == NilDereference
    ensures Verify(href, ctx, env) == Dead(Malformed)
  {
  }

  /** On an http(s) href whose request cannot be built, likewise. */
  lemma BadRequestPanics(href: string, ctx: Ctx, env: Env)
    requires env.parse(href).Parsed? && IsWeb(env.parse(href).url)
    requires !env.requestOk(env.parse(href).url.(escapedFragment := ""))
    ensures VerifyAsWritten(href, ctx, env) == NilDereference
    ensures Verify(href, ctx, env) == Dead(BadRequest)
  {
  }

  /**
   * Apart from those two paths the code as written and Verify agree. This
   * holds by construction: both run the one dispatch of main.go:153-214,
   * and the lemma records that the corrected model changes nothing else.
   */
  lemma AsWrittenAgreesOtherwise(href: string, ctx: Ctx, env: Env)
    requires VerifyAsWritten(href, ctx, env).Recorded?
    ensures VerifyAsWritten(href, ctx, env).outcome == Verify(href, ctx, env)
  {
  }
}

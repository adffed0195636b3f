/**
 * The client-IP resolver of class `RemoteAddress`: it takes the address of
 * the directly connected peer (`REMOTE_ADDR`, possibly absent), the server
 * variables holding the request headers, and a configuration, and returns
 * one IP string. A forwarded-for header is believed only when proxying is
 * enabled and the peer is not a known untrusted address; its right-most
 * entry that is not a trusted proxy wins, and everything else falls back to
 * the peer address or to "".
 */
module RemoteAddress {
  import opened Wrappers
  import opened PhpStrings

  /** The three settings of the resolver, read and never written. */
  datatype Config = Config(useProxy: bool, trustedProxies: seq<string>, proxyHeader: string)

  /** The values the class is deployed with: proxying off, no trusted
      proxies, and the `X-Forwarded-For` header as PHP names it. */
  const Defaults: Config := Config(false, [], "HTTP_X_FORWARDED_FOR")

  /** What the resolver reads of `$_SERVER`: the peer address, present or
      not, and the other server variables (the request headers among them). */
  datatype Request = Request(remoteAddr: Option<string>, server: map<string, string>)

  /** `$_SERVER['REMOTE_ADDR'] ?? ''`. */
  function PeerOrEmpty(req: Request): string {
    req.remoteAddr.GetOr("")
  }

  /** The guard of `getIpAddressFromProxy`: proxying is enabled, and the peer
      is either absent or one of the trusted proxies (`in_array` taken as
      string equality). */
  predicate ProxyTrusted(cfg: Config, req: Request) {
    cfg.useProxy && (req.remoteAddr.None? || req.remoteAddr.value in cfg.trustedProxies)
  }

  /** The configured header's value, unless it is unset, "" or "0" (which
      PHP's `empty` treats as missing). */
  function ForwardedFor(cfg: Config, req: Request): Option<string> {
    if cfg.proxyHeader in req.server && IsTruthy(req.server[cfg.proxyHeader])
    then Some(req.server[cfg.proxyHeader])
    else None
  }

  /** The header's entries, split on commas and trimmed, minus the trusted
      proxies, in their original order. */
  function Candidates(header: string, trusted: seq<string>): seq<string> {
    ArrayDiff(TrimAll(Explode(header)), trusted)
  }

  /** `getIpAddressFromProxy`: `None` stands for PHP's `false`. A result it
      does give comes from a trusted path with a usable header and is no
      trusted proxy. */
  function IpAddressFromProxy(cfg: Config, req: Request): (r: Option<string>)
    ensures r.Some? ==> ProxyTrusted(cfg, req) && ForwardedFor(cfg, req).Some?
    ensures r.Some? ==> r.value !in cfg.trustedProxies
  {
    if !ProxyTrusted(cfg, req) then None
    else match ForwardedFor(cfg, req)
      case None => None
      case Some(header) => ArrayPop(Candidates(header, cfg.trustedProxies))
  }

  /** `getIpAddress`: the proxy-derived address when it is truthy, otherwise
      the peer address or "". Whatever it returns is either that fallback or
      a truthy, untrusted entry reached through a trusted path. */
  function IpAddress(cfg: Config, req: Request): (ip: string)
    ensures ip == PeerOrEmpty(req)
            || (ProxyTrusted(cfg, req) && IsTruthy(ip) && ip !in cfg.trustedProxies
                && IpAddressFromProxy(cfg, req) == Some(ip))
  {
    var fromProxy := IpAddressFromProxy(cfg, req);
    if fromProxy.Some? && IsTruthy(fromProxy.value) then fromProxy.value else PeerOrEmpty(req)
  }

  /** With proxying disabled the headers are never read. */
  lemma ProxyDisabledUsesPeer(cfg: Config, req: Request)
    requires !cfg.useProxy
    ensures IpAddress(cfg, req) == PeerOrEmpty(req)
    ensures forall server :: IpAddress(cfg, Request(req.remoteAddr, server)) == PeerOrEmpty(req)
  {
  }

  /** The deployed defaults disable proxying. */
  lemma DefaultsUsePeer(req: Request)
    ensures IpAddress(Defaults, req) == PeerOrEmpty(req)
  {
    ProxyDisabledUsesPeer(Defaults, req);
  }

  /** A peer that is not a trusted proxy cannot spoof its address through
      the header. */
  lemma UntrustedPeerIgnoresHeader(cfg: Config, req: Request)
    requires req.remoteAddr.Some? && req.remoteAddr.value !in cfg.trustedProxies
    ensures IpAddress(cfg, req) == req.remoteAddr.value
  {
  }

  /** A header that is unset, "" or "0" sends resolution to the fallback. */
  lemma MissingHeaderFallsBack(cfg: Config, req: Request)
    requires cfg.proxyHeader !in req.server || req.server[cfg.proxyHeader] in {"", "0"}
    ensures IpAddress(cfg, req) == PeerOrEmpty(req)
  {
  }

  /** A falsy proxy-derived candidate ("" or "0") degrades to the fallback. */
  lemma FalsyCandidateFallsBack(cfg: Config, req: Request)
    requires IpAddressFromProxy(cfg, req).Some? && !IsTruthy(IpAddressFromProxy(cfg, req).value)
    ensures IpAddress(cfg, req) == PeerOrEmpty(req)
  {
  }

  /** A truthy proxy-derived candidate is returned as it is. */
  lemma TruthyCandidateWins(cfg: Config, req: Request, ip: string)
    requires IpAddressFromProxy(cfg, req) == Some(ip) && IsTruthy(ip)
    ensures IpAddress(cfg, req) == ip
  {
  }

  /** The resolver answers "" only when there is no usable peer address and
      the proxy path gave nothing truthy. */
  lemma EmptyOnlyWithoutPeer(cfg: Config, req: Request)
    ensures IpAddress(cfg, req) == "" <==>
            PeerOrEmpty(req) == ""
            && (IpAddressFromProxy(cfg, req).None? || !IsTruthy(IpAddressFromProxy(cfg, req).value))
  {
  }

  /** When the guard is closed, no server variable has any influence. */
  lemma ClosedGuardIgnoresHeaders(cfg: Config, req: Request)
    requires !ProxyTrusted(cfg, req)
    ensures forall server :: IpAddress(cfg, Request(req.remoteAddr, server)) == PeerOrEmpty(req)
  {
    forall server ensures IpAddress(cfg, Request(req.remoteAddr, server)) == PeerOrEmpty(req) {
      assert !ProxyTrusted(cfg, Request(req.remoteAddr, server));
    }
  }

  /** When the guard is open and the header is set to something truthy, the
      proxy path reads it: its last candidate is the proxy result. */
  lemma UsableHeaderIsRead(cfg: Config, req: Request)
    requires ProxyTrusted(cfg, req)
    requires cfg.proxyHeader in req.server && IsTruthy(req.server[cfg.proxyHeader])
    ensures IpAddressFromProxy(cfg, req)
            == ArrayPop(Candidates(req.server[cfg.proxyHeader], cfg.trustedProxies))
  {
    assert ForwardedFor(cfg, req) == Some(req.server[cfg.proxyHeader]);
  }

  /** The candidates of a header are exactly its trimmed entries that are
      not trusted proxies. */
  lemma CandidatesMembers(header: string, trusted: seq<string>, x: string)
    ensures x in Candidates(header, trusted) <==>
            (exists k :: 0 <= k < |Explode(header)| && Trim(Explode(header)[k]) == x) && x !in trusted
  {
    assert Candidates(header, trusted) == ArrayDiff(TrimAll(Explode(header)), trusted);
    TrimAllMembers(Explode(header), x);
    ArrayDiffMembers(TrimAll(Explode(header)), trusted, x);
  }

  /** On a trusted path with a usable header, the result is the trimmed
      right-most entry that is not a trusted proxy, when that is truthy. */
  lemma RightmostUntrustedWins(cfg: Config, req: Request, header: string, k: nat)
    requires ProxyTrusted(cfg, req) && ForwardedFor(cfg, req) == Some(header)
    requires k < |Explode(header)|
    requires Trim(Explode(header)[k]) !in cfg.trustedProxies && IsTruthy(Trim(Explode(header)[k]))
    requires forall j :: k < j < |Explode(header)| ==> Trim(Explode(header)[j]) in cfg.trustedProxies
    ensures IpAddress(cfg, req) == Trim(Explode(header)[k])
  {
    LastSurvivorIsRightmost(TrimAll(Explode(header)), cfg.trustedProxies, k);
    assert IpAddressFromProxy(cfg, req) == ArrayPop(Candidates(header, cfg.trustedProxies));
  }

  /** When every entry of the header is a trusted proxy, the result is the
      fallback. */
  lemma AllTrustedFallsBack(cfg: Config, req: Request, header: string)
    requires ForwardedFor(cfg, req) == Some(header)
    requires forall j :: 0 <= j < |Explode(header)| ==> Trim(Explode(header)[j]) in cfg.trustedProxies
    ensures IpAddress(cfg, req) == PeerOrEmpty(req)
  {
    var trimmed := TrimAll(Explode(header));
    assert forall j :: 0 <= j < |trimmed| ==> trimmed[j] in cfg.trustedProxies;
    ArrayDiffEmpty(trimmed, cfg.trustedProxies);
    assert Candidates(header, cfg.trustedProxies) == [];
    assert IpAddressFromProxy(cfg, req) == None;
  }

  /** The last candidate of a header is its trimmed right-most entry that is
      not a trusted proxy. */
  lemma PoppedCandidateIsRightmost(header: string, trusted: seq<string>, ip: string)
    requires ArrayPop(Candidates(header, trusted)) == Some(ip)
    ensures exists k :: 0 <= k < |Explode(header)| && Trim(Explode(header)[k]) == ip
              && ip !in trusted
              && forall j :: k < j < |Explode(header)| ==> Trim(Explode(header)[j]) in trusted
  {
    PoppedTrimmedIsRightmost(Explode(header), trusted, ip);
  }

  /** Conversely, a proxy-derived result is the trimmed right-most entry of
      the header that is not a trusted proxy. */
  lemma ProxyResultIsRightmostUntrusted(cfg: Config, req: Request, header: string, ip: string)
    requires ForwardedFor(cfg, req) == Some(header)
    requires IpAddressFromProxy(cfg, req) == Some(ip)
    ensures exists k :: 0 <= k < |Explode(header)| && Trim(Explode(header)[k]) == ip
              && ip !in cfg.trustedProxies
              && forall j :: k < j < |Explode(header)| ==> Trim(Explode(header)[j]) in cfg.trustedProxies
  {
    assert ProxyTrusted(cfg, req);
    assert IpAddressFromProxy(cfg, req) == ArrayPop(Candidates(header, cfg.trustedProxies));
    PoppedCandidateIsRightmost(header, cfg.trustedProxies, ip);
  }

  /** A proxy-derived address has no trim character at either end. */
  lemma ProxyResultTrimmed(cfg: Config, req: Request, ip: string)
    requires IpAddressFromProxy(cfg, req) == Some(ip)
    ensures IsTrimmed(ip)
  {
    var header := ForwardedFor(cfg, req).value;
    ProxyResultIsRightmostUntrusted(cfg, req, header, ip);
  }

  /** An absent peer address does not block the proxy path: the header alone
      decides whenever it yields a truthy candidate. */
  lemma AbsentPeerUsesHeader(cfg: Config, req: Request, header: string)
    requires cfg.useProxy && req.remoteAddr.None?
    requires ForwardedFor(cfg, req) == Some(header)
    requires ArrayPop(Candidates(header, cfg.trustedProxies)).Some?
    ensures var c := ArrayPop(Candidates(header, cfg.trustedProxies)).value;
            IpAddress(cfg, req) == if IsTruthy(c) then c else ""
  {
    assert ProxyTrusted(cfg, req);
    assert IpAddressFromProxy(cfg, req) == ArrayPop(Candidates(header, cfg.trustedProxies));
  }

  /** A trimmed, comma-free entry followed by `", "` and another such entry
      splits and trims back into the two entries. */
  lemma TwoEntryChain(first: string, second: string)
    requires ',' !in first && ',' !in second && IsTrimmed(first) && IsTrimmed(second)
    ensures TrimAll(Explode(first + ", " + second)) == [first, second]
  {
    assert first + ", " + second == first + "," + (" " + second);
    assert ',' !in " " + second;
    ExplodeTwo(first, " " + second);
    var trimmed := TrimAll(Explode(first + ", " + second));
    assert trimmed[0] == first by { TrimOfTrimmed(first); }
    assert trimmed[1] == second by { TrimSpaced(second); }
  }

  /** A client behind one trusted proxy: the peer is the proxy, and the
      header `client, proxy` names the client and then the proxy. The
      client wins. */
  lemma ProxiedClientResolved(cfg: Config, req: Request, client: string, proxy: string)
    requires cfg.useProxy && req.remoteAddr == Some(proxy) && proxy in cfg.trustedProxies
    requires cfg.proxyHeader in req.server && req.server[cfg.proxyHeader] == client + ", " + proxy
    requires ',' !in client && ',' !in proxy && IsTrimmed(client) && IsTrimmed(proxy)
    requires client !in cfg.trustedProxies && IsTruthy(client)
    ensures IpAddress(cfg, req) == client
  {
    var header := client + ", " + proxy;
    assert ForwardedFor(cfg, req) == Some(header) by {
      assert |header| > 2 && header != "0";
    }
    var pieces := Explode(header);
    assert |pieces| == 2 && Trim(pieces[0]) == client && Trim(pieces[1]) == proxy by {
      TwoEntryChain(client, proxy);
      assert TrimAll(pieces)[0] == Trim(pieces[0]) && TrimAll(pieces)[1] == Trim(pieces[1]);
    }
    assert forall j :: 0 < j < |pieces| ==> Trim(pieces[j]) in cfg.trustedProxies by {
      forall j | 0 < j < |pieces| ensures Trim(pieces[j]) in cfg.trustedProxies {
        assert j == 1;
      }
    }
    assert ProxyTrusted(cfg, req);
    RightmostUntrustedWins(cfg, req, header, 0);
  }

  /** The same deployment when the header names only the trusted proxy: the
      peer address is used. */
  lemma OnlyProxyInHeaderFallsBack(cfg: Config, req: Request, proxy: string)
    requires cfg.useProxy && req.remoteAddr == Some(proxy) && proxy in cfg.trustedProxies
    requires cfg.proxyHeader in req.server && req.server[cfg.proxyHeader] == proxy
    requires ',' !in proxy && IsTrimmed(proxy)
    ensures IpAddress(cfg, req) == proxy
  {
    if IsTruthy(proxy) {
      assert ForwardedFor(cfg, req) == Some(proxy);
      OneEntryChain(proxy);
      AllTrustedFallsBack(cfg, req, proxy);
    } else {
      MissingHeaderFallsBack(cfg, req);
    }
  }

  /** A trimmed, comma-free header is a chain of one entry, itself. */
  lemma OneEntryChain(entry: string)
    requires ',' !in entry && IsTrimmed(entry)
    ensures |Explode(entry)| == 1 && Trim(Explode(entry)[0]) == entry
  {
    ExplodeCommaFree(entry);
    TrimOfTrimmed(entry);
  }

  /** How a header with a trailing comma splits and trims: its last entry
      trims to "". */
  lemma TrailingCommaChain(client: string)
    requires ',' !in client
    ensures var trimmed := TrimAll(Explode(client + ", "));
            |trimmed| == 2 && trimmed[1] == ""
  {
    assert client + ", " == client + "," + " ";
    assert ',' !in " ";
    ExplodeTwo(client, " ");
    assert Trim(" ") == "" by {
      assert SkipLeading(" ", 0) == 1;
    }
  }

  /** A trailing comma (`client, `) leaves "" as the right-most survivor,
      which `if ($ip)` rejects, so the peer address is used. */
  lemma TrailingCommaFallsBack(cfg: Config, req: Request, client: string)
    requires req.remoteAddr.Some? && cfg.proxyHeader in req.server
    requires req.server[cfg.proxyHeader] == client + ", "
    requires ',' !in client && "" !in cfg.trustedProxies
    ensures IpAddress(cfg, req) == req.remoteAddr.value
  {
    var header := client + ", ";
    TrailingCommaChain(client);
    var trimmed := TrimAll(Explode(header));
    assert ArrayPop(ArrayDiff(trimmed, cfg.trustedProxies)) == Some("") by {
      LastSurvivorIsRightmost(trimmed, cfg.trustedProxies, 1);
    }
    if ProxyTrusted(cfg, req) {
      assert header != "" && header != "0";
      assert ForwardedFor(cfg, req) == Some(header);
      assert IpAddressFromProxy(cfg, req) == Some("");
    }
  }
}

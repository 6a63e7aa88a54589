/**
 * Start-up of the load balancer in main.go: the -backends flag value is
 * split on commas, every token is parsed as a URL and registered, in token
 * order, as a live backend of the pool. An empty list and an unparsable
 * token end the process (log.Fatal); here they are returned as errors.
 */
module Startup {
  import opened PoolSpec
  import opened Pool

  /** strings.Split(s, ","): the maximal comma-free pieces of s, in order; "" gives [""] */
  function Split(s: string): (r: seq<string>)
    ensures |r| >= 1
    decreases |s|
  {
    if s == [] then [""]
    else if s[0] == ',' then [""] + Split(s[1..])
    else
      var rest := Split(s[1..]);
      [[s[0]] + rest[0]] + rest[1..]
  }

  /** strings.Join(ts, ","), the inverse the round-trip lemmas are stated against. */
  function Join(ts: seq<string>): string
    decreases |ts|
  {
    if ts == [] then ""
    else if |ts| == 1 then ts[0]
    else ts[0] + "," + Join(ts[1..])
  }

  /** The number of commas in s. */
  function Commas(s: string): nat
    decreases |s|
  {
    if s == [] then 0 else (if s[0] == ',' then 1 else 0) + Commas(s[1..])
  }

  ghost predicate CommaFree(t: string) {
    forall i :: 0 <= i < |t| ==> t[i] != ','
  }

  /** No token produced by Split contains a comma. */
  lemma {:induction false} SplitCommaFree(s: string)
    ensures forall j :: 0 <= j < |Split(s)| ==> CommaFree(Split(s)[j])
    decreases |s|
  {
    if s != [] {
      SplitCommaFree(s[1..]);
      if s[0] != ',' {
        var rest := Split(s[1..]);
        assert CommaFree(rest[0]);
        var t := [s[0]] + rest[0];
        assert forall i :: 0 < i < |t| ==> t[i] == rest[0][i - 1];
      }
    }
  }

  /** There is one token more than there are commas. */
  lemma {:induction false} SplitCount(s: string)
    ensures |Split(s)| == Commas(s) + 1
    decreases |s|
  {
    if s != [] {
      SplitCount(s[1..]);
    }
  }

  /** Joining the tokens with commas gives back the original string. */
  lemma {:induction false} JoinSplit(s: string)
    ensures Join(Split(s)) == s
    decreases |s|
  {
    if s != [] {
      var rest := Split(s[1..]);
      JoinSplit(s[1..]);
      if s[0] == ',' {
        assert Split(s) == [""] + rest;
        assert ([""] + rest)[1..] == rest;
        assert s == "" + "," + s[1..];
      } else {
        JoinGlue(s[0], rest);
        assert s == [s[0]] + s[1..];
      }
    }
  }

  /** Prepending a character to the first token prepends it to the joined string. */
  lemma {:induction false} JoinGlue(c: char, ts: seq<string>)
    requires |ts| >= 1
    ensures Join([[c] + ts[0]] + ts[1..]) == [c] + Join(ts)
  {
    var gs := [[c] + ts[0]] + ts[1..];
    assert gs[1..] == ts[1..];
    if |ts| > 1 {
      assert Join(gs) == ([c] + ts[0]) + "," + Join(ts[1..]);
      assert Join(ts) == ts[0] + "," + Join(ts[1..]);
    }
  }

  /** Split(t + s) when t has no comma: t is glued onto the first token of s. */
  lemma {:induction false} SplitPrefix(t: string, s: string)
    requires CommaFree(t)
    ensures Split(t + s) == [t + Split(s)[0]] + Split(s)[1..]
    decreases |t|
  {
    if t != [] {
      var t' := t[1..];
      assert CommaFree(t');
      assert (t + s)[1..] == t' + s;
      assert (t + s)[0] == t[0];
      SplitPrefix(t', s);
      assert [t[0]] + (t' + Split(s)[0]) == t + Split(s)[0];
    } else {
      assert t + s == s;
      assert t + Split(s)[0] == Split(s)[0];
      assert Split(s) == [Split(s)[0]] + Split(s)[1..];
    }
  }

  /** Splitting comma-free tokens joined with commas gives back the tokens. */
  lemma {:induction false} SplitJoin(ts: seq<string>)
    requires |ts| >= 1
    requires forall j :: 0 <= j < |ts| ==> CommaFree(ts[j])
    ensures Split(Join(ts)) == ts
    decreases |ts|
  {
    if |ts| == 1 {
      SplitPrefix(ts[0], "");
      assert Split("") == [""];
      assert ts[0] + "" == ts[0];
      assert Join(ts) == ts[0];
    } else {
      var rest := ts[1..];
      SplitJoin(rest);
      var tail := "," + Join(rest);
      assert Join(ts) == ts[0] + tail;
      SplitPrefix(ts[0], tail);
      assert tail[0] == ',' && tail[1..] == Join(rest);
      assert Split(tail) == [""] + rest;
      assert ts[0] + "" == ts[0];
      assert ([""] + rest)[1..] == rest;
      assert ts == [ts[0]] + rest;
    }
  }

  /** Why start-up stops: no backends given, or a token url.Parse rejects. */
  datatype ConfigError = NoBackends | BadUrl(token: string)

  /**
   * The URLs of the tokens before the first one parse rejects, in order;
   * all of them when parse accepts every token.
   */
  function ParseTokens(tokens: seq<string>, parse: string -> Option<string>): (r: seq<string>)
    ensures |r| <= |tokens|
    ensures forall i :: 0 <= i < |r| ==> parse(tokens[i]) == Some(r[i])
    ensures |r| < |tokens| ==> parse(tokens[|r|]).None?
    decreases |tokens|
  {
    if tokens == [] then []
    else match parse(tokens[0])
      case None => []
      case Some(u) => [u] + ParseTokens(tokens[1..], parse)
  }

  /**
   * main's validation and configuration of the backends: an empty list is
   * rejected before the pool is touched; otherwise the list is split on
   * commas and the tokens are registered.
   */
  method Configure(pool: ServerPool, serverList: string, parse: string -> Option<string>)
    returns (err: Option<ConfigError>)
    requires pool.Valid()
    modifies pool
    ensures pool.Valid() && pool.current == old(pool.current)
    ensures serverList == [] ==> err == Some(NoBackends) && pool.backends == old(pool.backends)
    ensures serverList != [] ==>
      var tokens := Split(serverList);
      var urls := ParseTokens(tokens, parse);
      var n := |old(pool.backends)|;
      && Configured(pool.backends, n, urls)
      && pool.backends[..n] == old(pool.backends)
      && (forall i :: n <= i < |pool.backends| ==> fresh(pool.backends[i]))
      && err == (if |urls| < |tokens| then Some(BadUrl(tokens[|urls|])) else None)
  {
    if |serverList| == 0 {
      return Some(NoBackends);
    }
    var tokens := Split(serverList);
    err := RegisterAll(pool, tokens, parse);
  }

  /**
   * The loop over the tokens: registers a fresh live backend for every token
   * in order and stops at the first token parse rejects, which is reported;
   * the backends registered before it stay in the pool.
   */
  method RegisterAll(pool: ServerPool, tokens: seq<string>, parse: string -> Option<string>)
    returns (err: Option<ConfigError>)
    requires pool.Valid()
    modifies pool
    ensures pool.Valid() && pool.current == old(pool.current)
    ensures var urls := ParseTokens(tokens, parse);
      var n := |old(pool.backends)|;
      && Configured(pool.backends, n, urls)
      && pool.backends[..n] == old(pool.backends)
      && (forall i :: n <= i < |pool.backends| ==> fresh(pool.backends[i]))
      && err == (if |urls| < |tokens| then Some(BadUrl(tokens[|urls|])) else None)
  {
    ghost var urls := ParseTokens(tokens, parse);
    ghost var n := |pool.backends|;
    var i := 0;
    while i < |tokens|
      invariant 0 <= i <= |urls|
      invariant pool.Valid() && pool.current == old(pool.current)
      invariant Configured(pool.backends, n, urls[..i])
      invariant pool.backends[..n] == old(pool.backends)
      invariant forall j :: n <= j < |pool.backends| ==> fresh(pool.backends[j])
    {
      var serverUrl := parse(tokens[i]);
      if serverUrl.None? {
        assert urls[..i] == urls;
        return Some(BadUrl(tokens[i]));
      }
      ghost var before := pool.backends;
      var b := Register(pool, serverUrl.value);
      ConfiguredAppend(before, n, urls[..i], b);
      assert urls[..i] + [urls[i]] == urls[..i + 1];
      i := i + 1;
    }
    assert urls[..i] == urls;
    return None;
  }

  /** The backends from index n on are live and carry the URLs urls, in order. */
  ghost predicate Configured(bs: seq<Backend>, n: nat, urls: seq<string>)
    reads set b | b in bs
  {
    && |bs| == n + |urls|
    && forall j :: n <= j < |bs| ==> bs[j].url == urls[j - n] && bs[j].alive
  }

  lemma ConfiguredAppend(bs: seq<Backend>, n: nat, urls: seq<string>, b: Backend)
    requires Configured(bs, n, urls) && b.alive
    ensures Configured(bs + [b], n, urls + [b.url])
  {
  }

  /** Creates a live backend for url and appends it to the pool, as the body of the loop in main does. */
  method Register(pool: ServerPool, url: string) returns (b: Backend)
    requires pool.Valid()
    modifies pool
    ensures fresh(b) && b.url == url && b.alive
    ensures pool.backends == old(pool.backends) + [b]
    ensures pool.Valid() && pool.current == old(pool.current)
  {
    b := new Backend(url, true);
    pool.AddBackend(b);
  }
}

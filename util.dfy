/** The helpers of src/masc/util.py: `chunkify`, `merge`, the `FetchError`
    message, and `fetch_cached`, which keeps downloaded bytes in a cache
    directory named after the SHA-1 digest of the URL. */
module Util {
  import opened Py

  // ---------------------------------------------------------------------------
  // FetchError.__str__

  /** `str(FetchError(status, url))`. */
  function FetchErrorText(status: int, url: string): (r: string)
    ensures StartsWith(r, "FetchError(") && EndsWith(r, ")")
  {
    "FetchError(" + IntToString(status) + " at " + url + ")"
  }

  /** Reads a message back: the status ends at the first space. */
  function ParseFetchErrorText(s: string): Option<(int, string)>
  {
    if |s| < 12 || !StartsWith(s, "FetchError(") || !EndsWith(s, ")") then None
    else
      var body := s[11..|s| - 1];
      var i := FirstIndex(body, ' ');
      if i < 0 || !StartsWith(body[i..], " at ") then None
      else match ParseInt(body[..i])
        case None => None
        case Some(n) => Some((n, body[i + 4..]))
  }

  lemma NoSpaceInNumber(n: int)
    ensures ' ' !in IntToString(n)
  {
    var d := NatToString(if n < 0 then -n else n);
    assert forall i :: 0 <= i < |d| ==> IsDigit(d[i]);
    if n < 0 {
      assert IntToString(n) == "-" + d;
      assert forall i :: 0 <= i < |IntToString(n)| ==> IntToString(n)[i] == '-' || IsDigit(IntToString(n)[i]);
    }
  }

  /** The message names the status and the URL unambiguously: both can be
      read back from it, whatever the URL holds. */
  lemma FetchErrorTextParses(status: int, url: string)
    ensures ParseFetchErrorText(FetchErrorText(status, url)) == Some((status, url))
  {
    var s := FetchErrorText(status, url);
    var code := IntToString(status);
    var body := s[11..|s| - 1];
    assert body == code + " at " + url;
    NoSpaceInNumber(status);
    BodySplits(body, code, url);
    IntRoundTrip(status);
    assert ParseInt(body[..|code|]) == Some(status);
  }

  /** In "<code> at <url>" with no space in the code, the first space ends the code. */
  lemma BodySplits(body: string, code: string, url: string)
    requires body == code + " at " + url && ' ' !in code
    ensures FirstIndex(body, ' ') == |code|
    ensures StartsWith(body[|code|..], " at ")
    ensures body[..|code|] == code && body[|code| + 4..] == url
  {
    assert body[|code|] == ' ';
    assert forall i :: 0 <= i < |code| ==> body[i] == code[i];
    assert body[|code|..] == " at " + url;
  }

  // ---------------------------------------------------------------------------
  // chunkify

  /** The successive slices `s[:n]`, `s[n:][:n]`, ... of a non-empty `s`. */
  function Chunks<T>(s: seq<T>, n: nat): seq<seq<T>>
    requires n >= 1
    decreases |s|
  {
    if s == [] then [] else if |s| <= n then [s] else [s[..n]] + Chunks(s[n..], n)
  }

  function Concat<T>(ss: seq<seq<T>>): seq<T>
  {
    if ss == [] then [] else ss[0] + Concat(ss[1..])
  }

  lemma ConcatCons<T>(x: seq<T>, ss: seq<seq<T>>)
    ensures Concat([x] + ss) == x + Concat(ss)
  {
    assert ([x] + ss)[1..] == ss;
  }

  lemma {:induction false} ChunksConcat<T>(s: seq<T>, n: nat)
    requires n >= 1
    ensures Concat(Chunks(s, n)) == s
    decreases |s|
  {
    if s != [] && |s| > n {
      ChunksConcat(s[n..], n);
      ConcatCons(s[..n], Chunks(s[n..], n));
      assert s == s[..n] + s[n..];
    } else if s != [] {
      ConcatCons(s, []);
    }
  }

  lemma {:induction false} ChunksLengths<T>(s: seq<T>, n: nat)
    requires n >= 1
    ensures forall i :: 0 <= i < |Chunks(s, n)| - 1 ==> |Chunks(s, n)[i]| == n
    ensures Chunks(s, n) != [] ==> 0 < |Chunks(s, n)[|Chunks(s, n)| - 1]| <= n
    decreases |s|
  {
    if s != [] && |s| > n {
      var rest := Chunks(s[n..], n);
      ChunksLengths(s[n..], n);
      var r := [s[..n]] + rest;
      assert Chunks(s, n) == r;
      assert r[|r| - 1] == rest[|rest| - 1];
      forall i | 0 <= i < |r| - 1 ensures |r[i]| == n {
        if i > 0 { assert r[i] == rest[i - 1]; }
      }
    }
  }

  /** What `chunkify(s, n)` yields: the chunks concatenate back to `s`, all
      but the last have length `n`, the last is non-empty and at most `n`
      long, and an empty `s` yields none. */
  lemma ChunksShape<T>(s: seq<T>, n: nat)
    requires n >= 1
    ensures Concat(Chunks(s, n)) == s
    ensures Chunks(s, n) == [] <==> s == []
    ensures forall i :: 0 <= i < |Chunks(s, n)| - 1 ==> |Chunks(s, n)[i]| == n
    ensures Chunks(s, n) != [] ==> 0 < |Chunks(s, n)[|Chunks(s, n)| - 1]| <= n
  {
    ChunksConcat(s, n);
    ChunksLengths(s, n);
  }

  /** `list(chunkify(s, n))`: the generator's loop. */
  method Chunkify<T>(s: seq<T>, n: int) returns (chunks: seq<seq<T>>)
    requires n >= 1
    ensures chunks == Chunks(s, n)
  {
    chunks := [];
    var rest := s;
    while rest != []
      invariant chunks + Chunks(rest, n) == Chunks(s, n)
      decreases |rest|
    {
      var k := if |rest| < n then |rest| else n;
      if |rest| <= n {
        assert rest[..k] == rest && rest[k..] == [];
      }
      chunks := chunks + [rest[..k]];
      rest := rest[k..];
    }
  }

  // ---------------------------------------------------------------------------
  // merge

  /** The dicts applied one after another with `update`. */
  function Merged<K, V>(dicts: seq<map<K, V>>): map<K, V>
  {
    if dicts == [] then map[] else Merged(dicts[..|dicts| - 1]) + dicts[|dicts| - 1]
  }

  /** What `merge(*dicts)` returns: every key of any input, with the value of
      the last input holding it. */
  lemma {:induction false} MergedLastWins<K, V>(dicts: seq<map<K, V>>, k: K)
    ensures k in Merged(dicts) <==> exists i :: 0 <= i < |dicts| && k in dicts[i]
    ensures forall i :: 0 <= i < |dicts| && k in dicts[i] && (forall j :: i < j < |dicts| ==> k !in dicts[j]) ==>
      Merged(dicts)[k] == dicts[i][k]
  {
    if dicts != [] {
      var pre := dicts[..|dicts| - 1];
      MergedLastWins(pre, k);
      assert forall i :: 0 <= i < |pre| ==> pre[i] == dicts[i];
      if k !in dicts[|dicts| - 1] {
        if exists i :: 0 <= i < |dicts| && k in dicts[i] {
          var i :| 0 <= i < |dicts| && k in dicts[i];
          assert k in pre[i];
        }
      }
    }
  }

  method Merge<K, V>(dicts: seq<map<K, V>>) returns (ret: map<K, V>)
    ensures ret == Merged(dicts)
  {
    ret := map[];
    for i := 0 to |dicts|
      invariant ret == Merged(dicts[..i])
    {
      TakeSnoc(dicts, i);
      ret := ret + dicts[i];
    }
    assert dicts[..|dicts|] == dicts;
  }

  // ---------------------------------------------------------------------------
  // The fetch cache

  /** What the web server answers to a GET. */
  datatype Response = Response(status: int, content: Bytes)

  predicate IsHexDigest(d: string)
  {
    |d| == 40 && forall i :: 0 <= i < |d| ==> d[i] in "0123456789abcdef"
  }

  /** `'/'.join(['cache'] + list(chunkify(digest, 8)))`. */
  function CachePath(digest: string): string
  {
    Join([Sep], ["cache"] + Chunks(digest, 8))
  }

  lemma Chunks40(d: string)
    requires |d| == 40
    ensures Chunks(d, 8) == [d[..8], d[8..16], d[16..24], d[24..32], d[32..]]
  {
    assert Chunks(d[32..], 8) == [d[32..]];
    assert d[24..][..8] == d[24..32] && d[24..][8..] == d[32..];
    assert Chunks(d[24..], 8) == [d[24..32], d[32..]];
    assert d[16..][..8] == d[16..24] && d[16..][8..] == d[24..];
    assert Chunks(d[16..], 8) == [d[16..24], d[24..32], d[32..]];
    assert d[8..][..8] == d[8..16] && d[8..][8..] == d[16..];
    assert Chunks(d[8..], 8) == [d[8..16], d[16..24], d[24..32], d[32..]];
  }

  lemma CachePathText(d: string)
    requires |d| == 40
    ensures CachePath(d) == "cache/" + d[..8] + "/" + d[8..16] + "/" + d[16..24] + "/" + d[24..32] + "/" + d[32..]
  {
    Chunks40(d);
    var parts := ["cache", d[..8], d[8..16], d[16..24], d[24..32], d[32..]];
    assert Join([Sep], parts[5..]) == d[32..];
    assert Join([Sep], parts[4..]) == d[24..32] + "/" + d[32..];
    assert Join([Sep], parts[3..]) == d[16..24] + "/" + d[24..32] + "/" + d[32..];
    assert Join([Sep], parts[2..]) == d[8..16] + "/" + d[16..24] + "/" + d[24..32] + "/" + d[32..];
    assert Join([Sep], parts[1..]) == d[..8] + "/" + d[8..16] + "/" + d[16..24] + "/" + d[24..32] + "/" + d[32..];
  }

  /** `os.path.dirname(head + "/" + last)` is `head` when `last` holds no
      slash and `head` does not end in one. */
  lemma DirnameOfChild(head: string, last: string)
    requires head != [] && head[|head| - 1] != '/' && '/' !in last
    ensures Dirname(head + "/" + last) == head
  {
    var p := head + "/" + last;
    assert LastIndex(p, '/') == |head| by {
      assert p[|head|] == '/';
      assert forall i :: |head| < i < |p| ==> p[i] == last[i - |head| - 1];
      LastIndexIs(p, '/', |head|);
    }
    assert p[..|head| + 1] == head + "/";
    assert RStrip(head + "/", '/') == RStrip(head, '/') by {
      assert (head + "/")[..|head|] == head;
    }
  }

  /** The cache file of a 40-digit digest sits five directories of eight
      digits each below "cache", and its directory is the path without the
      last segment. */
  lemma CachePathShape(d: string)
    requires IsHexDigest(d)
    ensures CachePath(d) == "cache/" + d[..8] + "/" + d[8..16] + "/" + d[16..24] + "/" + d[24..32] + "/" + d[32..]
    ensures Dirname(CachePath(d)) == "cache/" + d[..8] + "/" + d[8..16] + "/" + d[16..24] + "/" + d[24..32]
  {
    CachePathText(d);
    var head := "cache/" + d[..8] + "/" + d[8..16] + "/" + d[16..24] + "/" + d[24..32];
    assert forall i :: 32 <= i < |d| ==> d[32..][i - 32] == d[i] != '/';
    assert head[|head| - 1] == d[31];
    DirnameOfChild(head, d[32..]);
  }

  lemma LastIndexIs(s: string, c: char, k: nat)
    requires k < |s| && s[k] == c
    requires forall i :: k < i < |s| ==> s[i] != c
    ensures LastIndex(s, c) == k
  {
    if k < |s| - 1 {
      assert s[..|s| - 1][k] == c;
      LastIndexIs(s[..|s| - 1], c, k);
    }
  }

  /** Distinct digests name distinct cache files. */
  lemma CachePathInjective(d1: string, d2: string)
    requires IsHexDigest(d1) && IsHexDigest(d2)
    requires CachePath(d1) == CachePath(d2)
    ensures d1 == d2
  {
    CachePathShape(d1);
    CachePathShape(d2);
    var p := CachePath(d1);
    PathParts(p, d1[..8], d1[8..16], d1[16..24], d1[24..32], d1[32..]);
    PathParts(p, d2[..8], d2[8..16], d2[16..24], d2[24..32], d2[32..]);
    Parts40(d1);
    Parts40(d2);
  }

  /** The five chunks of a cache path, read back by position. */
  lemma PathParts(p: string, a: string, b: string, c: string, d: string, e: string)
    requires |a| == 8 && |b| == 8 && |c| == 8 && |d| == 8
    requires p == "cache/" + a + "/" + b + "/" + c + "/" + d + "/" + e
    ensures |p| == 42 + |e| && p[6..14] == a && p[15..23] == b && p[24..32] == c && p[33..41] == d && p[42..] == e
  {
  }

  lemma Parts40(d: string)
    requires |d| == 40
    ensures d == d[..8] + d[8..16] + d[16..24] + d[24..32] + d[32..]
  {
  }

  /** The directories `os.makedirs(p)` creates: `p` and its missing parents. */
  function DirChain(p: string): set<string>
    decreases |p|
  {
    var parent := Dirname(p);
    if parent != "" && |parent| < |p| then {p} + DirChain(parent) else {p}
  }

  /** The cache directory, and every URL requested from the server. */
  datatype CacheState = CacheState(files: map<string, Bytes>, dirs: set<string>, requests: seq<string>)

  /** `fetch_cached(url)` with the cache file at `path`: an existing file is
      read; otherwise the URL is requested, a status other than 200 raises
      FetchError, and the body is stored after `os.makedirs` of the file's
      directory, which raises if that directory already exists. */
  function Fetch(s: CacheState, url: string, path: string, web: string -> Response): (Result<Bytes>, CacheState)
  {
    if path in s.files then (Ok(s.files[path]), s)
    else if path in s.dirs then (Err(IsADirectoryError(path)), s)
    else
      var resp := web(url);
      var asked := s.(requests := s.requests + [url]);
      if resp.status != 200 then (Err(FetchError(resp.status, url)), asked)
      else
        var dir := Dirname(path);
        if dir in s.dirs || dir in s.files then (Err(FileExistsError(dir)), asked)
        else (Ok(resp.content), asked.(files := s.files[path := resp.content], dirs := s.dirs + DirChain(dir)))
  }

  /** A hit returns the stored bytes, asks the server nothing and changes nothing. */
  lemma FetchHit(s: CacheState, url: string, path: string, web: string -> Response)
    requires path in s.files
    ensures Fetch(s, url, path, web) == (Ok(s.files[path]), s)
  {
  }

  /** A miss always asks the server once; a refusal raises FetchError and
      leaves the cache as it was. */
  lemma FetchMiss(s: CacheState, url: string, path: string, web: string -> Response)
    requires path !in s.files && path !in s.dirs
    ensures Fetch(s, url, path, web).1.requests == s.requests + [url]
    ensures web(url).status != 200 ==>
      Fetch(s, url, path, web) == (Err(FetchError(web(url).status, url)), s.(requests := s.requests + [url]))
    ensures Fetch(s, url, path, web).0.Ok? <==>
      web(url).status == 200 && Dirname(path) !in s.dirs && Dirname(path) !in s.files
    ensures Fetch(s, url, path, web).0.Ok? ==> Fetch(s, url, path, web).0.value == web(url).content
  {
  }

  /** Once a fetch succeeds, fetching the same URL again is a hit: same
      bytes, no request, no change. */
  lemma FetchIdempotent(s: CacheState, url: string, path: string, web: string -> Response, web2: string -> Response)
    requires Fetch(s, url, path, web).0.Ok?
    ensures var (r, s1) := Fetch(s, url, path, web);
      path in s1.files && Fetch(s1, url, path, web2) == (r, s1)
  {
  }

  /** A stored download leaves every other cache file as it was. */
  lemma FetchKeepsOthers(s: CacheState, url: string, path: string, web: string -> Response, other: string)
    requires other != path && other in s.files
    ensures var s1 := Fetch(s, url, path, web).1;
      other in s1.files && s1.files[other] == s.files[other]
  {
  }

  /** When the directory of a missing cache file already exists (left behind
      by an earlier write that failed, say), the URL is requested on every
      call and never stored. */
  lemma FetchStuck(s: CacheState, url: string, path: string, web: string -> Response)
    requires path !in s.files && path !in s.dirs && Dirname(path) in s.dirs
    requires web(url).status == 200
    ensures Fetch(s, url, path, web).0 == Err(FileExistsError(Dirname(path)))
    ensures var s1 := Fetch(s, url, path, web).1;
      s1.files == s.files && s1.dirs == s.dirs &&
      Fetch(s1, url, path, web).0 == Err(FileExistsError(Dirname(path)))
  {
  }

  /** The cache directory and the web server the program talks to. */
  class Cache {
    var files: map<string, Bytes>
    var dirs: set<string>
    var requests: seq<string>

    function State(): CacheState
      reads this
    {
      CacheState(files, dirs, requests)
    }

    constructor (files: map<string, Bytes>, dirs: set<string>)
      ensures State() == CacheState(files, dirs, [])
    {
      this.files := files;
      this.dirs := dirs;
      requests := [];
    }

    /** `fetch_cached(url)`; `sha1` gives the hex digest of a URL and `web`
        the server's answer. */
    method FetchCached(url: string, sha1: string -> string, web: string -> Response) returns (r: Result<Bytes>)
      modifies this
      ensures (r, State()) == Fetch(old(State()), url, CachePath(sha1(url)), web)
    {
      var chunks := Chunkify(sha1(url), 8);
      var path := Join([Sep], ["cache"] + chunks);
      if path in files {
        return Ok(files[path]);
      }
      if path in dirs {
        return Err(IsADirectoryError(path));
      }
      var resp := web(url);
      requests := requests + [url];
      if resp.status != 200 {
        return Err(FetchError(resp.status, url));
      }
      var dir := Dirname(path);
      if dir in dirs || dir in files {
        return Err(FileExistsError(dir));
      }
      dirs := dirs + DirChain(dir);
      files := files[path := resp.content];
      return Ok(resp.content);
    }
  }
}

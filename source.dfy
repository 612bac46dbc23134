/**
 * Policy sources (internal/policy/source/source.go).
 *
 * A source group lists policy urls, data urls and optional rule data. The
 * factory turns it into an ordered list of sources; resolving a source fetches
 * it at most once per process through the download cache and returns a local
 * path. A remote source is fetched into a fresh, time-salted destination; when
 * the cache already holds a download made under a different directory, the
 * resolver links or re-downloads into the new destination instead.
 *
 * Collaborators outside the model (the downloader, the file system, the clock)
 * appear as a `Host`: what each of them answers during one call. Every
 * resolving method returns the list of calls it made on them.
 */
module Source {
  import opened Wrappers
  import opened Paths
  import opened Naming
  import opened Cache
  import Base64

  /** The kind of a remote source; its name is also its subdirectory. */
  datatype Kind = Policy | Data | Config

  function KindName(k: Kind): string
  {
    match k
    case Policy => "policy"
    case Data => "data"
    case Config => "config"
  }

  /** A policy source: a go-getter url of some kind, or rule data given inline. */
  datatype PolicySource = PolicyUrl(url: string, kind: Kind) | InlineData(source: seq<byte>)

  /** Subdirectory of inline data under the work directory. */
  const InlineSubdir: string := "data"

  /** File the inline rule data is written to. */
  const RuleDataFile: string := "rule_data.json"

  /** Prefix of the `data:` URI that names inline data. */
  const DataUriPrefix: string := "data:application/json;base64,"

  /** Opening of the document inline rule data is wrapped in. */
  const RuleDataOpening: string := "{\"rule_data__configuration__\":"

  /** Closing brace of that document. */
  const RuleDataClosing: byte := '}' as int

  /** `Subdir()`: the kind's name for a url, "data" for inline data. */
  function Subdir(s: PolicySource): string
  {
    match s
    case PolicyUrl(_, kind) => KindName(kind)
    case InlineData(_) => InlineSubdir
  }

  /** `PolicyUrl()`: the url itself, or a base64 `data:` URI for inline data. */
  function SourceUrl(s: PolicySource): string
  {
    match s
    case PolicyUrl(url, _) => url
    case InlineData(source) => DataUriPrefix + Base64.Encode(source)
  }

  /** The subdirectory of a url is the name of its kind, and kinds have distinct names. */
  lemma SubdirNamesKind(u1: string, k1: Kind, u2: string, k2: Kind)
    ensures Subdir(PolicyUrl(u1, k1)) == KindName(k1)
    ensures Subdir(PolicyUrl(u1, k1)) == Subdir(PolicyUrl(u2, k2)) <==> k1 == k2
  {
  }

  /** The `data:` URI of inline data has the length RFC 4648 padding gives it. */
  lemma DataUriLength(source: seq<byte>)
    ensures |SourceUrl(InlineData(source))| == 29 + 4 * ((|source| + 2) / 3)
  {
    Base64.EncodeLength(source);
  }

  /** Reads the octets back from a `data:` URI made by `SourceUrl`. */
  function DataUriContent(uri: string): Option<seq<byte>>
  {
    if |uri| >= |DataUriPrefix| && uri[..|DataUriPrefix|] == DataUriPrefix
    then Base64.Decode(uri[|DataUriPrefix|..])
    else None
  }

  /** The `data:` URI of inline data names exactly its octets. */
  lemma DataUriNamesContent(source: seq<byte>)
    ensures DataUriContent(SourceUrl(InlineData(source))) == Some(source)
  {
    var uri := SourceUrl(InlineData(source));
    assert uri[..|DataUriPrefix|] == DataUriPrefix;
    assert uri[|DataUriPrefix|..] == Base64.Encode(source);
    Base64.RoundTrip(source);
  }

  // ---------------------------------------------------------------------
  // Source factory

  /** The rule data document: `{"rule_data__configuration__":` + raw + `}`. */
  function WrapRuleData(raw: seq<byte>): (doc: seq<byte>)
    ensures |doc| == |raw| + |RuleDataOpening| + 1
  {
    AsciiBytes(RuleDataOpening) + raw + [RuleDataClosing]
  }

  /** The raw rule data inside a wrapped document, if it is one. */
  function UnwrapRuleData(doc: seq<byte>): Option<seq<byte>>
  {
    var n := |RuleDataOpening|;
    if |doc| > n && doc[..n] == AsciiBytes(RuleDataOpening) && doc[|doc| - 1] == RuleDataClosing
    then Some(doc[n..|doc| - 1])
    else None
  }

  /** Wrapping keeps the raw rule data byte for byte. */
  lemma UnwrapWrapped(raw: seq<byte>)
    ensures UnwrapRuleData(WrapRuleData(raw)) == Some(raw)
  {
    var doc := WrapRuleData(raw);
    var n := |RuleDataOpening|;
    assert doc[..n] == AsciiBytes(RuleDataOpening);
    assert doc[n..|doc| - 1] == raw;
  }

  /** The rule data `{"k":"v"}` becomes `{"rule_data__configuration__":{"k":"v"}}`. */
  lemma WrapExample()
    ensures WrapRuleData(AsciiBytes("{\"k\":\"v\"}"))
         == AsciiBytes("{\"rule_data__configuration__\":{\"k\":\"v\"}}")
  {
    var raw := AsciiBytes("{\"k\":\"v\"}");
    var doc := WrapRuleData(raw);
    var expected := AsciiBytes("{\"rule_data__configuration__\":{\"k\":\"v\"}}");
    assert |doc| == |expected|;
    forall i | 0 <= i < |doc|
      ensures doc[i] == expected[i]
    {
    }
  }

  /** A source group: policy urls, data urls and optional raw rule data. */
  datatype SourceGroup = SourceGroup(policy: seq<string>, data: seq<string>, ruleData: Option<seq<byte>>)

  /**
   * `FetchPolicySources`: every policy url in order, then every data url in
   * order, then the wrapped rule data if there is any. Nothing is deduplicated
   * and no error is ever returned.
   */
  method FetchPolicySources(s: SourceGroup) returns (sources: seq<PolicySource>, err: Option<Error>)
    ensures err == None
    ensures |sources| == |s.policy| + |s.data| + (if s.ruleData.Some? then 1 else 0)
    ensures forall i | 0 <= i < |s.policy| :: sources[i] == PolicyUrl(s.policy[i], Policy)
    ensures forall j | 0 <= j < |s.data| :: sources[|s.policy| + j] == PolicyUrl(s.data[j], Data)
    ensures s.ruleData.Some? ==> sources[|sources| - 1] == InlineData(WrapRuleData(s.ruleData.value))
  {
    sources := [];
    for i := 0 to |s.policy|
      invariant |sources| == i
      invariant forall k | 0 <= k < i :: sources[k] == PolicyUrl(s.policy[k], Policy)
    {
      sources := sources + [PolicyUrl(s.policy[i], Policy)];
    }
    for j := 0 to |s.data|
      invariant |sources| == |s.policy| + j
      invariant forall k | 0 <= k < |s.policy| :: sources[k] == PolicyUrl(s.policy[k], Policy)
      invariant forall k | 0 <= k < j :: sources[|s.policy| + k] == PolicyUrl(s.data[k], Data)
    {
      sources := sources + [PolicyUrl(s.data[j], Data)];
    }
    if s.ruleData.Some? {
      sources := sources + [InlineData(WrapRuleData(s.ruleData.value))];
    }
    err := None;
  }

  // ---------------------------------------------------------------------
  // Collaborators

  /** Permission bits of the inline data directory, octal 0755. */
  const DirMode: int := 493

  /** Permission bits of the inline data file, octal 0400 (owner read only). */
  const FileMode: int := 256

  /** A call on a collaborator outside the model. */
  datatype Call =
    | Download(dest: string, url: string, showMsg: bool, injected: bool)
    | Symlink(oldname: string, newname: string)
    | MkdirAll(dir: string, mode: int)
    | WriteFile(file: string, data: seq<byte>, mode: int)

  /**
   * What the world outside the model answers during one call: the clock's
   * text; whether the context carries an injected downloader and whether its
   * file system can symlink; and the error (or none) that the download, the
   * symlink, the re-download, the directory creation and the file write return.
   */
  datatype Host = Host(
    now: string,
    injected: bool,
    symlinker: bool,
    downloadErr: Option<Error>,
    symlinkErr: Option<Error>,
    redownloadErr: Option<Error>,
    mkdirErr: Option<Error>,
    writeErr: Option<Error>)

  /** A resolved pair and the collaborator calls made to get it. */
  datatype Reply = Reply(result: Resolved, calls: seq<Call>)

  // ---------------------------------------------------------------------
  // Reconciliation in PolicyUrl.GetPolicy

  /**
   * Reconciles the fresh destination `dest` with the pair `cached` the cache
   * handed back. Same parent: the cached pair, untouched. Different parent:
   * the fresh destination, after a symlink attempt whose outcome is ignored
   * or, without symlinks, a re-download that only an injected downloader does.
   */
  function Reconcile(dest: string, cached: Resolved, url: string, showMsg: bool, host: Host): (r: Reply)
    ensures Dir(dest) == Dir(cached.path) ==> r == Reply(cached, [])
    ensures Dir(dest) != Dir(cached.path) ==> r.result.path == dest
    ensures Dir(dest) != Dir(cached.path) && host.symlinker ==>
              r.result.err == None && r.calls == [Symlink(cached.path, dest)]
    ensures Dir(dest) != Dir(cached.path) && !host.symlinker && host.injected ==>
              r.result.err == host.redownloadErr && r.calls == [Download(dest, url, showMsg, true)]
    ensures Dir(dest) != Dir(cached.path) && !host.symlinker && !host.injected ==>
              r.result.err == None && r.calls == []
    ensures Dir(dest) != Dir(cached.path) && r.result.err.Some? ==>
              !host.symlinker && host.injected && r.result.err == host.redownloadErr
    ensures forall c | c in r.calls :: c.Download? ==> !host.symlinker && host.injected && c.dest == dest
    ensures |r.calls| <= 1
  {
    if Dir(dest) == Dir(cached.path) then Reply(cached, [])
    else if host.symlinker then
      var calls := [Symlink(cached.path, dest)];
      if host.symlinkErr.None? then Reply(Resolved(dest, None), calls)
      else Reply(Resolved(dest, None), calls)
    else if host.injected then
      Reply(Resolved(dest, host.redownloadErr), [Download(dest, url, showMsg, true)])
    else Reply(Resolved(dest, None), [])
  }

  /** A failed symlink still yields `(dest, nil)`, and nothing is re-downloaded. */
  lemma FailedSymlinkIsSilent(dest: string, cached: Resolved, url: string, showMsg: bool, host: Host)
    requires Dir(dest) != Dir(cached.path) && host.symlinker && host.symlinkErr.Some?
    ensures Reconcile(dest, cached, url, showMsg, host) == Reply(Resolved(dest, None), [Symlink(cached.path, dest)])
  {
  }

  /**
   * Something is downloaded again exactly when the parent moved, the file
   * system cannot symlink and the context carries a downloader; that download
   * goes into `dest` and its error is what the caller gets.
   */
  lemma RedownloadIff(dest: string, cached: Resolved, url: string, showMsg: bool, host: Host)
    ensures var r := Reconcile(dest, cached, url, showMsg, host);
            (Download(dest, url, showMsg, true) in r.calls <==>
               Dir(dest) != Dir(cached.path) && !host.symlinker && host.injected)
            && (forall c | c in r.calls :: c.Download? ==> c == Download(dest, url, showMsg, true))
  {
  }

  /**
   * A second resolution under the same work directory and kind gets exactly
   * the pair the first stored, whatever the two clocks said, and makes no call.
   */
  lemma RepeatAtSameLocation(digest: string -> Digest224, workDir: string, kind: Kind, url: string,
                             now1: string, now2: string, cachedErr: Option<Error>, showMsg: bool, host: Host)
    ensures var first := UniqueDestination(digest, workDir, KindName(kind), url, now1);
            var again := UniqueDestination(digest, workDir, KindName(kind), url, now2);
            Reconcile(again, Resolved(first, cachedErr), url, showMsg, host) == Reply(Resolved(first, cachedErr), [])
  {
    SameParent(digest, workDir, KindName(kind), url, now1, url, now2);
  }

  /**
   * The reconciliation branch is taken exactly when the work directory and
   * kind of the second resolution name another directory than the first's.
   */
  lemma ReconcileIffMoved(digest: string -> Digest224, workDir1: string, kind1: Kind, now1: string,
                          workDir2: string, kind2: Kind, now2: string, url: string)
    ensures var first := UniqueDestination(digest, workDir1, KindName(kind1), url, now1);
            var again := UniqueDestination(digest, workDir2, KindName(kind2), url, now2);
            Dir(again) != Dir(first) <==>
              ParentDir(workDir1, KindName(kind1)) != ParentDir(workDir2, KindName(kind2))
  {
    ParentOfUniqueDestination(digest, workDir1, KindName(kind1), url, now1);
    ParentOfUniqueDestination(digest, workDir2, KindName(kind2), url, now2);
  }

  /**
   * Under another directory, a download error the cache holds is dropped: the
   * caller gets its fresh destination and, with symlinks, no error at all.
   */
  lemma MovedDropsCachedError(digest: string -> Digest224, workDir1: string, kind1: Kind, now1: string,
                              workDir2: string, kind2: Kind, now2: string, url: string,
                              cachedErr: Error, showMsg: bool, host: Host)
    requires ParentDir(workDir1, KindName(kind1)) != ParentDir(workDir2, KindName(kind2))
    requires host.symlinker
    ensures var first := UniqueDestination(digest, workDir1, KindName(kind1), url, now1);
            var again := UniqueDestination(digest, workDir2, KindName(kind2), url, now2);
            Reconcile(again, Resolved(first, Some(cachedErr)), url, showMsg, host).result == Resolved(again, None)
  {
    ReconcileIffMoved(digest, workDir1, kind1, now1, workDir2, kind2, now2, url);
  }

  // ---------------------------------------------------------------------
  // Resolving

  /**
   * `PolicyUrl.GetPolicy`: looks the url up in the cache, downloading into a
   * fresh destination under `workDir/kind` on a miss, then reconciles.
   */
  method GetPolicyUrl(cache: DownloadCache, digest: string -> Digest224, url: string, kind: Kind,
                      workDir: string, showMsg: bool, host: Host)
    returns (path: string, err: Option<Error>, calls: seq<Call>)
    requires cache.Valid()
    modifies cache
    ensures cache.Valid()
    ensures var dest := UniqueDestination(digest, workDir, KindName(kind), url, host.now);
            var lookup := Memo(old(cache.entries), url, Resolved(dest, host.downloadErr));
            var reply := Reconcile(dest, lookup.value, url, showMsg, host);
            && cache.entries == lookup.entries
            && Resolved(path, err) == reply.result
            && calls == (if lookup.ran then [Download(dest, url, showMsg, host.injected)] else []) + reply.calls
    ensures url !in old(cache.entries) ==>
              var dest := UniqueDestination(digest, workDir, KindName(kind), url, host.now);
              && path == dest && err == host.downloadErr
              && calls == [Download(dest, url, showMsg, host.injected)]
    ensures url in old(cache.entries) ==>
              var dest := UniqueDestination(digest, workDir, KindName(kind), url, host.now);
              && (forall c | c in calls :: c.Download? ==> !host.symlinker && host.injected && c.dest == dest)
              && ((exists c | c in calls :: c.Download?) <==>
                    Dir(dest) != Dir(old(cache.entries)[url].path) && !host.symlinker && host.injected)
  {
    var sourceUrl := SourceUrl(PolicyUrl(url, kind));
    var dest := UniqueDestination(digest, workDir, Subdir(PolicyUrl(url, kind)), sourceUrl, host.now);
    var d, ran := cache.LoadOrStore(sourceUrl, Resolved(dest, host.downloadErr));
    calls := if ran then [Download(dest, sourceUrl, showMsg, host.injected)] else [];
    var reply := Reconcile(dest, d, sourceUrl, showMsg, host);
    path, err := reply.result.path, reply.result.err;
    calls := calls + reply.calls;
    if !ran && reply.calls != [] {
      assert calls[0] == reply.calls[0] && calls[0] in calls;
    }
  }

  /** Directory inline data is written into: `workDir/data`. */
  function InlineDir(workDir: string): string
  {
    Join([workDir, InlineSubdir])
  }

  /** Cache key of inline data: `workDir/data/rule_data.json`. */
  function InlineKey(workDir: string): string
  {
    Join([InlineDir(workDir), RuleDataFile])
  }

  /** The inline cache key lies in the directory stored with it, so equal keys mean equal directories. */
  lemma InlineKeyInDir(workDir1: string, workDir2: string)
    ensures Dir(InlineKey(workDir1)) == InlineDir(workDir1)
    ensures InlineKey(workDir1) == InlineKey(workDir2) ==> InlineDir(workDir1) == InlineDir(workDir2)
  {
    JoinIsClean([workDir1, InlineSubdir]);
    JoinChildParent(InlineDir(workDir1), RuleDataFile);
    JoinIsClean([workDir2, InlineSubdir]);
    JoinChildParent(InlineDir(workDir2), RuleDataFile);
  }

  /**
   * `inlineData.GetPolicy`: creates `workDir/data`, failing uncached if that
   * fails, then writes the data through the cache keyed by its file path.
   */
  method GetInlineData(cache: DownloadCache, source: seq<byte>, workDir: string, host: Host)
    returns (path: string, err: Option<Error>, calls: seq<Call>)
    requires cache.Valid()
    modifies cache
    ensures cache.Valid()
    ensures host.mkdirErr.Some? ==>
              && path == "" && err == host.mkdirErr
              && cache.entries == old(cache.entries) && cache.produced == old(cache.produced)
              && calls == [MkdirAll(InlineDir(workDir), DirMode)]
    ensures host.mkdirErr.None? ==>
              var lookup := Memo(old(cache.entries), InlineKey(workDir), Resolved(InlineDir(workDir), host.writeErr));
              && cache.entries == lookup.entries
              && Resolved(path, err) == lookup.value
              && calls == [MkdirAll(InlineDir(workDir), DirMode)]
                          + (if lookup.ran then [WriteFile(InlineKey(workDir), source, FileMode)] else [])
  {
    var dest := Join([workDir, Subdir(InlineData(source))]);
    calls := [MkdirAll(dest, DirMode)];
    if host.mkdirErr.Some? {
      return "", host.mkdirErr, calls;
    }
    var f := Join([dest, RuleDataFile]);
    var r, ran := cache.LoadOrStore(f, Resolved(dest, host.writeErr));
    if ran {
      calls := calls + [WriteFile(f, source, FileMode)];
    }
    path, err := r.path, r.err;
  }
}

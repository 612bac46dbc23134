# Policy-source resolver, modelled in Dafny

This project models the policy-source resolver of ec-cli
(`internal/policy/source/source.go`). The resolver turns a declared source group into local
directories:

- `FetchPolicySources` expands the group into an ordered list of sources. The list holds
  policy urls, then data urls, then optional inline rule data.
- A remote source (`PolicyUrl`) computes a time-salted destination `workDir/kind/token`.
  It looks its url up in the process-wide download cache, which downloads at most once per
  key. It then reconciles the fresh destination with the directory the cache handed back.
- Inline data (`inlineData`) creates `workDir/data`. It then writes `rule_data.json` through
  the same cache, keyed by that file's path.

Modules:

- `Wrappers`: `Option` and `byte`.
- `Paths`: Go's `path.Join`, `path.Clean` and `filepath.Dir` on Unix, with lexical cleaning
  modelled element by element.
- `Naming`: hexadecimal encoding, `uniqueDir` and `uniqueDestination`.
- `Base64`: standard padded base64, used for the `data:` URI that names inline data.
- `Cache`: the memoising lookup as a function (`Memo`), lemmas about runs of lookups
  (`Serve`), and the `DownloadCache` class whose map the lookups update in place.
- `Source`: kinds, sources, the factory, reconciliation and the two `GetPolicy` methods.

Collaborators outside the model are given as a `Host` value per call:

- the clock's text;
- whether the context carries an injected downloader;
- whether the file system can symlink;
- the error, or none, that each of download, symlink, re-download, `MkdirAll` and
  `WriteFile` returns.

The SHA-224 digest is a parameter: any function from strings to 28 octets. Every resolving
method also returns the list of collaborator calls it made. This makes "no re-download" and
"no write" statable.

Two behaviours of the code are easy to miss:

- A failed symlink does not fall back to a re-download. `GetPolicy` returns `(dest, nil)`
  (source.go:102-114).
- Without symlink support, the re-download happens only when the context carries an injected
  downloader. Otherwise `(dest, nil)` is returned and nothing is fetched into `dest`
  (source.go:105-114).

## Model

| member | source | states |
|---|---|---|
| `Naming.Hex` | internal/policy/source/source.go:135 | `%x` of a byte array has two characters per octet, all in `0-9a-f` |
| `Naming.HexRoundTrip` | internal/policy/source/source.go:135 | reading the hex back gives the octets: the encoding loses nothing |
| `Naming.UniqueDir` | internal/policy/source/source.go:132-136 | the token has exactly 9 characters, each in `0-9a-f`, and is a prefix of the 56-character hex of the 28-byte digest of `url + "/" + now` |
| `Naming.TokenDeterminesDigestPrefix` | internal/policy/source/source.go:134-136 | the first 8 token characters decode to the first 4 digest octets |
| `Naming.TokenIsPlainName` | internal/policy/source/source.go:134-136 | a token is one path element that `path.Join` cleaning leaves alone (not empty, `.`, `..`, no `/`) |
| `Naming.ParentOfUniqueDestination` | internal/policy/source/source.go:128-130 | the parent directory of `uniqueDestination(root, subdir, url)` is `path.Join(root, subdir)` (`.` when both are empty), for every url, clock and digest |
| `Naming.SameParent` | internal/policy/source/source.go:128-136 | two destinations under the same root and subdir have the same parent, whatever urls and clocks made them |
| `Paths.JoinParent` | internal/policy/source/source.go:129 | `filepath.Dir(path.Join(root, sub, t))` for a plain element `t` is `path.Join(root, sub)`, with lexical cleaning of `.`, `..` and repeated slashes taken into account |
| `Paths.JoinChildParent` | internal/policy/source/source.go:153 | the parent of `path.Join(d, t)` is `d` for a clean non-empty `d` |
| `Paths.CleanIdempotent` | internal/policy/source/source.go:98 | cleaning an already-cleaned path changes nothing, so `Dir` results compare as cleaned paths |
| `Cache.Memo` | internal/policy/source/source.go:83-94 | a lookup runs the producer iff the key is absent. A miss stores and returns the producer's pair. The key is present afterwards, mapped to the pair handed back. No stored entry changes |
| `Cache.MemoTwice` | internal/policy/source/source.go:83-94 | a second lookup of a key returns the first one's pair, runs nothing and leaves the map as it was |
| `Cache.ServeKeepsStored` | internal/policy/source/source.go:83-94 | in any run of lookups, a key already stored yields its stored pair every time and never runs a producer |
| `Cache.ServeSameKey` | internal/policy/source/source.go:83-94 | in any run of lookups, a later lookup of a key gets exactly the earlier lookup's `(path, err)`, errors included, and does not run its producer: at most one fetch per key |
| `Cache.ServeRunsFirst` | internal/policy/source/source.go:83-94 | a producer runs exactly for the first lookup of a key absent from the map, and that lookup returns what the producer made |
| `Cache.DownloadCache.constructor` | internal/policy/source/source.go:73 | the cache starts empty, with no producer run |
| `Cache.DownloadCache.LoadOrStore` | internal/policy/source/source.go:83-94 | updates the map as `Memo` says and keeps the invariant that every stored key's producer ran exactly once |
| `Base64.EncodeLength` | internal/policy/source/source.go:165 | standard padded base64 has `4 * ceil(n / 3)` characters |
| `Base64.RoundTrip` | internal/policy/source/source.go:165 | decoding the encoding gives back the octets |
| `Source.SubdirNamesKind` | internal/policy/source/source.go:123-126 | a url's subdirectory is its kind's name, and two urls share a subdirectory iff they share a kind |
| `Source.DataUriLength` | internal/policy/source/source.go:164-166 | the `data:` URI of `n` octets has `29 + 4 * ceil(n / 3)` characters |
| `Source.DataUriNamesContent` | internal/policy/source/source.go:164-166 | the `data:` URI names exactly the inline octets: stripping the prefix and decoding gives them back |
| `Source.WrapRuleData` | internal/policy/source/source.go:187 | the wrapped document is 31 octets longer than the raw rule data |
| `Source.UnwrapWrapped` | internal/policy/source/source.go:187 | the wrapped document is `{"rule_data__configuration__":`, the raw data byte for byte, then `}` |
| `Source.WrapExample` | internal/policy/source/source.go:186-188 | rule data `{"k":"v"}` becomes `{"rule_data__configuration__":{"k":"v"}}` |
| `Source.FetchPolicySources` | internal/policy/source/source.go:173-191 | no error. The output has `len(Policy) + len(Data) + (1 if rule data)` sources: each policy url in order with kind policy, then each data url in order with kind data, then one inline source with the wrapped rule data. Duplicates are kept |
| `Source.Reconcile` | internal/policy/source/source.go:96-116 | same parent: the cached `(d, err)` and no call. Different parent: the path is always `dest`. With symlinks: one `Symlink(d, dest)` call and no error, whatever the symlink returned. Without symlinks and with an injected downloader: one `Download` into `dest` and its error. Without either: no call and no error. At most one call |
| `Source.RedownloadIff` | internal/policy/source/source.go:98-111 | a re-download into `dest` happens iff the parent moved, the file system cannot symlink and a downloader is injected. No other download is ever made by reconciliation |
| `Source.FailedSymlinkIsSilent` | internal/policy/source/source.go:99-104 | a failed symlink yields `(dest, nil)` after the one symlink call, with no re-download |
| `Source.RepeatAtSameLocation` | internal/policy/source/source.go:76-116 | resolving a url again under the same work directory and kind returns the stored `(d, err)` and makes no call, whatever the clocks said |
| `Source.ReconcileIffMoved` | internal/policy/source/source.go:98 | the reconciliation branch is taken iff `path.Join(workDir, kind)` differs from that of the call that filled the cache |
| `Source.MovedDropsCachedError` | internal/policy/source/source.go:98-115 | under another directory, on a file system with symlinks, a cached download error is dropped and `(dest, nil)` is returned |
| `Source.GetPolicyUrl` | internal/policy/source/source.go:76-117 | the cache is updated as `Memo` with `(dest, download error)` says. The result is `Reconcile` of the handed-back pair. The cached download runs only on a miss. On a hit, a re-download into `dest` happens iff the parent moved, symlinks are unsupported and a downloader is injected. A first lookup returns its own `(dest, err)` |
| `Source.InlineKeyInDir` | internal/policy/source/source.go:147-157 | the cache key `workDir/data/rule_data.json` lies in `workDir/data`, so equal keys mean equal stored directories |
| `Source.GetInlineData` | internal/policy/source/source.go:146-162 | a `MkdirAll` failure returns `("", err)` and leaves the cache untouched. Otherwise it looks up key `workDir/data/rule_data.json` with producer pair `(workDir/data, write error)`. The file is written (mode 0400) only on a miss |

## Left out

- Concurrency of `sync.Map.LoadOrStore` and `sync.OnceValues` (source.go:83, 155) is not
  modelled. Waiters blocking on a producer still running and racing installs are left out.
  Only the sequential outcome is modelled: one run per key, one shared result.
- `downloader.Download`, the injected `downloaderFunc`, afero's `SymlinkIfPossible`,
  `os.MkdirAll` and `os.WriteFile` are foreign I/O. Each is represented only by the error it
  returns (a `Host` field) and by a `Call` record.
- SHA-224 is not modelled. The digest is a parameter, any function to 28 octets. `time.Now`
  is reduced to the text it formats to.
- `Naming.UniqueDir`: does not state that two calls at different times give different tokens.
  With an arbitrary digest truncated to 9 characters, that is not a property that holds.
- The context lookup `ctx.Value(DownloaderFuncKey)` and the file-system lookup `utils.FS(ctx)`
  are reduced to two booleans in `Host`.
- `log.Debugf` calls are logging only.
- `Paths` follows Go's Unix rules. Windows volume names in `filepath.Dir` are not modelled.
- `Base64.Decode`, `Naming.UnHex`, `Source.UnwrapRuleData` and `Source.DataUriContent` are
  not in the source. They exist only as inverses that the encoders are proved against.
- internal/applicationsnapshot/attestation_test.go, a snapshot test of report rendering, is
  not part of this model.

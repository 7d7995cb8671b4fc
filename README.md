# rdns-server in Dafny

rdns-server is a dynamic-DNS service. A client asks it for a name under a
managed zone (for example `<slug>.lb.rancher.cloud`) and gets a bearer token.
With that token it can later change the name's A records, its subdomain
records and the TXT records used for ACME challenges. The records live in one
of three backends:

- etcd v3 (`backend/etcdv3/etcdv3.go`);
- legacy etcd (`backend/etcd/etcd.go`);
- Amazon Route53 (`backend/route53/route53.go`).

The HTTP service guards every change with the token check of
`service/token.go`. Slugs and tokens come from the random strings of
`util/random.go`.

This project models those five files and proves properties of the model.

- `outcomes.dfy` (`Outcomes`): `Option` and `Result`. Every error path and
  every Go panic of the core is modelled as an error value.
- `go_strings.dfy` (`GoStrings`): the parts of Go's `strings` package the core
  relies on:
  - `Index`;
  - `Split`, `SplitN` and `SplitAfterN` through `genSplit`;
  - `Join`, `Replace`, and `Trim`/`TrimLeft`/`TrimRight` with a cutset;
  - the lemmas about them that the backends need.
- `etcd_keys.dfy` (`EtcdKeys`): the key layout both etcd backends share.
  - `convertToPath` is the in-place reversal of the labels.
  - `formatKey`, `formatValue`, `formatTextValue` and `sliceToMap`.
  - A keyspace class `Store`.
  - The host diff of `syncRecords` and of etcd's `set`.
- `etcdv3.dfy` (`Etcdv3`):
  - `getPath`, `getTokenPath`, `findSlugWithZone` and `findSubPrefix`;
  - the TXT name-depth check;
  - the slug loop of `Set`;
  - `SetText`, `GetText` and `UpdateText`;
  - the key reading of `lookupKeys`;
  - `setSubRecords`.
- `etcd.dfy` (`Etcd`):
  - `Get` and its and `lookupHosts`' loops over a directory listing;
  - `set` with its diff;
  - `Create` with its slug loop;
  - `Update`;
  - `generateSlug`.
- `route53.dfy` (`Route53`):
  - `filterRecords` and `convertARecords`;
  - `findSlugWithZone`, the TXT quoting and `convertExpiration`;
  - a `HostedZone` class whose upsert and delete changes stand in for the AWS
    API;
  - `Set`'s slug loop, `setRecord` and `Update`'s three phases;
  - `GetText`, `SetText` and `UpdateText`.
- `random.dfy` (`Random`): `SecureRandomString` with:
  - its bit-length loop and mask;
  - its buffer refills;
  - its rejection sampling.

  The random source is an input: the byte stream the refills return.
  `RandStringWithSmall` and `RandStringWithAll` are modelled as well.
- `token.dfy` (`Token`): `getBaseFqdn`, `generateToken`, `compareToken` and
  the middleware's decision.

Some operations cannot be seen by the model: etcd, AWS, the MySQL database,
bcrypt, base64 and the random sources. They enter as parameters:
- maps held by a class (`EtcdKeys.Store`, `Route53.HostedZone`);
- function-typed oracles (frozen-slug and token lookups, hashing);
- sequences (slug draws, random bytes, etcd directory listings).

The model follows the Go code in three behaviours a reader of the service's
documentation might expect otherwise:
- After 100 slugs that are all taken, the etcd and etcd v3 backends go on with
  the requested name and the path last tried. They do not fail with a name
  conflict. Route53 fails only when the requested name is empty.
- The token gate lets every GET and POST through without a token. It answers
  403 "Forbidden to use" for a bad token. It answers 403 "Must specific the
  fqdn" when the route has no fqdn.
- A token is checked by bcrypt against the token origin the backend keeps for
  the name. It is not compared as a stored secret.

## Model

| member | source | states |
|---|---|---|
| EtcdKeys.Reverse | backend/etcdv3/etcdv3.go:855-857 | the reversal of the labels: same length, element i is element n-1-i of the input |
| EtcdKeys.ReverseReverse | backend/etcdv3/etcdv3.go:852-859 | reversing twice gives back the labels, so a path determines its domain |
| EtcdKeys.ReverseInPlace | backend/etcd/etcd.go:222-225 | the swap loop leaves the array holding the reversal of its old contents |
| EtcdKeys.ConvertToPath | backend/etcd/etcd.go:219-228 | convertToPath yields "/" followed by the domain's labels from last to first, joined by "/" |
| EtcdKeys.PathRoundTrip | backend/etcdv3/etcdv3.go:852-859 | a domain without "/" is recovered from its path (the path encoding is injective) |
| EtcdKeys.PathOfSubdomain | backend/etcdv3/etcdv3.go:852-859 | the path of `<label>.<fqdn>` is the path of fqdn followed by "/" and the label, so subdomains are directories |
| EtcdKeys.SameDirectory | backend/etcdv3/etcdv3.go:607 | keys below two sibling label directories coincide only when the labels are equal |
| EtcdKeys.PathOfExample | backend/etcdv3/etcdv3.go:850-852 | the documented example: zhibo.test.rancher.local maps to /local/rancher/test/zhibo |
| EtcdKeys.FormatKey | backend/etcdv3/etcdv3.go:870-872 | formatKey keeps the length, turns every "." into "_", leaves no "." and changes no other character |
| EtcdKeys.FormatKeyRoundTrip | backend/etcd/etcd.go:246-248 | for a host without "_", the escaped key can be turned back into the host |
| EtcdKeys.FormatKeyInjective | backend/etcd/etcd.go:246-248 | hosts without "_" get distinct keys |
| EtcdKeys.ParseBody | backend/etcdv3/etcdv3.go:917-921 | a parsed object body is exactly `name":"value` with both parts free of quotes and backslashes |
| EtcdKeys.ParseField | backend/etcd/etcd.go:232-236 | whatever parses is the encoding of the field it parses to |
| EtcdKeys.ParseEncode | backend/etcd/etcd.go:232-242 | every plainly written one-field object parses back to its field |
| EtcdKeys.FormatValueRoundTrip | backend/etcdv3/etcdv3.go:876-884 | {"host":v} decodes to host v and is not a text value; {"text":v} decodes to text v, is a text value and has an empty host entry |
| EtcdKeys.SliceToMap | backend/etcdv3/etcdv3.go:923-929 | the map's keys are exactly the slice's elements and every value is true |
| EtcdKeys.HostKeyUnder | backend/etcdv3/etcdv3.go:637 | a host's key lies below `path/` |
| EtcdKeys.HostKeyInjective | backend/etcdv3/etcdv3.go:649 | two hosts without "_" get distinct keys below one path |
| EtcdKeys.DiffHoldsNewHosts | backend/etcdv3/etcdv3.go:631-660 | if the directory held exactly the old hosts before the diff, it holds exactly the new hosts after it, each key with its wrapped host |
| EtcdKeys.DiffStaysBelow | backend/etcd/etcd.go:110-134 | the diff touches only keys below `path/` |
| EtcdKeys.Store.constructor | backend/etcdv3/etcdv3.go:44-69 | a store holding the given keyspace |
| EtcdKeys.Store.Put | backend/etcdv3/etcdv3.go:651 | the key now holds the value and nothing else changes |
| EtcdKeys.Store.Delete | backend/etcdv3/etcdv3.go:639 | the key is gone and nothing else changes |
| EtcdKeys.Store.DeletePrefix | backend/etcdv3/etcdv3.go:598 | every key starting with the prefix is gone, every other key is unchanged |
| EtcdKeys.Store.DeleteStale | backend/etcdv3/etcdv3.go:635-645 | exactly the keys of old hosts missing from the new list are removed; surviving values are unchanged |
| EtcdKeys.Store.PutFresh | backend/etcdv3/etcdv3.go:647-657 | exactly the keys of new hosts missing from the old list are added, each holding its wrapped host |
| EtcdKeys.Store.SyncRecords | backend/etcdv3/etcdv3.go:631-660 | the keyspace after syncRecords: old keys minus the removed plus the added, hosts in both lists untouched, the directory holding the new hosts, nothing outside `path/` changed |
| Etcdv3.GetPathOfSubdomain | backend/etcdv3/etcdv3.go:846-848 | the path of `<label>.<fqdn>` is the label's directory below fqdn's path |
| Etcdv3.GetTokenPath | backend/etcdv3/etcdv3.go:863-865 | a token key is one segment below /tokenv3, without dots, as long as the name |
| Etcdv3.TokenPathInjective | backend/etcdv3/etcdv3.go:863-865 | names without "_" have distinct token keys |
| Etcdv3.SlugPiece | backend/etcdv3/etcdv3.go:894-896 | SplitN with n pieces: none when n is 0; otherwise the last piece starts with label n-1 |
| Etcdv3.FindSlugWithZone | backend/etcdv3/etcdv3.go:893-897 | fails (index out of range) exactly when the name has as many labels as the domain; otherwise the label just left of the domain (the last label when n < 0) |
| Etcdv3.FindSlugWithZoneExample | backend/etcdv3/etcdv3.go:891-893 | the documented example: yyyy.xxxx.qrn7oq.lb.rancher.cloud gives qrn7oq |
| Etcdv3.FindSlugBelowTwo | backend/etcdv3/etcdv3.go:893-897 | with two labels in front of the slug, the label just left of the domain is still the slug |
| Etcdv3.FindSlugOfChallenge | backend/etcdv3/etcdv3.go:351-352 | the slug of `_acme-challenge.<slug>.<domain>` is the slug, so the TXT base is `<slug>.<domain>` |
| Etcdv3.FindSubPrefixOfKey | backend/etcdv3/etcdv3.go:901-908 | for a key `base/<segment>...`, findSubPrefix returns the segment |
| Etcdv3.FindSubPrefixExample | backend/etcdv3/etcdv3.go:899-901 | the documented example: /rdnsv3/cloud/rancher/lb/jc1af/x1/1_1_1_1 gives x1 |
| Etcdv3.FindSubPrefixOutside | backend/etcdv3/etcdv3.go:905-907 | a path that does not contain the base makes findSubPrefix panic (index out of range) |
| Etcdv3.TextFqdnDepth | backend/etcdv3/etcdv3.go:346-348 | a TXT name `<a>.<domain>` passes the check exactly when a has more than one label |
| Etcdv3.ListedKeysHosts | backend/etcdv3/etcdv3.go:750-776 | the hosts read from the keys lookupKeys keeps are the listed hosts; the read fails exactly when a kept key has an empty value |
| Etcdv3.ReadHeldHosts | backend/etcdv3/etcdv3.go:609-621 | a directory whose host-valued keys are exactly the keys of well-formed hosts reads back as exactly those hosts, without failure, whatever TXT keys sit beside them |
| Etcdv3.LookupPrefixOverlap | backend/etcdv3/etcdv3.go:754 | with a plain prefix, label x1 lists x10's host, so syncing x1 to that host puts nothing; with the prefix `path/` it lists nothing and the host is put |
| Etcdv3.HoldsHostKeysFrame | backend/etcdv3/etcdv3.go:606-626 | whether the keys lookupKeys keeps below a directory are exactly its hosts' keys depends only on the keys below it |
| Etcdv3.SkippedKeyKeepsHostKeys | backend/etcdv3/etcdv3.go:762-769 | writing a {"text":...} value, which lookupKeys skips, at a key no host has leaves the directory's host keys as they were |
| Etcdv3.HoldsHostsKeys | backend/etcdv3/etcdv3.go:750-776 | a directory holding only its hosts' keys holds them in lookupKeys' sense too |
| Etcdv3.HostKeysOnly | backend/etcdv3/etcdv3.go:750-776 | when every key below a directory is one lookupKeys keeps, holding the hosts' keys is holding exactly the hosts |
| Etcdv3.ReadStep | backend/etcdv3/etcdv3.go:609-621 | decoding one more kept key adds its host to the hosts read so far |
| Etcdv3.DiffHoldsNewHostKeys | backend/etcdv3/etcdv3.go:606-626 | putting the new hosts missing from the old ones and deleting the old ones no longer requested leaves the directory holding the new hosts' keys; a key lookupKeys skips stays unless a new host's key is put over it |
| Etcdv3.DiffSkipsUnkept | backend/etcdv3/etcdv3.go:606-626 | the sync deletes only keys holding an old host, never a key lookupKeys skips |
| Etcdv3.Backend.constructor | backend/etcdv3/etcdv3.go:44-69 | a backend over the given domain, prefix and store |
| Etcdv3.Backend.AllocateSlug | backend/etcdv3/etcdv3.go:159-175 | the first of the 100 draws that is neither frozen nor has an existing path is adopted; when none is, the requested name stays and the path last tried is kept |
| Etcdv3.Backend.SetText | backend/etcdv3/etcdv3.go:343-367 | refuses an invalid TXT name and a base name without a token, changing nothing; otherwise stores {"text":text} at the name's path and answers the text |
| Etcdv3.Backend.UpdateText | backend/etcdv3/etcdv3.go:410-438 | as SetText, but a TXT record that cannot be read first gives EmptyRecord and no change |
| Etcdv3.Backend.PutText | backend/etcdv3/etcdv3.go:350-366 | with the base name's token present, the TXT key holds the wrapped text, nothing else changes and the read-back gives the text |
| Etcdv3.Backend.TextBelowLabel | backend/etcdv3/etcdv3.go:343-366 | the TXT record of `<c>.<label>.<fqdn>`, such as an ACME challenge, is stored inside the label's directory, and the label's directory still holds the same host keys after it |
| Etcdv3.Backend.ReadHosts | backend/etcdv3/etcdv3.go:609-621 | fails exactly when a kept key has an empty value; otherwise returns the listed hosts |
| Etcdv3.Backend.DeleteDroppedLabels | backend/etcdv3/etcdv3.go:594-604 | every key of a dropped label's prefix is gone, all other keys are unchanged |
| Etcdv3.Backend.SyncLabels | backend/etcdv3/etcdv3.go:606-626 | only keys below a requested label's directory change; when the labels and hosts are well-formed and the host-valued keys below each label's directory are the keys of well-formed hosts (TXT keys may sit there too), the sync succeeds, the host-valued keys below each label are exactly its requested hosts', every key written holds a host, and a TXT key is left unchanged unless a requested host's key is put over it; when only host-valued keys are below, each label holds exactly its hosts |
| Etcdv3.Backend.SyncStep | backend/etcdv3/etcdv3.go:606-626 | syncing one more label keeps the sync loop's invariant |
| Etcdv3.Backend.ChangedStep | backend/etcdv3/etcdv3.go:623 | after one more label, every changed key still lies below a synced label's directory |
| Etcdv3.Backend.KeptStep | backend/etcdv3/etcdv3.go:623 | after one more label, keys outside the synced directories are still as they were |
| Etcdv3.Backend.SyncedLabel | backend/etcdv3/etcdv3.go:607-623 | syncing one label leaves its directory holding the requested hosts' keys, writes only host values and touches a TXT key only with a requested host's key |
| Etcdv3.Backend.WritesStep | backend/etcdv3/etcdv3.go:606-626 | "only host values written, TXT keys kept" carries over from one label to the next |
| Etcdv3.Backend.OnlyHosts | backend/etcdv3/etcdv3.go:606-626 | when only host-valued keys were below each label and only host values were written, each label holds exactly its hosts |
| Etcdv3.Backend.DirsStep | backend/etcdv3/etcdv3.go:606-626 | after one more label, synced labels hold their hosts and the others are still host directories |
| Etcdv3.Backend.DirectoryKept | backend/etcdv3/etcdv3.go:607-623 | syncing one label's directory keeps every other label's directory as it was |
| Etcdv3.Backend.DirectoriesSurviveDeletes | backend/etcdv3/etcdv3.go:594-604 | deleting dropped labels' prefixes leaves each requested label's directory a directory of host keys |
| Etcdv3.Backend.DeletesThenSync | backend/etcdv3/etcdv3.go:593-629 | deleting the dropped prefixes and then syncing writes only host values, and a TXT key outside the dropped prefixes is touched only by a requested host's key |
| Etcdv3.Backend.SetSubRecords | backend/etcdv3/etcdv3.go:593-629 | keys outside all label prefixes are untouched; with well-formed labels, no dropped label keeps a key in its directory; when in addition the requested labels' directories are ready as for SyncLabels, the call succeeds, each requested label's host-valued keys are exactly its hosts', every key written holds a host, and a TXT key outside the dropped prefixes is unchanged unless a requested host's key is put over it; with only host-valued keys below, each label holds exactly its hosts |
| Etcd.Leaves | backend/etcd/etcd.go:155-158 | the leaves of a listing are exactly its non-directory nodes, no more than the listing |
| Etcd.LeafHostsSkipsDirs | backend/etcd/etcd.go:155-158 | directory children make no difference to Get's hosts |
| Etcd.LeafHostsCount | backend/etcd/etcd.go:155-165 | a successful Get returns one host per leaf |
| Etcd.ChildHostsAgree | backend/etcd/etcd.go:63-69 | lookupHosts succeeds only on listings without directories, and then agrees with Get |
| Etcd.HostLeaves | backend/etcd/etcd.go:125-134 | the listing of a directory of hosts has one node per host |
| Etcd.ReadHostLeaves | backend/etcd/etcd.go:57-72 | a directory written with hosts reads back as those hosts in order, through Get and through lookupHosts |
| Etcd.CollectLeafHosts | backend/etcd/etcd.go:155-165 | Get's loop computes the hosts of the leaves, failing on the first leaf that does not decode |
| Etcd.LookupHosts | backend/etcd/etcd.go:57-72 | lookupHosts' loop computes the hosts of all children, failing on the first that does not decode |
| Etcd.SlugOf | backend/etcd/etcd.go:259-269 | a slug has six characters, all from 0-9a-z |
| Etcd.GenerateSlug | backend/etcd/etcd.go:263-266 | the loop spells the slug of the draws |
| Etcd.CharIndex | backend/etcd/etcd.go:262 | every alphabet character has a position that indexes back to it |
| Etcd.Position | backend/etcd/etcd.go:262 | the position found for a character of the alphabet holds that character |
| Etcd.SlugReachable | backend/etcd/etcd.go:259-269 | every six-character string over the alphabet is the slug of some draws |
| Etcd.Backend.constructor | backend/etcd/etcd.go:31-51 | a backend over the given prefix path, base name and store |
| Etcd.HoldsHostsDirNode | backend/etcd/etcd.go:93-102 | writing the directory node at a path keeps the hosts held below it |
| Etcd.HeldLeafHost | backend/etcd/etcd.go:155-163 | a leaf below a directory of hosts decodes to the host its key was made from |
| Etcd.LeafHostsHeld | backend/etcd/etcd.go:153-165 | Get over leaves of a directory of hosts succeeds, and a host is in its answer exactly when it is held and its key is listed |
| Etcd.GetHeldHosts | backend/etcd/etcd.go:144-166 | Get of a directory holding some hosts, listing all its keys, answers exactly those hosts |
| Etcd.Backend.Set | backend/etcd/etcd.go:93-142 | with exist and no directory: KeyNotFound and no change; otherwise the directory node is written; a listing that does not decode then gives an error and nothing more; otherwise the keyspace after the diff, the requested hosts held below the directory and the answer the requested hosts |
| Etcd.Backend.AllocatePath | backend/etcd/etcd.go:171-182 | the first of 100 draws whose path is not found is adopted; otherwise the requested name stays with the last draw's path |
| Etcd.Backend.FirstFree | backend/etcd/etcd.go:171-182 | the draw at which the loop breaks is the first whose path is not found, so no other draw can be the first |
| Etcd.Backend.Get | backend/etcd/etcd.go:144-166 | KeyNotFound for a name whose directory is not found; otherwise the hosts of the listed leaves |
| Etcd.Backend.Create | backend/etcd/etcd.go:168-190 | the name and path of the slug loop; the keyspace set writes there without PrevExist; the answer of a Get of the adopted name, which with a free draw and a full listing is exactly the requested hosts |
| Etcd.Backend.Update | backend/etcd/etcd.go:192-198 | Set's four cases with exist: KeyNotFound and no change without a directory; otherwise the directory node, then an error or the diff to the requested hosts |
| Route53.FirstLabel | backend/route53/route53.go:863 | the first label of a name contains no dot |
| Route53.ChildKeyOfCanonical | backend/route53/route53.go:278-281 | below a name without trailing dot, the key of `part.fqdn` is that text itself |
| Route53.ChildKeyInjective | backend/route53/route53.go:270-281 | different labels below one name get different keys |
| Route53.Select | backend/route53/route53.go:810-846 | a bucket never holds more sets than the listing |
| Route53.SelectMembers | backend/route53/route53.go:810-846 | a set is in a bucket exactly when it is in the listing and belongs in that bucket |
| Route53.SelectSnoc | backend/route53/route53.go:818-841 | one more set in the listing is added to a bucket, at the end, exactly when it belongs there |
| Route53.SelectConcat | backend/route53/route53.go:813-845 | selection distributes over concatenation of listings |
| Route53.SelectEmpty | backend/route53/route53.go:810-846 | a bucket is empty exactly when no set belongs in it |
| Route53.ApexNotSub | backend/route53/route53.go:817-832 | a set named fqdn or its wildcard is never a subdomain set |
| Route53.ApexAndSubDisjoint | backend/route53/route53.go:817-832 | no set lands in both the A list and the subdomain list |
| Route53.FilterRecords | backend/route53/route53.go:810-846 | for A: the exact/wildcard sets, the subdomain sets and whether there was an exact/wildcard set; for TXT: the sets named fqdn; for any other type: nothing |
| Route53.FilterA | backend/route53/route53.go:817-832 | the A pass: the exact/wildcard bucket and the subdomain bucket in listing order, and `v` exactly when the first is not empty |
| Route53.FilterText | backend/route53/route53.go:833-842 | the TXT pass: the TXT sets named fqdn in listing order, and `v` exactly when there is one |
| Route53.ClassifyA | backend/route53/route53.go:819-830 | the two tests of the A pass agree with the exact/wildcard and subdomain buckets, and never both hold |
| Route53.FilterAStep | backend/route53/route53.go:818-830 | a set that passes the first test joins only the exact/wildcard bucket; otherwise it joins the subdomain bucket exactly when it passes the second |
| Route53.ValuesBy | backend/route53/route53.go:849-872 | the map's keys are exactly the keys of the listed sets |
| Route53.ValuesByLast | backend/route53/route53.go:852-870 | each key maps to the values of the last set with that key |
| Route53.ConvertARecords | backend/route53/route53.go:849-872 | A sets keyed by trimmed name, subdomain sets by first label, each with its last set's values |
| Route53.FindSlugWithZoneCases | backend/route53/route53.go:876-883 | what the code returns for each difference of label counts: the name itself up to one extra label, otherwise the second piece |
| Route53.FindSlugOfDomain | backend/route53/route53.go:876-883 | `<slug>.<zone>` is its own slug name |
| Route53.FindSlugOfChallenge | backend/route53/route53.go:876-883 | `_acme-challenge.<slug>.<zone>` has slug name `<slug>.<zone>` |
| Route53.FindSlugThreeDeep | backend/route53/route53.go:876-883 | with two labels in front of the slug, the code returns the second label with its dot |
| Route53.FindSlugWithZoneDocExample | backend/route53/route53.go:874-883 | the documented input yyyy.xxxx.qrn7oq.lb.rancher.cloud gives "xxxx." as written |
| Route53.SlugWithZone | backend/route53/route53.go:874-875 | the intended slug name: the zone's labels plus the one before them |
| Route53.SlugWithZoneAgrees | backend/route53/route53.go:876-883 | up to one label in front of the slug, the code already gives the intended result |
| Route53.SlugWithZoneThreeDeep | backend/route53/route53.go:874-875 | however deep the name, the intended slug name is `<slug>.<zone>` |
| Route53.SlugWithZoneDocExample | backend/route53/route53.go:874-875 | the documented example gives qrn7oq.lb.rancher.cloud under the intended reading |
| Route53.Unquote | backend/route53/route53.go:424 | Trim of quotes never lengthens and leaves no quote at either end |
| Route53.QuoteRoundTrip | backend/route53/route53.go:424-452 | a text comes back from its quoted form exactly when it has no quote at either end |
| Route53.ConvertExpiration | backend/route53/route53.go:896-900 | the expiration lies ttl after creation, so it is not before creation exactly when ttl >= 0 |
| Route53.Without | backend/route53/route53.go:772-799 | removing (key, type) keeps exactly the other sets |
| Route53.Lookup | backend/route53/route53.go:740-766 | none exactly when no set matches; otherwise the values of a matching set |
| Route53.LookupWithout | backend/route53/route53.go:772-799 | after removing (key, type) that lookup gives none and every other lookup is unchanged |
| Route53.LookupAppend | backend/route53/route53.go:740-766 | appending a set changes only the lookups that had no match |
| Route53.HostedZone.constructor | backend/route53/route53.go:40-70 | a zone holding the given record sets |
| Route53.HostedZone.Upsert | backend/route53/route53.go:741-757 | the zone's set for (name, type) now holds the values, every other lookup is unchanged |
| Route53.HostedZone.Delete | backend/route53/route53.go:772-799 | the zone has no set for (name, type), every other lookup is unchanged |
| Route53.WithoutNothing | backend/route53/route53.go:772-799 | removing a set the zone does not have changes nothing |
| Route53.StoredKey | backend/route53/route53.go:819-836 | a name stored with a trailing dot compares equal to the name it was stored under |
| Route53.TextAfterUpsert | backend/route53/route53.go:452-463 | after the TXT upsert, that set is the only TXT set for the name |
| Route53.WildcardLabelContained | backend/route53/route53.go:827 | a name whose first label is the wildcard label contains the wildcard |
| Route53.SubLabelNotWildcard | backend/route53/route53.go:827-829 | a subdomain set's first label is never the wildcard label |
| Route53.SubLabelsOfSelect | backend/route53/route53.go:862-870 | the labels convertARecords keys subdomain sets by are the listing's subdomain labels |
| Route53.UpsertStep | backend/route53/route53.go:269-288 | one subdomain upsert keeps the upsert loop's invariants |
| Route53.UpdateEffects | backend/route53/route53.go:263-335 | after Update's three phases: the wildcard holds the hosts or is gone, requested labels hold their hosts, dropped labels are gone, nothing else changed |
| Route53.WildcardNotStale | backend/route53/route53.go:313-335 | no stale subdomain key is the wildcard's key |
| Route53.Backend.constructor | backend/route53/route53.go:40-70 | a backend over the given zone name and hosted zone |
| Route53.Backend.AllocateName | backend/route53/route53.go:138-164 | the first round that does not skip decides: a failing frozen query aborts, a free name is adopted; when all skip, the requested name is kept and an empty one is errGenerateName |
| Route53.Backend.SetRecord | backend/route53/route53.go:740-766 | at least one value: an UPSERT of the set; no value: no change |
| Route53.Backend.UpsertRecords | backend/route53/route53.go:193-226 | the wildcard holds the hosts, each label with values holds them, and only those keys' A lookups change |
| Route53.Backend.DeleteStale | backend/route53/route53.go:313-335 | every listed label the request dropped has no A set, nothing else changes |
| Route53.Backend.Update | backend/route53/route53.go:231-338 | fails without change when the "empty." marker row is missing; otherwise the effects stated by UpdateEffects |
| Route53.Backend.Set | backend/route53/route53.go:135-229 | the outcome of the slug loop; on error no change; on success the wildcard and label sets hold the hosts and nothing else changes |
| Route53.Backend.GetText | backend/route53/route53.go:404-428 | answers what ReadText gives for the zone's sets and the slug's token |
| Route53.Backend.SetText | backend/route53/route53.go:430-463 | refuses an existing TXT set and a slug without a token, changing nothing; otherwise stores the quoted text and reads it back |
| Route53.Backend.UpdateText | backend/route53/route53.go:465-509 | requires an existing TXT set and its database row; stores the quoted text, then checks the slug's token and answers the text |
| Route53.ReadText | backend/route53/route53.go:404-428 | succeeds exactly when a TXT set exists with a value and the slug has a token |
| Random.BitLenBounds | util/random.go:38-41 | the bit length is the least k with x < 2^k: x < 2^BitLen(x), and 2^(BitLen(x)-1) <= x for x > 0 |
| Random.BitLenAtMost | util/random.go:38-41 | a number below 2^k has at most k binary digits |
| Random.BitLenOfByte | util/random.go:36-41 | a number up to 255 has at most 8 binary digits, so bitLength fits a byte |
| Random.MaskOfIsShift | util/random.go:42 | the mask table agrees with Go's `1<<bitLength - 1` on bytes |
| Random.BitLength | util/random.go:36-41 | the shift loop ends with the number of binary digits of len-1, at most 8 |
| Random.AllOnesKeeps | util/random.go:55 | an all-ones mask keeps every byte not above it |
| Random.MaskBelow | util/random.go:42-55 | a byte below 2^k keeps every bit under the mask of k bits |
| Random.MaskKeepsIndex | util/random.go:42-55 | every byte below the alphabet length survives the mask unchanged, so every character can be drawn |
| Random.FullAlphabetMask | util/random.go:33-42 | a 256-letter alphabet gets the wrapped mask 255, all eight bits |
| Random.BufferSize | util/random.go:45 | bufferSize is at least length, and positive for a positive length |
| Random.Start | util/random.go:50 | the step at which the buffer in use at step j was read lies at most bufferSize-1 steps before j |
| Random.Rem | util/random.go:50 | Go's `j%bufferSize`: below the divisor |
| Random.Steps | util/random.go:49-54 | the steps the stream supports, its whole buffers, never exceed its length |
| Random.Reads | util/random.go:49-55 | one byte read per step |
| Random.ReadsNext | util/random.go:49-55 | the reads of j+1 steps are those of j steps plus the byte of step j |
| Random.Picks | util/random.go:55-58 | rejection sampling keeps at most one character per byte |
| Random.PicksInAlphabet | util/random.go:55-58 | every kept character is a character of the alphabet |
| Random.PicksSnoc | util/random.go:55-58 | one more byte keeps one more character exactly when its masked index is inside the alphabet |
| Random.PicksConcat | util/random.go:49-59 | picking distributes over concatenation of byte runs |
| Random.SecureRandomString | util/random.go:30-62 | panics (an error) exactly for an empty or too long alphabet; a negative length fails; length 0 gives ""; otherwise the first length kept characters of the bytes read, or Exhausted when there are fewer |
| Random.Sample | util/random.go:45-61 | the sampling loop returns the first length kept characters of the bytes the stream supports, or Exhausted when they keep fewer |
| Random.Keep | util/random.go:56 | writing `result[i]` keeps the first i characters and adds the new one after them |
| Random.SampleComplete | util/random.go:49-61 | once the loop has kept length characters, they are the first length kept characters of the whole stream |
| Random.SampleExhausted | util/random.go:49-61 | a stream whose every step keeps fewer than length characters gives Exhausted |
| Random.NextByte | util/random.go:50-55 | one step: refills at multiples of bufferSize, yields the byte of that step, or none exactly when the stream is used up |
| Random.StartIsMod | util/random.go:50 | the recursive buffer start equals j - j%bufferSize |
| Random.WholeBuffers | util/random.go:50-52 | a step off a multiple of bufferSize is never where the whole buffers end, so it needs no refill check |
| Random.BufferOfStep | util/random.go:50-55 | the buffer of a step inside the whole buffers lies inside them too |
| Random.RoomForBuffer | util/random.go:50-52 | a refill that fits in the stream lies within the whole buffers |
| Random.ExhaustedAtEnd | util/random.go:50-52 | a refill that does not fit happens exactly where the whole buffers end |
| Random.StepReadsBuffer | util/random.go:50-55 | a step on a multiple of bufferSize reads a fresh buffer; any other step reads the buffer of the step before |
| Random.BufferHoldsStep | util/random.go:50-55 | the loop's index, `j%length` or `j%bufferSize`, lies inside the buffer and selects the byte of step j |
| Random.CorrectedReadsStream | util/random.go:50-55 | reading at `j%bufferSize` consumes the stream in order, each byte once |
| Random.AsWrittenRereads | util/random.go:55 | reading at `j%length` rereads byte 0 of the buffer at step length |
| Random.FirstBufferInOrder | util/random.go:55 | within the first length steps both indexings read the stream in order |
| Random.RereadExample | util/random.go:55 | alphabet 0-9a-z, length 3, bytes 5,50,7,0: "575" as written, "570" as intended |
| Random.ExampleReads | util/random.go:49-55 | for length 3 and four bytes, the bytes each indexing reads |
| Random.SmallMask | util/random.go:12-42 | the 36-letter alphabet is masked with six bits |
| Random.PicksOfExample | util/random.go:55-58 | the characters the example's bytes give |
| Random.RandStringWithSmall | util/random.go:19-21 | a negative n fails, n = 0 gives "", otherwise success exactly when the stream keeps at least n characters from 0-9a-z, answering the first n, and Exhausted when it does not |
| Random.RandStringWithAll | util/random.go:23-25 | a negative n fails, n = 0 gives "", otherwise success exactly when the stream keeps at least n characters from A-Za-z0-9, answering the first n, and Exhausted when it does not |
| Token.BaseFqdn | service/token.go:15-24 | fewer than four labels: the name itself; otherwise a name whose labels are the last four |
| Token.BaseFqdnIdempotent | service/token.go:17-24 | a base name has at most four labels and is its own base |
| Token.BaseFqdnSuffix | service/token.go:17-24 | past four labels, the name is its leading labels, a dot and its base |
| Token.BaseFqdnOfChild | service/token.go:15-16 | any name in front of a four-label base maps back to that base |
| Token.BearerToken | service/token.go:74 | the token is a suffix of the header, everything cut is in the cutset, and it does not start with a cutset character |
| Token.BearerTokenOf | service/token.go:74 | a token that does not start with B, e, a, r or space comes back whole from "Bearer " + token |
| Token.BearerTokenCutsLeading | service/token.go:74 | a token starting with a cutset character loses it: "Bearer abc" gives "bc" |
| Token.GenerateToken | service/token.go:26-41 | fails when the origin lookup or the hash fails; otherwise the encoding of the origin's hash |
| Token.CompareToken | service/token.go:43-67 | true exactly when the token decodes, the origin is found and the hash matches the origin |
| Token.GeneratedTokenAccepted | service/token.go:26-67 | a generated token is accepted for its name, given base64 and bcrypt correctness |
| Token.Gate | service/token.go:69-89 | GET and POST pass; otherwise no fqdn gives 403 "Must specific the fqdn", and the request passes exactly when the bearer token compares, else 403 "Forbidden to use" |
| Token.GeneratedTokenPasses | service/token.go:69-89 | a request carrying "Bearer " and a generated token for its fqdn passes |

## Left out

- The etcd, etcd v3, AWS and MySQL clients: their calls are taken to succeed, and their transport errors are not modelled. Such failures depend on the network, not on the code.
- Leases, TTLs, `getExpiration`, `refreshExpiration` and `Renew`: time is not modelled. `convertExpiration` is modelled on integer nanoseconds.
- `Route53.ConvertExpiration`: does not model int64 overflow of the time addition, because integers are unbounded here.
- `Get` of the etcd v3 and Route53 backends, and `Delete`, `DeleteText`, `GetToken`, `GetTokenCount` and the `Migrate*` operations of the three backends: read and purge paths outside the record-writing core.
- `setRecord` of etcd v3 (`backend/etcdv3/etcdv3.go:509-591`), `setToken` and `lockSlugName`: of these only the parts the TXT operations and `setSubRecords` rely on are modelled. Lease bookkeeping and the classification of existing keys by `findSubPrefix` are outside the model.
- The database rows Route53 writes (`setRecordToDatabase`, `deleteRecordFromDatabase`, `InsertFrozen`, `SetToken`): they enter as oracles such as the frozen-slug query, the token lookup and the "empty." marker row.
- JSON: only the one-field objects the backends write are parsed. Any other JSON text counts as not decodable, and escaping inside strings is not modelled.
- bcrypt, base64 and `GetTokenOrigin`: function parameters of the token model. Their correctness is a hypothesis of `Token.GeneratedTokenAccepted`.
- Random sources: `crypto/rand` is a finite input byte stream. A stream that cannot fill the next buffer yields `Exhausted` (Go would block or abort through logrus.Fatal). `math/rand.Intn` draws are an input sequence.
- `Random.SecureRandomString`: does not model a write into a Go string of non-ASCII alphabet bytes, because the alphabets are ASCII and a character is one byte here.
- Concurrency between requests, HTTP routing and response writing, and logging.
- `Etcdv3.Backend.SyncLabels` and `Etcdv3.Backend.SetSubRecords`: they read each label's hosts with the directory prefix `path/` rather than the plain prefix of `lookupKeys`. That is the corrected behaviour of the finding below.
- `Etcdv3.Backend.SyncLabels` and `Etcdv3.Backend.SetSubRecords`: beyond the frame conditions, they state no result when a label's directory holds an empty value or a host-valued key that is not a well-formed host's key. The code runs the same diff there, but its outcome is not characterised.
- `Random.RandStringWithSmall` and `Random.RandStringWithAll`: they use the corrected buffer indexing of the finding below.
- `Route53.Backend.GetText`, `Route53.Backend.SetText` and `Route53.Backend.UpdateText`: they look up the slug's token under the slug name the comment of `findSlugWithZone` describes (`Route53.SlugWithZone`), not under the name the code as written computes. That is the corrected behaviour of the finding for `backend/route53/route53.go:876-883` below. The two agree when at most one label precedes the slug, as in `_acme-challenge.<slug>.<zone>` (`Route53.SlugWithZoneAgrees`).
- `Route53.Backend.Update`, `Route53.Backend.GetText`, `Route53.Backend.SetText` and `Route53.Backend.UpdateText`: they filter the whole hosted zone. `getRecords` (`backend/route53/route53.go:719-732`) lists one page that starts at the name and type asked for, and ignores truncation. Which sets that page holds is not modelled.
- `Etcd.Backend.Set`, `Etcd.Backend.Create` and `Etcd.Backend.Update`: the directory node etcd creates is the key of the path with the empty value. Writing it is taken to succeed even without PrevExist over a directory that already exists, so etcd's refusal there is not modelled. That case arises in `Create` only when all 100 draws are taken.
- `Etcd.Backend.Get` and `Etcd.Backend.Create`: etcd's listing of a directory enters as a sequence of nodes, as in `Etcd.LeafHosts`. `Etcd.ListsLeaves` states when such a listing matches the keyspace.

## Findings

| source | as written | input that shows it | evidently intended | confidence | as-written member | corrected member |
|---|---|---|---|---|---|---|
| util/random.go:55 | reads `randomBytes[j%length]` although a buffer of `bufferSize` bytes is refilled every `bufferSize` steps, so bytes `length..bufferSize-1` are never used and byte 0 is read twice | alphabet 0-9a-z, length 3, random bytes 5, 50, 7, 0 | `randomBytes[j%bufferSize]`, each byte used once: "570" instead of "575" | not executed | Random.RereadExample | Random.CorrectedReadsStream |
| backend/etcdv3/etcdv3.go:754 | `lookupKeys` lists keys with the plain prefix of a label's path, so label x1 also sees the hosts of label x10 and the sync of x1 puts nothing | a host key of x10 for host h, then setSubRecords with x1 requesting h | list the label's directory `path/`, so x1 gets its own key for h | not executed | Etcdv3.LookupPrefixOverlap | Etcdv3.Backend.SyncLabels |
| backend/route53/route53.go:876-883 | `findSlugWithZone` returns the second `SplitAfterN` piece, which is the slug name only with at most one label in front of the slug | yyyy.xxxx.qrn7oq.lb.rancher.cloud in zone lb.rancher.cloud gives "xxxx." | qrn7oq.lb.rancher.cloud, as the function's comment says | not executed | Route53.FindSlugWithZoneDocExample | Route53.SlugWithZone |
